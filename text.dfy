/** String operations the glossary filter relies on: lower-casing
    (`String.prototype.toLowerCase`) and substring search
    (`String.prototype.includes`). Strings are `seq<char>`, sequences of
    Unicode scalar values (one `char` per code point). */
module Text {

  /** Lower-cases one code point: the ASCII capitals 'A'..'Z' and the
      Latin-1 capitals U+00C0..U+00DE (except the multiplication sign
      U+00D7) move down by 0x20; every other code point is left as it is. */
  function LowerChar(c: char): char {
    if 'A' <= c <= 'Z' || ('À' <= c <= 'Þ' && c != '×') then
      (c as int + 0x20) as char
    else
      c
  }

  /** `s.toLowerCase()`, one code point at a time. No capital of the
      modelled ranges is left in the result. */
  function Lower(s: string): (r: string)
    ensures forall i :: 0 <= i < |r| ==> LowerChar(r[i]) == r[i]
  {
    seq(|s|, i requires 0 <= i < |s| => LowerChar(s[i]))
  }

  /** A lower-cased string has no capitals left: lowering it again
      changes nothing. */
  lemma LowerIdempotent(s: string)
    ensures Lower(Lower(s)) == Lower(s)
  {
  }

  predicate StartsWith(s: string, prefix: string) {
    |prefix| <= |s| && s[..|prefix|] == prefix
  }

  /** `s.includes(sub)`: `sub` starts at some position of `s`. The empty
      text is included in every string, and a text longer than `s` is not
      included in it; `IncludesIffOccurs` characterises it fully. */
  predicate Includes(s: string, sub: string): (b: bool)
    ensures |sub| == 0 ==> b
    ensures b ==> |sub| <= |s|
    decreases |s|
  {
    StartsWith(s, sub) || (|s| > 0 && Includes(s[1..], sub))
  }

  /** `sub` occurs in `s` starting at index `i`. */
  ghost predicate OccursAt(s: string, sub: string, i: int) {
    0 <= i && i + |sub| <= |s| && s[i..i + |sub|] == sub
  }

  /** `Includes` is substring containment: it holds exactly when `sub`
      occurs at some index of `s`. */
  lemma {:induction false} IncludesIffOccurs(s: string, sub: string)
    ensures Includes(s, sub) <==> exists i :: OccursAt(s, sub, i)
    decreases |s|
  {
    if StartsWith(s, sub) {
      assert OccursAt(s, sub, 0);
    } else if |s| > 0 {
      IncludesIffOccurs(s[1..], sub);
      if Includes(s[1..], sub) {
        var j :| OccursAt(s[1..], sub, j);
        assert s[1..][j..j + |sub|] == s[j + 1..j + 1 + |sub|];
        assert OccursAt(s, sub, j + 1);
      } else {
        forall i | 0 < i && OccursAt(s, sub, i) ensures OccursAt(s[1..], sub, i - 1) {
          assert s[1..][i - 1..i - 1 + |sub|] == s[i..i + |sub|];
        }
      }
    }
  }

  /** A non-empty text whose first character does not occur in `s` is not
      included in `s`. */
  lemma FirstCharAbsent(s: string, sub: string)
    requires |sub| > 0 && sub[0] !in s
    ensures !Includes(s, sub)
  {
    IncludesIffOccurs(s, sub);
  }
}
