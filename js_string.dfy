/** The two string operations the listing handler relies on:
    `toLowerCase` (restricted here to ASCII letters) and `includes`. */
module JsString {

  /** Lower-cases one character; only 'A'..'Z' are changed. */
  function LowerChar(c: char): (r: char)
    ensures 'A' <= c <= 'Z' ==> 'a' <= r <= 'z' && r as int - c as int == 32
    ensures !('A' <= c <= 'Z') ==> r == c
  {
    if 'A' <= c <= 'Z' then (c as int + 32) as char else c
  }

  /** `s.toLowerCase()`: the same length, every character lower-cased. */
  function ToLower(s: string): (r: string)
    ensures |r| == |s|
    ensures forall i :: 0 <= i < |s| ==> r[i] == LowerChar(s[i])
  {
    if s == [] then [] else [LowerChar(s[0])] + ToLower(s[1..])
  }

  predicate IsPrefix(p: string, s: string)
  {
    |p| <= |s| && s[..|p|] == p
  }

  /** `hay.includes(needle)`: tries every start position from the left. */
  function Includes(hay: string, needle: string): (r: bool)
    ensures r ==> |needle| <= |hay|
    ensures needle == [] ==> r
  {
    IsPrefix(needle, hay) || (|hay| > 0 && Includes(hay[1..], needle))
  }

  /** The reference meaning of `includes`: needle occurs at some offset. */
  ghost predicate OccursAt(hay: string, needle: string, k: int)
  {
    0 <= k && k + |needle| <= |hay| && hay[k..k + |needle|] == needle
  }

  /** The needle occurs somewhere in the haystack. */
  ghost predicate Occurs(hay: string, needle: string)
  {
    exists k :: OccursAt(hay, needle, k)
  }

  /** The scan in Includes finds a match exactly when there is an offset
      at which the needle occurs. */
  lemma {:induction false} IncludesIffOccurs(hay: string, needle: string)
    ensures Includes(hay, needle) <==> Occurs(hay, needle)
  {
    if IsPrefix(needle, hay) {
      assert OccursAt(hay, needle, 0);
    } else if |hay| > 0 {
      var tail := hay[1..];
      IncludesIffOccurs(tail, needle);
      if Occurs(tail, needle) {
        var k :| OccursAt(tail, needle, k);
        assert tail[k..k + |needle|] == hay[k + 1..k + 1 + |needle|];
        assert OccursAt(hay, needle, k + 1);
      }
      if Occurs(hay, needle) {
        var k :| OccursAt(hay, needle, k);
        assert k != 0 by {
          assert hay[0..|needle|] == hay[..|needle|];
        }
        assert tail[k - 1..k - 1 + |needle|] == hay[k..k + |needle|];
        assert OccursAt(tail, needle, k - 1);
      }
    }
  }
}
