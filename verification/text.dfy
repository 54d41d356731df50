/** The JavaScript string operations the application relies on. A Dafny
    `char` is one Unicode scalar value; it equals one UTF-16 code unit of a
    JavaScript string only inside the Basic Multilingual Plane. */
module Text {

  /** `toLowerCase` on one character, restricted to the ASCII letters. */
  function LowerChar(c: char): char {
    if 'A' <= c <= 'Z' then (c as int + 32) as char else c
  }

  /** `String.prototype.toLowerCase` (ASCII case mapping). */
  function ToLowerCase(s: string): (r: string)
    ensures |r| == |s|
    ensures forall i :: 0 <= i < |s| ==> r[i] == LowerChar(s[i])
  {
    seq(|s|, i requires 0 <= i < |s| => LowerChar(s[i]))
  }

  /** `needle` occurs in `hay` starting at offset `i`. */
  predicate OccursAt(hay: string, needle: string, i: int) {
    0 <= i && i + |needle| <= |hay| && hay[i..i + |needle|] == needle
  }

  /** `String.prototype.includes`: try every start offset from the left. */
  predicate Includes(hay: string, needle: string)
    decreases |hay|
  {
    IsPrefixOf(needle, hay) || (|hay| > 0 && Includes(hay[1..], needle))
  }

  /** The scan agrees with the textbook definition of a substring. */
  lemma {:induction false} IncludesIffOccurs(hay: string, needle: string)
    ensures Includes(hay, needle) <==> exists i :: OccursAt(hay, needle, i)
  {
    if IsPrefixOf(needle, hay) {
      assert OccursAt(hay, needle, 0);
    } else if |hay| > 0 {
      IncludesIffOccurs(hay[1..], needle);
      if Includes(hay[1..], needle) {
        var i :| OccursAt(hay[1..], needle, i);
        assert hay[1..][i..i + |needle|] == hay[i + 1..i + 1 + |needle|];
        assert OccursAt(hay, needle, i + 1);
      } else {
        forall i
          ensures !OccursAt(hay, needle, i)
        {
          if 1 <= i && i + |needle| <= |hay| {
            assert hay[1..][i - 1..i - 1 + |needle|] == hay[i..i + |needle|];
            assert !OccursAt(hay[1..], needle, i - 1);
          }
        }
      }
    }
  }

  /** Every string includes the empty string. */
  lemma IncludesEmpty(hay: string)
    ensures Includes(hay, "")
  {
  }

  /** `s.slice(0, n)` for a non-negative `n`: the end is clamped to the length. */
  function SliceTo(s: string, n: nat): (r: string)
    ensures |r| == if n <= |s| then n else |s|
    ensures IsPrefixOf(r, s)
  {
    if n <= |s| then s[..n] else s
  }

  /** `s.slice(n)` for a non-negative `n`: the start is clamped to the length. */
  function SliceFrom(s: string, n: nat): (r: string)
    ensures |r| == if n <= |s| then |s| - n else 0
    ensures IsSuffixOf(r, s)
  {
    if n <= |s| then s[n..] else ""
  }

  predicate IsPrefixOf(a: string, b: string) {
    |a| <= |b| && b[..|a|] == a
  }

  predicate IsSuffixOf(a: string, b: string) {
    |a| <= |b| && b[|b| - |a|..] == a
  }
}
