/**
 * The JavaScript built-ins the product routes rely on, stated over Dafny
 * sequences: `Array.prototype.filter`, `Array.prototype.slice`,
 * `String.prototype.includes`, `String.prototype.toLowerCase` (on ASCII) and
 * the `parseInt(x) || d` default idiom.
 */
module Js {
  import opened Wrappers

  /** `Array.prototype.filter`: the elements `keep` accepts, in their original order. */
  function Filter<T>(s: seq<T>, keep: T -> bool): (r: seq<T>)
    ensures |r| <= |s|
    ensures forall x :: x in r ==> x in s && keep(x)
    ensures forall i :: 0 <= i < |s| && keep(s[i]) ==> s[i] in r
  {
    if s == [] then [] else (if keep(s[0]) then [s[0]] else []) + Filter(s[1..], keep)
  }

  /** Filtering a concatenation filters each part: together with the one-element case this is what makes the result an order-preserving subsequence. */
  lemma {:induction false} FilterAppend<T>(a: seq<T>, b: seq<T>, keep: T -> bool)
    ensures Filter(a + b, keep) == Filter(a, keep) + Filter(b, keep)
  {
    if a == [] {
      assert a + b == b;
    } else {
      assert (a + b)[0] == a[0];
      assert (a + b)[1..] == a[1..] + b;
      FilterAppend(a[1..], b, keep);
    }
  }

  /** Every accepted element is kept as often as it occurs, every rejected one is dropped. */
  lemma {:induction false} FilterMultiplicity<T>(s: seq<T>, keep: T -> bool, x: T)
    ensures multiset(Filter(s, keep))[x] == if keep(x) then multiset(s)[x] else 0
  {
    if s != [] {
      FilterMultiplicity(s[1..], keep, x);
      assert s == [s[0]] + s[1..];
    }
  }

  /** When every element is accepted, filtering changes nothing. */
  lemma {:induction false} FilterKeepsAll<T>(s: seq<T>, keep: T -> bool)
    requires forall i :: 0 <= i < |s| ==> keep(s[i])
    ensures Filter(s, keep) == s
  {
    if s != [] {
      FilterKeepsAll(s[1..], keep);
    }
  }

  /** The result is empty exactly when no element is accepted. */
  lemma {:induction false} FilterEmptyIff<T>(s: seq<T>, keep: T -> bool)
    ensures Filter(s, keep) == [] <==> forall i :: 0 <= i < |s| ==> !keep(s[i])
  {
    if s != [] {
      FilterEmptyIff(s[1..], keep);
      if !keep(s[0]) {
        assert forall i :: 1 <= i < |s| ==> s[i] == s[1..][i - 1];
      }
    }
  }

  /**
   * Where `Array.prototype.slice` puts an argument `k` on an array of length
   * `n`: a negative argument counts back from the end, and both kinds are
   * clamped to `[0, n]`.
   */
  function RelativeIndex(k: int, n: nat): (r: nat)
    ensures r <= n
  {
    if k < 0 then (if n + k < 0 then 0 else n + k)
    else if k < n then k
    else n
  }

  /** `s.slice(start, end)`; out-of-range or crossed bounds give an empty array, never an error. */
  function Slice<T>(s: seq<T>, start: int, end: int): (r: seq<T>)
    ensures |r| <= |s|
    ensures 0 <= start <= end ==>
      |r| == (if start < |s| then (if end < |s| then end else |s|) - start else 0)
    ensures 0 <= start ==> forall i :: 0 <= i < |r| ==> start + i < |s| && r[i] == s[start + i]
  {
    var from, to := RelativeIndex(start, |s|), RelativeIndex(end, |s|);
    if from < to then s[from..to] else []
  }

  /** A window of length `len` from a non-negative `start` is that stretch of `s`, cut at its end. */
  lemma SliceWindow<T>(s: seq<T>, start: int, len: int)
    requires 0 <= start && 0 <= len
    ensures Slice(s, start, start + len) ==
      s[(if start < |s| then start else |s|)..(if start + len < |s| then start + len else |s|)]
  {
  }

  /**
   * The windows of `s` of length `len` from `start` on, `[start, start+len)`,
   * `[start+len, start+2*len)`, ..., each clamped to the end of `s`,
   * concatenated up to the first empty one.
   */
  function Windows<T>(s: seq<T>, start: nat, len: int): seq<T>
    requires len >= 1
    decreases |s| - start
  {
    if start < |s| then
      s[start..if start + len < |s| then start + len else |s|] + Windows(s, start + len, len)
    else
      []
  }

  /** The walk from `start` is the JavaScript slice `[start, start + len)` followed by the walk from `start + len`. */
  lemma WindowsStep<T>(s: seq<T>, start: nat, len: int)
    requires len >= 1
    ensures Windows(s, start, len) == Slice(s, start, start + len) + Windows(s, start + len, len)
  {
    SliceWindow(s, start, len);
  }

  /** The windows from `start` on cover the rest of `s` exactly once, in order. */
  lemma {:induction false} WindowsCoverRest<T>(s: seq<T>, start: nat, len: int)
    requires len >= 1
    ensures Windows(s, start, len) == s[(if start < |s| then start else |s|)..]
    decreases |s| - start
  {
    if start < |s| {
      WindowsCoverRest(s, start + len, len);
      var b := if start + len < |s| then start + len else |s|;
      var joined := s[start..b] + s[b..];
      forall m | 0 <= m < |joined|
        ensures joined[m] == s[start + m]
      {
        if m < b - start {
          assert joined[m] == s[start..b][m];
        } else {
          assert joined[m] == s[b..][m - (b - start)];
        }
      }
      assert joined == s[start..];
    }
  }

  /** A window of negative bounds is the window counted back from the end. */
  lemma NegativeSliceCountsFromEnd<T>(s: seq<T>, start: int, end: int)
    requires start < 0 && end < 0 && 0 <= |s| + start && 0 <= |s| + end
    ensures Slice(s, start, end) == Slice(s, |s| + start, |s| + end)
  {
    assert RelativeIndex(start, |s|) == RelativeIndex(|s| + start, |s|);
    assert RelativeIndex(end, |s|) == RelativeIndex(|s| + end, |s|);
  }

  /** `needle` occurs in `hay` starting at index `i`. */
  ghost predicate OccursAt(hay: string, needle: string, i: int)
  {
    0 <= i && i + |needle| <= |hay| && hay[i..i + |needle|] == needle
  }

  /** `hay.includes(needle)`, by scanning the start positions of `hay` in order. */
  function Includes(hay: string, needle: string): (r: bool)
    ensures needle <= hay ==> r
    ensures r ==> |needle| <= |hay|
    decreases |hay|
  {
    (|needle| <= |hay| && hay[..|needle|] == needle) || (hay != [] && Includes(hay[1..], needle))
  }

  /** The scan answers true exactly when `needle` occurs somewhere in `hay`. */
  lemma {:induction false} IncludesIffOccurs(hay: string, needle: string)
    ensures Includes(hay, needle) <==> exists i :: OccursAt(hay, needle, i)
  {
    if |needle| <= |hay| && hay[..|needle|] == needle {
      assert OccursAt(hay, needle, 0);
    } else if hay == [] {
      assert forall i :: !OccursAt(hay, needle, i);
    } else {
      var tail := hay[1..];
      IncludesIffOccurs(tail, needle);
      if Includes(tail, needle) {
        var j :| OccursAt(tail, needle, j);
        forall m | 0 <= m < |needle|
          ensures hay[j + 1 + m] == needle[m]
        {
          assert tail[j + m] == needle[m];
        }
        assert hay[j + 1..j + 1 + |needle|] == needle;
        assert OccursAt(hay, needle, j + 1);
      } else {
        forall i
          ensures !OccursAt(hay, needle, i)
        {
          if 1 <= i && i + |needle| <= |hay| {
            assert hay[i..i + |needle|] == tail[i - 1..i - 1 + |needle|];
            assert !OccursAt(tail, needle, i - 1);
          }
        }
      }
    }
  }

  /** The empty string is included in every string. */
  lemma IncludesEmpty(hay: string)
    ensures Includes(hay, "")
  {
    assert hay[..0] == "";
  }

  /** `toLowerCase` on one ASCII character: 'A'..'Z' become 'a'..'z', everything else stays. */
  function LowerChar(c: char): char
  {
    if 'A' <= c <= 'Z' then (c as int + 32) as char else c
  }

  /** `s.toLowerCase()` on ASCII: the same length, each character lowered, no upper-case letter left. */
  function ToLower(s: string): (r: string)
    ensures |r| == |s|
    ensures forall i :: 0 <= i < |s| ==> r[i] == LowerChar(s[i])
    ensures forall i :: 0 <= i < |r| ==> !('A' <= r[i] <= 'Z')
  {
    if s == [] then [] else [LowerChar(s[0])] + ToLower(s[1..])
  }

  /** Lowering twice is lowering once. */
  lemma ToLowerIdempotent(s: string)
    ensures ToLower(ToLower(s)) == ToLower(s)
  {
  }

  /**
   * `parseInt(x) || d`, where `parsed` is what `parseInt` returned (None for
   * NaN): NaN and 0 are falsy and give `d`, every other integer is kept.
   */
  function OrDefault(parsed: Option<int>, d: int): (r: int)
    ensures r == d || (parsed == Some(r) && r != 0)
    ensures parsed.Some? && parsed.value != 0 ==> r == parsed.value
  {
    if parsed.None? || parsed.value == 0 then d else parsed.value
  }
}
