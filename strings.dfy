/** The Python string operations the checks rely on, for the "::" separator that
    joins a repository name to a package name: `str.find`, `str.split`, `str.join`
    and slicing with clamped, possibly negative bounds. */
module Strings {

  const Sep: string := "::"

  /** The separator starts at position `i` of `s`. */
  predicate SepAt(s: string, i: int) {
    0 <= i && i + 1 < |s| && s[i] == ':' && s[i + 1] == ':'
  }

  predicate ContainsSep(s: string) {
    exists i :: 0 <= i < |s| && SepAt(s, i)
  }

  /** `s.find("::")`: the first position of the separator, or -1. */
  function Find(s: string): (r: int)
    ensures -1 <= r < |s|
    ensures r < 0 <==> !ContainsSep(s)
    ensures 0 <= r ==> SepAt(s, r) && forall i :: 0 <= i < r ==> !SepAt(s, i)
  {
    if |s| < 2 then -1
    else if s[0] == ':' && s[1] == ':' then assert SepAt(s, 0); 0
    else
      var r := Find(s[1..]);
      assert forall i :: SepAt(s, i + 1) <==> SepAt(s[1..], i);
      assert forall i :: SepAt(s, i) ==> i == 0 || SepAt(s[1..], i - 1);
      if r < 0 then -1 else r + 1
  }

  /** A position in a sequence of length `n` as Python resolves a slice bound:
      negative values count from the end, and the result is clamped to 0..n. */
  function SliceBound(i: int, n: nat): (k: nat)
    ensures k <= n
  {
    if i < 0 then (if i + n < 0 then 0 else i + n)
    else if i > n then n
    else i
  }

  /** `s[start:]` */
  function SliceFrom(s: string, start: int): string {
    s[SliceBound(start, |s|)..]
  }

  /** `s[:stop]` */
  function SliceTo(s: string, stop: int): string {
    s[..SliceBound(stop, |s|)]
  }

  /** `s.split("::")`: the pieces between non-overlapping separators, scanning left to right. */
  function SplitOn(s: string): (parts: seq<string>)
    ensures |parts| >= 1
    decreases |s|
  {
    var i := Find(s);
    if i < 0 then [s] else [s[..i]] + SplitOn(s[i + 2..])
  }

  /** `"::".join(parts)` */
  function JoinOn(parts: seq<string>): string {
    if parts == [] then ""
    else if |parts| == 1 then parts[0]
    else parts[0] + Sep + JoinOn(parts[1..])
  }

  lemma JoinOnCons(x: string, parts: seq<string>)
    requires |parts| >= 1
    ensures JoinOn([x] + parts) == x + Sep + JoinOn(parts)
  {
    assert ([x] + parts)[1..] == parts;
  }

  lemma AroundSep(s: string, i: int)
    requires SepAt(s, i)
    ensures s == s[..i] + Sep + s[i + 2..]
  {
    assert s[i..i + 2] == Sep;
    assert s == s[..i] + s[i..i + 2] + s[i + 2..];
  }

  /** Joining the pieces of a split gives back the string. */
  lemma {:induction false} SplitOnJoin(s: string)
    ensures JoinOn(SplitOn(s)) == s
    decreases |s|
  {
    var i := Find(s);
    if i >= 0 {
      var rest := s[i + 2..];
      SplitOnJoin(rest);
      JoinOnCons(s[..i], SplitOn(rest));
      AroundSep(s, i);
    }
  }

  /** Each cut is at the leftmost separator: no piece but the last, followed by the
      first ':' of the separator after it, contains "::". */
  lemma {:induction false} SplitOnLeftmost(s: string)
    ensures forall k :: 0 <= k < |SplitOn(s)| - 1 ==> !ContainsSep(SplitOn(s)[k] + ":")
    decreases |s|
  {
    var i := Find(s);
    if i >= 0 {
      var rest := s[i + 2..];
      SplitOnLeftmost(rest);
      var head := s[..i + 1];
      assert s[..i] + ":" == head;
      assert forall j :: SepAt(head, j) ==> j < i && SepAt(s, j);
      assert !ContainsSep(head);
      assert SplitOn(s) == [s[..i]] + SplitOn(rest);
    }
  }

  /** No piece of a split contains the separator. */
  lemma {:induction false} SplitOnPieces(s: string)
    ensures forall k :: 0 <= k < |SplitOn(s)| ==> !ContainsSep(SplitOn(s)[k])
    decreases |s|
  {
    var i := Find(s);
    if i >= 0 {
      SplitOnPieces(s[i + 2..]);
      forall j | SepAt(s[..i], j)
        ensures false
      {
        assert SepAt(s, j);
      }
    }
  }
}
