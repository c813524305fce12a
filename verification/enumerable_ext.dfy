/** Index searches over a sequence with a predicate (OJWebService/Utils/EnumerableExt.cs). */
module EnumerableExt {

  function Max(a: int, b: int): int { if a < b then b else a }

  /** The second loop of FirstIndex: the first match at or after `idx`. */
  function FirstFrom<T>(s: seq<T>, pred: T -> bool, idx: nat): (r: int)
    requires idx <= |s|
    ensures r == -1 || (idx <= r < |s| && pred(s[r]))
    ensures r != -1 ==> forall i :: idx <= i < r ==> !pred(s[i])
    ensures r == -1 <==> forall i :: idx <= i < |s| ==> !pred(s[i])
    decreases |s| - idx
  {
    if idx == |s| then -1
    else if pred(s[idx]) then idx
    else FirstFrom(s, pred, idx + 1)
  }

  /** FirstIndex: the first position at or after `startIndex` whose element
      satisfies `pred`, or -1. The first loop merely skips `startIndex`
      elements and gives up when the sequence is shorter than that. */
  function FirstIndex<T>(s: seq<T>, pred: T -> bool, startIndex: int): (r: int)
    ensures r == -1 || (Max(startIndex, 0) <= r < |s| && pred(s[r]))
  {
    if startIndex > |s| then -1 else FirstFrom(s, pred, Max(startIndex, 0))
  }

  /** FirstIndex finds the first match: nothing before it matches, and it
      answers -1 exactly when nothing from `startIndex` on matches. */
  lemma FirstIndexMeaning<T>(s: seq<T>, pred: T -> bool, startIndex: int)
    ensures var r := FirstIndex(s, pred, startIndex);
      && (r != -1 ==> forall i :: Max(startIndex, 0) <= i < r ==> !pred(s[i]))
      && (r == -1 <==> forall i :: Max(startIndex, 0) <= i < |s| ==> !pred(s[i]))
  {
  }

  /** A match with no match before it is the one FirstIndex finds. */
  lemma FirstIndexIs<T>(s: seq<T>, pred: T -> bool, r: nat)
    requires r < |s| && pred(s[r]) && forall i :: 0 <= i < r ==> !pred(s[i])
    ensures FirstIndex(s, pred, 0) == r
  {
    FirstIndexMeaning(s, pred, 0);
  }

  /** The foreach loop of LastIndex, at position `idx` with the last match so far `lastIdx`. */
  function LastFrom<T>(s: seq<T>, pred: T -> bool, startIndex: int, idx: nat, lastIdx: int): (r: int)
    requires idx <= |s|
    requires lastIdx == -1 || (0 <= lastIdx < idx && lastIdx <= startIndex && pred(s[lastIdx]))
    requires forall j :: lastIdx < j < idx && j >= 0 ==> !pred(s[j])
    ensures r == -1 || (0 <= r < |s| && r <= startIndex && pred(s[r]))
    ensures forall j :: r < j < |s| && j <= startIndex && j >= 0 ==> !pred(s[j])
    decreases |s| - idx
  {
    if idx == |s| then lastIdx
    else if pred(s[idx]) then
      if idx > startIndex then lastIdx else LastFrom(s, pred, startIndex, idx + 1, idx)
    else LastFrom(s, pred, startIndex, idx + 1, lastIdx)
  }

  /** LastIndex: the last position not after `startIndex` whose element
      satisfies `pred`, or -1. */
  function LastIndex<T>(s: seq<T>, pred: T -> bool, startIndex: int): (r: int)
    ensures r == -1 || (0 <= r < |s| && r <= startIndex && pred(s[r]))
  {
    LastFrom(s, pred, startIndex, 0, -1)
  }

  /** LastIndex finds the last match: nothing after it, up to `startIndex`, matches. */
  lemma LastIndexMeaning<T>(s: seq<T>, pred: T -> bool, startIndex: int)
    ensures var r := LastIndex(s, pred, startIndex);
      forall j :: r < j < |s| && j <= startIndex && j >= 0 ==> !pred(s[j])
  {
  }
}
