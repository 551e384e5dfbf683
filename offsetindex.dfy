/**
 * `getRangeAtOffsets` (content.js:317-336): turns a flat range `[startIdx, endIdx)` of an
 * element's text into two DOM boundary points by walking the element's text nodes in document
 * order with a running character count. The text nodes are given as the list of their
 * contents, and a node is named by its index in that list.
 */
module OffsetIndex {
  import opened Options
  import opened JsText
  import opened Seqs

  /** The number of characters in the leaves before leaf `i`. */
  function Before(leaves: seq<string>, i: nat): nat
    requires i <= |leaves|
  {
    |Concat(leaves[..i])|
  }

  /** The offset just after leaf `i`: the running count once the walk has passed it. */
  function After(leaves: seq<string>, i: nat): nat
    requires i < |leaves|
  {
    Before(leaves, i) + |leaves[i]|
  }

  function Total(leaves: seq<string>): nat {
    |Concat(leaves)|
  }

  lemma BeforeStep(leaves: seq<string>, i: nat)
    requires i < |leaves|
    ensures Before(leaves, i + 1) == After(leaves, i)
  {
    PrefixStep(leaves, i);
    ConcatAppend(leaves[..i], [leaves[i]]);
    ConcatSingle(leaves[i]);
  }

  lemma BeforeAll(leaves: seq<string>)
    ensures Before(leaves, |leaves|) == Total(leaves)
  {
    PrefixAll(leaves);
  }

  /** The running count never decreases along the walk. */
  lemma {:induction false} BeforeMonotone(leaves: seq<string>, i: nat, j: nat)
    requires i <= j <= |leaves|
    ensures Before(leaves, i) <= Before(leaves, j)
    decreases j - i
  {
    if i < j {
      BeforeStep(leaves, i);
      BeforeMonotone(leaves, i + 1, j);
    }
  }

  /** Leaf `j` is the first one whose end lies beyond `startIdx` (`current + len > startIdx`). */
  ghost predicate IsStartLeaf(leaves: seq<string>, startIdx: int, j: nat) {
    && j < |leaves|
    && After(leaves, j) > startIdx
    && forall m :: 0 <= m < j ==> After(leaves, m) <= startIdx
  }

  /** Leaf `k` is the first one whose end reaches `endIdx` (`current + len >= endIdx`). */
  ghost predicate IsEndLeaf(leaves: seq<string>, endIdx: int, k: nat) {
    && k < |leaves|
    && After(leaves, k) >= endIdx
    && forall m :: 0 <= m < k ==> After(leaves, m) < endIdx
  }

  /** The walk finds an end leaf exactly when there is a leaf and `endIdx` is within the text. */
  predicate EndReachable(leaves: seq<string>, endIdx: int) {
    |leaves| > 0 && endIdx <= Total(leaves)
  }

  /** What the function returns: `null` nodes are `None`. */
  datatype Boundaries = Boundaries(startNode: Option<nat>, startOffset: int, endNode: Option<nat>, endOffset: int)

  /** The text a DOM range from `(sn, so)` to `(en, eo)` covers. */
  function RangeText(leaves: seq<string>, sn: nat, so: nat, en: nat, eo: nat): string
    requires sn <= en < |leaves|
    requires so <= |leaves[sn]| && eo <= |leaves[en]|
    requires sn == en ==> so <= eo
  {
    if sn == en then leaves[sn][so..eo]
    else leaves[sn][so..] + Concat(leaves[sn + 1..en]) + leaves[en][..eo]
  }

  /** The text splits around any leaf into what comes before it, the leaf, and what follows. */
  lemma ConcatAround(leaves: seq<string>, k: nat)
    requires k < |leaves|
    ensures Concat(leaves) == Concat(leaves[..k]) + leaves[k] + Concat(leaves[k + 1..])
  {
    SplitAt(leaves, k);
    ConcatThree(leaves[..k], leaves[k], leaves[k + 1..]);
  }

  lemma SliceWithin(pre: string, s: string, post: string, so: nat, eo: nat)
    requires so <= eo <= |s|
    ensures (pre + s + post)[|pre| + so..|pre| + eo] == s[so..eo]
  {
    var t := pre + s + post;
    assert t[|pre|..|pre| + |s|] == s;
    assert t[|pre| + so..|pre| + eo] == t[|pre|..|pre| + |s|][so..eo];
  }

  lemma SliceAcross(pre: string, s: string, mid: string, e: string, post: string, so: nat, eo: nat)
    requires so <= |s| && eo <= |e|
    ensures (pre + s + mid + e + post)[|pre| + so..|pre| + |s| + |mid| + eo] == s[so..] + mid + e[..eo]
  {
    var t := pre + s + mid + e + post;
    var u := s[so..] + mid + e[..eo];
    var x := |pre| + so;
    assert |t[x..x + |u|]| == |u|;
    forall i | 0 <= i < |u| ensures t[x + i] == u[i] {
      if i < |s| - so {
      } else if i < |s| - so + |mid| {
      } else {
      }
    }
  }

  /** The text of the leaves is the text before leaf `sn`, leaf `sn`, the leaves strictly
      between `sn` and `en`, leaf `en`, and the rest. */
  lemma ConcatAroundTwo(leaves: seq<string>, sn: nat, en: nat)
    requires sn < en < |leaves|
    ensures Concat(leaves) == Concat(leaves[..sn]) + leaves[sn] + Concat(leaves[sn + 1..en])
                              + leaves[en] + Concat(leaves[en + 1..])
  {
    ConcatAround(leaves, sn);
    var tail := leaves[sn + 1..];
    TailAround(leaves, sn, en);
    ConcatAround(tail, en - sn - 1);
    AppendFive(Concat(leaves[..sn]), leaves[sn], Concat(leaves[sn + 1..en]), leaves[en],
               Concat(leaves[en + 1..]));
  }

  /** The leaves before leaf `en` hold those before leaf `sn`, leaf `sn`, and those between. */
  lemma BeforeAcross(leaves: seq<string>, sn: nat, en: nat)
    requires sn < en < |leaves|
    ensures Before(leaves, en) == Before(leaves, sn) + |leaves[sn]| + |Concat(leaves[sn + 1..en])|
  {
    PrefixSplit(leaves, sn, en);
    ConcatThree(leaves[..sn], leaves[sn], leaves[sn + 1..en]);
  }

  /** A range between two boundary points covers exactly the flat text between their global
      offsets. */
  lemma RangeTextIsSlice(leaves: seq<string>, sn: nat, so: nat, en: nat, eo: nat)
    requires sn <= en < |leaves|
    requires so <= |leaves[sn]| && eo <= |leaves[en]|
    requires sn == en ==> so <= eo
    ensures Before(leaves, sn) + so <= Before(leaves, en) + eo <= Total(leaves)
    ensures RangeText(leaves, sn, so, en, eo)
         == Concat(leaves)[Before(leaves, sn) + so..Before(leaves, en) + eo]
  {
    if sn == en {
      SliceOfOneLeaf(leaves, sn, so, eo);
    } else {
      SliceOfLeaves(leaves, sn, so, en, eo);
    }
  }

  lemma SliceOfOneLeaf(leaves: seq<string>, k: nat, so: nat, eo: nat)
    requires k < |leaves| && so <= eo <= |leaves[k]|
    ensures Before(leaves, k) + eo <= Total(leaves)
    ensures leaves[k][so..eo] == Concat(leaves)[Before(leaves, k) + so..Before(leaves, k) + eo]
  {
    ConcatAround(leaves, k);
    SliceWithin(Concat(leaves[..k]), leaves[k], Concat(leaves[k + 1..]), so, eo);
  }

  lemma SliceOfLeaves(leaves: seq<string>, sn: nat, so: nat, en: nat, eo: nat)
    requires sn < en < |leaves|
    requires so <= |leaves[sn]| && eo <= |leaves[en]|
    ensures Before(leaves, sn) + so <= Before(leaves, en) + eo <= Total(leaves)
    ensures leaves[sn][so..] + Concat(leaves[sn + 1..en]) + leaves[en][..eo]
         == Concat(leaves)[Before(leaves, sn) + so..Before(leaves, en) + eo]
  {
    ConcatAroundTwo(leaves, sn, en);
    BeforeAcross(leaves, sn, en);
    SliceAcross(Concat(leaves[..sn]), leaves[sn], Concat(leaves[sn + 1..en]), leaves[en],
                Concat(leaves[en + 1..]), so, eo);
  }

  /** What `getRangeAtOffsets` returns, walk by walk: the start point is in the first leaf whose
      end lies beyond `startIdx` (none if the walk stops or runs out first), and the end point
      in the first leaf whose end reaches `endIdx`, where the walk stops; without an end leaf
      the end collapses onto the start. */
  ghost predicate IsWalkResult(leaves: seq<string>, startIdx: int, endIdx: int, r: Boundaries) {
    && (r.startNode.Some? ==>
         && IsStartLeaf(leaves, startIdx, r.startNode.value)
         && r.startOffset == startIdx - Before(leaves, r.startNode.value))
    && (r.startNode.None? ==> r.startOffset == 0)
    && (r.startNode.None? ==>
         forall j :: 0 <= j < |leaves| && (r.endNode.Some? ==> j <= r.endNode.value) ==>
           After(leaves, j) <= startIdx)
    && (EndReachable(leaves, endIdx) ==>
         && r.endNode.Some?
         && IsEndLeaf(leaves, endIdx, r.endNode.value)
         && r.endOffset == endIdx - Before(leaves, r.endNode.value)
         && (r.startNode.Some? ==> r.startNode.value <= r.endNode.value))
    && (!EndReachable(leaves, endIdx) ==> r.endNode == r.startNode && r.endOffset == r.startOffset)
  }

  /** A range inside the text resolves to two points in order that cover exactly that range. */
  lemma WalkResultInside(leaves: seq<string>, startIdx: int, endIdx: int, r: Boundaries)
    requires IsWalkResult(leaves, startIdx, endIdx, r)
    requires 0 <= startIdx < endIdx <= Total(leaves)
    ensures r.startNode.Some? && r.endNode.Some?
    ensures r.startNode.value <= r.endNode.value < |leaves|
    ensures 0 <= r.startOffset < |leaves[r.startNode.value]|
    ensures 0 <= r.endOffset <= |leaves[r.endNode.value]|
    ensures Before(leaves, r.startNode.value) + r.startOffset == startIdx
    ensures Before(leaves, r.endNode.value) + r.endOffset == endIdx
    ensures RangeText(leaves, r.startNode.value, r.startOffset, r.endNode.value, r.endOffset)
         == Concat(leaves)[startIdx..endIdx]
  {
    assert |leaves| > 0;
    assert EndReachable(leaves, endIdx);
    var k := r.endNode.value;
    assert r.startNode.Some?;
    var j := r.startNode.value;
    LeafOffsets(leaves, startIdx, endIdx, j, k);
    RangeTextIsSlice(leaves, j, r.startOffset, k, r.endOffset);
  }

  /** A start at or past the end of the text has no node, and the caller skips the
      correction. */
  lemma WalkResultPastEnd(leaves: seq<string>, startIdx: int, endIdx: int, r: Boundaries)
    requires IsWalkResult(leaves, startIdx, endIdx, r)
    requires startIdx >= Total(leaves)
    ensures r.startNode.None?
  {
    if r.startNode.Some? {
      LeafEndWithinTotal(leaves, r.startNode.value);
    }
  }

  /** With only the end past the text, the end collapses onto the start point. */
  lemma WalkResultEndPastText(leaves: seq<string>, startIdx: int, endIdx: int, r: Boundaries)
    requires IsWalkResult(leaves, startIdx, endIdx, r)
    requires 0 <= startIdx < Total(leaves) < endIdx
    ensures r.startNode.Some? && r.endNode == r.startNode && r.endOffset == r.startOffset
  {
    assert |leaves| > 0;
    var last := |leaves| - 1;
    BeforeStep(leaves, last);
    BeforeAll(leaves);
    assert After(leaves, last) > startIdx;
  }

  /** The state the walk stops in, after leaf `i` when it found the end leaf there, or after all
      the leaves. */
  ghost predicate WalkStopped(leaves: seq<string>, startIdx: int, endIdx: int, i: nat,
                              startNode: Option<nat>, startOffset: int, endNode: Option<nat>, endOffset: int) {
    && i <= |leaves|
    && (forall m :: 0 <= m < i ==> After(leaves, m) < endIdx)
    && (endNode.None? ==> i == |leaves|)
    && (endNode.Some? ==>
         endNode.value == i < |leaves| && After(leaves, i) >= endIdx && endOffset == endIdx - Before(leaves, i))
    && (startNode.None? ==>
         && startOffset == 0
         && forall m :: 0 <= m < i || (endNode.Some? && m == i) ==> After(leaves, m) <= startIdx)
    && (startNode.Some? ==>
         && startNode.value <= i
         && IsStartLeaf(leaves, startIdx, startNode.value)
         && startOffset == startIdx - Before(leaves, startNode.value))
  }

  /** Where the walk stops, `endNode || startNode` and the matching offset are the result. */
  lemma WalkStoppedResult(leaves: seq<string>, startIdx: int, endIdx: int, i: nat,
                          startNode: Option<nat>, startOffset: int, endNode: Option<nat>, endOffset: int)
    requires WalkStopped(leaves, startIdx, endIdx, i, startNode, startOffset, endNode, endOffset)
    ensures IsWalkResult(leaves, startIdx, endIdx,
                         Boundaries(startNode, startOffset,
                                    if endNode.Some? then endNode else startNode,
                                    if endNode.Some? then endOffset else startOffset))
  {
    BeforeAll(leaves);
    if endNode.Some? {
      BeforeStep(leaves, i);
      BeforeMonotone(leaves, i + 1, |leaves|);
    } else {
      assert !EndReachable(leaves, endIdx) by {
        if |leaves| > 0 {
          BeforeStep(leaves, |leaves| - 1);
          assert After(leaves, |leaves| - 1) < endIdx;
        }
      }
    }
  }

  /** `getRangeAtOffsets(root, startIdx, endIdx)` over the text nodes `leaves` of `root`. */
  method GetRangeAtOffsets(leaves: seq<string>, startIdx: int, endIdx: int) returns (r: Boundaries)
    ensures IsWalkResult(leaves, startIdx, endIdx, r)
    ensures r == Walk(leaves, startIdx, endIdx)
  {
    var current := 0;
    var startNode: Option<nat> := None;
    var startOffset := 0;
    var endNode: Option<nat> := None;
    var endOffset := 0;
    var i := 0;
    while i < |leaves|
      invariant 0 <= i <= |leaves|
      invariant current == Before(leaves, i)
      invariant endNode.None?
      invariant forall m :: 0 <= m < i ==> After(leaves, m) < endIdx
      invariant startNode.None? ==> startOffset == 0 && forall m :: 0 <= m < i ==> After(leaves, m) <= startIdx
      invariant startNode.Some? ==>
        && startNode.value < i
        && IsStartLeaf(leaves, startIdx, startNode.value)
        && startOffset == startIdx - Before(leaves, startNode.value)
    {
      var len := |leaves[i]|;
      if startNode.None? && current + len > startIdx {
        startNode := Some(i);
        startOffset := startIdx - current;
      }
      if endNode.None? && current + len >= endIdx {
        endNode := Some(i);
        endOffset := endIdx - current;
        break;
      }
      BeforeStep(leaves, i);
      current := current + len;
      i := i + 1;
    }
    WalkStoppedResult(leaves, startIdx, endIdx, i, startNode, startOffset, endNode, endOffset);
    r := Boundaries(startNode, startOffset,
                    if endNode.Some? then endNode else startNode,
                    if endNode.Some? then endOffset else startOffset);
    WalkIsWalkResult(leaves, startIdx, endIdx);
    WalkResultUnique(leaves, startIdx, endIdx, r, Walk(leaves, startIdx, endIdx));
  }

  /** The first leaf from `i` on whose end lies beyond `x`, or the number of leaves. */
  function FirstEndingAfter(leaves: seq<string>, x: int, i: nat): (j: nat)
    requires i <= |leaves|
    ensures i <= j <= |leaves|
    ensures j < |leaves| ==> After(leaves, j) > x
    ensures forall m :: i <= m < j ==> After(leaves, m) <= x
    decreases |leaves| - i
  {
    if i == |leaves| || After(leaves, i) > x then i else FirstEndingAfter(leaves, x, i + 1)
  }

  /** The first leaf from `i` on whose end reaches `x`, or the number of leaves. */
  function FirstReaching(leaves: seq<string>, x: int, i: nat): (k: nat)
    requires i <= |leaves|
    ensures i <= k <= |leaves|
    ensures k < |leaves| ==> After(leaves, k) >= x
    ensures forall m :: i <= m < k ==> After(leaves, m) < x
    decreases |leaves| - i
  {
    if i == |leaves| || After(leaves, i) >= x then i else FirstReaching(leaves, x, i + 1)
  }

  /** The walk's result in closed form: the start leaf counts only when the walk reaches it
      before it stops at the end leaf. */
  function Walk(leaves: seq<string>, startIdx: int, endIdx: int): Boundaries {
    var j := FirstEndingAfter(leaves, startIdx, 0);
    var k := FirstReaching(leaves, endIdx, 0);
    var found := j < |leaves| && j <= k;
    var start := if found then Some(j) else None;
    var so := if found then startIdx - Before(leaves, j) else 0;
    if k < |leaves| then Boundaries(start, so, Some(k), endIdx - Before(leaves, k))
    else Boundaries(start, so, start, so)
  }

  /** The closed form is a walk result. */
  lemma WalkIsWalkResult(leaves: seq<string>, startIdx: int, endIdx: int)
    ensures IsWalkResult(leaves, startIdx, endIdx, Walk(leaves, startIdx, endIdx))
  {
    var k := FirstReaching(leaves, endIdx, 0);
    if |leaves| > 0 {
      LeafEndWithinTotal(leaves, |leaves| - 1);
      BeforeStep(leaves, |leaves| - 1);
      BeforeAll(leaves);
    }
    if k < |leaves| {
      LeafEndWithinTotal(leaves, k);
    }
    assert EndReachable(leaves, endIdx) <==> k < |leaves|;
  }

  /** A start leaf and an end leaf are each unique. */
  lemma LeavesUnique(leaves: seq<string>, x: int, j1: nat, j2: nat, k1: nat, k2: nat)
    ensures IsStartLeaf(leaves, x, j1) && IsStartLeaf(leaves, x, j2) ==> j1 == j2
    ensures IsEndLeaf(leaves, x, k1) && IsEndLeaf(leaves, x, k2) ==> k1 == k2
  {
  }

  /** There is only one walk result: the predicate determines the function's return value. */
  lemma WalkResultUnique(leaves: seq<string>, startIdx: int, endIdx: int, r1: Boundaries, r2: Boundaries)
    requires IsWalkResult(leaves, startIdx, endIdx, r1) && IsWalkResult(leaves, startIdx, endIdx, r2)
    ensures r1 == r2
  {
    WalkResultIsWalk(leaves, startIdx, endIdx, r1);
    WalkResultIsWalk(leaves, startIdx, endIdx, r2);
  }

  lemma WalkResultIsWalk(leaves: seq<string>, startIdx: int, endIdx: int, r: Boundaries)
    requires IsWalkResult(leaves, startIdx, endIdx, r)
    ensures r == Walk(leaves, startIdx, endIdx)
  {
    var j := FirstEndingAfter(leaves, startIdx, 0);
    var k := FirstReaching(leaves, endIdx, 0);
    WalkIsWalkResult(leaves, startIdx, endIdx);
    var w := Walk(leaves, startIdx, endIdx);
    var rs := if r.startNode.Some? then r.startNode.value else 0;
    var re := if r.endNode.Some? then r.endNode.value else 0;
    LeavesUnique(leaves, startIdx, j, rs, 0, 0);
    LeavesUnique(leaves, endIdx, 0, 0, k, re);
  }

  /** Inside a run of leaves with others in front, the count grows by the text in front. */
  lemma BeforeShift(pre: seq<string>, mid: seq<string>, post: seq<string>, t: nat)
    requires t <= |mid|
    ensures Before(pre + mid + post, |pre| + t) == Total(pre) + Before(mid, t)
  {
    assert (pre + mid + post)[..|pre| + t] == pre + mid[..t];
    ConcatAppend(pre, mid[..t]);
  }

  lemma AfterShift(pre: seq<string>, mid: seq<string>, post: seq<string>, t: nat)
    requires t < |mid|
    ensures After(pre + mid + post, |pre| + t) == Total(pre) + After(mid, t)
  {
    BeforeShift(pre, mid, post, t);
    assert (pre + mid + post)[|pre| + t] == mid[t];
  }

  lemma LeafEndWithinTotal(leaves: seq<string>, j: nat)
    requires j < |leaves|
    ensures After(leaves, j) <= Total(leaves)
  {
    BeforeStep(leaves, j);
    BeforeMonotone(leaves, j + 1, |leaves|);
    BeforeAll(leaves);
  }

  /** The start and end leaves of a range inside the text are in order, and the offsets into
      them lie within the leaves: the start strictly inside (`startOffset < len`), the end
      possibly at the leaf's end (the end-inclusive rule). */
  lemma LeafOffsets(leaves: seq<string>, startIdx: int, endIdx: int, j: nat, k: nat)
    requires 0 <= startIdx < endIdx
    requires IsStartLeaf(leaves, startIdx, j) && IsEndLeaf(leaves, endIdx, k)
    ensures j <= k
    ensures 0 <= startIdx - Before(leaves, j) < |leaves[j]|
    ensures 0 <= endIdx - Before(leaves, k) <= |leaves[k]|
  {
    if j > 0 {
      BeforeStep(leaves, j - 1);
    }
    if k > 0 {
      BeforeStep(leaves, k - 1);
    }
  }
}
