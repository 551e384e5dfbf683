/**
 * The correction record that the checker produces and the overlay consumes, and the two orders
 * the content script puts corrections in before using them: ascending start offset for the
 * textarea mirror (content.js:223) and descending start offset for wrapping markers in a
 * contenteditable element (content.js:293). Both go through `Array.prototype.sort`, which is
 * stable, with a comparator on `startIndex` alone.
 */
module Corrections {
  import opened Seqs

  datatype Correction = Correction(
    original: string,
    suggestion: string,
    explanation: string,
    startIndex: int,
    endIndex: int)

  /** A correction that describes a non-empty piece of `text`: its offsets are in bounds and
      `original` is exactly the text between them. */
  predicate InText(c: Correction, text: string) {
    0 <= c.startIndex < c.endIndex <= |text| && c.original == text[c.startIndex..c.endIndex]
  }

  /** `a` may stand before `b` in the requested order: comparator `a.startIndex - b.startIndex`
      (ascending) or `b.startIndex - a.startIndex` (descending) is not positive. */
  predicate InOrder(a: Correction, b: Correction, descending: bool) {
    if descending then a.startIndex >= b.startIndex else a.startIndex <= b.startIndex
  }

  predicate SortedByStart(cs: seq<Correction>, descending: bool) {
    forall i, j :: 0 <= i < j < |cs| ==> InOrder(cs[i], cs[j], descending)
  }

  /** Inserts `c` before the first element it may precede. Since `c` came before every element
      of `sorted` in the input, this keeps equal keys in input order, as a stable sort must. */
  function Insert(c: Correction, sorted: seq<Correction>, descending: bool): (r: seq<Correction>)
    requires SortedByStart(sorted, descending)
    ensures SortedByStart(r, descending)
    ensures multiset(r) == multiset(sorted) + multiset{c}
    ensures |r| == |sorted| + 1
    ensures r[0] == c || (sorted != [] && r[0] == sorted[0])
  {
    if sorted == [] || InOrder(c, sorted[0], descending) then
      [c] + sorted
    else
      var rest := Insert(c, sorted[1..], descending);
      InsertBehind(c, sorted, rest, descending);
      [sorted[0]] + rest
  }

  /** When `c` may not precede the head of `sorted`, the head stays in front of `c` inserted
      into the rest. */
  lemma InsertBehind(c: Correction, sorted: seq<Correction>, rest: seq<Correction>, descending: bool)
    requires sorted != [] && !InOrder(c, sorted[0], descending)
    requires SortedByStart(sorted, descending)
    requires SortedByStart(rest, descending)
    requires multiset(rest) == multiset(sorted[1..]) + multiset{c}
    ensures SortedByStart([sorted[0]] + rest, descending)
    ensures multiset([sorted[0]] + rest) == multiset(sorted) + multiset{c}
  {
    HeadTail(sorted);
    assert forall y :: y in rest ==> InOrder(sorted[0], y, descending) by {
      forall y | y in rest ensures InOrder(sorted[0], y, descending) {
        assert y in multiset(rest);
        if y != c {
          assert y in multiset(sorted[1..]);
          var k :| 0 <= k < |sorted[1..]| && sorted[1..][k] == y;
          assert sorted[k + 1] == y;
        }
      }
    }
    SortedCons(sorted[0], rest, descending);
  }

  /** An element that may precede every element of a sorted list may go in front of it. */
  lemma SortedCons(x: Correction, rest: seq<Correction>, descending: bool)
    requires SortedByStart(rest, descending)
    requires forall y :: y in rest ==> InOrder(x, y, descending)
    ensures SortedByStart([x] + rest, descending)
  {
    var r := [x] + rest;
    forall i, j | 0 <= i < j < |r| ensures InOrder(r[i], r[j], descending) {
      assert r[j] == rest[j - 1];
      if i > 0 {
        assert r[i] == rest[i - 1];
      }
    }
  }

  /** `[...cs].sort(comparator)` on the start offsets. */
  function SortByStart(cs: seq<Correction>, descending: bool): (r: seq<Correction>)
    ensures SortedByStart(r, descending)
    ensures multiset(r) == multiset(cs)
    ensures |r| == |cs|
  {
    if cs == [] then []
    else
      assert cs == [cs[0]] + cs[1..];
      Insert(cs[0], SortByStart(cs[1..], descending), descending)
  }

  /** Sorting a list that is already in order changes nothing: the sort is stable. */
  lemma {:induction false} SortOfSortedIsIdentity(cs: seq<Correction>, descending: bool)
    requires SortedByStart(cs, descending)
    ensures SortByStart(cs, descending) == cs
  {
    if cs != [] {
      SortedTail(cs, descending);
      SortOfSortedIsIdentity(cs[1..], descending);
      assert SortByStart(cs, descending) == Insert(cs[0], cs[1..], descending);
      assert cs[1..] == [] || InOrder(cs[0], cs[1..][0], descending);
      assert Insert(cs[0], cs[1..], descending) == [cs[0]] + cs[1..];
      HeadTail(cs);
    }
  }

  lemma SortedTail(cs: seq<Correction>, descending: bool)
    requires cs != [] && SortedByStart(cs, descending)
    ensures SortedByStart(cs[1..], descending)
  {
    forall i, j | 0 <= i < j < |cs[1..]|
      ensures InOrder(cs[1..][i], cs[1..][j], descending)
    {
      assert cs[1..][i] == cs[i + 1] && cs[1..][j] == cs[j + 1];
    }
  }

  /** Two corrections whose ranges do not overlap. */
  predicate Disjoint(c: Correction, d: Correction) {
    c.endIndex <= d.startIndex || d.endIndex <= c.startIndex
  }

  /** No two of the corrections overlap, and none is reported twice. */
  predicate Separate(m: multiset<Correction>) {
    forall c, d :: c in m && d in m ==> (c == d && m[c] == 1) || Disjoint(c, d)
  }

  /** Separate corrections: the first is clear of the others, and the others are separate. */
  lemma SeparateTail(cs: seq<Correction>)
    requires cs != [] && Separate(multiset(cs))
    ensures Separate(multiset(cs[1..]))
    ensures forall d :: d in cs[1..] ==> Disjoint(cs[0], d)
  {
    HeadTail(cs);
    assert multiset(cs) == multiset{cs[0]} + multiset(cs[1..]);
  }
}
