/**
 * The highlight markers of a contenteditable element (content.js:31-38, 282-313).
 *
 * The element's content is a list of nodes, each a text node or a marker span
 * (`span.linguist-ai-error`) holding nodes of its own. Other elements are not modelled. The
 * element's `textContent` is the concatenation of its text nodes in document order. Markers are
 * removed by moving their children out in front of them; they are added by `Range.surroundContents`,
 * written out here from the DOM standard's steps for the cases that arise.
 */
module Markers {
  import opened Options
  import opened JsText
  import opened Corrections
  import opened OffsetIndex
  import opened Grammar
  import opened Seqs

  datatype Segment = Text(s: string) | Marker(children: seq<Segment>)

  /** The contents of the text nodes, in document order. */
  function Leaves(nodes: seq<Segment>): seq<string> {
    if nodes == [] then [] else LeavesOf(nodes[0]) + Leaves(nodes[1..])
  }

  function LeavesOf(n: Segment): seq<string> {
    match n
    case Text(s) => [s]
    case Marker(ch) => Leaves(ch)
  }

  /** `textContent`: the text nodes' contents, concatenated. */
  function TextContent(nodes: seq<Segment>): string {
    Concat(Leaves(nodes))
  }

  /** A marker as the page shows it: the offset in the element's text where its text starts,
      and that text. */
  datatype Highlight = Highlight(start: int, text: string)

  /** The number of characters a node contributes to `textContent`. */
  function Width(n: Segment): nat {
    |Concat(LeavesOf(n))|
  }

  /** The markers of `nodes`, outer markers before the markers they hold, placed as if the
      nodes' text began at offset `base`. */
  function Marked(nodes: seq<Segment>, base: nat): seq<Highlight> {
    if nodes == [] then [] else MarkedOf(nodes[0], base) + Marked(nodes[1..], base + Width(nodes[0]))
  }

  function MarkedOf(n: Segment, base: nat): seq<Highlight> {
    match n
    case Text(_) => []
    case Marker(ch) => [Highlight(base, TextContent(ch))] + Marked(ch, base)
  }

  /** The markers of an element, placed in its text. */
  function Highlights(nodes: seq<Segment>): seq<Highlight> {
    Marked(nodes, 0)
  }

  /** The number of markers, nested ones included. */
  function MarkerCount(nodes: seq<Segment>): nat {
    if nodes == [] then 0 else MarkerCountOf(nodes[0]) + MarkerCount(nodes[1..])
  }

  function MarkerCountOf(n: Segment): nat {
    match n
    case Text(_) => 0
    case Marker(ch) => 1 + MarkerCount(ch)
  }

  predicate NoMarkers(nodes: seq<Segment>) {
    forall k :: 0 <= k < |nodes| ==> nodes[k].Text?
  }

  /** What the unwrapping in `processContentEditable` leaves behind: every marker becomes its
      children followed by an empty text node. */
  function Expanded(nodes: seq<Segment>): seq<Segment> {
    if nodes == [] then [] else ExpandedOf(nodes[0]) + Expanded(nodes[1..])
  }

  function ExpandedOf(n: Segment): seq<Segment> {
    match n
    case Text(s) => [Text(s)]
    case Marker(ch) => Expanded(ch) + [Text("")]
  }

  lemma {:induction false} LeavesAppend(a: seq<Segment>, b: seq<Segment>)
    ensures Leaves(a + b) == Leaves(a) + Leaves(b)
  {
    if a != [] {
      ConsAppend(a, b);
      LeavesAppend(a[1..], b);
    } else {
      EmptyAppend(a, b);
    }
  }

  /** The text of a list is its first node's text, then the rest's. */
  lemma TextContentCons(nodes: seq<Segment>)
    requires nodes != []
    ensures |TextContent(nodes)| == Width(nodes[0]) + |TextContent(nodes[1..])|
  {
    ConcatAppend(LeavesOf(nodes[0]), Leaves(nodes[1..]));
  }

  /** The markers of `b` placed after `a` start where `a`'s text ends. */
  lemma {:induction false} MarkedAppend(a: seq<Segment>, b: seq<Segment>, base: nat)
    ensures Marked(a + b, base) == Marked(a, base) + Marked(b, base + |TextContent(a)|)
    decreases |a|
  {
    if a != [] {
      ConsAppend(a, b);
      MarkedAppend(a[1..], b, base + Width(a[0]));
      TextContentCons(a);
    } else {
      EmptyAppend(a, b);
      assert TextContent(a) == Concat([]);
    }
  }

  lemma {:induction false} MarkerCountAppend(a: seq<Segment>, b: seq<Segment>)
    ensures MarkerCount(a + b) == MarkerCount(a) + MarkerCount(b)
  {
    if a != [] {
      ConsAppend(a, b);
      MarkerCountAppend(a[1..], b);
    } else {
      EmptyAppend(a, b);
    }
  }

  lemma {:induction false} ExpandedAppend(a: seq<Segment>, b: seq<Segment>)
    ensures Expanded(a + b) == Expanded(a) + Expanded(b)
  {
    if a != [] {
      ConsAppend(a, b);
      ExpandedAppend(a[1..], b);
    } else {
      EmptyAppend(a, b);
    }
  }

  lemma TextContentAppend(a: seq<Segment>, b: seq<Segment>)
    ensures TextContent(a + b) == TextContent(a) + TextContent(b)
  {
    LeavesAppend(a, b);
    ConcatAppend(Leaves(a), Leaves(b));
  }

  /** A one-node list is that node. */
  lemma One(n: Segment)
    ensures Leaves([n]) == LeavesOf(n)
    ensures MarkerCount([n]) == MarkerCountOf(n)
    ensures Expanded([n]) == ExpandedOf(n)
  {
    SingletonTail(n);
  }

  lemma MarkedOne(n: Segment, base: nat)
    ensures Marked([n], base) == MarkedOf(n, base)
  {
    SingletonTail(n);
  }

  lemma TextContentOfText(s: string)
    ensures TextContent([Text(s)]) == s
  {
    One(Text(s));
    ConcatSingle(s);
  }

  /** Splitting a node list around position `i`. */
  lemma Around(nodes: seq<Segment>, i: nat)
    requires i < |nodes|
    ensures nodes == nodes[..i] + [nodes[i]] + nodes[i + 1..]
  {
    SplitAt(nodes, i);
  }

  /** Moving a marker's children out in front of it and removing it leaves the text nodes, and so
      `textContent`, as they were; only that marker disappears. */
  lemma {:induction false} UnwrapKeepsLeaves(before: seq<Segment>, ch: seq<Segment>, after: seq<Segment>)
    ensures Leaves(before + [Marker(ch)] + after) == Leaves(before + ch + after)
    ensures MarkerCount(before + [Marker(ch)] + after) == MarkerCount(before + ch + after) + 1
  {
    LeavesAppend(before + [Marker(ch)], after);
    LeavesAppend(before, [Marker(ch)]);
    LeavesAppend(before + ch, after);
    LeavesAppend(before, ch);
    MarkerCountAppend(before + [Marker(ch)], after);
    MarkerCountAppend(before, [Marker(ch)]);
    MarkerCountAppend(before + ch, after);
    MarkerCountAppend(before, ch);
    One(Marker(ch));
  }

  /** A list without markers is its own expansion. */
  lemma {:induction false} ExpandedOfUnmarked(nodes: seq<Segment>)
    requires NoMarkers(nodes)
    ensures Expanded(nodes) == nodes
  {
    if nodes != [] {
      ExpandedOfUnmarked(nodes[1..]);
    }
  }

  /** Expanding leaves no marker behind. */
  lemma {:induction false} ExpandedUnmarked(nodes: seq<Segment>)
    ensures NoMarkers(Expanded(nodes))
  {
    if nodes != [] {
      ExpandedUnmarked(nodes[1..]);
      var head := ExpandedOf(nodes[0]);
      assert NoMarkers(head) by {
        match nodes[0]
        case Text(_) =>
        case Marker(ch) =>
          ExpandedUnmarked(ch);
      }
      assert Expanded(nodes) == head + Expanded(nodes[1..]);
    }
  }

  /** Expanding keeps `textContent`: only empty text nodes are added. */
  lemma {:induction false} ExpandedKeepsText(nodes: seq<Segment>)
    ensures TextContent(Expanded(nodes)) == TextContent(nodes)
  {
    if nodes != [] {
      var n, rest := nodes[0], nodes[1..];
      ExpandedKeepsText(rest);
      assert TextContent(ExpandedOf(n)) == TextContent([n]) by {
        One(n);
        match n
        case Text(s) =>
        case Marker(ch) =>
          ExpandedKeepsText(ch);
          TextContentAppend(Expanded(ch), [Text("")]);
          TextContentOfText("");
      }
      HeadTail(nodes);
      TextContentAppend([n], rest);
      TextContentAppend(ExpandedOf(n), Expanded(rest));
    }
  }

  lemma TextContentThree(a: seq<Segment>, b: seq<Segment>, c: seq<Segment>)
    ensures TextContent(a + b + c) == TextContent(a) + TextContent(b) + TextContent(c)
  {
    TextContentAppend(a + b, c);
    TextContentAppend(a, b);
  }

  lemma LeavesThree(a: seq<Segment>, b: seq<Segment>, c: seq<Segment>)
    ensures Leaves(a + b + c) == Leaves(a) + Leaves(b) + Leaves(c)
  {
    LeavesAppend(a + b, c);
    LeavesAppend(a, b);
  }

  /** The markers of three lists side by side, each placed where its text starts (`p` and `q`). */
  lemma MarkedThree(a: seq<Segment>, b: seq<Segment>, c: seq<Segment>, base: nat, p: nat, q: nat)
    requires p == base + |TextContent(a)| && q == p + |TextContent(b)|
    ensures Marked(a + b + c, base) == Marked(a, base) + Marked(b, p) + Marked(c, q)
  {
    MarkedAppend(a + b, c, base);
    MarkedAppend(a, b, base);
    TextContentAppend(a, b);
  }

  /** The node that holds leaf `k`: the leaves before it number at most `k`, and with its own
      leaves more than `k`. */
  function Locate(nodes: seq<Segment>, k: nat): (i: nat)
    requires k < |Leaves(nodes)|
    ensures i < |nodes|
    ensures |Leaves(nodes[..i])| <= k < |Leaves(nodes[..i])| + |LeavesOf(nodes[i])|
    decreases |nodes|
  {
    if k < |LeavesOf(nodes[0])| then
      assert nodes[..0] == [];
      0
    else
      var j := Locate(nodes[1..], k - |LeavesOf(nodes[0])|);
      PrefixOfTail(nodes, j);
      LeavesAppend([nodes[0]], nodes[1..][..j]);
      One(nodes[0]);
      j + 1
  }

  /** Leaf `t` of node `i` is leaf `|Leaves(nodes[..i])| + t` of the list. */
  lemma LeafAt(nodes: seq<Segment>, i: nat, t: nat)
    requires i < |nodes| && t < |LeavesOf(nodes[i])|
    ensures |Leaves(nodes[..i])| + t < |Leaves(nodes)|
    ensures Leaves(nodes)[|Leaves(nodes[..i])| + t] == LeavesOf(nodes[i])[t]
  {
    Around(nodes, i);
    LeavesThree(nodes[..i], [nodes[i]], nodes[i + 1..]);
    One(nodes[i]);
  }

  /** The range's boundary points, as leaf indices and offsets, are in bounds and in order. */
  predicate ValidRange(leaves: seq<string>, sn: nat, so: nat, en: nat, eo: nat) {
    && sn <= en < |leaves|
    && so <= |leaves[sn]| && eo <= |leaves[en]|
    && (sn == en ==> so <= eo)
  }

  lemma TextContentOfMarker(kids: seq<Segment>)
    ensures TextContent([Marker(kids)]) == TextContent(kids)
  {
    One(Marker(kids));
  }

  /** A marker is placed where its text starts, before the markers it holds. */
  lemma MarkerMarks(kids: seq<Segment>, base: nat)
    ensures Marked([Marker(kids)], base) == [Highlight(base, TextContent(kids))] + Marked(kids, base)
  {
    MarkedOne(Marker(kids), base);
  }

  /** A text node, a marker and a text node, side by side. */
  lemma TripleText(x: string, kids: seq<Segment>, y: string)
    ensures TextContent([Text(x), Marker(kids), Text(y)]) == x + TextContent(kids) + y
  {
    assert [Text(x), Marker(kids), Text(y)] == [Text(x)] + [Marker(kids)] + [Text(y)];
    TextContentThree([Text(x)], [Marker(kids)], [Text(y)]);
    TextContentOfText(x);
    TextContentOfText(y);
    TextContentOfMarker(kids);
  }

  lemma TripleMarked(x: string, kids: seq<Segment>, y: string, base: nat, at: nat)
    requires at == base + |x|
    ensures Marked([Text(x), Marker(kids), Text(y)], base)
         == [Highlight(at, TextContent(kids))] + Marked(kids, at)
  {
    assert [Text(x), Marker(kids), Text(y)] == [Text(x)] + [Marker(kids)] + [Text(y)];
    TextContentOfText(x);
    TextContentOfMarker(kids);
    MarkedThree([Text(x)], [Marker(kids)], [Text(y)], base, at, at + |TextContent(kids)|);
    MarkerMarks(kids, at);
    MarkedOne(Text(x), base);
    MarkedOne(Text(y), at + |TextContent(kids)|);
  }

  /** What the new marker holds when the range lies in one text node. */
  function KeptWithin(s: string, so: nat, eo: nat): seq<Segment>
    requires so <= eo <= |s|
  {
    if so == eo then [] else [Text(s[so..eo])]
  }

  lemma KeptWithinHolds(s: string, so: nat, eo: nat, base: nat)
    requires so <= eo <= |s|
    ensures TextContent(KeptWithin(s, so, eo)) == s[so..eo]
    ensures Marked(KeptWithin(s, so, eo), base) == []
  {
    if so == eo {
      assert TextContent([]) == Concat([]);
    } else {
      TextContentOfText(s[so..eo]);
      MarkedOne(Text(s[so..eo]), base);
    }
  }

  /** Wrapping part of one text node leaves the text unchanged. */
  lemma WrapWithinText(before: seq<Segment>, s: string, so: nat, eo: nat, after: seq<Segment>)
    requires so <= eo <= |s|
    ensures TextContent(before + [Text(s[..so]), Marker(KeptWithin(s, so, eo)), Text(s[eo..])] + after)
         == TextContent(before + [Text(s)] + after)
  {
    var kept := KeptWithin(s, so, eo);
    KeptWithinHolds(s, so, eo, 0);
    TripleText(s[..so], kept, s[eo..]);
    assert s[..so] + s[so..eo] + s[eo..] == s;
    TextContentThree(before, [Text(s[..so]), Marker(kept), Text(s[eo..])], after);
    TextContentThree(before, [Text(s)], after);
    TextContentOfText(s);
  }

  /** Wrapping part of one text node adds one marker, holding `s[so..eo]` where it starts. */
  lemma WrapWithinMarks(before: seq<Segment>, s: string, so: nat, eo: nat, after: seq<Segment>, base: nat, at: nat)
    requires so <= eo <= |s|
    requires at == base + |TextContent(before)|
    ensures Marked(before + [Text(s[..so]), Marker(KeptWithin(s, so, eo)), Text(s[eo..])] + after, base)
         == Marked(before, base) + [Highlight(at + so, s[so..eo])] + Marked(after, at + |s|)
  {
    var kept := KeptWithin(s, so, eo);
    var triple := [Text(s[..so]), Marker(kept), Text(s[eo..])];
    assert Marked(triple, at) == [Highlight(at + so, s[so..eo])] by {
      KeptWithinHolds(s, so, eo, at + so);
      TripleMarked(s[..so], kept, s[eo..], at, at + so);
    }
    assert |TextContent(triple)| == |s| by {
      KeptWithinHolds(s, so, eo, at + so);
      TripleText(s[..so], kept, s[eo..]);
    }
    MarkedThree(before, triple, after, base, at, at + |s|);
  }

  /** A text node among other nodes adds no marker. */
  lemma MarkedAroundText(before: seq<Segment>, s: string, after: seq<Segment>, base: nat, at: nat)
    requires at == base + |TextContent(before)|
    ensures Marked(before + [Text(s)] + after, base) == Marked(before, base) + Marked(after, at + |s|)
  {
    TextContentOfText(s);
    MarkedThree(before, [Text(s)], after, base, at, at + |s|);
    MarkedOne(Text(s), at);
  }

  /** What the new marker holds when the range runs from one text node to a later one. */
  function KeptAcross(a: string, so: nat, mid: seq<Segment>, b: string, eo: nat): seq<Segment>
    requires so <= |a| && eo <= |b|
  {
    [Text(a[so..])] + mid + [Text(b[..eo])]
  }

  lemma KeptAcrossHolds(a: string, so: nat, mid: seq<Segment>, b: string, eo: nat)
    requires so <= |a| && eo <= |b|
    ensures TextContent(KeptAcross(a, so, mid, b, eo)) == a[so..] + TextContent(mid) + b[..eo]
  {
    TextContentThree([Text(a[so..])], mid, [Text(b[..eo])]);
    TextContentOfText(a[so..]);
    TextContentOfText(b[..eo]);
  }

  lemma KeptAcrossMarks(a: string, so: nat, mid: seq<Segment>, b: string, eo: nat, base: nat, p: nat)
    requires so <= |a| && eo <= |b|
    requires p == base + (|a| - so)
    ensures Marked(KeptAcross(a, so, mid, b, eo), base) == Marked(mid, p)
  {
    TextContentOfText(a[so..]);
    MarkedThree([Text(a[so..])], mid, [Text(b[..eo])], base, p, p + |TextContent(mid)|);
    MarkedOne(Text(a[so..]), base);
    MarkedOne(Text(b[..eo]), p + |TextContent(mid)|);
  }

  /** Two text nodes with nodes between them, among other nodes. */
  lemma SpanText(before: seq<Segment>, a: string, mid: seq<Segment>, b: string, after: seq<Segment>)
    ensures TextContent(before + [Text(a)] + mid + [Text(b)] + after)
         == TextContent(before) + (a + TextContent(mid) + b) + TextContent(after)
  {
    var m := [Text(a)] + mid + [Text(b)];
    GroupMiddle(before, Text(a), mid, Text(b), after);
    TextContentThree(before, m, after);
    TextContentThree([Text(a)], mid, [Text(b)]);
    TextContentOfText(a);
    TextContentOfText(b);
  }

  lemma SpanMarks(before: seq<Segment>, a: string, mid: seq<Segment>, b: string, after: seq<Segment>, base: nat, at: nat)
    requires at == base + |TextContent(before)|
    ensures Marked(before + [Text(a)] + mid + [Text(b)] + after, base)
         == Marked(before, base) + Marked(mid, at + |a|) + Marked(after, at + |a| + |TextContent(mid)| + |b|)
  {
    var m := [Text(a)] + mid + [Text(b)];
    assert |TextContent(m)| == |a| + |TextContent(mid)| + |b| by {
      TextContentThree([Text(a)], mid, [Text(b)]);
      TextContentOfText(a);
      TextContentOfText(b);
    }
    assert Marked(m, at) == Marked(mid, at + |a|) by {
      TextContentOfText(a);
      MarkedThree([Text(a)], mid, [Text(b)], at, at + |a|, at + |a| + |TextContent(mid)|);
      MarkedOne(Text(a), at);
      MarkedOne(Text(b), at + |a| + |TextContent(mid)|);
    }
    GroupMiddle(before, Text(a), mid, Text(b), after);
    MarkedThree(before, m, after, base, at, at + |a| + |TextContent(mid)| + |b|);
  }

  /** Wrapping from inside one text node to inside a later one leaves the text unchanged. */
  lemma WrapAcrossText(before: seq<Segment>, a: string, so: nat, mid: seq<Segment>,
                       b: string, eo: nat, after: seq<Segment>)
    requires so <= |a| && eo <= |b|
    ensures TextContent(before + [Text(a[..so]), Marker(KeptAcross(a, so, mid, b, eo)), Text(b[eo..])] + after)
         == TextContent(before + [Text(a)] + mid + [Text(b)] + after)
  {
    var kept := KeptAcross(a, so, mid, b, eo);
    KeptAcrossHolds(a, so, mid, b, eo);
    TripleText(a[..so], kept, b[eo..]);
    TextContentThree(before, [Text(a[..so]), Marker(kept), Text(b[eo..])], after);
    SpanText(before, a, mid, b, after);
    assert a[..so] + (a[so..] + TextContent(mid) + b[..eo]) + b[eo..] == a + TextContent(mid) + b;
  }

  /** Wrapping from inside one text node to inside a later one adds one marker, which holds the
      markers in between. */
  lemma WrapAcrossMarks(before: seq<Segment>, a: string, so: nat, mid: seq<Segment>,
                        b: string, eo: nat, after: seq<Segment>, base: nat, at: nat)
    requires so <= |a| && eo <= |b|
    requires at == base + |TextContent(before)|
    ensures Marked(before + [Text(a[..so]), Marker(KeptAcross(a, so, mid, b, eo)), Text(b[eo..])] + after, base)
         == Marked(before, base) + [Highlight(at + so, a[so..] + TextContent(mid) + b[..eo])]
            + Marked(mid, at + |a|) + Marked(after, at + |a| + |TextContent(mid)| + |b|)
  {
    var kept := KeptAcross(a, so, mid, b, eo);
    var triple := [Text(a[..so]), Marker(kept), Text(b[eo..])];
    AcrossTriple(a, so, mid, b, eo, at);
    MarkedThree(before, triple, after, base, at, at + |a| + |TextContent(mid)| + |b|);
  }

  /** The three nodes a wrap across two text nodes leaves: their width, and the new marker's
      place. */
  lemma AcrossTriple(a: string, so: nat, mid: seq<Segment>, b: string, eo: nat, at: nat)
    requires so <= |a| && eo <= |b|
    ensures |TextContent([Text(a[..so]), Marker(KeptAcross(a, so, mid, b, eo)), Text(b[eo..])])|
         == |a| + |TextContent(mid)| + |b|
    ensures Marked([Text(a[..so]), Marker(KeptAcross(a, so, mid, b, eo)), Text(b[eo..])], at)
         == [Highlight(at + so, a[so..] + TextContent(mid) + b[..eo])] + Marked(mid, at + |a|)
  {
    var kept := KeptAcross(a, so, mid, b, eo);
    KeptAcrossHolds(a, so, mid, b, eo);
    KeptAcrossMarks(a, so, mid, b, eo, at + so, at + |a|);
    TripleMarked(a[..so], kept, b[eo..], at, at + so);
    TripleText(a[..so], kept, b[eo..]);
  }

  /** Replacing a marker's children by children with the same text keeps the text. */
  lemma WrapInsideMarkerText(before: seq<Segment>, ch: seq<Segment>, inner: seq<Segment>, after: seq<Segment>)
    requires TextContent(inner) == TextContent(ch)
    ensures TextContent(before + [Marker(inner)] + after) == TextContent(before + [Marker(ch)] + after)
  {
    TextContentThree(before, [Marker(inner)], after);
    TextContentThree(before, [Marker(ch)], after);
    TextContentOfMarker(inner);
    TextContentOfMarker(ch);
  }

  /** The markers of a list with a marker in it: those before, the marker, those it holds, and
      those after. */
  lemma MarkedAroundMarker(before: seq<Segment>, ch: seq<Segment>, after: seq<Segment>, base: nat, at: nat, t: string)
    requires at == base + |TextContent(before)|
    requires t == TextContent(ch)
    ensures Marked(before + [Marker(ch)] + after, base)
         == Marked(before, base) + [Highlight(at, t)] + Marked(ch, at) + Marked(after, at + |t|)
  {
    assert Marked([Marker(ch)], at) == [Highlight(at, t)] + Marked(ch, at) by {
      MarkerMarks(ch, at);
    }
    assert |TextContent([Marker(ch)])| == |t| by {
      TextContentOfMarker(ch);
    }
    MarkedThree(before, [Marker(ch)], after, base, at, at + |t|);
    GroupInner(Marked(before, base), [Highlight(at, t)], Marked(ch, at), Marked(after, at + |t|));
  }

  /** The text a range covers does not depend on the leaves around the ones it touches. */
  lemma RangeTextShift(all: seq<string>, pre: seq<string>, leaves: seq<string>, post: seq<string>,
                       sn: nat, so: nat, en: nat, eo: nat, s1: nat, e1: nat)
    requires all == pre + leaves + post
    requires sn == |pre| + s1 && en == |pre| + e1
    requires ValidRange(leaves, s1, so, e1, eo)
    ensures ValidRange(all, sn, so, en, eo)
    ensures RangeText(all, sn, so, en, eo) == RangeText(leaves, s1, so, e1, eo)
    ensures Before(all, sn) == Total(pre) + Before(leaves, s1)
  {
    BeforeShift(pre, leaves, post, s1);
    assert all[sn] == leaves[s1] && all[en] == leaves[e1];
    if s1 < e1 {
      assert all[sn + 1..en] == leaves[s1 + 1..e1];
    }
  }

  /** The leaves of two text nodes with nodes between them, among other nodes, and the text a
      range from the first to the second covers. */
  lemma SpanRange(nodes: seq<Segment>, before: seq<Segment>, a: string, so: nat, mid: seq<Segment>, b: string, eo: nat,
                  after: seq<Segment>, en: nat)
    requires so <= |a| && eo <= |b|
    requires nodes == before + [Text(a)] + mid + [Text(b)] + after
    requires en == |Leaves(before)| + 1 + |Leaves(mid)|
    ensures ValidRange(Leaves(nodes), |Leaves(before)|, so, en, eo)
    ensures RangeText(Leaves(nodes), |Leaves(before)|, so, en, eo) == a[so..] + TextContent(mid) + b[..eo]
    ensures Before(Leaves(nodes), |Leaves(before)|) == |TextContent(before)|
  {
    var m := [Text(a)] + mid + [Text(b)];
    GroupMiddle(before, Text(a), mid, Text(b), after);
    LeavesThree(before, m, after);
    LeavesThree([Text(a)], mid, [Text(b)]);
    One(Text(a));
    One(Text(b));
    var lm := [a] + Leaves(mid) + [b];
    BracketedRange(a, so, Leaves(mid), b, eo);
    assert lm[..0] == [];
    RangeTextShift(Leaves(nodes), Leaves(before), lm, Leaves(after), |Leaves(before)|, so, en, eo, 0, |Leaves(mid)| + 1);
  }

  /** A range from a first leaf to a last leaf covers the first's tail, every leaf between and
      the last's head. */
  lemma BracketedRange(a: string, so: nat, mid: seq<string>, b: string, eo: nat)
    requires so <= |a| && eo <= |b|
    ensures ValidRange([a] + mid + [b], 0, so, |mid| + 1, eo)
    ensures RangeText([a] + mid + [b], 0, so, |mid| + 1, eo) == a[so..] + Concat(mid) + b[..eo]
  {
    Bracketed(a, mid, b);
  }

  /** The leaves of a list with a marker in it. */
  lemma LeavesAroundMarker(before: seq<Segment>, ch: seq<Segment>, after: seq<Segment>)
    ensures Leaves(before + [Marker(ch)] + after) == Leaves(before) + Leaves(ch) + Leaves(after)
  {
    LeavesThree(before, [Marker(ch)], after);
    One(Marker(ch));
  }

  /** What `surroundContents` promises, for nodes whose text starts at offset `base` of the
      element's text: the text is as it was, and there is exactly one marker more, starting where
      the range starts and holding exactly the text the range covers; every other marker keeps its
      place and its text. */
  ghost predicate WrapsRange(nodes: seq<Segment>, sn: nat, so: nat, en: nat, eo: nat, r: seq<Segment>, base: nat)
    requires ValidRange(Leaves(nodes), sn, so, en, eo)
  {
    && TextContent(r) == TextContent(nodes)
    && multiset(Marked(r, base)) == multiset(Marked(nodes, base))
         + multiset{Highlight(base + Before(Leaves(nodes), sn) + so, RangeText(Leaves(nodes), sn, so, en, eo))}
  }

  /** Both points inside one marker: the range covers the same text in the whole list. */
  lemma NestedRange(nodes: seq<Segment>, before: seq<Segment>, ch: seq<Segment>, after: seq<Segment>,
                    sn: nat, so: nat, en: nat, eo: nat, s1: nat, e1: nat)
    requires nodes == before + [Marker(ch)] + after
    requires sn == |Leaves(before)| + s1 && en == |Leaves(before)| + e1
    requires ValidRange(Leaves(ch), s1, so, e1, eo)
    ensures ValidRange(Leaves(nodes), sn, so, en, eo)
    ensures RangeText(Leaves(nodes), sn, so, en, eo) == RangeText(Leaves(ch), s1, so, e1, eo)
    ensures Before(Leaves(nodes), sn) == |TextContent(before)| + Before(Leaves(ch), s1)
  {
    LeavesAroundMarker(before, ch, after);
    RangeTextShift(Leaves(nodes), Leaves(before), Leaves(ch), Leaves(after), sn, so, en, eo, s1, e1);
  }

  /** Both points inside one marker: a new marker among its children is a new marker of the
      whole list. */
  lemma NestedMarksAt(before: seq<Segment>, ch: seq<Segment>, inner: seq<Segment>, after: seq<Segment>,
                      base: nat, at: nat, h: Highlight)
    requires at == base + |TextContent(before)|
    requires TextContent(inner) == TextContent(ch)
    requires multiset(Marked(inner, at)) == multiset(Marked(ch, at)) + multiset{h}
    ensures multiset(Marked(before + [Marker(inner)] + after, base))
         == multiset(Marked(before + [Marker(ch)] + after, base)) + multiset{h}
  {
    var t := TextContent(ch);
    MarkedAroundMarker(before, ch, after, base, at, t);
    MarkedAroundMarker(before, inner, after, base, at, t);
    MultisetSwapMiddle(Marked(before, base) + [Highlight(at, t)], Marked(inner, at), Marked(ch, at),
                       Marked(after, at + |t|), h);
  }

  /** Both points inside one marker: what the wrap does among its children, it does to the
      whole list. */
  lemma NestedWrap(nodes: seq<Segment>, before: seq<Segment>, ch: seq<Segment>, inner: seq<Segment>, after: seq<Segment>,
                   sn: nat, so: nat, en: nat, eo: nat, s1: nat, e1: nat, base: nat, at: nat)
    requires nodes == before + [Marker(ch)] + after
    requires sn == |Leaves(before)| + s1 && en == |Leaves(before)| + e1
    requires at == base + |TextContent(before)|
    requires ValidRange(Leaves(ch), s1, so, e1, eo)
    requires WrapsRange(ch, s1, so, e1, eo, inner, at)
    ensures ValidRange(Leaves(nodes), sn, so, en, eo)
    ensures WrapsRange(nodes, sn, so, en, eo, before + [Marker(inner)] + after, base)
  {
    NestedRange(nodes, before, ch, after, sn, so, en, eo, s1, e1);
    WrapInsideMarkerText(before, ch, inner, after);
    var h := Highlight(at + Before(Leaves(ch), s1) + so, RangeText(Leaves(ch), s1, so, e1, eo));
    assert h == Highlight(base + Before(Leaves(nodes), sn) + so, RangeText(Leaves(nodes), sn, so, en, eo));
    NestedMarksAt(before, ch, inner, after, base, at, h);
  }

  /** The points in two text nodes of the same list. */
  lemma AcrossWrap(nodes: seq<Segment>, before: seq<Segment>, a: string, so: nat, mid: seq<Segment>, b: string, eo: nat,
                   after: seq<Segment>, en: nat, base: nat)
    requires so <= |a| && eo <= |b|
    requires nodes == before + [Text(a)] + mid + [Text(b)] + after
    requires en == |Leaves(before)| + 1 + |Leaves(mid)|
    ensures ValidRange(Leaves(nodes), |Leaves(before)|, so, en, eo)
    ensures WrapsRange(nodes, |Leaves(before)|, so, en, eo,
                       before + [Text(a[..so]), Marker(KeptAcross(a, so, mid, b, eo)), Text(b[eo..])] + after, base)
  {
    var r := before + [Text(a[..so]), Marker(KeptAcross(a, so, mid, b, eo)), Text(b[eo..])] + after;
    WrapAcrossText(before, a, so, mid, b, eo, after);
    SpanRange(nodes, before, a, so, mid, b, eo, after, en);
    var at := base + |TextContent(before)|;
    var h := Highlight(at + so, a[so..] + TextContent(mid) + b[..eo]);
    assert multiset(Marked(r, base)) == multiset(Marked(nodes, base)) + multiset{h} by {
      var x, y, z := Marked(before, base), Marked(mid, at + |a|), Marked(after, at + |a| + |TextContent(mid)| + |b|);
      WrapAcrossMarks(before, a, so, mid, b, eo, after, base, at);
      SpanMarks(before, a, mid, b, after, base, at);
      MultisetInsert(x, h, y, z);
    }
  }

  /** Both points inside the marker at `i`: a wrap among its children is a wrap of the list. */
  lemma NestedWrapAt(nodes: seq<Segment>, i: nat, inner: seq<Segment>, sn: nat, so: nat, en: nat, eo: nat, base: nat, at: nat)
    requires i < |nodes| && nodes[i].Marker?
    requires |Leaves(nodes[..i])| <= sn && |Leaves(nodes[..i])| <= en
    requires at == base + |TextContent(nodes[..i])|
    requires ValidRange(Leaves(nodes[i].children), sn - |Leaves(nodes[..i])|, so, en - |Leaves(nodes[..i])|, eo)
    requires WrapsRange(nodes[i].children, sn - |Leaves(nodes[..i])|, so, en - |Leaves(nodes[..i])|, eo, inner, at)
    ensures ValidRange(Leaves(nodes), sn, so, en, eo)
    ensures WrapsRange(nodes, sn, so, en, eo, nodes[..i] + [Marker(inner)] + nodes[i + 1..], base)
  {
    SplitAt(nodes, i);
    NestedWrap(nodes, nodes[..i], nodes[i].children, inner, nodes[i + 1..], sn, so, en, eo,
               sn - |Leaves(nodes[..i])|, en - |Leaves(nodes[..i])|, base, at);
  }

  /** Both points inside the marker at `i`: the range, counted among its children. */
  lemma InsideMarker(nodes: seq<Segment>, i: nat, sn: nat, so: nat, en: nat, eo: nat)
    requires ValidRange(Leaves(nodes), sn, so, en, eo)
    requires i < |nodes| && nodes[i].Marker?
    requires |Leaves(nodes[..i])| <= sn && en < |Leaves(nodes[..i])| + |LeavesOf(nodes[i])|
    ensures ValidRange(Leaves(nodes[i].children), sn - |Leaves(nodes[..i])|, so, en - |Leaves(nodes[..i])|, eo)
  {
    var base := |Leaves(nodes[..i])|;
    LeafAt(nodes, i, sn - base);
    LeafAt(nodes, i, en - base);
  }

  /** Both points in the text node at `i`: leaf and offsets, counted in that node. */
  lemma InsideText(nodes: seq<Segment>, i: nat, sn: nat, so: nat, en: nat, eo: nat)
    requires ValidRange(Leaves(nodes), sn, so, en, eo)
    requires i < |nodes| && nodes[i].Text?
    requires |Leaves(nodes[..i])| <= sn && en < |Leaves(nodes[..i])| + |LeavesOf(nodes[i])|
    ensures sn == en == |Leaves(nodes[..i])|
    ensures so <= eo <= |nodes[i].s|
  {
    LeafAt(nodes, i, 0);
  }

  /** The points in the text nodes at `i` and at a later `j`: leaves and offsets, counted in
      those nodes. */
  lemma InTwoTexts(nodes: seq<Segment>, i: nat, j: nat, sn: nat, so: nat, en: nat, eo: nat)
    requires ValidRange(Leaves(nodes), sn, so, en, eo)
    requires i < j < |nodes| && nodes[i].Text? && nodes[j].Text?
    requires |Leaves(nodes[..i])| <= sn < |Leaves(nodes[..i])| + |LeavesOf(nodes[i])|
    requires |Leaves(nodes[..j])| <= en < |Leaves(nodes[..j])| + |LeavesOf(nodes[j])|
    ensures sn == |Leaves(nodes[..i])| && en == |Leaves(nodes[..j])|
    ensures so <= |nodes[i].s| && eo <= |nodes[j].s|
  {
    LeafAt(nodes, i, 0);
    LeafAt(nodes, j, 0);
  }

  /** Both points in the text node at `i`. */
  lemma WithinWrapAt(nodes: seq<Segment>, i: nat, so: nat, eo: nat, base: nat)
    requires i < |nodes| && nodes[i].Text? && so <= eo <= |nodes[i].s|
    ensures ValidRange(Leaves(nodes), |Leaves(nodes[..i])|, so, |Leaves(nodes[..i])|, eo)
    ensures WrapsRange(nodes, |Leaves(nodes[..i])|, so, |Leaves(nodes[..i])|, eo,
                       nodes[..i] + [Text(nodes[i].s[..so]), Marker(KeptWithin(nodes[i].s, so, eo)), Text(nodes[i].s[eo..])]
                       + nodes[i + 1..], base)
  {
    var s := nodes[i].s;
    var before, after := nodes[..i], nodes[i + 1..];
    var sn := |Leaves(before)|;
    var r := before + [Text(s[..so]), Marker(KeptWithin(s, so, eo)), Text(s[eo..])] + after;
    var at := base + |TextContent(before)|;
    var h := Highlight(at + so, s[so..eo]);
    assert ValidRange(Leaves(nodes), sn, so, sn, eo)
        && Before(Leaves(nodes), sn) == |TextContent(before)|
        && RangeText(Leaves(nodes), sn, so, sn, eo) == s[so..eo] by {
      One(nodes[i]);
      LeafAt(nodes, i, 0);
      BeforeNode(nodes, i);
    }
    assert TextContent(r) == TextContent(nodes) by {
      Around(nodes, i);
      WrapWithinText(before, s, so, eo, after);
    }
    assert multiset(Marked(r, base)) == multiset(Marked(nodes, base)) + multiset{h} by {
      Around(nodes, i);
      WrapWithinMarks(before, s, so, eo, after, base, at);
      MarkedAroundText(before, s, after, base, at);
      MultisetAdd(Marked(before, base), h, Marked(after, at + |s|));
    }
  }

  /** The leaves of the nodes before node `i` are the first leaves, and their text is what comes
      before them. */
  lemma BeforeNode(nodes: seq<Segment>, i: nat)
    requires i <= |nodes|
    ensures |Leaves(nodes[..i])| <= |Leaves(nodes)|
    ensures Before(Leaves(nodes), |Leaves(nodes[..i])|) == |TextContent(nodes[..i])|
  {
    assert nodes == nodes[..i] + nodes[i..];
    LeavesAppend(nodes[..i], nodes[i..]);
    assert Leaves(nodes)[..|Leaves(nodes[..i])|] == Leaves(nodes[..i]);
  }

  /** The points in the text nodes at `i` and at a later `j`. */
  lemma AcrossWrapAt(nodes: seq<Segment>, i: nat, j: nat, so: nat, eo: nat, base: nat)
    requires i < j < |nodes| && nodes[i].Text? && nodes[j].Text?
    requires so <= |nodes[i].s| && eo <= |nodes[j].s|
    ensures ValidRange(Leaves(nodes), |Leaves(nodes[..i])|, so, |Leaves(nodes[..j])|, eo)
    ensures WrapsRange(nodes, |Leaves(nodes[..i])|, so, |Leaves(nodes[..j])|, eo,
                       nodes[..i] + [Text(nodes[i].s[..so]), Marker(KeptAcross(nodes[i].s, so, nodes[i + 1..j], nodes[j].s, eo)),
                                     Text(nodes[j].s[eo..])] + nodes[j + 1..], base)
  {
    TwoTextsShape(nodes, i, j);
    AcrossWrap(nodes, nodes[..i], nodes[i].s, so, nodes[i + 1..j], nodes[j].s, eo, nodes[j + 1..], |Leaves(nodes[..j])|, base);
  }

  /** A list with text nodes at `i` and at a later `j`, cut around them. */
  lemma TwoTextsShape(nodes: seq<Segment>, i: nat, j: nat)
    requires i < j < |nodes| && nodes[i].Text? && nodes[j].Text?
    ensures nodes == nodes[..i] + [Text(nodes[i].s)] + nodes[i + 1..j] + [Text(nodes[j].s)] + nodes[j + 1..]
    ensures |Leaves(nodes[..j])| == |Leaves(nodes[..i])| + 1 + |Leaves(nodes[i + 1..j])|
  {
    SplitTwo(nodes, i, j);
    LeavesThree(nodes[..i], [nodes[i]], nodes[i + 1..j]);
    One(nodes[i]);
  }

  /** `surroundContents` with both points in the text node at `i`: the node splits into the
      text before the range, the new marker and the text after it. */
  function WrapInText(nodes: seq<Segment>, i: nat, sn: nat, so: nat, en: nat, eo: nat): (r: seq<Segment>)
    requires ValidRange(Leaves(nodes), sn, so, en, eo)
    requires i < |nodes| && nodes[i].Text?
    requires |Leaves(nodes[..i])| <= sn && en < |Leaves(nodes[..i])| + |LeavesOf(nodes[i])|
    ensures TextContent(r) == TextContent(nodes)
  {
    InsideText(nodes, i, sn, so, en, eo);
    WithinWrapAt(nodes, i, so, eo, 0);
    var s := nodes[i].s;
    nodes[..i] + [Text(s[..so]), Marker(KeptWithin(s, so, eo)), Text(s[eo..])] + nodes[i + 1..]
  }

  /** `surroundContents` with the points in the text nodes at `i` and at a later `j`: the first
      keeps its text before the start, the second its text after the end, and the new marker
      between them holds the start node's tail, every node in between and the end node's head. */
  function WrapAcrossTexts(nodes: seq<Segment>, i: nat, j: nat, sn: nat, so: nat, en: nat, eo: nat): (r: seq<Segment>)
    requires ValidRange(Leaves(nodes), sn, so, en, eo)
    requires i < j < |nodes| && nodes[i].Text? && nodes[j].Text?
    requires |Leaves(nodes[..i])| <= sn < |Leaves(nodes[..i])| + |LeavesOf(nodes[i])|
    requires |Leaves(nodes[..j])| <= en < |Leaves(nodes[..j])| + |LeavesOf(nodes[j])|
    ensures TextContent(r) == TextContent(nodes)
  {
    InTwoTexts(nodes, i, j, sn, so, en, eo);
    AcrossWrapAt(nodes, i, j, so, eo, 0);
    var a, b := nodes[i].s, nodes[j].s;
    nodes[..i] + [Text(a[..so]), Marker(KeptAcross(a, so, nodes[i + 1..j], b, eo)), Text(b[eo..])] + nodes[j + 1..]
  }

  /** `range.surroundContents(span)` for a range from offset `so` of leaf `sn` to offset `eo` of
      leaf `en`: `None` when it throws because a marker holds one boundary point but not the other
      (the caller catches the exception and the content stays as it was).
      - Both points in one text node: the node splits into the text before, the new marker and
        the text after; the marker holds the range's text, or nothing when the range is collapsed.
      - Both points inside one marker: the work happens among that marker's children.
      - Points in two text nodes of the same list: the first keeps its text before the start,
        the second its text after the end, and the new marker between them holds the start
        node's tail, every node in between, and the end node's head.
      Whenever it succeeds the text is unchanged; `SurroundWraps` places the new marker. */
  function Surround(nodes: seq<Segment>, sn: nat, so: nat, en: nat, eo: nat): (r: Option<seq<Segment>>)
    requires ValidRange(Leaves(nodes), sn, so, en, eo)
    ensures r.Some? ==> TextContent(r.value) == TextContent(nodes)
    decreases nodes, 1
  {
    var i := Locate(nodes, sn);
    var j := Locate(nodes, en);
    if i == j && nodes[i].Text? then
      Some(WrapInText(nodes, i, sn, so, en, eo))
    else if i == j then
      WrapInMarker(nodes, i, sn, so, en, eo)
    else if i < j && nodes[i].Text? && nodes[j].Text? then
      Some(WrapAcrossTexts(nodes, i, j, sn, so, en, eo))
    else
      None
  }

  /** `surroundContents` with both points inside the marker at `i`: the wrap happens among the
      marker's children, and fails if it fails there. */
  function WrapInMarker(nodes: seq<Segment>, i: nat, sn: nat, so: nat, en: nat, eo: nat): (r: Option<seq<Segment>>)
    requires ValidRange(Leaves(nodes), sn, so, en, eo)
    requires i < |nodes| && nodes[i].Marker?
    requires |Leaves(nodes[..i])| <= sn && en < |Leaves(nodes[..i])| + |LeavesOf(nodes[i])|
    ensures r.Some? ==> TextContent(r.value) == TextContent(nodes)
    decreases nodes, 0
  {
    InsideMarker(nodes, i, sn, so, en, eo);
    var inner := Surround(nodes[i].children, sn - |Leaves(nodes[..i])|, so, en - |Leaves(nodes[..i])|, eo);
    if inner.Some? then
      Around(nodes, i);
      WrapInsideMarkerText(nodes[..i], nodes[i].children, inner.value, nodes[i + 1..]);
      Some(nodes[..i] + [Marker(inner.value)] + nodes[i + 1..])
    else
      None
  }

  /** Whenever the wrap succeeds on nodes whose text starts at offset `base` of the element's
      text, giving `r`, there is exactly one marker more, starting where the range starts and
      holding exactly the text the range covers, and every other marker keeps its place and its
      text. */
  lemma {:induction false} SurroundWraps(nodes: seq<Segment>, sn: nat, so: nat, en: nat, eo: nat, base: nat, r: seq<Segment>)
    requires ValidRange(Leaves(nodes), sn, so, en, eo)
    requires Surround(nodes, sn, so, en, eo) == Some(r)
    ensures WrapsRange(nodes, sn, so, en, eo, r, base)
    decreases nodes, 1
  {
    var i := Locate(nodes, sn);
    var j := Locate(nodes, en);
    if i == j && nodes[i].Text? {
      InsideText(nodes, i, sn, so, en, eo);
      WithinWrapAt(nodes, i, so, eo, base);
    } else if i == j {
      InsideMarker(nodes, i, sn, so, en, eo);
      var inner := Surround(nodes[i].children, sn - |Leaves(nodes[..i])|, so, en - |Leaves(nodes[..i])|, eo);
      WrapInMarkerWraps(nodes, i, sn, so, en, eo, base, inner.value);
    } else {
      InTwoTexts(nodes, i, j, sn, so, en, eo);
      AcrossWrapAt(nodes, i, j, so, eo, base);
    }
  }

  /** Both points inside the marker at `i`: the wrap among its children, giving `inner`, places
      its marker in the whole list. */
  lemma WrapInMarkerWraps(nodes: seq<Segment>, i: nat, sn: nat, so: nat, en: nat, eo: nat, base: nat, inner: seq<Segment>)
    requires i < |nodes| && nodes[i].Marker?
    requires |Leaves(nodes[..i])| <= sn && |Leaves(nodes[..i])| <= en
    requires ValidRange(Leaves(nodes[i].children), sn - |Leaves(nodes[..i])|, so, en - |Leaves(nodes[..i])|, eo)
    requires Surround(nodes[i].children, sn - |Leaves(nodes[..i])|, so, en - |Leaves(nodes[..i])|, eo) == Some(inner)
    ensures ValidRange(Leaves(nodes), sn, so, en, eo)
    ensures WrapsRange(nodes, sn, so, en, eo, nodes[..i] + [Marker(inner)] + nodes[i + 1..], base)
    decreases nodes, 0
  {
    SurroundWraps(nodes[i].children, sn - |Leaves(nodes[..i])|, so, en - |Leaves(nodes[..i])|, eo,
                  base + |TextContent(nodes[..i])|, inner);
    NestedWrapAt(nodes, i, inner, sn, so, en, eo, base, base + |TextContent(nodes[..i])|);
  }

  /** On content without markers the wrap always succeeds. */
  lemma SurroundUnmarked(nodes: seq<Segment>, sn: nat, so: nat, en: nat, eo: nat)
    requires ValidRange(Leaves(nodes), sn, so, en, eo)
    requires NoMarkers(nodes)
    ensures Surround(nodes, sn, so, en, eo).Some?
  {
    LocateMonotone(nodes, sn, en);
  }

  /** A later leaf is never in an earlier node. */
  lemma {:induction false} LocateMonotone(nodes: seq<Segment>, k: nat, l: nat)
    requires k <= l < |Leaves(nodes)|
    ensures Locate(nodes, k) <= Locate(nodes, l)
    decreases |nodes|
  {
    var n := |LeavesOf(nodes[0])|;
    if n <= k {
      LocateMonotone(nodes[1..], k - n, l - n);
      assert Locate(nodes, k) == Locate(nodes[1..], k - n) + 1;
      assert Locate(nodes, l) == Locate(nodes[1..], l - n) + 1;
    } else {
      assert Locate(nodes, k) == 0;
    }
  }

  /** The highlight a correction asks for: its original text, where it starts. */
  function HighlightOf(c: Correction): Highlight {
    Highlight(c.startIndex, c.original)
  }

  /** The highlights the corrections ask for, in order. */
  function HighlightsOf(cs: seq<Correction>): seq<Highlight> {
    seq(|cs|, i requires 0 <= i < |cs| => HighlightOf(cs[i]))
  }

  lemma HighlightsAppend(a: seq<Correction>, b: seq<Correction>)
    ensures HighlightsOf(a + b) == HighlightsOf(a) + HighlightsOf(b)
  {
  }

  /** Reordering the corrections (as the sort does) reorders their highlights the same way. */
  lemma {:induction false} HighlightsPermutation(a: seq<Correction>, b: seq<Correction>)
    requires multiset(a) == multiset(b)
    ensures multiset(HighlightsOf(a)) == multiset(HighlightsOf(b))
    decreases |a|
  {
    if a == [] {
      assert |b| == |multiset(b)| == 0;
    } else {
      var n := |a| - 1;
      var x := a[n];
      assert a == a[..n] + [x];
      assert x in multiset(b);
      var p :| 0 <= p < |b| && b[p] == x;
      var rest := b[..p] + b[p + 1..];
      assert b == b[..p] + [x] + b[p + 1..];
      assert multiset(a) == multiset(a[..n]) + multiset{x};
      assert multiset(b) == multiset(b[..p]) + multiset{x} + multiset(b[p + 1..]);
      assert multiset(rest) == multiset(b[..p]) + multiset(b[p + 1..]);
      assert multiset(a[..n]) == multiset(a) - multiset{x};
      assert multiset(rest) == multiset(b) - multiset{x};
      HighlightsPermutation(a[..n], rest);
      HighlightsAppend(a[..n], [x]);
      HighlightsAppend(b[..p] + [x], b[p + 1..]);
      HighlightsAppend(b[..p], [x]);
      HighlightsAppend(b[..p], b[p + 1..]);
    }
  }

  /** The highlight ends before the correction starts or starts after it ends. */
  predicate Apart(h: Highlight, c: Correction) {
    h.start + |h.text| <= c.startIndex || c.endIndex <= h.start
  }

  /** No marker of `nodes` overlaps `c`. */
  predicate Clear(nodes: seq<Segment>, c: Correction) {
    forall h :: h in Highlights(nodes) ==> Apart(h, c)
  }

  /** `r` has the text of `nodes` and one marker more, holding the original text of `c` where `c`
      starts. */
  predicate Places(nodes: seq<Segment>, c: Correction, r: seq<Segment>) {
    && TextContent(r) == TextContent(nodes)
    && multiset(Highlights(r)) == multiset(Highlights(nodes)) + multiset{HighlightOf(c)}
  }

  /** The `corrections.forEach` callback of `processContentEditable` on content `nodes`: find the
      boundary points of `c` in the current text nodes, skip `c` if there is no start node, and
      otherwise wrap the range in a new marker, leaving the content as it was when
      `surroundContents` throws. Either nothing changes or `c` gets its marker, in place. */
  function HighlightResult(nodes: seq<Segment>, c: Correction): (r: seq<Segment>)
    requires InText(c, TextContent(nodes))
    ensures TextContent(r) == TextContent(nodes)
    ensures r == nodes || Places(nodes, c, r)
  {
    var leaves := Leaves(nodes);
    var b := Walk(leaves, c.startIndex, c.endIndex);
    if b.startNode.None? then nodes
    else
      WalkIsWalkResult(leaves, c.startIndex, c.endIndex);
      WalkResultInside(leaves, c.startIndex, c.endIndex, b);
      var w := Surround(nodes, b.startNode.value, b.startOffset, b.endNode.value, b.endOffset);
      if w.Some? then
        SurroundWraps(nodes, b.startNode.value, b.startOffset, b.endNode.value, b.endOffset, 0, w.value);
        WrapPlaces(nodes, b.startNode.value, b.startOffset, b.endNode.value, b.endOffset, w.value, c);
        w.value
      else nodes
  }

  /** A leaf inside a marker lies within that marker's highlight. */
  lemma LeafInMarker(nodes: seq<Segment>, k: nat)
    requires k < |Leaves(nodes)|
    ensures var i := Locate(nodes, k);
            nodes[i].Marker? ==>
              var h := Highlight(|TextContent(nodes[..i])|, TextContent(nodes[i].children));
              && h in Highlights(nodes)
              && h.start <= Before(Leaves(nodes), k)
              && After(Leaves(nodes), k) <= h.start + |h.text|
  {
    var i := Locate(nodes, k);
    if nodes[i].Marker? {
      var before, ch, after := nodes[..i], nodes[i].children, nodes[i + 1..];
      var h := Highlight(|TextContent(before)|, TextContent(ch));
      assert h in Highlights(nodes) by {
        Around(nodes, i);
        MarkedAroundMarker(before, ch, after, 0, |TextContent(before)|, TextContent(ch));
      }
      var t := k - |Leaves(before)|;
      assert h.start <= Before(Leaves(nodes), k) && After(Leaves(nodes), k) <= h.start + |h.text| by {
        Around(nodes, i);
        LeavesAroundMarker(before, ch, after);
        One(nodes[i]);
        BeforeShift(Leaves(before), Leaves(ch), Leaves(after), t);
        AfterShift(Leaves(before), Leaves(ch), Leaves(after), t);
        LeafEndWithinTotal(Leaves(ch), t);
      }
    }
  }

  /** A correction that overlaps no marker always gets its marker: neither of its boundary
      points can be inside a marker, so both are in text nodes of the list itself. */
  lemma HighlightWhenClear(nodes: seq<Segment>, c: Correction)
    requires InText(c, TextContent(nodes))
    requires Clear(nodes, c)
    ensures Places(nodes, c, HighlightResult(nodes, c))
  {
    var leaves := Leaves(nodes);
    var b := Walk(leaves, c.startIndex, c.endIndex);
    WalkIsWalkResult(leaves, c.startIndex, c.endIndex);
    WalkResultInside(leaves, c.startIndex, c.endIndex, b);
    var sn, so, en, eo := b.startNode.value, b.startOffset, b.endNode.value, b.endOffset;
    assert Before(leaves, en) < c.endIndex && c.endIndex <= After(leaves, en) by {
      assert IsEndLeaf(leaves, c.endIndex, en);
      if en > 0 {
        BeforeStep(leaves, en - 1);
      } else {
        assert leaves[..0] == [];
      }
    }
    ClearPointsInTexts(nodes, c, sn, so, en);
    SurroundInTexts(nodes, sn, so, en, eo);
    var w := Surround(nodes, sn, so, en, eo);
    assert HighlightResult(nodes, c) == w.value;
    SurroundWraps(nodes, sn, so, en, eo, 0, w.value);
    WrapPlaces(nodes, sn, so, en, eo, w.value, c);
  }

  /** Neither boundary point of a correction that overlaps no marker is inside a marker. */
  lemma ClearPointsInTexts(nodes: seq<Segment>, c: Correction, sn: nat, so: nat, en: nat)
    requires Clear(nodes, c)
    requires sn <= en < |Leaves(nodes)|
    requires Before(Leaves(nodes), sn) + so == c.startIndex && so < |Leaves(nodes)[sn]|
    requires c.startIndex < c.endIndex
    requires Before(Leaves(nodes), en) < c.endIndex <= After(Leaves(nodes), en)
    ensures nodes[Locate(nodes, sn)].Text? && nodes[Locate(nodes, en)].Text?
    ensures Locate(nodes, sn) <= Locate(nodes, en)
  {
    LeafInMarker(nodes, sn);
    LeafInMarker(nodes, en);
    LocateMonotone(nodes, sn, en);
  }

  /** With both boundary points in text nodes of the list, the wrap succeeds. */
  lemma SurroundInTexts(nodes: seq<Segment>, sn: nat, so: nat, en: nat, eo: nat)
    requires ValidRange(Leaves(nodes), sn, so, en, eo)
    requires nodes[Locate(nodes, sn)].Text? && nodes[Locate(nodes, en)].Text?
    requires Locate(nodes, sn) <= Locate(nodes, en)
    ensures Surround(nodes, sn, so, en, eo).Some?
  {
  }

  /** A wrap of the range from `c.startIndex` to `c.endIndex` places `c`'s marker. */
  lemma WrapPlaces(nodes: seq<Segment>, sn: nat, so: nat, en: nat, eo: nat, r: seq<Segment>, c: Correction)
    requires ValidRange(Leaves(nodes), sn, so, en, eo)
    requires WrapsRange(nodes, sn, so, en, eo, r, 0)
    requires Before(Leaves(nodes), sn) + so == c.startIndex
    requires RangeText(Leaves(nodes), sn, so, en, eo) == c.original
    ensures Places(nodes, c, r)
  {
  }

  /** `corrections.forEach(...)`: each correction in turn, on the content the ones before it
      left. */
  function HighlightAllResult(nodes: seq<Segment>, cs: seq<Correction>): (r: seq<Segment>)
    requires forall i :: 0 <= i < |cs| ==> InText(cs[i], TextContent(nodes))
    ensures TextContent(r) == TextContent(nodes)
    decreases |cs|
  {
    if cs == [] then nodes
    else HighlightAllResult(HighlightResult(nodes, cs[0]), cs[1..])
  }

  /** The markers there were stay, and every new marker is one a correction asked for, none
      more often than it was asked for. */
  lemma {:induction false} HighlightAllBounds(nodes: seq<Segment>, cs: seq<Correction>)
    requires forall i :: 0 <= i < |cs| ==> InText(cs[i], TextContent(nodes))
    ensures multiset(Highlights(nodes)) <= multiset(Highlights(HighlightAllResult(nodes, cs)))
    ensures multiset(Highlights(HighlightAllResult(nodes, cs))) <= multiset(Highlights(nodes)) + multiset(HighlightsOf(cs))
    decreases |cs|
  {
    if cs != [] {
      var m := HighlightResult(nodes, cs[0]);
      HighlightAllBounds(m, cs[1..]);
      HeadTail(cs);
      HighlightsAppend([cs[0]], cs[1..]);
      assert HighlightsOf([cs[0]]) == [HighlightOf(cs[0])];
    }
  }

  /** The first correction tried gets its marker if it overlaps no marker there was. */
  lemma HighlightAllFirst(nodes: seq<Segment>, cs: seq<Correction>)
    requires forall i :: 0 <= i < |cs| ==> InText(cs[i], TextContent(nodes))
    requires cs != [] && Clear(nodes, cs[0])
    ensures HighlightOf(cs[0]) in multiset(Highlights(HighlightAllResult(nodes, cs)))
  {
    HighlightWhenClear(nodes, cs[0]);
    HighlightAllBounds(HighlightResult(nodes, cs[0]), cs[1..]);
  }

  /** When no two corrections overlap, none is reported twice and none overlaps a marker there
      was, every correction gets its marker, whatever the order they are tried in. */
  lemma {:induction false} HighlightAllSeparate(nodes: seq<Segment>, cs: seq<Correction>)
    requires forall i :: 0 <= i < |cs| ==> InText(cs[i], TextContent(nodes))
    requires Separate(multiset(cs))
    requires forall h, c :: h in Highlights(nodes) && c in cs ==> Apart(h, c)
    ensures multiset(Highlights(HighlightAllResult(nodes, cs))) == multiset(Highlights(nodes)) + multiset(HighlightsOf(cs))
    decreases |cs|
  {
    if cs != [] {
      var c, rest := cs[0], cs[1..];
      var m := HighlightResult(nodes, c);
      assert Places(nodes, c, m) by {
        assert c in cs;
        HighlightWhenClear(nodes, c);
      }
      SeparateTail(cs);
      forall h, d | h in Highlights(m) && d in rest
        ensures Apart(h, d)
      {
        assert h in multiset(Highlights(m));
        if h != HighlightOf(c) {
          assert h in multiset(Highlights(nodes));
          assert d in cs;
        }
      }
      HighlightAllSeparate(m, rest);
      assert multiset(HighlightsOf(cs)) == multiset{HighlightOf(c)} + multiset(HighlightsOf(rest)) by {
        HeadTail(cs);
        HighlightsAppend([c], rest);
        assert HighlightsOf([c]) == [HighlightOf(c)];
      }
    }
  }

  /** The corrections of `text` in the order `processContentEditable` tries them: by start
      offset, the last start first. */
  function Tried(text: string): (cs: seq<Correction>)
    ensures multiset(cs) == multiset(CheckResult(text))
    ensures SortedByStart(cs, true)
    ensures forall i :: 0 <= i < |cs| ==> InText(cs[i], text)
  {
    var cs := SortByStart(CheckResult(text), true);
    assert forall c :: c in CheckResult(text) ==> InText(c, text) by {
      RulesAreValid();
      CheckedSpec(text, Rules);
    }
    assert forall i :: 0 <= i < |cs| ==> cs[i] in multiset(CheckResult(text));
    cs
  }

  /** What `processContentEditable(el)` leaves in an element with content `nodes`: blank content
      is left alone; otherwise the old markers are unwrapped, and, if the extension is still
      enabled when the check returns, the corrections are tried in turn. */
  function Processed(nodes: seq<Segment>, enabled: bool): seq<Segment> {
    var text := TextContent(nodes);
    if !HasNonSpace(text) then nodes
    else if !enabled then Expanded(nodes)
    else
      ExpandedKeepsText(nodes);
      HighlightAllResult(Expanded(nodes), Tried(text))
  }

  /** The text of the element never changes; blank content is left alone; when the extension was
      disabled meanwhile, no marker is left. */
  lemma ProcessedKeepsText(nodes: seq<Segment>, enabled: bool)
    ensures TextContent(Processed(nodes, enabled)) == TextContent(nodes)
    ensures !HasNonSpace(TextContent(nodes)) ==> Processed(nodes, enabled) == nodes
    ensures HasNonSpace(TextContent(nodes)) && !enabled ==> Highlights(Processed(nodes, enabled)) == []
  {
    ExpandedKeepsText(nodes);
    ExpandedUnmarked(nodes);
    UnmarkedHasNoMarks(Expanded(nodes), 0);
  }

  /** On content that is not blank, every marker left is one a correction of the text asked
      for, none more often than it was reported, and the first correction tried (the one that
      starts last) always gets its marker. */
  lemma ProcessedMarks(nodes: seq<Segment>, enabled: bool)
    requires HasNonSpace(TextContent(nodes))
    ensures multiset(Highlights(Processed(nodes, enabled))) <= multiset(HighlightsOf(CheckResult(TextContent(nodes))))
    ensures enabled && CheckResult(TextContent(nodes)) != [] ==>
      HighlightOf(Tried(TextContent(nodes))[0]) in multiset(Highlights(Processed(nodes, enabled)))
  {
    var text := TextContent(nodes);
    var e := Expanded(nodes);
    ExpandedKeepsText(nodes);
    ExpandedUnmarked(nodes);
    UnmarkedHasNoMarks(e, 0);
    if enabled {
      HighlightAllBounds(e, Tried(text));
      HighlightsPermutation(Tried(text), CheckResult(text));
      if CheckResult(text) != [] {
        HighlightAllFirst(e, Tried(text));
      }
    }
  }

  /** When no two corrections of the text overlap and none is reported twice, every one of them
      gets its marker. */
  lemma ProcessedSeparate(nodes: seq<Segment>)
    requires HasNonSpace(TextContent(nodes))
    requires Separate(multiset(CheckResult(TextContent(nodes))))
    ensures multiset(Highlights(Processed(nodes, true))) == multiset(HighlightsOf(CheckResult(TextContent(nodes))))
  {
    var text := TextContent(nodes);
    var e := Expanded(nodes);
    ExpandedKeepsText(nodes);
    ExpandedUnmarked(nodes);
    UnmarkedHasNoMarks(e, 0);
    HighlightAllSeparate(e, Tried(text));
    HighlightsPermutation(Tried(text), CheckResult(text));
  }

  /** The content of one contenteditable element. */
  class Editable {
    var nodes: seq<Segment>

    constructor(nodes: seq<Segment>)
      ensures this.nodes == nodes
    {
      this.nodes := nodes;
    }

    /** `while (span.firstChild) parent.insertBefore(span.firstChild, span)`, then the span is
        removed (`clearAllHighlights`) or replaced by a text node holding its now empty
        `textContent` (`processContentEditable`). */
    method Unwrap(i: nat, replaceWithEmptyText: bool)
      requires i < |nodes| && nodes[i].Marker?
      modifies this
      ensures nodes == old(nodes[..i]) + old(nodes[i].children)
                       + (if replaceWithEmptyText then [Text("")] else []) + old(nodes[i + 1..])
    {
      var ch := nodes[i].children;
      ghost var before, after := nodes[..i], nodes[i + 1..];
      var k := 0;
      assert ch[k..] == ch;
      while k < |ch|
        invariant 0 <= k <= |ch|
        invariant nodes == before + ch[..k] + [Marker(ch[k..])] + after
      {
        // the span's first child moves out in front of the span
        var at := i + k;
        assert nodes[..at] == before + ch[..k] && nodes[at] == Marker(ch[k..]) && nodes[at + 1..] == after;
        nodes := nodes[..at] + [nodes[at].children[0], Marker(nodes[at].children[1..])] + nodes[at + 1..];
        assert ch[..k + 1] == ch[..k] + [ch[k]] && ch[k..][1..] == ch[k + 1..];
        k := k + 1;
      }
      assert ch[..k] == ch;
      var at := i + |ch|;
      assert nodes[..at] == before + ch && nodes[at + 1..] == after;
      if replaceWithEmptyText {
        nodes := nodes[..at] + [Text("")] + nodes[at + 1..];
      } else {
        nodes := nodes[..at] + nodes[at + 1..];
      }
    }

    /** `clearAllHighlights`, for the markers in this element: each marker is unwrapped and
        removed, nested ones included, so only text nodes remain and they are the same text
        nodes as before. */
    method ClearAllHighlights()
      modifies this
      ensures NoMarkers(nodes)
      ensures Leaves(nodes) == Leaves(old(nodes))
      ensures TextContent(nodes) == TextContent(old(nodes))
    {
      var i := 0;
      while i < |nodes|
        invariant 0 <= i <= |nodes|
        invariant NoMarkers(nodes[..i])
        invariant Leaves(nodes) == Leaves(old(nodes))
        decreases MarkerCount(nodes[i..]), |nodes| - i
      {
        if nodes[i].Marker? {
          ghost var ch, after := nodes[i].children, nodes[i + 1..];
          ghost var before := nodes[..i];
          Around(nodes, i);
          Unwrap(i, false);
          assert nodes == before + ch + after;
          UnwrapKeepsLeaves(before, ch, after);
          UnwrapShrinks(ch, after);
          CutAfterFirst(before, ch, after);
        } else {
          PrefixStep(nodes, i);
          SuffixStep(nodes, i);
          MarkerCountAppend([nodes[i]], nodes[i + 1..]);
          One(nodes[i]);
          i := i + 1;
        }
      }
      PrefixAll(nodes);
    }

    /** The unwrapping at the start of `processContentEditable`: each marker's children move out
        in front of it and the marker is replaced by an empty text node. */
    method UnwrapForCheck()
      modifies this
      ensures nodes == Expanded(old(nodes))
    {
      var i := 0;
      while i < |nodes|
        invariant 0 <= i <= |nodes|
        invariant NoMarkers(nodes[..i])
        invariant Expanded(nodes) == Expanded(old(nodes))
        decreases MarkerCount(nodes[i..]), |nodes| - i
      {
        if nodes[i].Marker? {
          ghost var ch, after := nodes[i].children, nodes[i + 1..];
          ghost var before := nodes[..i];
          Around(nodes, i);
          Unwrap(i, true);
          assert nodes == before + ch + [Text("")] + after;
          UnwrapExpands(before, ch, after);
          UnwrapToEmptyShrinks(ch, after);
          CutAfterFirstOfFour(before, ch, [Text("")], after);
        } else {
          PrefixStep(nodes, i);
          SuffixStep(nodes, i);
          MarkerCountAppend([nodes[i]], nodes[i + 1..]);
          One(nodes[i]);
          i := i + 1;
        }
      }
      PrefixAll(nodes);
      ExpandedOfUnmarked(nodes);
    }

    /** `processContentEditable(el)`: nothing happens to blank content; otherwise the old markers
        are unwrapped, the text is checked, and (if the extension is still enabled when the result
        arrives) each correction, from the last start to the first, is wrapped in a new marker
        where `surroundContents` allows it. */
    method ProcessContentEditable(enabled: bool)
      modifies this
      ensures nodes == Processed(old(nodes), enabled)
    {
      var text := TextContent(nodes);
      TrimEmptyIff(text);
      if |Trim(text)| == 0 {
        return;
      }
      ExpandedKeepsText(nodes);
      UnwrapForCheck();
      var corrections := CheckGrammar(text);
      if !enabled {
        return;
      }
      var sorted := SortByStart(corrections, true);
      assert sorted == Tried(text);
      HighlightAll(sorted);
    }

    /** `corrections.forEach(...)` over the sorted corrections. */
    method HighlightAll(cs: seq<Correction>)
      requires forall i :: 0 <= i < |cs| ==> InText(cs[i], TextContent(nodes))
      modifies this
      ensures nodes == HighlightAllResult(old(nodes), cs)
    {
      var k := 0;
      assert cs[k..] == cs;
      while k < |cs|
        invariant k <= |cs|
        invariant TextContent(nodes) == TextContent(old(nodes))
        invariant HighlightAllResult(nodes, cs[k..]) == HighlightAllResult(old(nodes), cs)
      {
        assert cs[k..][0] == cs[k] && cs[k..][1..] == cs[k + 1..];
        HighlightCorrection(cs[k]);
        k := k + 1;
      }
    }

    /** The `corrections.forEach` callback: find the correction's boundary points in the current
        text nodes, skip it if there is no start node, and otherwise try to wrap the range in a
        new marker, leaving the content as it was when `surroundContents` throws. */
    method HighlightCorrection(c: Correction)
      requires InText(c, TextContent(nodes))
      modifies this
      ensures nodes == HighlightResult(old(nodes), c)
    {
      var leaves := Leaves(nodes);
      var b := GetRangeAtOffsets(leaves, c.startIndex, c.endIndex);
      if b.startNode.None? {
        return;
      }
      WalkResultInside(leaves, c.startIndex, c.endIndex, b);
      var r := Surround(nodes, b.startNode.value, b.startOffset, b.endNode.value, b.endOffset);
      if r.Some? {
        nodes := r.value;
      }
    }
  }

  /** A list without markers has no highlights. */
  lemma {:induction false} UnmarkedHasNoMarks(nodes: seq<Segment>, base: nat)
    requires NoMarkers(nodes)
    ensures Marked(nodes, base) == []
    decreases |nodes|
  {
    if nodes != [] {
      UnmarkedHasNoMarks(nodes[1..], base + Width(nodes[0]));
    }
  }

  /** Unwrapping a marker removes one marker. */
  lemma UnwrapShrinks(ch: seq<Segment>, after: seq<Segment>)
    ensures MarkerCount([Marker(ch)] + after) == MarkerCount(ch + after) + 1
  {
    MarkerCountAppend([Marker(ch)], after);
    MarkerCountAppend(ch, after);
    One(Marker(ch));
  }

  lemma UnwrapToEmptyShrinks(ch: seq<Segment>, after: seq<Segment>)
    ensures MarkerCount([Marker(ch)] + after) == MarkerCount(ch + [Text("")] + after) + 1
  {
    UnwrapShrinks(ch, after);
    MarkerCountAppend(ch + [Text("")], after);
    MarkerCountAppend(ch, [Text("")]);
    MarkerCountAppend(ch, after);
    One(Text(""));
  }

  /** Unwrapping one marker into its children and an empty text node does not change the
      expansion. */
  lemma {:induction false} UnwrapExpands(before: seq<Segment>, ch: seq<Segment>, after: seq<Segment>)
    ensures Expanded(before + ch + [Text("")] + after) == Expanded(before + [Marker(ch)] + after)
  {
    GroupInner(before, ch, [Text("")], after);
    ExpandedThree(before, ch + [Text("")], after);
    ExpandedThree(before, [Marker(ch)], after);
    ExpandedAppend(ch, [Text("")]);
    One(Text(""));
    One(Marker(ch));
  }

  lemma ExpandedThree(a: seq<Segment>, b: seq<Segment>, c: seq<Segment>)
    ensures Expanded(a + b + c) == Expanded(a) + Expanded(b) + Expanded(c)
  {
    ExpandedAppend(a + b, c);
    ExpandedAppend(a, b);
  }
}
