/**
 * `updateTextareaMirror` (content.js:214-236): the overlay that sits on top of a textarea is
 * rebuilt from the textarea's value and the corrections, sorted by start offset, as a list of
 * plain pieces of text and marker spans. A marker shows the correction's `original`. HTML
 * escaping and the line-break rewrite are left out, so a piece is kept as the text it shows.
 */
module Mirror {
  import opened JsText
  import opened Corrections
  import opened Seqs

  datatype Part = Gap(text: string) | Mark(correction: Correction)

  /** The characters a part shows. */
  function Shown(p: Part): string {
    match p
    case Gap(s) => s
    case Mark(c) => c.original
  }

  /** The text of the whole mirror: its parts, joined. */
  function Rendered(parts: seq<Part>): string {
    if parts == [] then [] else Shown(parts[0]) + Rendered(parts[1..])
  }

  lemma {:induction false} RenderedAppend(a: seq<Part>, b: seq<Part>)
    ensures Rendered(a + b) == Rendered(a) + Rendered(b)
  {
    if a == [] {
      EmptyAppend(a, b);
    } else {
      ConsAppend(a, b);
      RenderedAppend(a[1..], b);
    }
  }

  /** The corrections shown as markers, in the order they appear in the mirror. */
  function Marks(parts: seq<Part>): seq<Correction> {
    if parts == [] then []
    else (if parts[0].Mark? then [parts[0].correction] else []) + Marks(parts[1..])
  }

  lemma {:induction false} MarksAppend(a: seq<Part>, b: seq<Part>)
    ensures Marks(a + b) == Marks(a) + Marks(b)
  {
    if a == [] {
      EmptyAppend(a, b);
    } else {
      ConsAppend(a, b);
      MarksAppend(a[1..], b);
    }
  }

  /** The parts the loop pushes for the corrections `cs`, with `lastEnd` the end of the previous
      marker: a gap when the correction starts after `lastEnd`, then its marker; `lastEnd` then
      becomes this correction's end, whatever it was before. */
  function Pieces(text: string, cs: seq<Correction>, lastEnd: int): seq<Part> {
    if cs == [] then []
    else
      var c := cs[0];
      (if c.startIndex > lastEnd then [Gap(Slice(text, lastEnd, c.startIndex))] else [])
      + [Mark(c)]
      + Pieces(text, cs[1..], c.endIndex)
  }

  /** The value of `lastEnd` after the loop: the end of the last correction, which under overlap
      need not be the largest end seen. */
  function FinalEnd(cs: seq<Correction>, lastEnd: int): int {
    if cs == [] then lastEnd else cs[|cs| - 1].endIndex
  }

  /** The mirror's content for a given value and correction list. */
  function MirrorOf(text: string, corrections: seq<Correction>): seq<Part> {
    if corrections == [] then [Gap(text)] else MirrorOfSorted(text, SortByStart(corrections, false))
  }

  /** The pieces for the sorted corrections, then the rest of the text after the last one. */
  function MirrorOfSorted(text: string, sorted: seq<Correction>): seq<Part> {
    var last := FinalEnd(sorted, 0);
    Pieces(text, sorted, 0) + (if last < |text| then [Gap(Slice(text, last, |text|))] else [])
  }

  /** The corrections, in order, each inside the text and starting at or after the end of the
      one before (the first at or after `from`). */
  predicate Chain(text: string, cs: seq<Correction>, from: int) {
    cs == [] || (from <= cs[0].startIndex && InText(cs[0], text) && Chain(text, cs[1..], cs[0].endIndex))
  }

  lemma {:induction false} ChainEnd(text: string, cs: seq<Correction>, from: int)
    requires 0 <= from && Chain(text, cs, from)
    ensures from <= FinalEnd(cs, from) <= |text| || (cs == [] && from > |text|)
    ensures cs != [] ==> FinalEnd(cs, from) == FinalEnd(cs[1..], cs[0].endIndex)
  {
    if cs != [] {
      if cs[1..] != [] {
        assert cs[1..][|cs[1..]| - 1] == cs[|cs| - 1];
      }
      ChainEnd(text, cs[1..], cs[0].endIndex);
    }
  }

  /** Over a chain, the pieces show exactly the text from `lastEnd` up to the end of the last
      correction. */
  lemma {:induction false} PiecesShowText(text: string, cs: seq<Correction>, lastEnd: int)
    requires 0 <= lastEnd <= |text|
    requires Chain(text, cs, lastEnd)
    ensures lastEnd <= FinalEnd(cs, lastEnd) <= |text|
    ensures Rendered(Pieces(text, cs, lastEnd)) == text[lastEnd..FinalEnd(cs, lastEnd)]
  {
    ChainEnd(text, cs, lastEnd);
    if cs != [] {
      var c := cs[0];
      var last := FinalEnd(cs, lastEnd);
      var gap := if c.startIndex > lastEnd then [Gap(Slice(text, lastEnd, c.startIndex))] else [];
      var rest := Pieces(text, cs[1..], c.endIndex);
      assert Pieces(text, cs, lastEnd) == gap + [Mark(c)] + rest;
      PiecesShowText(text, cs[1..], c.endIndex);
      assert Rendered(rest) == text[c.endIndex..last];
      RenderedAppend(gap + [Mark(c)], rest);
      RenderedAppend(gap, [Mark(c)]);
      assert Rendered([Mark(c)]) == c.original;
      assert Rendered(gap) == text[lastEnd..c.startIndex] by {
        if c.startIndex > lastEnd {
          assert Rendered(gap) == Slice(text, lastEnd, c.startIndex) + Rendered([]);
        }
      }
      SliceThree(text, lastEnd, c.startIndex, c.endIndex, last);
    }
  }

  lemma SliceThree(text: string, a: int, b: int, c: int, d: int)
    requires 0 <= a <= b <= c <= d <= |text|
    ensures text[a..d] == text[a..b] + text[b..c] + text[c..d]
  {
  }

  /** Over a chain every gap the loop pushes is non-empty: a gap appears only where a correction
      starts after the previous one ends. */
  lemma {:induction false} PiecesGapsNonEmpty(text: string, cs: seq<Correction>, lastEnd: int)
    requires 0 <= lastEnd <= |text|
    requires Chain(text, cs, lastEnd)
    ensures forall p :: p in Pieces(text, cs, lastEnd) && p.Gap? ==> p.text != []
  {
    if cs != [] {
      var c := cs[0];
      var gap := if c.startIndex > lastEnd then [Gap(Slice(text, lastEnd, c.startIndex))] else [];
      assert Pieces(text, cs, lastEnd) == gap + [Mark(c)] + Pieces(text, cs[1..], c.endIndex);
      PiecesGapsNonEmpty(text, cs[1..], c.endIndex);
    }
  }

  /** Over a chain starting at 0, the mirror shows the textarea's value exactly. */
  lemma {:induction false} SortedMirrorShowsText(text: string, sorted: seq<Correction>)
    requires Chain(text, sorted, 0)
    ensures Rendered(MirrorOfSorted(text, sorted)) == text
  {
    var last := FinalEnd(sorted, 0);
    var tail := if last < |text| then [Gap(Slice(text, last, |text|))] else [];
    var pieces := Pieces(text, sorted, 0);
    assert MirrorOfSorted(text, sorted) == pieces + tail;
    PiecesShowText(text, sorted, 0);
    RenderedAppend(pieces, tail);
    assert Rendered(tail) == text[last..] by {
      if last < |text| {
        assert Rendered(tail) == Slice(text, last, |text|) + Rendered([]);
      }
    }
    JoinAt(text, last);
  }

  /** The markers of the mirror are the sorted corrections, each once and in order. */
  lemma SortedMirrorMarks(text: string, sorted: seq<Correction>)
    ensures Marks(MirrorOfSorted(text, sorted)) == sorted
  {
    var last := FinalEnd(sorted, 0);
    var tail := if last < |text| then [Gap(Slice(text, last, |text|))] else [];
    var pieces := Pieces(text, sorted, 0);
    assert MirrorOfSorted(text, sorted) == pieces + tail;
    PiecesMarks(text, sorted, 0);
    MarksAppend(pieces, tail);
    assert Marks(tail) == [] by {
      if last < |text| {
        assert Marks(tail) == [] + Marks([]);
      }
    }
  }

  /** Over a chain no gap of the mirror is empty. */
  lemma SortedMirrorGapsNonEmpty(text: string, sorted: seq<Correction>)
    requires Chain(text, sorted, 0)
    ensures forall p :: p in MirrorOfSorted(text, sorted) && p.Gap? ==> p.text != []
  {
    var last := FinalEnd(sorted, 0);
    var tail := if last < |text| then [Gap(Slice(text, last, |text|))] else [];
    var pieces := Pieces(text, sorted, 0);
    assert MirrorOfSorted(text, sorted) == pieces + tail;
    PiecesGapsNonEmpty(text, sorted, 0);
  }

  /** With no corrections the mirror is the whole value; with corrections that form a chain once
      sorted, the mirror shows the value exactly, with one marker per correction in ascending
      order and no empty gap. */
  lemma MirrorShowsText(text: string, corrections: seq<Correction>)
    requires Chain(text, SortByStart(corrections, false), 0)
    ensures Rendered(MirrorOf(text, corrections)) == text
    ensures corrections != [] ==> Marks(MirrorOf(text, corrections)) == SortByStart(corrections, false)
    ensures corrections != [] ==> forall p :: p in MirrorOf(text, corrections) && p.Gap? ==> p.text != []
  {
    if corrections == [] {
      assert Rendered([Gap(text)]) == text + Rendered([]);
    } else {
      var sorted := SortByStart(corrections, false);
      SortedMirrorShowsText(text, sorted);
      SortedMirrorMarks(text, sorted);
      SortedMirrorGapsNonEmpty(text, sorted);
    }
  }

  /** The pieces hold one marker per correction, in the order given. */
  lemma {:induction false} PiecesMarks(text: string, cs: seq<Correction>, lastEnd: int)
    ensures Marks(Pieces(text, cs, lastEnd)) == cs
  {
    if cs != [] {
      var c := cs[0];
      var gap := if c.startIndex > lastEnd then [Gap(Slice(text, lastEnd, c.startIndex))] else [];
      PiecesMarks(text, cs[1..], c.endIndex);
      MarksAppend(gap + [Mark(c)], Pieces(text, cs[1..], c.endIndex));
      MarksAppend(gap, [Mark(c)]);
      assert Marks([Mark(c)]) == [c];
      assert cs == [c] + cs[1..];
    }
  }

  /** The overwrite of `lastEnd` is observable: for a correction nested inside an earlier one,
      the text after the inner correction's end is shown a second time. */
  lemma NestedCorrectionRepeatsText()
    ensures var outer := Correction("abcd", "x", "", 0, 4);
      var inner := Correction("b", "y", "", 1, 2);
      Rendered(MirrorOf("abcdef", [outer, inner])) == "abcdbcdef"
  {
    var text := "abcdef";
    var outer := Correction("abcd", "x", "", 0, 4);
    var inner := Correction("b", "y", "", 1, 2);
    var sorted := SortByStart([outer, inner], false);
    assert sorted == [outer, inner];
    assert sorted[1..] == [inner];
    assert Pieces(text, [inner], 4) == [Mark(inner)];
    assert Pieces(text, sorted, 0) == [Mark(outer), Mark(inner)];
    assert Slice(text, 2, 6) == "cdef";
    var parts := [Mark(outer), Mark(inner), Gap("cdef")];
    assert MirrorOf(text, [outer, inner]) == parts;
    assert parts[1..] == [Mark(inner), Gap("cdef")];
    assert parts[1..][1..] == [Gap("cdef")];
    assert Rendered([Gap("cdef")]) == "cdef";
    assert Rendered(parts) == "abcd" + "b" + "cdef";
  }

  /** One turn of the loop: the pieces from correction `i` on are its gap, its marker, and the
      pieces after it; `lastEnd` after correction `i` is that correction's end. */
  lemma PiecesStep(text: string, sorted: seq<Correction>, i: nat, lastEnd: int)
    requires i < |sorted|
    ensures Pieces(text, sorted[i..], lastEnd)
         == (if sorted[i].startIndex > lastEnd then [Gap(Slice(text, lastEnd, sorted[i].startIndex))] else [])
            + [Mark(sorted[i])] + Pieces(text, sorted[i + 1..], sorted[i].endIndex)
    ensures FinalEnd(sorted[..i + 1], 0) == sorted[i].endIndex
  {
    assert sorted[i..][1..] == sorted[i + 1..];
    assert sorted[..i + 1][i] == sorted[i];
  }

  /** `updateTextareaMirror(textarea, mirror, corrections)`: returns what it assigns to the
      mirror's `innerHTML`, before escaping. */
  method UpdateTextareaMirror(text: string, corrections: seq<Correction>) returns (parts: seq<Part>)
    ensures parts == MirrorOf(text, corrections)
    ensures corrections == [] ==> parts == [Gap(text)]
    ensures Chain(text, SortByStart(corrections, false), 0) ==> Rendered(parts) == text
  {
    if |corrections| == 0 {
      parts := [Gap(text)];
      return;
    }
    parts := [];
    var lastEnd := 0;
    var sorted := SortByStart(corrections, false);
    var i := 0;
    while i < |sorted|
      invariant 0 <= i <= |sorted|
      invariant lastEnd == FinalEnd(sorted[..i], 0)
      invariant parts + Pieces(text, sorted[i..], lastEnd) == Pieces(text, sorted, 0)
    {
      var c := sorted[i];
      PiecesStep(text, sorted, i, lastEnd);
      ghost var before := parts;
      ghost var gap := if c.startIndex > lastEnd then [Gap(Slice(text, lastEnd, c.startIndex))] else [];
      if c.startIndex > lastEnd {
        parts := parts + [Gap(Slice(text, lastEnd, c.startIndex))];
      }
      parts := parts + [Mark(c)];
      assert parts == before + gap + [Mark(c)];
      AppendFour(before, gap, [Mark(c)], Pieces(text, sorted[i + 1..], c.endIndex));
      lastEnd := c.endIndex;
      i := i + 1;
    }
    assert parts == Pieces(text, sorted, 0) && lastEnd == FinalEnd(sorted, 0) by {
      PrefixAll(sorted);
      assert sorted[i..] == [];
    }
    if lastEnd < |text| {
      parts := parts + [Gap(Slice(text, lastEnd, |text|))];
    }
    if Chain(text, sorted, 0) {
      MirrorShowsText(text, corrections);
    }
  }
}
