/**
 * Accepting a suggestion in a textarea (content.js:271-274): the new value is the text before
 * the correction, the suggestion, and the text after it, each piece cut with `slice`.
 */
module TextareaSplice {
  import opened JsText
  import opened Corrections
  import opened Seqs

  /** `text.slice(0, start) + suggestion + text.slice(end)`. */
  function Splice(text: string, start: int, end: int, suggestion: string): (r: string)
    ensures 0 <= start <= end <= |text| ==> r == text[..start] + suggestion + text[end..]
  {
    Slice(text, 0, start) + suggestion + Slice(text, end, |text|)
  }

  /** For a range inside the text the splice keeps the prefix, puts the suggestion at
      `[start, start + |suggestion|)`, keeps the suffix after it, and changes the length by
      the difference between the suggestion and the replaced range. */
  lemma SpliceLayout(text: string, start: int, end: int, suggestion: string)
    requires 0 <= start <= end <= |text|
    ensures var r := Splice(text, start, end, suggestion);
      && |r| == |text| - (end - start) + |suggestion|
      && r[..start] == text[..start]
      && r[start..start + |suggestion|] == suggestion
      && r[start + |suggestion|..] == text[end..]
  {
    var r := Splice(text, start, end, suggestion);
    assert r == text[..start] + suggestion + text[end..];
    assert r[..start] == text[..start];
    assert r[start..start + |suggestion|] == suggestion;
    assert r[start + |suggestion|..] == text[end..];
  }

  /** Splicing the replaced text back over the suggestion restores the original value. */
  lemma {:induction false} SpliceRoundTrip(text: string, start: int, end: int, suggestion: string)
    requires 0 <= start <= end <= |text|
    ensures Splice(Splice(text, start, end, suggestion), start, start + |suggestion|, text[start..end]) == text
  {
    var r := Splice(text, start, end, suggestion);
    SpliceLayout(text, start, end, suggestion);
    assert r[..start] + text[start..end] + r[start + |suggestion|..] == text[..start] + text[start..end] + text[end..];
    assert text[..start] + text[start..end] + text[end..] == text;
  }

  /** Offsets of another correction after an accepted one: unchanged before it, shifted by the
      change in length after it. */
  function ShiftAfterSplice(c: Correction, start: int, end: int, suggestion: string): Correction {
    if c.endIndex <= start then c
    else
      var delta := |suggestion| - (end - start);
      c.(startIndex := c.startIndex + delta, endIndex := c.endIndex + delta)
  }

  /** A piece of the text that ends before `start` is found at the same offsets afterwards. */
  lemma SpliceKeepsPieceBefore(text: string, start: int, end: int, suggestion: string, i: int, j: int)
    requires 0 <= start <= end <= |text|
    requires 0 <= i <= j <= start
    ensures Splice(text, start, end, suggestion)[i..j] == text[i..j]
  {
    var r := Splice(text, start, end, suggestion);
    assert r == text[..start] + suggestion + text[end..];
    assert r[i..j] == r[..start][i..j];
    assert text[i..j] == text[..start][i..j];
  }

  /** A piece of the text that starts after `end` is found shifted by the change in length. */
  lemma SpliceShiftsPieceAfter(text: string, start: int, end: int, suggestion: string, i: int, j: int)
    requires 0 <= start <= end <= i <= j <= |text|
    ensures var d := |suggestion| - (end - start);
      Splice(text, start, end, suggestion)[i + d..j + d] == text[i..j]
  {
    var r := Splice(text, start, end, suggestion);
    var k, d := start + |suggestion|, |suggestion| - (end - start);
    var a, b := i - end, j - end;
    SpliceLayout(text, start, end, suggestion);
    assert k + a == i + d && k + b == j + d;
    SliceOfTail(r, k, a, b);
    SliceOfTail(text, end, a, b);
    assert r[k..] == text[end..];
  }

  /** Accepting one correction leaves every correction that does not overlap it describing the
      same text in the new value: the corrections before it keep their offsets and those after
      it move by the change in length. */
  lemma SpliceKeepsDisjointCorrections(text: string, start: int, end: int, suggestion: string, c: Correction)
    requires 0 <= start <= end <= |text|
    requires InText(c, text)
    requires c.endIndex <= start || end <= c.startIndex
    ensures InText(ShiftAfterSplice(c, start, end, suggestion), Splice(text, start, end, suggestion))
  {
    if c.endIndex <= start {
      SpliceKeepsPieceBefore(text, start, end, suggestion, c.startIndex, c.endIndex);
    } else {
      SpliceShiftsPieceAfter(text, start, end, suggestion, c.startIndex, c.endIndex);
    }
  }

  /** A textarea: its value is the only state the model needs. */
  class Textarea {
    var value: string

    constructor (value: string)
      ensures this.value == value
    {
      this.value := value;
    }

    /** `acceptTextareaCorrection`: replaces `[start, end)` of the value by the suggestion. The
        `input` event, the counter message and the re-check that follow are not modelled. */
    method AcceptCorrection(start: int, end: int, suggestion: string)
      modifies this
      ensures value == Splice(old(value), start, end, suggestion)
      ensures 0 <= start <= end <= |old(value)| ==>
        value == old(value)[..start] + suggestion + old(value)[end..]
    {
      var text := value;
      var newText := Slice(text, 0, start) + suggestion + Slice(text, end, |text|);
      value := newText;
    }
  }
}
