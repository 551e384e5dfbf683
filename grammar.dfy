/**
 * `checkGrammar` (api.js:18-70), the stand-in correction source: it runs a fixed, ordered list
 * of rules over the text, collects every match of each rule with a global `exec` loop, turns
 * each match into a correction, and, when no rule matched, offers to capitalise the first word.
 *
 * No regular-expression engine is modelled. Every rule's pattern has the shape
 * `\b t1 \s+ t2 \s+ ... tn \b` (flags `gi`), where each `ti` is a literal word or the capture
 * group `(\w+)`. Each literal begins and ends with a word character, so the greedy `\s+` and
 * `\w+` never have to give characters back, and the match at a given position is unique; the
 * matcher below follows that one path.
 */
module Grammar {
  import opened Options
  import opened JsText
  import opened Corrections

  /** One element of a pattern: a literal matched without regard to ASCII case, or `(\w+)`. */
  datatype Token = Literal(word: string) | CaptureWord

  datatype Rule = Rule(pattern: seq<Token>, suggestion: string, explanation: string)

  /** The rule list of api.js:25-36, in order. */
  const Rules: seq<Rule> := [
    Rule([Literal("teh")], "the", "Common typo: \"teh\" should be \"the\""),
    Rule([Literal("recieve")], "receive", "Spelling: \"i before e except after c\""),
    Rule([Literal("occured")], "occurred", "Double \"r\" needed in past tense of \"occur\""),
    Rule([Literal("their"), Literal("are")], "there are", "\"Their\" = possessive; \"there\" = location/existence"),
    Rule([Literal("you're"), Literal("right")], "you're right", "\"You're\" = you are (contraction)"),
    Rule([Literal("its"), CaptureWord], "it's $1", "\"It's\" = it is (contraction); \"its\" = possessive"),
    Rule([Literal("definately")], "definitely", "Spelling: \"definitely\" has no \"a\""),
    Rule([Literal("seperate")], "separate", "\"Separate\" is spelled with \"a\" not \"e\""),
    Rule([Literal("accomodate")], "accommodate", "Double \"m\" and double \"d\" in accommodate"),
    Rule([Literal("affect"), Literal("vs"), Literal("effect")], "effect", "\"Effect\" = noun (result); \"affect\" = verb (influence)")
  ]

  const FallbackExplanation: string := "Consider capitalizing the first word of your sentence."

  /** A literal the matcher handles exactly: non-empty, ASCII, and beginning and ending with a
      word character; `(\w+)` always qualifies. */
  predicate ValidToken(t: Token) {
    t.Literal? ==>
      && |t.word| > 0
      && IsWordChar(t.word[0]) && IsWordChar(t.word[|t.word| - 1])
      && forall k :: 0 <= k < |t.word| ==> t.word[k] < 128 as char
  }

  predicate ValidPattern(p: seq<Token>) {
    |p| > 0 && forall t :: t in p ==> ValidToken(t)
  }

  lemma RulesAreValid()
    ensures forall r :: r in Rules ==> ValidPattern(r.pattern)
  {
    forall i | 0 <= i < |Rules| ensures ValidPattern(Rules[i].pattern) {
      var p := Rules[i].pattern;
      forall t | t in p ensures ValidToken(t) {
        if t.Literal? {
          LiteralIsValid(t.word);
        }
      }
    }
  }

  /** The literals of the rule list. */
  predicate IsRuleLiteral(w: string) {
    w in ["teh", "recieve", "occured", "their", "are", "you're", "right", "its", "definately",
          "seperate", "accomodate", "affect", "vs", "effect"]
  }

  lemma LiteralIsValid(w: string)
    requires IsRuleLiteral(w)
    ensures ValidToken(Literal(w))
  {
  }

  /** A successful match: `match.index`, the end of `match[0]`, and capture group 1 when the
      pattern has one. */
  datatype Match = Match(start: nat, end: nat, group: Option<string>)

  /** `word` occurs at position `i` of `text`, ignoring ASCII case. */
  predicate LiteralAt(text: string, i: nat, word: string) {
    i + |word| <= |text| && forall k :: 0 <= k < |word| ==> SameIgnoringCase(text[i + k], word[k])
  }

  /** Where a single token ending at `i` would end, if it matches there. */
  function TokenEnd(text: string, i: nat, t: Token): (r: Option<nat>)
    requires i <= |text|
    requires ValidToken(t)
    ensures r.Some? ==> i < r.value <= |text| && IsWordChar(text[i])
    ensures r.Some? && t.CaptureWord? ==> forall k :: i <= k < r.value ==> IsWordChar(text[k])
  {
    match t
    case Literal(w) =>
      if LiteralAt(text, i, w) then
        assert SameIgnoringCase(text[i], w[0]);
        Some(i + |w|)
      else None
    case CaptureWord =>
      var j := WordRunEnd(text, i);
      if j > i then Some(j) else None
  }

  /** The tokens `toks`, separated by `\s+` and followed by `\b`, matched from position `i`:
      the end of the match and the text of the capture group, if any. */
  function MatchTokens(text: string, i: nat, toks: seq<Token>): (r: Option<(nat, Option<string>)>)
    requires i <= |text|
    requires |toks| > 0 && forall t :: t in toks ==> ValidToken(t)
    ensures r.Some? ==> i < r.value.0 <= |text| && IsWordChar(text[i])
    ensures r.Some? && r.value.1.Some? ==>
      |r.value.1.value| > 0 && forall k :: 0 <= k < |r.value.1.value| ==> IsWordChar(r.value.1.value[k])
    ensures r.Some? ==> IsBoundary(text, r.value.0)
    ensures r.Some? ==> (r.value.1.Some? <==> CaptureWord in toks)
    decreases |toks|
  {
    assert toks == [toks[0]] + toks[1..];
    match TokenEnd(text, i, toks[0])
    case None => None
    case Some(e) =>
      var cap := if toks[0].CaptureWord? then Some(text[i..e]) else None;
      if |toks| == 1 then
        if IsBoundary(text, e) then Some((e, cap)) else None
      else
        var j := SpaceRunEnd(text, e);
        if j == e then None
        else
          match MatchTokens(text, j, toks[1..])
          case None => None
          case Some(rest) => Some((rest.0, if cap.Some? then cap else rest.1))
  }

  /** The pattern matched at position `p`: `\b`, then the tokens. */
  function MatchAt(text: string, pat: seq<Token>, p: nat): (r: Option<Match>)
    requires ValidPattern(pat)
    ensures r.Some? ==> r.value.start == p < r.value.end <= |text| && IsWordChar(text[p])
    ensures r.Some? && r.value.group.Some? ==>
      forall k :: 0 <= k < |r.value.group.value| ==> IsWordChar(r.value.group.value[k])
  {
    if p <= |text| && IsBoundary(text, p) then
      match MatchTokens(text, p, pat)
      case None => None
      case Some(m) => Some(Match(p, m.0, m.1))
    else None
  }

  /** `regex.exec(text)` with `regex.lastIndex == from`: the leftmost match at or after `from`. */
  function NextMatch(text: string, pat: seq<Token>, from: nat): (r: Option<Match>)
    requires ValidPattern(pat)
    ensures r.Some? ==> from <= r.value.start < r.value.end <= |text| && IsWordChar(text[r.value.start])
    decreases |text| - from
  {
    if from > |text| then None
    else if MatchAt(text, pat, from).Some? then MatchAt(text, pat, from)
    else if from == |text| then None
    else NextMatch(text, pat, from + 1)
  }

  /** `exec` finds the leftmost match: the pattern matches where the result starts, with that
      result, and nowhere between `from` and there. */
  lemma {:induction false} NextMatchIsLeftmost(text: string, pat: seq<Token>, from: nat)
    requires ValidPattern(pat)
    ensures NextMatch(text, pat, from).Some? ==>
      MatchAt(text, pat, NextMatch(text, pat, from).value.start) == NextMatch(text, pat, from)
    ensures NextMatch(text, pat, from).Some? ==>
      forall q :: from <= q < NextMatch(text, pat, from).value.start ==> MatchAt(text, pat, q).None?
    decreases |text| - from
  {
    if from < |text| && MatchAt(text, pat, from).None? {
      NextMatchIsLeftmost(text, pat, from + 1);
      assert NextMatch(text, pat, from) == NextMatch(text, pat, from + 1);
    }
  }

  /** Without a result from `exec`, the pattern matches nowhere from `from` on. */
  lemma {:induction false} NoNextMatch(text: string, pat: seq<Token>, from: nat)
    requires ValidPattern(pat)
    ensures NextMatch(text, pat, from).None? ==> forall q :: from <= q ==> MatchAt(text, pat, q).None?
    decreases |text| - from
  {
    if from < |text| && MatchAt(text, pat, from).None? {
      NoNextMatch(text, pat, from + 1);
      assert NextMatch(text, pat, from) == NextMatch(text, pat, from + 1);
    }
  }

  /** The matches the `exec` loop collects when it starts with `lastIndex == from`: each search
      resumes at the end of the previous match. */
  function AllMatches(text: string, pat: seq<Token>, from: nat): (ms: seq<Match>)
    requires ValidPattern(pat)
    ensures forall i :: 0 <= i < |ms| ==> from <= ms[i].start < ms[i].end <= |text|
    ensures forall i :: 0 <= i < |ms| - 1 ==> ms[i].end <= ms[i + 1].start
    decreases |text| - from
  {
    match NextMatch(text, pat, from)
    case None => []
    case Some(m) => [m] + AllMatches(text, pat, m.end)
  }

  /** The matches of one rule never overlap and come in ascending order: each starts at or after
      the end of every earlier one. */
  lemma {:induction false} AllMatchesOrdered(text: string, pat: seq<Token>, from: nat, i: nat, j: nat)
    requires ValidPattern(pat)
    requires i < j < |AllMatches(text, pat, from)|
    ensures AllMatches(text, pat, from)[i].end <= AllMatches(text, pat, from)[j].start
    decreases j - i
  {
    var ms := AllMatches(text, pat, from);
    if j > i + 1 {
      AllMatchesOrdered(text, pat, from, i, j - 1);
      assert ms[j - 1].start < ms[j - 1].end <= ms[j].start;
    }
  }

  /** Every position where the pattern matches lies within one of the collected matches: the
      loop finds every match that does not overlap an earlier one. */
  lemma {:induction false} AllMatchesComplete(text: string, pat: seq<Token>, from: nat, q: nat)
    requires ValidPattern(pat)
    requires from <= q && MatchAt(text, pat, q).Some?
    ensures exists i :: (0 <= i < |AllMatches(text, pat, from)| &&
      AllMatches(text, pat, from)[i].start <= q < AllMatches(text, pat, from)[i].end)
    decreases |text| - from
  {
    var ms := AllMatches(text, pat, from);
    var m := NextMatch(text, pat, from);
    NextMatchIsLeftmost(text, pat, from);
    NoNextMatch(text, pat, from);
    assert m.Some?;
    assert ms[0] == m.value;
    if q >= m.value.end {
      AllMatchesComplete(text, pat, m.value.end, q);
      var rest := AllMatches(text, pat, m.value.end);
      assert ms[1..] == rest;
      var i :| 0 <= i < |rest| && rest[i].start <= q < rest[i].end;
      assert ms[i + 1] == rest[i];
    }
  }

  /** `template` holds `$1` at position `k`. */
  predicate DollarOneAt(template: string, k: int) {
    0 <= k && k + 1 < |template| && template[k] == '$' && template[k + 1] == '1'
  }

  /** `template.includes('$1')`. */
  predicate HasDollarOne(template: string) {
    exists k :: 0 <= k < |template| && DollarOneAt(template, k)
  }

  /** `template.replace('$1', x)`: the first `$1` replaced by `x`. The argument is a run of word
      characters, so the `$` patterns of a replacement string never arise. */
  function ReplaceFirstDollarOne(template: string, x: string): (r: string)
    ensures |template| < 2 ==> r == template
  {
    if |template| < 2 then template
    else if template[0] == '$' && template[1] == '1' then x + template[2..]
    else [template[0]] + ReplaceFirstDollarOne(template[1..], x)
  }

  /** `$1` first occurs at `k`. */
  predicate FirstDollarOneAt(template: string, k: int) {
    DollarOneAt(template, k) && forall j :: 0 <= j < k ==> !DollarOneAt(template, j)
  }

  lemma DollarOneShift(template: string, k: int)
    requires |template| > 0 && k >= 0
    ensures DollarOneAt(template[1..], k) <==> DollarOneAt(template, k + 1)
  {
  }

  /** The replacement happens at the first `$1` and nowhere else. */
  lemma {:induction false} ReplaceAtFirstDollarOne(template: string, x: string, k: int)
    requires FirstDollarOneAt(template, k)
    ensures ReplaceFirstDollarOne(template, x) == template[..k] + x + template[k + 2..]
    decreases |template|
  {
    if k > 0 {
      assert !DollarOneAt(template, 0);
      var t := template[1..];
      assert ReplaceFirstDollarOne(template, x) == [template[0]] + ReplaceFirstDollarOne(t, x);
      assert FirstDollarOneAt(t, k - 1) by {
        forall j | 0 <= j < k - 1 ensures !DollarOneAt(t, j) {
          DollarOneShift(template, j);
        }
        DollarOneShift(template, k - 1);
      }
      ReplaceAtFirstDollarOne(t, x, k - 1);
      calc {
        ReplaceFirstDollarOne(template, x);
        [template[0]] + (t[..k - 1] + x + t[k + 1..]);
        { assert template[..k] == [template[0]] + t[..k - 1];
          assert template[k + 2..] == t[k + 1..]; }
        template[..k] + x + template[k + 2..];
      }
    }
  }

  /** Without a `$1` the template is returned unchanged. */
  lemma {:induction false} ReplaceWithoutDollarOne(template: string, x: string)
    requires !HasDollarOne(template)
    ensures ReplaceFirstDollarOne(template, x) == template
    decreases |template|
  {
    if |template| >= 2 {
      assert !DollarOneAt(template, 0);
      var t := template[1..];
      if HasDollarOne(t) {
        var j :| 0 <= j < |t| && DollarOneAt(t, j);
        DollarOneShift(template, j);
        assert false;
      }
      ReplaceWithoutDollarOne(t, x);
      assert template == [template[0]] + t;
    }
  }

  /** The suggestion of a correction: the rule's fixed text, or, when it contains `$1`, that text
      with its first `$1` replaced by capture group 1 (`match[1] || ''`). */
  function SuggestionFor(template: string, group: Option<string>): (r: string)
    ensures !HasDollarOne(template) ==> r == template
    ensures forall k :: FirstDollarOneAt(template, k) ==>
      r == template[..k] + (if group.Some? then group.value else "") + template[k + 2..]
  {
    var x := if group.Some? then group.value else "";
    forall k | FirstDollarOneAt(template, k)
      ensures ReplaceFirstDollarOne(template, x) == template[..k] + x + template[k + 2..]
    {
      ReplaceAtFirstDollarOne(template, x, k);
    }
    if HasDollarOne(template) then ReplaceFirstDollarOne(template, x)
    else template
  }

  /** The record pushed for one match of `rule`. */
  function CorrectionFor(text: string, rule: Rule, m: Match): (c: Correction)
    requires m.start <= m.end <= |text|
    ensures c.startIndex == m.start && c.endIndex == m.end
    ensures c.original == text[c.startIndex..c.endIndex]
    ensures m.start < m.end ==> InText(c, text)
    ensures c.explanation == rule.explanation
  {
    Correction(text[m.start..m.end], SuggestionFor(rule.suggestion, m.group), rule.explanation,
               m.start, m.start + |text[m.start..m.end]|)
  }

  /** The records the `exec` loop pushes for `rule` when it starts with `lastIndex == from`:
      one per match, each search resuming where the previous match ended. */
  function CorrectionsFrom(text: string, rule: Rule, from: nat): (cs: seq<Correction>)
    requires ValidPattern(rule.pattern)
    decreases |text| - from
  {
    match NextMatch(text, rule.pattern, from)
    case None => []
    case Some(m) => [CorrectionFor(text, rule, m)] + CorrectionsFrom(text, rule, m.end)
  }

  /** The corrections of one rule are the records of the collected matches, one for one and in
      order. */
  lemma {:induction false} CorrectionsFromMatches(text: string, rule: Rule, from: nat)
    requires ValidPattern(rule.pattern)
    ensures |CorrectionsFrom(text, rule, from)| == |AllMatches(text, rule.pattern, from)|
    ensures forall i :: 0 <= i < |AllMatches(text, rule.pattern, from)| ==>
      CorrectionsFrom(text, rule, from)[i] == CorrectionFor(text, rule, AllMatches(text, rule.pattern, from)[i])
    decreases |text| - from
  {
    match NextMatch(text, rule.pattern, from)
    case None =>
    case Some(m) =>
      CorrectionsFromMatches(text, rule, m.end);
      var ms := AllMatches(text, rule.pattern, from);
      var cs := CorrectionsFrom(text, rule, from);
      assert ms == [m] + AllMatches(text, rule.pattern, m.end);
      assert cs == [CorrectionFor(text, rule, m)] + CorrectionsFrom(text, rule, m.end);
  }

  /** The corrections of one rule. */
  function RuleCorrections(text: string, rule: Rule): seq<Correction>
    requires ValidPattern(rule.pattern)
  {
    CorrectionsFrom(text, rule, 0)
  }

  /** The corrections of a list of rules: those of each rule in turn, grouped by rule in the
      list's order. */
  function RulesCorrections(text: string, rules: seq<Rule>): seq<Correction>
    requires forall r :: r in rules ==> ValidPattern(r.pattern)
  {
    if rules == [] then []
    else RulesCorrections(text, rules[..|rules| - 1]) + RuleCorrections(text, rules[|rules| - 1])
  }

  /** Every correction a rule produces describes the text it replaces: its offsets are in bounds,
      its span is non-empty and `original` is the text between them. */
  lemma RuleCorrectionsInText(text: string, rule: Rule)
    requires ValidPattern(rule.pattern)
    ensures forall c :: c in RuleCorrections(text, rule) ==> InText(c, text)
  {
    var ms := AllMatches(text, rule.pattern, 0);
    var cs := RuleCorrections(text, rule);
    CorrectionsFromMatches(text, rule, 0);
    forall c | c in cs
      ensures InText(c, text)
    {
      var i :| 0 <= i < |cs| && c == cs[i];
      assert c == CorrectionFor(text, rule, ms[i]);
    }
  }

  /** The same holds for the corrections of every rule in a list. */
  lemma {:induction false} RulesCorrectionsInText(text: string, rules: seq<Rule>)
    requires forall r :: r in rules ==> ValidPattern(r.pattern)
    ensures forall c :: c in RulesCorrections(text, rules) ==> InText(c, text)
    decreases |rules|
  {
    if rules != [] {
      var init, rule := rules[..|rules| - 1], rules[|rules| - 1];
      RulesCorrectionsInText(text, init);
      RuleCorrectionsInText(text, rule);
      assert RulesCorrections(text, rules) == RulesCorrections(text, init) + RuleCorrections(text, rule);
    }
  }

  /** A rule only matches where the text has a word character, so text made only of `\s` has
      no rule corrections. */
  lemma {:induction false} NoRuleCorrectionsInBlankText(text: string, rules: seq<Rule>)
    requires forall r :: r in rules ==> ValidPattern(r.pattern)
    requires !HasNonSpace(text)
    ensures RulesCorrections(text, rules) == []
    decreases |rules|
  {
    if rules != [] {
      NoRuleCorrectionsInBlankText(text, rules[..|rules| - 1]);
      var rule := rules[|rules| - 1];
      if NextMatch(text, rule.pattern, 0).Some? {
        assert false;
      }
    }
  }

  /** `text.match(/^\s*(\S+)/)`: `match.index`, `match[0]` and `match[1]`. */
  datatype WordMatch = WordMatch(index: nat, whole: string, word: string)

  function MatchFirstWord(text: string): (r: Option<WordMatch>)
    ensures r.Some? <==> HasNonSpace(text)
    ensures r.Some? ==>
      && r.value.index == 0
      && r.value.word == FirstWord(text)
      && r.value.whole == text[..LeadingSpaces(text) + |r.value.word|]
  {
    var a := LeadingSpaces(text);
    if a < |text| then
      var e := NonSpaceRunEnd(text, a);
      Some(WordMatch(0, text[..e], text[a..e]))
    else
      assert !HasNonSpace(text);
      None
  }

  /** Where `match` puts the first word: its index and the length of `match[0]` give the offsets
      of the word itself. */
  lemma FirstWordMatch(text: string)
    requires HasNonSpace(text)
    ensures MatchFirstWord(text).Some?
    ensures MatchFirstWord(text).value.word == FirstWord(text)
    ensures MatchFirstWord(text).value.index + |MatchFirstWord(text).value.whole| == LeadingSpaces(text) + |FirstWord(text)|
    ensures MatchFirstWord(text).value.index + (|MatchFirstWord(text).value.whole| - |FirstWord(text)|) == LeadingSpaces(text)
  {
  }

  /** The first word: the run of `\S` characters after the leading `\s` ones. */
  function FirstWord(text: string): (w: string)
    ensures HasNonSpace(text) ==> |w| > 0
    ensures forall k :: 0 <= k < |w| ==> !IsSpace(w[k])
    ensures LeadingSpaces(text) + |w| <= |text|
    ensures w == text[LeadingSpaces(text)..LeadingSpaces(text) + |w|]
    ensures LeadingSpaces(text) + |w| < |text| ==> IsSpace(text[LeadingSpaces(text) + |w|])
  {
    var a := LeadingSpaces(text);
    if a < |text| then text[a..NonSpaceRunEnd(text, a)] else []
  }

  /** `word.charAt(0).toUpperCase() + word.slice(1).toLowerCase()` with ASCII case mapping. */
  function Capitalized(word: string): (r: string)
    requires |word| > 0
    ensures |r| == |word|
    ensures r[0] == ToUpperAscii(word[0])
    ensures forall k :: 1 <= k < |word| ==> r[k] == ToLowerAscii(word[k])
  {
    [ToUpperAscii(word[0])] + LowerAscii(word[1..])
  }

  /** What the check returns for a rule list: the rule corrections, or, when there are none,
      at most the one first-word suggestion. */
  function Checked(text: string, rules: seq<Rule>): seq<Correction>
    requires forall r :: r in rules ==> ValidPattern(r.pattern)
  {
    WithFallback(text, RulesCorrections(text, rules))
  }

  /** The rule corrections `found`, or, when there are none, at most the first-word one. */
  function WithFallback(text: string, found: seq<Correction>): seq<Correction> {
    if found != [] then found
    else if HasNonSpace(text) && |FirstWord(text)| > 3 then
      var w := FirstWord(text);
      [Correction(w, Capitalized(w), FallbackExplanation, LeadingSpaces(text), LeadingSpaces(text) + |w|)]
    else []
  }

  /** What `checkGrammar` returns: the result for the fixed rule list. */
  function CheckResult(text: string): seq<Correction> {
    RulesAreValid();
    Checked(text, Rules)
  }

  /** What the check promises: every correction describes the text it replaces; the rule
      corrections are returned whenever there are any; otherwise there is at most one
      correction, for a first word longer than three characters, placed after the leading
      `\s` characters and capitalised; blank text gets no correction at all. */
  lemma CheckedSpec(text: string, rules: seq<Rule>)
    requires forall r :: r in rules ==> ValidPattern(r.pattern)
    ensures forall c :: c in Checked(text, rules) ==> InText(c, text)
    ensures RulesCorrections(text, rules) != [] ==> Checked(text, rules) == RulesCorrections(text, rules)
    ensures RulesCorrections(text, rules) == [] ==>
      (Checked(text, rules) != [] <==> HasNonSpace(text) && |FirstWord(text)| > 3)
    ensures RulesCorrections(text, rules) == [] && Checked(text, rules) != [] ==>
      && |Checked(text, rules)| == 1
      && Checked(text, rules)[0].original == FirstWord(text)
      && Checked(text, rules)[0].startIndex == LeadingSpaces(text)
      && Checked(text, rules)[0].endIndex == LeadingSpaces(text) + |FirstWord(text)|
      && Checked(text, rules)[0].suggestion == Capitalized(FirstWord(text))
      && Checked(text, rules)[0].explanation == FallbackExplanation
    ensures !HasNonSpace(text) ==> Checked(text, rules) == []
  {
    RulesCorrectionsInText(text, rules);
    if !HasNonSpace(text) {
      NoRuleCorrectionsInBlankText(text, rules);
    }
  }

  /** One rule's turn of `forEach`: a fresh global regex whose `exec` loop pushes a correction per
      match, resuming each search where the previous match ended. */
  method CollectRuleCorrections(text: string, rule: Rule) returns (cs: seq<Correction>)
    requires ValidPattern(rule.pattern)
    ensures cs == RuleCorrections(text, rule)
  {
    cs := [];
    var lastIndex := 0;
    while true
      invariant lastIndex <= |text|
      invariant RuleCorrections(text, rule) == cs + CorrectionsFrom(text, rule, lastIndex)
      decreases |text| - lastIndex
    {
      var m := NextMatch(text, rule.pattern, lastIndex);
      if m.None? {
        break;
      }
      var hit := m.value;
      var c := CorrectionFor(text, rule, hit);
      ghost var rest := CorrectionsFrom(text, rule, hit.end);
      assert CorrectionsFrom(text, rule, lastIndex) == [c] + rest;
      assert cs + ([c] + rest) == (cs + [c]) + rest;
      cs := cs + [c];
      lastIndex := hit.end;
    }
  }

  /** `rules.forEach(...)`: each rule's corrections in turn, appended in rule order. */
  method ApplyRules(text: string, rules: seq<Rule>) returns (corrections: seq<Correction>)
    requires forall r :: r in rules ==> ValidPattern(r.pattern)
    ensures corrections == RulesCorrections(text, rules)
  {
    corrections := [];
    var r := 0;
    while r < |rules|
      invariant 0 <= r <= |rules|
      invariant corrections == RulesCorrections(text, rules[..r])
    {
      var rule := rules[r];
      assert rules[..r + 1][..r] == rules[..r] && rules[..r + 1][r] == rule;
      var found := CollectRuleCorrections(text, rule);
      corrections := corrections + found;
      r := r + 1;
    }
    assert rules[..r] == rules;
  }

  /** The body of `checkGrammar` for a given rule list: the rule loop, then the first-word
      fallback when it found nothing. */
  method CheckWithRules(text: string, rules: seq<Rule>) returns (corrections: seq<Correction>)
    requires forall r :: r in rules ==> ValidPattern(r.pattern)
    ensures corrections == Checked(text, rules)
  {
    corrections := ApplyRules(text, rules);
    ghost var found := corrections;
    TrimEmptyIff(text);
    if |corrections| == 0 && |Trim(text)| > 0 {
      var firstWord := MatchFirstWord(text);
      FirstWordMatch(text);
      if firstWord.Some? {
        var word := firstWord.value.word;
        if |word| > 3 {
          corrections := corrections + [Correction(
            word,
            Capitalized(word),
            FallbackExplanation,
            firstWord.value.index + (|firstWord.value.whole| - |word|),
            firstWord.value.index + |firstWord.value.whole|)];
        }
      }
    }
    assert corrections == WithFallback(text, found);
  }

  /** `checkGrammar(text)`, without the simulated delay. */
  method CheckGrammar(text: string) returns (corrections: seq<Correction>)
    ensures corrections == CheckResult(text)
    ensures forall c :: c in corrections ==> InText(c, text)
    ensures !HasNonSpace(text) ==> corrections == []
  {
    RulesAreValid();
    corrections := CheckWithRules(text, Rules);
    CheckedSpec(text, Rules);
  }
}
