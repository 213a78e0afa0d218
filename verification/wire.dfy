/** The `headless*` records written as Diagnostic payloads, and the
    conversion from a rule diagnostic done by the consumer loop. */
module Wire {
  import opened RuleTypes

  datatype HeadlessRange = HeadlessRange(pos: int, end: int)
  datatype HeadlessRuleMessage = HeadlessRuleMessage(id: string, description: string)
  datatype HeadlessFix = HeadlessFix(text: string, range: HeadlessRange)
  datatype HeadlessSuggestion = HeadlessSuggestion(message: HeadlessRuleMessage, fixes: seq<HeadlessFix>)
  datatype HeadlessDiagnostic = HeadlessDiagnostic(
    range: HeadlessRange,
    rule: string,
    message: HeadlessRuleMessage,
    fixes: seq<HeadlessFix>,
    suggestions: seq<HeadlessSuggestion>,
    filePath: string)

  /** `headlessRangeFromRange`: both offsets travel unchanged, so the wire
      range reads back as the source range. */
  function HeadlessRangeFromRange(r: TextRange): (h: HeadlessRange)
    ensures RangeOf(h) == r
  {
    HeadlessRange(r.pos, r.end)
  }

  /** `headlessRuleMessageFromRuleMessage`: id and description travel
      unchanged, so the wire message reads back as the source message. */
  function HeadlessRuleMessageFromRuleMessage(m: RuleMessage): (h: HeadlessRuleMessage)
    ensures RuleMessageOf(h) == m
  {
    HeadlessRuleMessage(m.id, m.description)
  }

  function HeadlessFixFromFix(f: RuleFix): HeadlessFix {
    HeadlessFix(f.text, HeadlessRangeFromRange(f.range))
  }

  function HeadlessFixes(fs: seq<RuleFix>): seq<HeadlessFix> {
    seq(|fs|, i requires 0 <= i < |fs| => HeadlessFixFromFix(fs[i]))
  }

  /** The range, text and message a wire record carries, read back as rule values. */
  function RangeOf(h: HeadlessRange): TextRange {
    TextRange(h.pos, h.end)
  }

  function RuleMessageOf(h: HeadlessRuleMessage): RuleMessage {
    RuleMessage(h.id, h.description)
  }

  function FixOf(h: HeadlessFix): RuleFix {
    RuleFix(h.text, RangeOf(h.range))
  }

  function FixesOf(hs: seq<HeadlessFix>): seq<RuleFix> {
    seq(|hs|, i requires 0 <= i < |hs| => FixOf(hs[i]))
  }

  /** `h` carries the text and both offsets of `f`. */
  predicate FixCopied(h: HeadlessFix, f: RuleFix) {
    h.text == f.text && h.range.pos == f.range.pos && h.range.end == f.range.end
  }

  /** One wire fix per source fix, in the same order. */
  predicate FixesCopied(hs: seq<HeadlessFix>, fs: seq<RuleFix>) {
    |hs| == |fs| && forall i | 0 <= i < |hs| :: FixCopied(hs[i], fs[i])
  }

  /** Fix conversion loses nothing: reading the wire fixes back gives the
      source fixes. */
  lemma FixesRoundTrip(fs: seq<RuleFix>)
    ensures FixesCopied(HeadlessFixes(fs), fs)
    ensures FixesOf(HeadlessFixes(fs)) == fs
  {
  }

  /** A wire suggestion. Its message is the message of the enclosing
      diagnostic, not the suggestion's own, exactly as the consumer loop
      builds it. */
  function HeadlessSuggestionFrom(diagnosticMessage: RuleMessage, s: RuleSuggestion): (h: HeadlessSuggestion)
    ensures RuleMessageOf(h.message) == diagnosticMessage
    ensures FixesCopied(h.fixes, s.fixes) && FixesOf(h.fixes) == s.fixes
  {
    HeadlessSuggestion(HeadlessRuleMessageFromRuleMessage(diagnosticMessage), HeadlessFixes(s.fixes))
  }

  /** The record the consumer loop marshals for one rule diagnostic. */
  function ToHeadless(d: RuleDiagnostic): (hd: HeadlessDiagnostic)
    ensures hd.range.pos == d.range.pos && hd.range.end == d.range.end
    ensures hd.rule == d.ruleName
    ensures hd.message.id == d.message.id && hd.message.description == d.message.description
    ensures hd.filePath == d.sourceFile.fileName
    ensures FixesCopied(hd.fixes, d.fixes)
    ensures |hd.suggestions| == |d.suggestions|
    ensures forall i | 0 <= i < |hd.suggestions| ::
      && hd.suggestions[i].message == hd.message
      && FixesCopied(hd.suggestions[i].fixes, d.suggestions[i].fixes)
  {
    HeadlessDiagnostic(
      HeadlessRangeFromRange(d.range),
      d.ruleName,
      HeadlessRuleMessageFromRuleMessage(d.message),
      HeadlessFixes(d.fixes),
      seq(|d.suggestions|, i requires 0 <= i < |d.suggestions| => HeadlessSuggestionFrom(d.message, d.suggestions[i])),
      d.sourceFile.fileName)
  }

  /** Two diagnostics agree on everything the wire record carries: all but
      the suggestions' own messages and the source file's text. */
  predicate SameOnWire(d1: RuleDiagnostic, d2: RuleDiagnostic) {
    && d1.range == d2.range
    && d1.ruleName == d2.ruleName
    && d1.message == d2.message
    && d1.fixes == d2.fixes
    && d1.sourceFile.fileName == d2.sourceFile.fileName
    && |d1.suggestions| == |d2.suggestions|
    && forall i | 0 <= i < |d1.suggestions| :: d1.suggestions[i].fixes == d2.suggestions[i].fixes
  }

  /** Exactly the information of `SameOnWire` reaches the wire: two
      diagnostics convert to the same record if and only if they agree on it.
      In particular the suggestions' own messages never reach the parent. */
  lemma ToHeadlessKeepsExactly(d1: RuleDiagnostic, d2: RuleDiagnostic)
    ensures ToHeadless(d1) == ToHeadless(d2) <==> SameOnWire(d1, d2)
  {
    var h1, h2 := ToHeadless(d1), ToHeadless(d2);
    if h1 == h2 {
      FixesRoundTrip(d1.fixes);
      FixesRoundTrip(d2.fixes);
      assert d1.range == RangeOf(h1.range);
      assert d2.range == RangeOf(h2.range);
      forall i | 0 <= i < |d1.suggestions|
        ensures d1.suggestions[i].fixes == d2.suggestions[i].fixes
      {
        assert h1.suggestions[i] == h2.suggestions[i];
        FixesRoundTrip(d1.suggestions[i].fixes);
        FixesRoundTrip(d2.suggestions[i].fixes);
      }
    }
    if SameOnWire(d1, d2) {
      assert h1.suggestions == h2.suggestions;
    }
  }
}
