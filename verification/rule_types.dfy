/** The values headless.go receives from its collaborators: source files of
    the compiled program and the diagnostics that rules report. Only the
    fields headless.go reads are modelled. */
module RuleTypes {
  import opened Bytes

  /** `*ast.SourceFile`: its file name and its text as UTF-8 bytes, so that
      `len(Text())` is the byte length Go computes. */
  datatype SourceFile = SourceFile(fileName: string, text: seq<byte>)

  /** `core.TextRange`. */
  datatype TextRange = TextRange(pos: int, end: int)

  /** `rule.RuleMessage`. */
  datatype RuleMessage = RuleMessage(id: string, description: string)

  /** `rule.RuleFix`: replace `range` with `text`. */
  datatype RuleFix = RuleFix(text: string, range: TextRange)

  /** `rule.RuleSuggestion`. */
  datatype RuleSuggestion = RuleSuggestion(message: RuleMessage, fixes: seq<RuleFix>)

  /** `rule.RuleDiagnostic`, with `Fixes()` and `GetSuggestions()` as fields. */
  datatype RuleDiagnostic = RuleDiagnostic(
    range: TextRange,
    ruleName: string,
    message: RuleMessage,
    fixes: seq<RuleFix>,
    suggestions: seq<RuleSuggestion>,
    sourceFile: SourceFile)

  /** An entry of the rule registry; its `Run` is outside the model. */
  datatype Rule = Rule(name: string)
}
