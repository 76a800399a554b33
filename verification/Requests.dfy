/** The is-complete request of the kernel: a new validator for every request. */
module Requests {
  import opened Tokens
  import opened Scanning
  import opened Nesting
  import opened Sessions
  import opened Validation
  import opened Verdicts
  import opened Validators

  function ToString(r: ValidationResult): string {
    match r
    case Incomplete => "incomplete"
    case Complete => "complete"
    case Mismatch => "mismatch"
  }

  /** The answer, told by the grammar and the last token. */
  method IsCompleteRequest(code: string) returns (status: string, indent: string)
    requires OutcomeOf([], code).Stopped?
    ensures status == "complete" <==> !Continued(code) && Accepted(code)
    ensures status == "mismatch" <==> !Continued(code) && !Viable(TextEvents(code))
    ensures status == "incomplete" <==> Continued(code) || (Viable(TextEvents(code)) && !Accepted(code))
    ensures CallNet([], code) >= 0 && |indent| == RunLen(Blanks, code) + 4 * CallNet([], code)
    ensures forall i :: 0 <= i < |indent| ==> indent[i] == ' '
  {
    var v := new InputValidator();
    var res := v.Validate(code);
    VerdictIsGrammar(code);
    CallDepth([], code);
    status := ToString(res);
    indent := v.GetExpectedIndent();
  }
}
