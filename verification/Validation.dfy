/** What a call of `validate` computes, as a function of the stack and the text. */
module Validation {
  import opened Tokens
  import opened Scanning
  import opened Brackets
  import opened Lexemes
  import opened Readings

  datatype ValidationResult = Incomplete | Complete | Mismatch

  /** `last` is the kind recorded as the last token that is not a space, before the one that ended the loop. */
  datatype Outcome = Unclosed | Stopped(stack: seq<Kind>, mismatch: bool, last: Kind)

  function Note(seen: Kind, k: Kind): Kind {
    if k == Space then seen else k
  }

  /** The loop: it stops at the terminator or at the first mismatch. */
  function Process(st: seq<Kind>, seen: Kind, r: Reading): Outcome
    decreases r
  {
    match r
    case Stuck => Unclosed
    case End(_) => Stopped(st, false, seen)
    case Next(item, _, rest) =>
      match Step(st, item.ev)
      case Dead(s) => Stopped(s, true, seen)
      case Live(s) => Process(s, Note(seen, item.kind), rest)
  }

  /** One iteration: what is left to process from a text is known from its first lexeme. */
  lemma ProcessLexeme(st: seq<Kind>, seen: Kind, t: string)
    requires ValidStack(st) && ReadLexeme(t, InBlockComment(st)).Lexeme?
    ensures var r := ReadLexeme(t, InBlockComment(st));
            var m := Step(st, r.item.ev);
            && ValidStack(m.stack)
            && (r.item.kind == Eof ==> m == Live(st))
            && Process(st, seen, ReadText(t, InBlockComment(st))) ==
               if r.item.kind == Eof || m.Dead? then Stopped(m.stack, m.Dead?, seen)
               else Process(m.stack, Note(seen, r.item.kind), ReadText(t[r.span..], InBlockComment(m.stack)))
  {
    var mode := InBlockComment(st);
    ReadTextOnce(t, mode);
    if ReadText(t, mode).Next? {
      ProcessOnce(st, seen, ReadText(t, mode));
    }
    StepKeepsShape(st, ReadLexeme(t, mode).item.ev);
  }

  lemma ProcessOnce(st: seq<Kind>, seen: Kind, r: Reading)
    requires r.Next?
    ensures var m := Step(st, r.item.ev);
            Process(st, seen, r) ==
            if m.Dead? then Stopped(m.stack, true, seen) else Process(m.stack, Note(seen, r.item.kind), r.rest)
    ensures r.item.ev == Other ==> Step(st, r.item.ev) == Live(st)
  {
  }

  function AfterBlanks(s: string): string {
    s[RunLen(Blanks, s)..]
  }

  predicate TemplateFirst(t: string) {
    Scan(t).Scanned? && Scan(t).kind == Ident && Prefix(t, Scan(t).length) == "template"
  }

  predicate StartsWithTemplate(s: string) {
    TemplateFirst(AfterBlanks(s))
  }

  function StartStack(st: seq<Kind>, s: string): (r: seq<Kind>)
    ensures InBlockComment(r) <==> InBlockComment(st)
  {
    if st == [] && StartsWithTemplate(s) then [Less] else st
  }

  /** Unclosed when the run reaches a literal that is never closed: the code reads past the buffer then. */
  function OutcomeOf(st: seq<Kind>, s: string): Outcome {
    Process(StartStack(st, s), Unknown, ReadText(AfterBlanks(s), InBlockComment(st)))
  }

  /** The token that decides about the marker is also the first one of the loop. */
  lemma FirstTokenClosed(st: seq<Kind>, s: string)
    requires OutcomeOf(st, s).Stopped?
    ensures Scan(AfterBlanks(s)).Scanned?
  {
  }

  /** Where the loop finds a mismatch, and at which item. */
  datatype Fatal = NoMismatch | Fatal(offset: nat, item: Item)

  function Shift(n: nat, f: Fatal): Fatal {
    match f
    case NoMismatch => f
    case Fatal(offset, item) => Fatal(n + offset, item)
  }

  function FatalAt(st: seq<Kind>, r: Reading): Fatal
    decreases r
  {
    match r
    case Next(item, span, rest) =>
      (match Step(st, item.ev)
       case Dead(_) => Fatal(0, item)
       case Live(s) => Shift(span, FatalAt(s, rest)))
    case _ => NoMismatch
  }

  function FatalOf(st: seq<Kind>, s: string): Fatal {
    Shift(RunLen(Blanks, s), FatalAt(StartStack(st, s), ReadText(AfterBlanks(s), InBlockComment(st))))
  }

  lemma {:induction false} MismatchIsFatal(st: seq<Kind>, seen: Kind, r: Reading)
    requires Process(st, seen, r).Stopped?
    ensures Process(st, seen, r).mismatch <==> FatalAt(st, r).Fatal?
    decreases r
  {
    if r.Next? {
      ProcessOnce(st, seen, r);
      if Step(st, r.item.ev).Live? {
        MismatchIsFatal(Step(st, r.item.ev).stack, Note(seen, r.item.kind), r.rest);
      }
    }
  }

  /** A trailing comma or backslash wins over everything else. */
  function Verdict(o: Outcome): ValidationResult
    requires o.Stopped?
  {
    if o.last == Backslash || o.last == Comma then Incomplete
    else if o.mismatch then Mismatch
    else if o.stack != [] then Incomplete
    else Complete
  }

  function Spaces(n: nat): (r: string)
    ensures |r| == n && forall i :: 0 <= i < n ==> r[i] == ' '
  {
    seq(n, _ => ' ')
  }
}
