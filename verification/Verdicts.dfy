/** The verdict of a text, decided by the grammar of its events. */
module Verdicts {
  import opened Tokens
  import opened Brackets
  import opened Nesting
  import opened Templates
  import opened Readings
  import opened Validation

  /** The kind of the last token among the first `n` that is not a space. */
  function LastKind(seen: Kind, r: Reading, n: nat): Kind
    decreases r
  {
    match r
    case Next(item, _, rest) => if n == 0 then seen else LastKind(Note(seen, item.kind), rest, n - 1)
    case _ => seen
  }

  /** The kinds of the items, in order. */
  function Kinds(r: Reading): seq<Kind> {
    match r
    case Next(item, _, rest) => [item.kind] + Kinds(rest)
    case _ => []
  }

  predicate AllSpaces(kinds: seq<Kind>) {
    forall i :: 0 <= i < |kinds| ==> kinds[i] == Space
  }

  function FirstOf(kinds: seq<Kind>, n: nat): seq<Kind> {
    if n < |kinds| then kinds[..n] else kinds
  }

  /** `last` is at `j`, with only spaces behind it; or there is nothing but spaces, and it is `seen`. */
  predicate LastIsAt(kinds: seq<Kind>, j: nat, seen: Kind, last: Kind) {
    if j < |kinds| then kinds[j] != Space && last == kinds[j] && AllSpaces(kinds[j + 1..])
    else AllSpaces(kinds) && last == seen
  }

  /** Spaces leave the recorded kind alone: it is the last other kind among the first `n`, or the one before them. */
  lemma {:induction false} LastKindIsLast(seen: Kind, r: Reading, n: nat) returns (j: nat)
    ensures LastIsAt(FirstOf(Kinds(r), n), j, seen, LastKind(seen, r, n))
    decreases r
  {
    j := 0;
    if r.Next? && n > 0 {
      var k := r.item.kind;
      var seen' := if k == Space then seen else k;
      var i := LastKindIsLast(seen', r.rest, n - 1);
      KindsFirst(r, n);
      j := LastBehind(k, FirstOf(Kinds(r.rest), n - 1), i, seen, LastKind(seen', r.rest, n - 1));
    }
  }

  lemma LastBehind(k: Kind, later: seq<Kind>, i: nat, seen: Kind, last: Kind) returns (j: nat)
    requires LastIsAt(later, i, if k == Space then seen else k, last)
    ensures LastIsAt([k] + later, j, seen, last)
  {
    j := if i < |later| then i + 1 else if k != Space then 0 else |later| + 1;
    if j <= |later| {
      assert ([k] + later)[j + 1..] == later[j..];
    }
  }

  lemma KindsFirst(r: Reading, n: nat)
    requires r.Next? && n > 0
    ensures FirstOf(Kinds(r), n) == [r.item.kind] + FirstOf(Kinds(r.rest), n - 1)
  {
  }

  /** The loop is the event machine run over the events of the reading; `last` is recorded before the mismatch. */
  lemma {:induction false} ProcessIsRun(st: seq<Kind>, seen: Kind, r: Reading)
    requires Process(st, seen, r).Stopped?
    ensures var o, m := Process(st, seen, r), Run(st, Events(r));
            && m == (if o.mismatch then Dead(o.stack) else Live(o.stack))
            && o.last == LastKind(seen, r, Taken(st, Events(r)))
    decreases r
  {
    if r.Next? {
      ProcessOnce(st, seen, r);
      EventsFirst(st, seen, r);
      if Step(st, r.item.ev).Live? {
        ProcessIsRun(Step(st, r.item.ev).stack, Note(seen, r.item.kind), r.rest);
      }
    }
  }

  lemma EventsFirst(st: seq<Kind>, seen: Kind, r: Reading)
    requires r.Next?
    ensures var m, evs := Step(st, r.item.ev), Events(r);
            && evs == [r.item.ev] + Events(r.rest)
            && Run(st, evs) == (if m.Dead? then m else Run(m.stack, Events(r.rest)))
            && LastKind(seen, r, Taken(st, evs)) ==
               if m.Dead? then seen else LastKind(Note(seen, r.item.kind), r.rest, Taken(m.stack, Events(r.rest)))
  {
    assert Events(r)[1..] == Events(r.rest);
  }

  function TextEvents(s: string): seq<Event> {
    Events(ReadText(AfterBlanks(s), false))
  }

  /** What a complete input derives from; behind `template` a declaration must have ended. */
  ghost predicate Accepted(s: string) {
    if StartsWithTemplate(s) then BalancedDeclaration(TextEvents(s)) else Balanced(TextEvents(s))
  }

  /** The last token that is not a space, before the end or the first one that leaves no balanced continuation. */
  ghost function LastToken(s: string): Kind {
    LastKind(Unknown, ReadText(AfterBlanks(s), false), ViableLength(TextEvents(s)))
  }

  ghost predicate Continued(s: string) {
    LastToken(s) == Backslash || LastToken(s) == Comma
  }

  lemma OutcomeIsGrammar(s: string)
    requires OutcomeOf([], s).Stopped?
    ensures var o := OutcomeOf([], s);
            && (o.mismatch <==> !Viable(TextEvents(s)))
            && (!o.mismatch && o.stack == [] <==> Accepted(s))
            && o.last == LastToken(s)
  {
    var evs := TextEvents(s);
    ProcessIsRun(StartStack([], s), Unknown, ReadText(AfterBlanks(s), false));
    StopsWhereNotViable(StartStack([], s), evs);
    if StartsWithTemplate(s) {
      MarkerAcceptsIff(evs);
    } else {
      AcceptsIffBalanced(evs);
      LiveIffViable(evs);
    }
  }

  /** The three verdicts of a fresh validator, for every text whose reached literals are closed. */
  lemma VerdictIsGrammar(s: string)
    requires OutcomeOf([], s).Stopped?
    ensures var v := Verdict(OutcomeOf([], s));
            && (v == Complete <==> !Continued(s) && Accepted(s))
            && (v == Mismatch <==> !Continued(s) && !Viable(TextEvents(s)))
            && (v == Incomplete <==> Continued(s) || (Viable(TextEvents(s)) && !Accepted(s)))
  {
    OutcomeIsGrammar(s);
  }

  /* ---------- the template marker ---------- */

  function MarkOutcome(o: Outcome): Outcome {
    match o
    case Unclosed => o
    case Stopped(st, mismatch, last) => Stopped(WithMarker(st), mismatch, last)
  }

  /** The loop under the marker is the loop without it until the marker is released, and then the same. */
  lemma {:induction false} ProcessUnderMarker(st: seq<Kind>, seen: Kind, r: Reading)
    requires Plain(st)
    ensures Process(WithMarker(st), seen, r) ==
            if Released(st, Events(r)) then Process(st, seen, r) else MarkOutcome(Process(st, seen, r))
    decreases r
  {
    if r.Next? {
      var e := r.item.ev;
      ReleasedStep(st, e, Events(r.rest));
      StepUnderMarker(st, e);
      StepKeepsShape(st, e);
      ProcessOnce(st, seen, r);
      ProcessOnce(WithMarker(st), seen, r);
      if !Releases(st, e) && Step(st, e).Live? {
        ProcessUnderMarker(Step(st, e).stack, Note(seen, r.item.kind), r.rest);
      }
    }
  }

  /**
   Template lifecycle: a fresh validator on text that begins with `template` behaves as if
   there were no marker once an event has released it, and is never complete before that.
   */
  lemma TemplateLifecycle(s: string)
    requires StartsWithTemplate(s)
    ensures var r := ReadText(AfterBlanks(s), false);
            var o, o' := OutcomeOf([], s), Process([], Unknown, r);
            && o == (if Released([], Events(r)) then o' else MarkOutcome(o'))
            && (o.Stopped? && !Released([], Events(r)) ==> Verdict(o) != Complete)
  {
    ProcessUnderMarker([], Unknown, ReadText(AfterBlanks(s), false));
    assert WithMarker([]) == [Less];
  }
}
