/** Several calls on one validator: what the grammar says about them, and the shape and depth of the stack. */
module Sessions {
  import opened Tokens
  import opened Brackets
  import opened Nesting
  import opened Templates
  import opened Readings
  import opened Validation
  import opened Verdicts

  /** The outcome of the last of several calls, as long as every call is defined. */
  function Session(st: seq<Kind>, inputs: seq<string>): Outcome
    decreases inputs
  {
    if inputs == [] then Stopped(st, false, Unknown)
    else
      var o := OutcomeOf(st, inputs[0]);
      if o.Unclosed? || |inputs| == 1 then o else Session(o.stack, inputs[1..])
  }

  /** The reading and the events of one call. */
  function CallReading(st: seq<Kind>, s: string): Reading {
    ReadText(AfterBlanks(s), InBlockComment(st))
  }

  function CallEvents(st: seq<Kind>, s: string): seq<Event> {
    Events(CallReading(st, s))
  }

  lemma CallIsRun(st: seq<Kind>, s: string)
    requires OutcomeOf(st, s).Stopped?
    ensures var o, st0 := OutcomeOf(st, s), StartStack(st, s);
            && Run(st0, CallEvents(st, s)) == (if o.mismatch then Dead(o.stack) else Live(o.stack))
            && o.last == LastKind(Unknown, CallReading(st, s), Taken(st0, CallEvents(st, s)))
  {
    ProcessIsRun(StartStack(st, s), Unknown, CallReading(st, s));
  }

  /* ---------- shape ---------- */

  lemma CallKeepsShape(st: seq<Kind>, s: string)
    requires ValidStack(st) && OutcomeOf(st, s).Stopped?
    ensures ValidStack(OutcomeOf(st, s).stack)
  {
    CallIsRun(st, s);
    RunKeepsShape(StartStack(st, s), CallEvents(st, s));
  }

  /** The shape of the stack that any session of calls on a new validator can reach. */
  lemma {:induction false} ReachableStackShape(st: seq<Kind>, inputs: seq<string>)
    requires ValidStack(st) && Session(st, inputs).Stopped?
    ensures ValidStack(Session(st, inputs).stack)
    decreases inputs
  {
    if inputs != [] {
      CallKeepsShape(st, inputs[0]);
      if |inputs| > 1 {
        ReachableStackShape(OutcomeOf(st, inputs[0]).stack, inputs[1..]);
      }
    }
  }

  /* ---------- depth ---------- */

  predicate Marked(st: seq<Kind>) {
    st != [] && st[0] == Less
  }

  function AboveMarker(st: seq<Kind>): (r: seq<Kind>)
    requires ValidStack(st)
    ensures Plain(r) && st == if Marked(st) then WithMarker(r) else r
    ensures InBlockComment(r) <==> InBlockComment(st)
  {
    if Marked(st) then
      assert forall k :: k in st[1..] ==> k != Less;
      st[1..]
    else
      assert forall k :: k in st ==> k != Less;
      st
  }

  /** Openers pushed minus openers closed by a run, the marker included, up to the event that is a mismatch. */
  function RunNet(st: seq<Kind>, evs: seq<Event>): int
    requires ValidStack(st)
  {
    NetDepth(InBlockComment(st), evs[..Taken(AboveMarker(st), evs)])
    - (if Marked(st) && Released(AboveMarker(st), evs) then 1 else 0)
  }

  lemma RunDepth(st: seq<Kind>, evs: seq<Event>)
    requires ValidStack(st)
    ensures |Run(st, evs).stack| == |st| + RunNet(st, evs)
  {
    var plain := AboveMarker(st);
    if Marked(st) {
      MarkerLifecycle(plain, evs);
    }
    DepthConserved(plain, evs);
  }

  /** The same for one call, which may push the marker first. */
  function CallNet(st: seq<Kind>, s: string): int
    requires ValidStack(st)
  {
    (if st == [] && StartsWithTemplate(s) then 1 else 0) + RunNet(StartStack(st, s), CallEvents(st, s))
  }

  /** Whatever its verdict, a call changes the depth by what it pushed and closed. */
  lemma CallDepth(st: seq<Kind>, s: string)
    requires ValidStack(st) && OutcomeOf(st, s).Stopped?
    ensures |OutcomeOf(st, s).stack| == |st| + CallNet(st, s)
  {
    CallIsRun(st, s);
    RunDepth(StartStack(st, s), CallEvents(st, s));
  }

  function SessionNet(st: seq<Kind>, inputs: seq<string>): int
    requires ValidStack(st) && Session(st, inputs).Stopped?
    decreases inputs
  {
    if inputs == [] then 0
    else
      CallKeepsShape(st, inputs[0]);
      CallNet(st, inputs[0]) + SessionNet(OutcomeOf(st, inputs[0]).stack, inputs[1..])
  }

  /** Depth conservation over any session, also across calls that end in a mismatch. */
  lemma {:induction false} SessionDepth(st: seq<Kind>, inputs: seq<string>)
    requires ValidStack(st) && Session(st, inputs).Stopped?
    ensures |Session(st, inputs).stack| == |st| + SessionNet(st, inputs)
    decreases inputs
  {
    if inputs != [] {
      CallKeepsShape(st, inputs[0]);
      CallDepth(st, inputs[0]);
      SessionDepth(OutcomeOf(st, inputs[0]).stack, inputs[1..]);
    }
  }

  /* ---------- the grammar of a session ---------- */

  /**
   What the calls of a session amount to in terms of the grammar: the events since nothing
   was open, without those a mismatch made void, and whether they began with `template`.
   */
  datatype Account = Account(template: bool, evs: seq<Event>)

  const OPENING := Account(false, [])

  /** Nothing is open: the events derive from the grammar, and behind `template` a declaration has ended. */
  ghost predicate Settled(a: Account) {
    if a.template then BalancedDeclaration(a.evs) else Balanced(a.evs)
  }

  /** Whether the text behind the events is inside a block comment. */
  function EventMode(inComment: bool, evs: seq<Event>): bool
    decreases |evs|
  {
    if evs == [] then inComment else EventMode(NextMode(inComment, evs[0]), evs[1..])
  }

  /** The account with the events of one more text, before those behind a mismatch are taken away. */
  ghost function Joined(a: Account, s: string): Account {
    if Settled(a) then Account(StartsWithTemplate(s), TextEvents(s))
    else Account(a.template, a.evs + Events(ReadText(AfterBlanks(s), EventMode(false, a.evs))))
  }

  ghost function Kept(a: Account): Account {
    a.(evs := a.evs[..ViableLength(a.evs)])
  }

  ghost function After(a: Account, s: string): Account {
    Kept(Joined(a, s))
  }

  ghost function AccountOf(a: Account, inputs: seq<string>): Account
    decreases inputs
  {
    if inputs == [] then a else AccountOf(After(a, inputs[0]), inputs[1..])
  }

  function Base(a: Account): seq<Kind> {
    if a.template then [Less] else []
  }

  /** The stack is what the events leave on it. */
  predicate Represents(a: Account, st: seq<Kind>) {
    Run(Base(a), a.evs) == Live(st)
  }

  lemma SettledIsEmpty(a: Account, st: seq<Kind>)
    requires Represents(a, st)
    ensures Settled(a) <==> st == []
  {
    if a.template {
      MarkerAcceptsIff(a.evs);
    } else {
      AcceptsIffBalanced(a.evs);
    }
  }

  lemma {:induction false} RunMode(st: seq<Kind>, evs: seq<Event>)
    requires ValidStack(st) && Run(st, evs).Live?
    ensures InBlockComment(Run(st, evs).stack) == EventMode(InBlockComment(st), evs)
    decreases |evs|
  {
    if evs != [] {
      StepKeepsShape(st, evs[0]);
      RunMode(Step(st, evs[0]).stack, evs[1..]);
    }
  }

  /** The events of a call follow those of the account. */
  lemma JoinedRun(a: Account, st: seq<Kind>, s: string)
    requires Represents(a, st)
    ensures Run(Base(Joined(a, s)), Joined(a, s).evs) == Run(StartStack(st, s), CallEvents(st, s))
    ensures Joined(a, s).evs == (if Settled(a) then [] else a.evs) + CallEvents(st, s)
  {
    SettledIsEmpty(a, st);
    if !Settled(a) {
      RunMode(Base(a), a.evs);
      RunAppend(Base(a), a.evs, CallEvents(st, s));
    }
  }

  /** Whether the next text starts inside a block comment. */
  ghost function ModeOf(a: Account): bool {
    if Settled(a) then false else EventMode(false, a.evs)
  }

  /** How many events of the text `s` some continuation balances. */
  ghost function ViableOf(a: Account, s: string): nat {
    var before, viable := if Settled(a) then 0 else |a.evs|, ViableLength(Joined(a, s).evs);
    if viable < before then 0 else viable - before
  }

  /** The last token of the call on `s` that is not a space, before the end or the first one that leaves no balanced continuation. */
  ghost function LastTokenOf(a: Account, s: string): Kind {
    LastKind(Unknown, ReadText(AfterBlanks(s), ModeOf(a)), ViableOf(a, s))
  }

  lemma ModeIsStack(a: Account, st: seq<Kind>)
    requires Represents(a, st)
    ensures ModeOf(a) == InBlockComment(st)
  {
    SettledIsEmpty(a, st);
    RunMode(Base(a), a.evs);
  }

  lemma ViableIsTaken(a: Account, st: seq<Kind>, s: string)
    requires Represents(a, st)
    ensures ViableOf(a, s) == Taken(StartStack(st, s), CallEvents(st, s))
  {
    var j := Joined(a, s);
    JoinedRun(a, st, s);
    StopsWhereNotViable(Base(j), j.evs);
    SettledIsEmpty(a, st);
    if !Settled(a) {
      TakenAppend(Base(a), a.evs, CallEvents(st, s));
    }
  }

  lemma LastOfCall(a: Account, st: seq<Kind>, s: string)
    requires Represents(a, st) && OutcomeOf(st, s).Stopped?
    ensures OutcomeOf(st, s).last == LastTokenOf(a, s)
  {
    CallIsRun(st, s);
    ModeIsStack(a, st);
    ViableIsTaken(a, st, s);
  }

  /**
   One call of a session: the mismatch flag is set exactly when the joined events cannot be
   balanced, the call is accepted exactly when they settle the account, and the new stack
   represents what is kept of them.
   */
  lemma CallIsGrammar(a: Account, st: seq<Kind>, s: string)
    requires Represents(a, st) && OutcomeOf(st, s).Stopped?
    ensures var o := OutcomeOf(st, s);
            && (o.mismatch <==> !Viable(Joined(a, s).evs))
            && (!o.mismatch && o.stack == [] <==> Settled(Joined(a, s)))
            && Represents(After(a, s), o.stack)
  {
    var j := Joined(a, s);
    CallIsRun(st, s);
    JoinedRun(a, st, s);
    LiveIffViable(j.evs);
    MarkerAcceptsIff(j.evs);
    AcceptsIffBalanced(j.evs);
    StopsWhereNotViable(Base(j), j.evs);
    TakenIsLive(Base(j), j.evs);
  }

  /** After any session on a new validator, the stack is empty exactly when the grammar settles what was kept of its events. */
  lemma {:induction false} SessionFrom(a: Account, st: seq<Kind>, inputs: seq<string>)
    requires Represents(a, st) && Session(st, inputs).Stopped?
    ensures Represents(AccountOf(a, inputs), Session(st, inputs).stack)
    ensures Session(st, inputs).stack == [] <==> Settled(AccountOf(a, inputs))
    decreases inputs
  {
    if inputs == [] {
      SettledIsEmpty(a, st);
    } else {
      CallIsGrammar(a, st, inputs[0]);
      SettledIsEmpty(After(a, inputs[0]), OutcomeOf(st, inputs[0]).stack);
      SessionFrom(After(a, inputs[0]), OutcomeOf(st, inputs[0]).stack, inputs[1..]);
    }
  }

  lemma SessionIsGrammar(inputs: seq<string>)
    requires Session([], inputs).Stopped?
    ensures Session([], inputs).stack == [] <==> Settled(AccountOf(OPENING, inputs))
  {
    SessionFrom(OPENING, [], inputs);
  }

  /* ---------- the verdict of the last call ---------- */

  lemma {:induction false} SessionSnoc(st: seq<Kind>, inputs: seq<string>, s: string)
    requires Session(st, inputs + [s]).Stopped?
    ensures Session(st, inputs).Stopped?
    ensures Session(st, inputs + [s]) == OutcomeOf(Session(st, inputs).stack, s)
    decreases inputs
  {
    if inputs == [] {
      assert inputs + [s] == [s];
    } else {
      assert (inputs + [s])[1..] == inputs[1..] + [s];
      SessionSnoc(OutcomeOf(st, inputs[0]).stack, inputs[1..], s);
    }
  }

  /** The verdict of the last call of any session on a new validator, whatever the verdicts before. */
  lemma SessionVerdict(inputs: seq<string>, s: string)
    requires Session([], inputs + [s]).Stopped?
    ensures var v, a := Verdict(Session([], inputs + [s])), AccountOf(OPENING, inputs);
            var continued := LastTokenOf(a, s) == Backslash || LastTokenOf(a, s) == Comma;
            && (v == Complete <==> !continued && Settled(Joined(a, s)))
            && (v == Mismatch <==> !continued && !Viable(Joined(a, s).evs))
            && (v == Incomplete <==> continued || (Viable(Joined(a, s).evs) && !Settled(Joined(a, s))))
  {
    SessionSnoc([], inputs, s);
    SessionFrom(OPENING, [], inputs);
    var a, st := AccountOf(OPENING, inputs), Session([], inputs).stack;
    CallIsGrammar(a, st, s);
    LastOfCall(a, st, s);
  }
}
