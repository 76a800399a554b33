/**
 The marker that `template` puts at the bottom of an empty stack: when it goes away,
 and that the machine otherwise behaves as if it were not there.
 */
module Templates {
  import opened Tokens
  import opened Brackets
  import opened Nesting

  function WithMarker(st: seq<Kind>): seq<Kind> {
    [Less] + st
  }

  /**
   With plain stack `st` above the marker, event `e` releases the marker: a semicolon
   met with the marker alone, or the `}` that leaves it alone.
   */
  predicate Releases(st: seq<Kind>, e: Event) {
    (st == [] && e == Semi) || (st == [LBrace] && e == Close(Brace))
  }

  /** Some event of the run from plain stack `st` releases the marker. */
  predicate Released(st: seq<Kind>, evs: seq<Event>)
    decreases evs
  {
    evs != [] && (Releases(st, evs[0]) ||
                  (Step(st, evs[0]).Live? && Released(Step(st, evs[0]).stack, evs[1..])))
  }

  function AddMarker(m: Machine): Machine {
    match m
    case Live(st) => Live(WithMarker(st))
    case Dead(st) => Dead(WithMarker(st))
  }

  lemma StepUnderMarker(st: seq<Kind>, e: Event)
    requires Plain(st)
    ensures Step(WithMarker(st), e) == if Releases(st, e) then Step(st, e) else AddMarker(Step(st, e))
  {
    var ms := WithMarker(st);
    assert InTemplate(ms) <==> st == [];
    if st == [] {
      assert Top(ms) == Less;
    } else {
      assert Top(ms) == Top(st) && Pop(ms) == WithMarker(Pop(st));
      assert InTemplate(Pop(ms)) <==> Pop(st) == [];
      assert Pop(st) == [] && Top(st) == LBrace ==> st == [LBrace];
      PlainHasNoMarker(st);
    }
    match e {
      case Open(b) => assert WithMarker(st + [Opener(b)]) == ms + [Opener(b)];
      case OpenComment => assert WithMarker(st + [LComment]) == ms + [LComment];
      case _ =>
    }
  }

  /** The template lifecycle: until the release the marker stays at the bottom, afterwards it was never there. */
  lemma {:induction false} MarkerLifecycle(st: seq<Kind>, evs: seq<Event>)
    requires Plain(st)
    ensures Run(WithMarker(st), evs) == if Released(st, evs) then Run(st, evs) else AddMarker(Run(st, evs))
    decreases evs
  {
    if evs != [] {
      StepUnderMarker(st, evs[0]);
      StepKeepsShape(st, evs[0]);
      if !Releases(st, evs[0]) && Step(st, evs[0]).Live? {
        MarkerLifecycle(Step(st, evs[0]).stack, evs[1..]);
      }
    }
  }

  /** A derivation with a semicolon or a brace pair at its top level. */
  predicate EndsDeclaration(d: Derivation) {
    match d
    case Empty => false
    case Filler(e, rest) => e == Semi || EndsDeclaration(rest)
    case Nest(b, _, rest) => b == Brace || EndsDeclaration(rest)
    case Remark(_, rest) => EndsDeclaration(rest)
  }

  lemma ReleasedStep(st: seq<Kind>, e: Event, tail: seq<Event>)
    ensures Released(st, [e] + tail) <==>
            Releases(st, e) || (Step(st, e).Live? && Released(Step(st, e).stack, tail))
  {
    assert ([e] + tail)[1..] == tail;
  }

  lemma {:induction false} CommentNeverReleases(st: seq<Kind>, body: seq<Event>, tail: seq<Event>)
    requires InBlockComment(st) && CloseComment !in body && tail != []
    ensures Released(st, body + tail) <==> Released(st, tail)
    decreases body
  {
    if body == [] {
      assert body + tail == tail;
    } else {
      assert body + tail == [body[0]] + (body[1..] + tail);
      assert body[0] in body;
      assert st != [LBrace];
      ReleasedStep(st, body[0], body[1..] + tail);
      CommentNeverReleases(st, body[1..], tail);
    }
  }

  /** A nested sequence releases the marker exactly through its top level. */
  lemma {:induction false} ReleasedByDerivation(st: seq<Kind>, d: Derivation, tail: seq<Event>)
    requires WellFormed(d) && Plain(st) && !InBlockComment(st)
    ensures Released(st, YieldOn(d, tail)) <==> (st == [] && EndsDeclaration(d)) || Released(st, tail)
    decreases d
  {
    PlainHasNoMarker(st);
    match d
    case Empty =>
    case Filler(e, rest) =>
      ReleasedStep(st, e, YieldOn(rest, tail));
      ReleasedByDerivation(st, rest, tail);
    case Nest(b, inner, rest) =>
      var inside, after := st + [Opener(b)], YieldOn(rest, tail);
      ReleasedAtOpen(st, b, YieldOn(inner, [Close(b)] + after));
      ReleasedByDerivation(inside, inner, [Close(b)] + after);
      ReleasedAtClose(st, b, after);
      ReleasedByDerivation(st, rest, tail);
    case Remark(body, rest) =>
      ReleasedByRemark(st, body, YieldOn(rest, tail));
      ReleasedByDerivation(st, rest, tail);
  }

  lemma ReleasedAtOpen(st: seq<Kind>, b: Bracket, tail: seq<Event>)
    requires Plain(st) && !InBlockComment(st)
    ensures var inside := st + [Opener(b)];
            && Plain(inside) && !InBlockComment(inside)
            && (Released(st, [Open(b)] + tail) <==> Released(inside, tail))
  {
    StepKeepsShape(st, Open(b));
    ReleasedStep(st, Open(b), tail);
  }

  lemma ReleasedAtClose(st: seq<Kind>, b: Bracket, tail: seq<Event>)
    requires Plain(st) && !InBlockComment(st)
    ensures Released(st + [Opener(b)], [Close(b)] + tail) <==> (st == [] && b == Brace) || Released(st, tail)
  {
    PlainHasNoMarker(st);
    StepAtClose(st, b);
    ReleasedStep(st + [Opener(b)], Close(b), tail);
  }

  lemma StepAtClose(st: seq<Kind>, b: Bracket)
    requires !InTemplate(st)
    ensures Step(st + [Opener(b)], Close(b)) == Live(st)
    ensures Releases(st + [Opener(b)], Close(b)) <==> st == [] && b == Brace
  {
    var inside := st + [Opener(b)];
    assert Pop(inside) == st && Top(inside) == Opener(b);
    assert |inside| == 1 ==> st == [];
  }

  lemma ReleasedByRemark(st: seq<Kind>, body: seq<Event>, tail: seq<Event>)
    requires !InBlockComment(st) && CloseComment !in body
    ensures Released(st, BlockComment(body) + tail) <==> Released(st, tail)
  {
    var inside := st + [LComment];
    assert BlockComment(body) + tail == [OpenComment] + (body + ([CloseComment] + tail));
    ReleasedStep(st, OpenComment, body + ([CloseComment] + tail));
    CommentNeverReleases(inside, body, [CloseComment] + tail);
    ReleasedStep(inside, CloseComment, tail);
    assert Pop(inside) == st;
  }

  /** Some derivation of the sequence ends a declaration at its top level. */
  ghost predicate BalancedDeclaration(evs: seq<Event>) {
    exists d :: Derives(d, evs) && EndsDeclaration(d)
  }

  /** From the marker alone, the stack ends empty exactly for balanced sequences that end the declaration. */
  lemma MarkerAcceptsIff(evs: seq<Event>)
    ensures Run([Less], evs) == Live([]) <==> BalancedDeclaration(evs)
    ensures Run([Less], evs).Live? <==> Viable(evs)
  {
    assert WithMarker([]) == [Less];
    MarkerLifecycle([], evs);
    AcceptsIffBalanced(evs);
    LiveIffViable(evs);
    if Run([Less], evs) == Live([]) {
      var d :| Derives(d, evs);
      ReleasedByDerivation([], d, []);
    }
    if BalancedDeclaration(evs) {
      var d :| Derives(d, evs) && EndsDeclaration(d);
      ReleasedByDerivation([], d, []);
      DerivationRestores([], d, []);
    }
  }

  /** With or without the marker, the machine stops at the event behind which nothing balances the sequence any more. */
  lemma {:induction false} StopsWhereNotViable(st: seq<Kind>, evs: seq<Event>)
    requires st == [] || st == [Less]
    ensures Taken(st, evs) == ViableLength(evs)
    decreases |evs|
  {
    LiveIffViable(evs);
    MarkerAcceptsIff(evs);
    if Run(st, evs).Dead? {
      TakenOfPrefix(st, evs);
      StopsWhereNotViable(st, evs[..|evs| - 1]);
    }
  }
}
