/**
 The grammar of well-nested event sequences, and the theorem that the stack machine
 decides it: an independent reference for the verdict.
 */
module Nesting {
  import opened Tokens
  import opened Brackets

  /**
   Derivation trees of
     nested ::= empty | filler nested | open(b) nested close(b) nested | block-comment nested
   */
  datatype Derivation =
    | Empty
    | Filler(e: Event, rest: Derivation)
    | Nest(b: Bracket, inner: Derivation, rest: Derivation)
    | Remark(body: seq<Event>, rest: Derivation)

  predicate WellFormed(d: Derivation) {
    match d
    case Empty => true
    case Filler(e, rest) => (e == Other || e == Semi) && WellFormed(rest)
    case Nest(_, inner, rest) => WellFormed(inner) && WellFormed(rest)
    case Remark(body, rest) => CloseComment !in body && WellFormed(rest)
  }

  /** The events of a derivation, followed by `tail`. */
  function YieldOn(d: Derivation, tail: seq<Event>): seq<Event>
    decreases d
  {
    match d
    case Empty => tail
    case Filler(e, rest) => [e] + YieldOn(rest, tail)
    case Nest(b, inner, rest) => [Open(b)] + YieldOn(inner, [Close(b)] + YieldOn(rest, tail))
    case Remark(body, rest) => BlockComment(body) + YieldOn(rest, tail)
  }

  ghost predicate Derives(d: Derivation, evs: seq<Event>) {
    WellFormed(d) && YieldOn(d, []) == evs
  }

  ghost predicate Balanced(evs: seq<Event>) {
    exists d :: Derives(d, evs)
  }

  /** Some continuation makes the sequence balanced. */
  ghost predicate Viable(evs: seq<Event>) {
    exists more :: Balanced(evs + more)
  }

  /* ---------- every derivation is accepted ---------- */

  /** A derivation leaves any plain stack outside a comment as it found it. */
  lemma {:induction false} DerivationRestores(st: seq<Kind>, d: Derivation, tail: seq<Event>)
    requires WellFormed(d) && Plain(st) && !InBlockComment(st)
    ensures Run(st, YieldOn(d, tail)) == Run(st, tail)
    decreases d
  {
    PlainHasNoMarker(st);
    match d
    case Empty =>
    case Filler(e, rest) =>
      RunStep(st, e, YieldOn(rest, tail));
      DerivationRestores(st, rest, tail);
    case Nest(b, inner, rest) =>
      var inside, after := st + [Opener(b)], YieldOn(rest, tail);
      StepKeepsShape(st, Open(b));
      RunStep(st, Open(b), YieldOn(inner, [Close(b)] + after));
      DerivationRestores(inside, inner, [Close(b)] + after);
      assert Pop(inside) == st;
      RunStep(inside, Close(b), after);
      DerivationRestores(st, rest, tail);
    case Remark(body, rest) =>
      RunAppend(st, BlockComment(body), YieldOn(rest, tail));
      BlockCommentRestores(st, body);
      DerivationRestores(st, rest, tail);
  }

  lemma RunStep(st: seq<Kind>, e: Event, tail: seq<Event>)
    ensures Run(st, [e] + tail) == (var m := Step(st, e); if m.Dead? then m else Run(m.stack, tail))
  {
    assert ([e] + tail)[1..] == tail;
  }

  /* ---------- every accepted sequence has a derivation ---------- */

  /** The first right comment of a run that starts inside a comment and leaves it. */
  lemma {:induction false} FindRightComment(st: seq<Kind>, evs: seq<Event>) returns (k: nat)
    requires InBlockComment(st) && Run(st, evs) == Live([])
    ensures k < |evs| && evs[k] == CloseComment && CloseComment !in evs[..k]
    ensures Run(Pop(st), evs[k + 1..]) == Live([])
    decreases evs
  {
    if evs[0] == CloseComment {
      k := 0;
    } else {
      var j := FindRightComment(st, evs[1..]);
      k := j + 1;
      assert evs[..k] == [evs[0]] + evs[1..][..j];
      assert evs[k + 1..] == evs[1..][j + 1..];
    }
  }

  function CloserOf(k: Kind): Event {
    match k
    case LSquare => Close(Square)
    case LParen => Close(Paren)
    case LBrace => Close(Brace)
    case Hash => Close(Cond)
    case LComment => CloseComment
    case _ => Semi
  }

  /** Derivation `d`, then the closers of plain stack `st`, top first, each followed by its derivation of `ds`. */
  function Pending(d: Derivation, st: seq<Kind>, ds: seq<Derivation>): seq<Event>
    requires |ds| == |st|
    decreases |st|
  {
    YieldOn(d, if st == [] then [] else [CloserOf(Top(st))] + Pending(ds[0], Pop(st), ds[1..]))
  }

  predicate AllWellFormed(ds: seq<Derivation>) {
    forall d :: d in ds ==> WellFormed(d)
  }

  /** Reads the derivations off an accepting run: one up to the first pending closer, one after each closer. */
  lemma {:induction false} Parse(st: seq<Kind>, evs: seq<Event>) returns (d: Derivation, ds: seq<Derivation>)
    requires Plain(st) && !InBlockComment(st) && Run(st, evs) == Live([])
    ensures |ds| == |st| && WellFormed(d) && AllWellFormed(ds)
    ensures evs == Pending(d, st, ds)
    decreases |evs|, 1
  {
    if evs == [] {
      d, ds := Empty, [];
    } else if evs[0].Open? {
      d, ds := ParseOpen(st, evs);
    } else if evs[0].Close? {
      d, ds := ParseClose(st, evs);
    } else if evs[0].OpenComment? {
      d, ds := ParseRemark(st, evs);
    } else {
      d, ds := ParseFiller(st, evs);
    }
  }

  lemma {:induction false} ParseFiller(st: seq<Kind>, evs: seq<Event>) returns (d: Derivation, ds: seq<Derivation>)
    requires Plain(st) && !InBlockComment(st) && Run(st, evs) == Live([])
    requires evs != [] && (evs[0].Semi? || evs[0].Other? || evs[0].CloseComment?)
    ensures |ds| == |st| && WellFormed(d) && AllWellFormed(ds)
    ensures evs == Pending(d, st, ds)
    decreases |evs|, 0
  {
    PlainHasNoMarker(st);
    d, ds := Parse(st, evs[1..]);
    d := Filler(evs[0], d);
  }

  lemma {:induction false} ParseOpen(st: seq<Kind>, evs: seq<Event>) returns (d: Derivation, ds: seq<Derivation>)
    requires Plain(st) && !InBlockComment(st) && Run(st, evs) == Live([])
    requires evs != [] && evs[0].Open?
    ensures |ds| == |st| && WellFormed(d) && AllWellFormed(ds)
    ensures evs == Pending(d, st, ds)
    decreases |evs|, 0
  {
    var b := evs[0].b;
    var inside := st + [Opener(b)];
    StepKeepsShape(st, evs[0]);
    assert Pop(inside) == st && CloserOf(Top(inside)) == Close(b);
    var inner, es := Parse(inside, evs[1..]);
    d, ds := Nest(b, inner, es[0]), es[1..];
    assert forall x :: x in ds ==> x in es;
  }

  lemma {:induction false} ParseClose(st: seq<Kind>, evs: seq<Event>) returns (d: Derivation, ds: seq<Derivation>)
    requires Plain(st) && !InBlockComment(st) && Run(st, evs) == Live([])
    requires evs != [] && evs[0].Close?
    ensures |ds| == |st| && WellFormed(d) && AllWellFormed(ds)
    ensures evs == Pending(d, st, ds)
    decreases |evs|, 0
  {
    PlainHasNoMarker(st);
    StepKeepsShape(st, evs[0]);
    assert CloserOf(Top(st)) == evs[0];
    var e, es := Parse(Pop(st), evs[1..]);
    d, ds := Empty, [e] + es;
    assert ds[1..] == es;
  }

  lemma {:induction false} ParseRemark(st: seq<Kind>, evs: seq<Event>) returns (d: Derivation, ds: seq<Derivation>)
    requires Plain(st) && !InBlockComment(st) && Run(st, evs) == Live([])
    requires evs != [] && evs[0].OpenComment?
    ensures |ds| == |st| && WellFormed(d) && AllWellFormed(ds)
    ensures evs == Pending(d, st, ds)
    decreases |evs|, 0
  {
    var inside := st + [LComment];
    var k := FindRightComment(inside, evs[1..]);
    assert Pop(inside) == st;
    var body, after := evs[1..][..k], evs[1..][k + 1..];
    SplitComment(evs, k);
    var e;
    e, ds := Parse(st, after);
    d := Remark(body, e);
  }

  lemma SplitComment(evs: seq<Event>, k: nat)
    requires evs != [] && evs[0] == OpenComment && k < |evs| - 1 && evs[1..][k] == CloseComment
    ensures evs == BlockComment(evs[1..][..k]) + evs[1..][k + 1..]
  {
  }

  /** The stack ends empty without a mismatch exactly for the sequences the grammar derives. */
  lemma AcceptsIffBalanced(evs: seq<Event>)
    ensures Run([], evs) == Live([]) <==> Balanced(evs)
  {
    if Balanced(evs) {
      var d :| Derives(d, evs);
      DerivationRestores([], d, []);
    }
    if Run([], evs) == Live([]) {
      var d, ds := Parse([], evs);
      assert Derives(d, evs);
    }
  }

  /* ---------- viable prefixes ---------- */

  /** The closers of a stack, top to bottom. */
  function Closers(st: seq<Kind>): seq<Event>
    decreases |st|
  {
    if st == [] then [] else [CloserOf(Top(st))] + Closers(Pop(st))
  }

  lemma {:induction false} ClosersEmptyStack(st: seq<Kind>)
    requires Plain(st)
    ensures Run(st, Closers(st)) == Live([])
    decreases |st|
  {
    if st != [] {
      assert Top(st) in st;
      var e := CloserOf(Top(st));
      PlainHasNoMarker(st);
      assert Step(st, e) == Live(Pop(st));
      StepKeepsShape(st, e);
      ClosersEmptyStack(Pop(st));
    }
  }

  /** The mismatch flag is unset exactly when some continuation is balanced. */
  lemma LiveIffViable(evs: seq<Event>)
    ensures Run([], evs).Live? <==> Viable(evs)
  {
    if Run([], evs).Live? {
      var st := Run([], evs).stack;
      RunKeepsShape([], evs);
      ClosersEmptyStack(st);
      RunAppend([], evs, Closers(st));
      AcceptsIffBalanced(evs + Closers(st));
    }
    if Viable(evs) {
      var more :| Balanced(evs + more);
      AcceptsIffBalanced(evs + more);
      RunAppend([], evs, more);
    }
  }

  /** The length of the longest prefix that some continuation balances. */
  ghost function ViableLength(evs: seq<Event>): (n: nat)
    ensures n <= |evs|
    decreases |evs|
  {
    if evs == [] || Viable(evs) then |evs| else ViableLength(evs[..|evs| - 1])
  }
}
