/**
 The push-down machine behind the validator, on the events that tokens amount to:
 four pairs of brackets (`#if`/`#endif` is one of them), block comments and semicolons.
 */
module Brackets {
  import opened Tokens

  datatype Bracket = Square | Paren | Brace | Cond

  datatype Event = Open(b: Bracket) | Close(b: Bracket) | OpenComment | CloseComment | Semi | Other

  /** The kind pushed for an opener: a conditional directive is remembered as its hash. */
  function Opener(b: Bracket): Kind {
    match b
    case Square => LSquare
    case Paren => LParen
    case Brace => LBrace
    case Cond => Hash
  }

  function Top(st: seq<Kind>): Kind {
    if st == [] then Unknown else st[|st| - 1]
  }

  function Pop(st: seq<Kind>): seq<Kind>
    requires st != []
  {
    st[..|st| - 1]
  }

  predicate InBlockComment(st: seq<Kind>) {
    st != [] && Top(st) == LComment
  }

  predicate InTemplate(st: seq<Kind>) {
    st == [Less]
  }

  /** Dead keeps the stack on which the mismatch was found. */
  datatype Machine = Live(stack: seq<Kind>) | Dead(stack: seq<Kind>)

  function Step(st: seq<Kind>, e: Event): Machine {
    if InBlockComment(st) then
      Live(if e == CloseComment then Pop(st) else st)
    else
      match e
      case Open(b) => Live(st + [Opener(b)])
      case OpenComment => Live(st + [LComment])
      case CloseComment => Dead(st)
      case Close(b) =>
        if Top(st) != Opener(b) then Dead(st)
        else Live(if b == Brace && InTemplate(Pop(st)) then [] else Pop(st))
      case Semi => Live(if InTemplate(st) then [] else st)
      case Other => Live(st)
  }

  function Run(st: seq<Kind>, evs: seq<Event>): Machine
    decreases evs
  {
    if evs == [] then Live(st)
    else match Step(st, evs[0])
      case Dead(s) => Dead(s)
      case Live(s) => Run(s, evs[1..])
  }

  /* ---------- reachable stacks ---------- */

  predicate IsOpener(k: Kind) {
    k == LSquare || k == LParen || k == LBrace || k == Hash || k == LComment || k == Less
  }

  /** Only the six openers; the template marker only at the bottom, the block-comment marker only at the top. */
  predicate ValidStack(st: seq<Kind>) {
    forall i :: 0 <= i < |st| ==>
      IsOpener(st[i]) && (st[i] == Less ==> i == 0) && (st[i] == LComment ==> i == |st| - 1)
  }

  /** A stack without the template marker. */
  predicate Plain(st: seq<Kind>) {
    ValidStack(st) && Less !in st
  }

  lemma PlainHasNoMarker(st: seq<Kind>)
    requires Plain(st)
    ensures !InTemplate(st) && (st != [] ==> !InTemplate(Pop(st)))
  {
    assert st != [] ==> Less !in Pop(st);
  }

  lemma StepKeepsShape(st: seq<Kind>, e: Event)
    requires ValidStack(st)
    ensures ValidStack(Step(st, e).stack)
    ensures Plain(st) ==> Plain(Step(st, e).stack)
    ensures InBlockComment(Step(st, e).stack) <==>
            if InBlockComment(st) then e != CloseComment else e == OpenComment
  {
  }

  lemma {:induction false} RunKeepsShape(st: seq<Kind>, evs: seq<Event>)
    requires ValidStack(st)
    ensures ValidStack(Run(st, evs).stack)
    ensures Plain(st) ==> Plain(Run(st, evs).stack)
    decreases evs
  {
    if evs != [] {
      StepKeepsShape(st, evs[0]);
      if Step(st, evs[0]).Live? {
        RunKeepsShape(Step(st, evs[0]).stack, evs[1..]);
      }
    }
  }

  /** Running two event sequences one after the other; a mismatch is permanent. */
  lemma {:induction false} RunAppend(st: seq<Kind>, xs: seq<Event>, ys: seq<Event>)
    ensures Run(st, xs + ys) == (var m := Run(st, xs); if m.Dead? then m else Run(m.stack, ys))
    decreases xs
  {
    if xs == [] {
      assert xs + ys == ys;
    } else {
      assert (xs + ys)[1..] == xs[1..] + ys;
      if Step(st, xs[0]).Live? {
        RunAppend(Step(st, xs[0]).stack, xs[1..], ys);
      }
    }
  }

  /** How many events come before the one that is a mismatch. */
  function Taken(st: seq<Kind>, evs: seq<Event>): (n: nat)
    ensures n <= |evs|
    ensures n == |evs| <==> Run(st, evs).Live?
    decreases evs
  {
    if evs == [] then 0
    else match Step(st, evs[0])
      case Dead(_) => 0
      case Live(s) => 1 + Taken(s, evs[1..])
  }

  /** Those events are a run without a mismatch, and give the stack on which the mismatch is found. */
  lemma {:induction false} TakenIsLive(st: seq<Kind>, evs: seq<Event>)
    ensures Run(st, evs[..Taken(st, evs)]) == Live(Run(st, evs).stack)
    ensures Run(st, evs).Dead? ==> Run(st, evs[..Taken(st, evs) + 1]) == Run(st, evs)
    decreases evs
  {
    if evs != [] && Step(st, evs[0]).Live? {
      var n := Taken(Step(st, evs[0]).stack, evs[1..]);
      TakenIsLive(Step(st, evs[0]).stack, evs[1..]);
      assert evs[..n + 1][1..] == evs[1..][..n];
      assert n + 1 < |evs| ==> evs[..n + 2][1..] == evs[1..][..n + 1];
    }
  }

  lemma {:induction false} TakenAppend(st: seq<Kind>, xs: seq<Event>, ys: seq<Event>)
    requires Run(st, xs).Live?
    ensures Taken(st, xs + ys) == |xs| + Taken(Run(st, xs).stack, ys)
    decreases xs
  {
    if xs == [] {
      assert xs + ys == ys;
    } else {
      assert (xs + ys)[1..] == xs[1..] + ys;
      TakenAppend(Step(st, xs[0]).stack, xs[1..], ys);
    }
  }

  /** Dropping the last event of a run with a mismatch changes nothing unless it is the mismatch. */
  lemma {:induction false} TakenOfPrefix(st: seq<Kind>, evs: seq<Event>)
    requires Run(st, evs).Dead?
    ensures Taken(st, evs[..|evs| - 1]) == Taken(st, evs)
    decreases evs
  {
    var init := evs[..|evs| - 1];
    if |evs| > 1 && Step(st, evs[0]).Live? {
      TakenOfPrefix(Step(st, evs[0]).stack, evs[1..]);
      assert init[1..] == evs[1..][..|evs| - 2];
    }
  }

  /* ---------- block comments are opaque ---------- */

  /** Inside a block comment everything but the right comment is ignored. */
  lemma {:induction false} CommentBodyIgnored(st: seq<Kind>, body: seq<Event>)
    requires InBlockComment(st) && CloseComment !in body
    ensures Run(st, body) == Live(st)
    decreases body
  {
    if body != [] {
      assert body[0] in body;
      CommentBodyIgnored(st, body[1..]);
    }
  }

  function BlockComment(body: seq<Event>): seq<Event> {
    [OpenComment] + body + [CloseComment]
  }

  lemma BlockCommentRestores(st: seq<Kind>, body: seq<Event>)
    requires !InBlockComment(st) && CloseComment !in body
    ensures Run(st, BlockComment(body)) == Live(st)
  {
    var inside := st + [LComment];
    RunAppend(inside, body, [CloseComment]);
    CommentBodyIgnored(inside, body);
    CommentCloses(st);
    CommentOpens(body);
  }

  lemma CommentCloses(st: seq<Kind>)
    ensures Run(st + [LComment], [CloseComment]) == Live(st)
  {
    assert Pop(st + [LComment]) == st;
  }

  lemma CommentOpens(body: seq<Event>)
    ensures BlockComment(body)[0] == OpenComment && BlockComment(body)[1..] == body + [CloseComment]
  {
  }

  /** Comment erasure: a block comment can be deleted anywhere outside another one. */
  lemma BlockCommentErasure(st: seq<Kind>, xs: seq<Event>, body: seq<Event>, ys: seq<Event>)
    requires CloseComment !in body
    requires !InBlockComment(Run(st, xs).stack)
    ensures Run(st, xs + BlockComment(body) + ys) == Run(st, xs + ys)
  {
    RunAppend(st, xs, ys);
    RunAppend(st, xs + BlockComment(body), ys);
    RunAppend(st, xs, BlockComment(body));
    BlockCommentRestores(Run(st, xs).stack, body);
  }

  /* ---------- depth ---------- */

  /** Openers minus closers outside block comments, counting each comment mark that takes effect. */
  function NetDepth(inComment: bool, evs: seq<Event>): int
    decreases evs
  {
    if evs == [] then 0
    else if inComment then
      (if evs[0] == CloseComment then -1 else 0) + NetDepth(evs[0] != CloseComment, evs[1..])
    else
      (match evs[0]
       case Open(_) => 1
       case OpenComment => 1
       case Close(_) => -1
       case CloseComment => -1
       case _ => 0)
      + NetDepth(evs[0] == OpenComment, evs[1..])
  }

  /** Depth conservation: the stack grows by openers pushed minus openers closed, up to the event that is a mismatch. */
  lemma {:induction false} DepthConserved(st: seq<Kind>, evs: seq<Event>)
    requires Plain(st)
    ensures |Run(st, evs).stack| == |st| + NetDepth(InBlockComment(st), evs[..Taken(st, evs)])
    decreases evs
  {
    if evs != [] {
      StepKeepsShape(st, evs[0]);
      PlainHasNoMarker(st);
      if Step(st, evs[0]).Live? {
        var next := Step(st, evs[0]).stack;
        DepthConserved(next, evs[1..]);
        NetDepthFirst(InBlockComment(st), evs, Taken(next, evs[1..]));
      }
    }
  }

  lemma NetDepthFirst(inComment: bool, evs: seq<Event>, n: nat)
    requires n < |evs|
    ensures NetDepth(inComment, evs[..n + 1]) ==
            NetDepth(inComment, [evs[0]]) + NetDepth(if inComment then evs[0] != CloseComment else evs[0] == OpenComment, evs[1..][..n])
  {
    assert evs[..n + 1][1..] == evs[1..][..n];
  }
}
