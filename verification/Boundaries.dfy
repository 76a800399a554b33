/**
 Cutting a validation at a loop boundary, for any regular way of lexing: what comes
 before the cut depends only on the text before it, and what comes after only on the rest.
 */
module Boundaries {
  import opened Tokens
  import opened Scanning
  import opened Brackets
  import opened Lexemes
  import opened Readings
  import opened Validation

  /** A reader of single lexemes, and the test for an initial `template`. */
  datatype Lexing = Lexing(read: Reader, template: string -> bool)

  ghost predicate BlanksAreOneSpace(lx: Lexing, s: string, inComment: bool) {
    RunLen(Blanks, s) > 0 ==> lx.read(s, inComment) == Lexeme(Item(Space, Other), RunLen(Blanks, s))
  }

  /** The test for `template` sees no more than the first lexeme and the character behind it. */
  ghost predicate TemplateAlike(lx: Lexing, t: string, u: string, inComment: bool) {
    var r := lx.read(t, inComment);
    r.Lexeme? && r.item.kind != Eof && Continues(t, u, r.span, [r.item]) ==> lx.template(t) == lx.template(u)
  }

  ghost predicate Regular(lx: Lexing) {
    && LooksOneAhead(lx.read)
    && (forall s, m :: BlanksAreOneSpace(lx, s, m))
    && (forall t, u, m :: TemplateAlike(lx, t, u, m))
    && (forall m :: lx.read("", m) == Lexeme(Item(Eof, Other), 0))
    && (forall m :: lx.read("*", m) == Lexeme(Item(Asterik, Other), 1))
    && (forall t :: lx.template(t) ==> WordChars.Has(CharAt(t, 0)))
    && (forall t, m :: CloserIsNoWord(lx, t, m))
  }

  predicate IsCloser(e: Event) {
    e.Close? || e.CloseComment?
  }

  predicate CloserIsNoWord(lx: Lexing, t: string, inComment: bool) {
    var r := lx.read(t, inComment);
    r.Lexeme? && IsCloser(r.item.ev) ==> !WordChars.Has(CharAt(t, 0))
  }

  function Start(lx: Lexing, st: seq<Kind>, t: string): seq<Kind> {
    if st == [] && lx.template(t) then [Less] else st
  }

  ghost function OutcomeBy(lx: Lexing, st: seq<Kind>, s: string): Outcome
    requires Regular(lx)
  {
    var t := AfterBlanks(s);
    Process(Start(lx, st, t), Unknown, Read(lx.read, t, InBlockComment(st)))
  }

  lemma StartMode(lx: Lexing, st: seq<Kind>, t: string)
    requires ValidStack(st)
    ensures ValidStack(Start(lx, st, t)) && (InBlockComment(Start(lx, st, t)) <==> InBlockComment(st))
  {
  }

  /* ---------- processing up to a boundary ---------- */

  datatype Progress = Going(stack: seq<Kind>, seen: Kind) | Halted(stack: seq<Kind>, seen: Kind)

  /** The loop over some items, none of which is eof. */
  function ProcessItems(st: seq<Kind>, seen: Kind, items: seq<Item>): Progress
    decreases |items|
  {
    if items == [] then Going(st, seen)
    else match Step(st, items[0].ev)
      case Dead(s) => Halted(s, seen)
      case Live(s) => ProcessItems(s, Note(seen, items[0].kind), items[1..])
  }

  /** Processing a reading is processing the items up to a boundary and then the rest. */
  lemma {:induction false} ProcessThrough(st: seq<Kind>, seen: Kind, r: Reading, n: nat)
    requires Upto(r, n).On?
    ensures Process(st, seen, r) ==
            match ProcessItems(st, seen, Upto(r, n).items)
            case Halted(s, l) => Stopped(s, true, l)
            case Going(s, l) => Process(s, l, Upto(r, n).rest)
    decreases r
  {
    if n > 0 {
      var w := Upto(r.rest, n - r.span);
      ProcessOnce(st, seen, r);
      assert ([r.item] + w.items)[1..] == w.items;
      if Step(st, r.item.ev).Live? {
        ProcessThrough(Step(st, r.item.ev).stack, Note(seen, r.item.kind), r.rest, n - r.span);
      }
    }
  }

  /** The lexer's block-comment mode is the stack's. */
  lemma {:induction false} ModeIsStack(st: seq<Kind>, seen: Kind, items: seq<Item>)
    requires ValidStack(st) && ProcessItems(st, seen, items).Going?
    ensures var s := ProcessItems(st, seen, items).stack;
            ValidStack(s) && (InBlockComment(s) <==> ModeAfter(InBlockComment(st), items))
    decreases |items|
  {
    if items != [] {
      StepKeepsShape(st, items[0].ev);
      ModeIsStack(Step(st, items[0].ev).stack, Note(seen, items[0].kind), items[1..]);
    }
  }

  /* ---------- two texts with the same beginning ---------- */

  /** Both readings up to a boundary, and what is left of either text. */
  lemma CutAlike(lx: Lexing, t: string, u: string, inComment: bool, n: nat) returns (items: seq<Item>)
    requires Regular(lx)
    requires var w := Upto(Read(lx.read, t, inComment), n); w.On? && Continues(t, u, n, w.items)
    ensures Upto(Read(lx.read, t, inComment), n) == On(items, Read(lx.read, t[n..], ModeAfter(inComment, items)))
    ensures Upto(Read(lx.read, u, inComment), n) == On(items, Read(lx.read, u[n..], ModeAfter(inComment, items)))
    ensures n == 0 ==> items == []
    ensures n > 0 ==> lx.template(t) == lx.template(u)
  {
    items := Upto(Read(lx.read, t, inComment), n).items;
    UptoLocal(lx.read, t, u, inComment, n);
    UptoRest(lx.read, t, inComment, n);
    UptoRest(lx.read, u, inComment, n);
    if n > 0 {
      FirstContinues(lx.read, t, u, inComment, n);
      assert TemplateAlike(lx, t, u, inComment);
    }
  }

  /** Two readings with the same items; the spans may differ. */
  predicate SameItems(r: Reading, r': Reading)
    decreases r
  {
    match r
    case Stuck => r'.Stuck?
    case End(_) => r'.End?
    case Next(item, _, rest) => r'.Next? && r'.item == item && SameItems(rest, r'.rest)
  }

  lemma {:induction false} SameItemsSameOutcome(st: seq<Kind>, seen: Kind, r: Reading, r': Reading)
    requires SameItems(r, r')
    ensures Process(st, seen, r) == Process(st, seen, r')
    decreases r
  {
    if r.Next? {
      ProcessOnce(st, seen, r);
      ProcessOnce(st, seen, r');
      if Step(st, r.item.ev).Live? {
        SameItemsSameOutcome(Step(st, r.item.ev).stack, Note(seen, r.item.kind), r.rest, r'.rest);
      }
    }
  }

  /** The stack and the flag, which later calls depend on. */
  predicate SameStack(o: Outcome, o': Outcome) {
    match (o, o')
    case (Stopped(s, m, _), Stopped(s', m', _)) => s == s' && m == m'
    case (Unclosed, Unclosed) => true
    case _ => false
  }

  /** What was last seen does not influence the stack. */
  lemma {:induction false} SeenIrrelevant(st: seq<Kind>, seen: Kind, seen': Kind, r: Reading)
    ensures SameStack(Process(st, seen, r), Process(st, seen', r))
    decreases r
  {
    if r.Next? {
      ProcessOnce(st, seen, r);
      ProcessOnce(st, seen', r);
      if Step(st, r.item.ev).Live? {
        SeenIrrelevant(Step(st, r.item.ev).stack, Note(seen, r.item.kind), Note(seen', r.item.kind), r.rest);
      }
    }
  }

  /* ---------- chunks ---------- */

  /** The blanks that a call skips first would be one space token, which changes nothing. */
  lemma LeadingBlanksSkipped(lx: Lexing, st: seq<Kind>, seen: Kind, s: string)
    requires Regular(lx) && ValidStack(st)
    ensures SameStack(Process(st, seen, Read(lx.read, s, InBlockComment(st))),
                      Process(st, Unknown, Read(lx.read, AfterBlanks(s), InBlockComment(st))))
  {
    var mode := InBlockComment(st);
    var rest := Read(lx.read, AfterBlanks(s), mode);
    if RunLen(Blanks, s) == 0 {
      assert s[0..] == s;
    } else {
      assert BlanksAreOneSpace(lx, s, mode);
      assert NextMode(mode, Other) == mode;
      ProcessOnce(st, seen, Read(lx.read, s, mode));
    }
    SeenIrrelevant(st, seen, Unknown, rest);
  }

  /** What the run on `t`, whose leading blanks are skipped already, has read before its end. */
  function ReadBefore(lx: Lexing, t: string, inComment: bool, n: nat): Walked
    requires Advances(lx.read)
  {
    Upto(Read(lx.read, t, inComment), n)
  }

  /** The readings of a chunk alone and of the joined text: the same items up to the cut. */
  lemma ChunkReads(lx: Lexing, t: string, b: string, inComment: bool) returns (items: seq<Item>)
    requires Regular(lx)
    requires var w := ReadBefore(lx, t + b, inComment, |t|); w.On? && !EndsInRightComment(w.items)
    ensures ReadBefore(lx, t + b, inComment, |t|) == On(items, Read(lx.read, b, ModeAfter(inComment, items)))
    ensures ReadBefore(lx, t, inComment, |t|) == On(items, End(0))
    ensures t != "" ==> lx.template(t + b) == lx.template(t)
  {
    assert (t + b)[..|t|] == t == t[..|t|];
    items := CutAlike(lx, t + b, t, inComment, |t|);
    assert (t + b)[|t|..] == b && t[|t|..] == "";
  }

  /** The chunks behind their leading blanks: `t` is validated alone, then `b`; against `t + b` at once. */
  lemma ChunksCompose(lx: Lexing, st: seq<Kind>, t: string, b: string)
    requires Regular(lx) && ValidStack(st) && t != ""
    requires var w := ReadBefore(lx, t + b, InBlockComment(st), |t|); w.On? && !EndsInRightComment(w.items)
    ensures var first := Process(Start(lx, st, t), Unknown, Read(lx.read, t, InBlockComment(st)));
            var joined := Process(Start(lx, st, t + b), Unknown, Read(lx.read, t + b, InBlockComment(st)));
            && first.Stopped?
            && if first.mismatch then joined == first
               else SameStack(joined, Process(first.stack, Unknown, Read(lx.read, AfterBlanks(b), InBlockComment(first.stack))))
  {
    var mode, st0 := InBlockComment(st), Start(lx, st, t);
    StartMode(lx, st, t);
    var items := ChunkReads(lx, t, b, mode);
    ChunkProcessed(st0, Read(lx.read, t, mode), Read(lx.read, t + b, mode), |t|, items);
    SecondChunk(lx, st0, items, b);
  }

  lemma ChunkProcessed(st: seq<Kind>, alone: Reading, joined: Reading, n: nat, items: seq<Item>)
    requires Upto(alone, n) == On(items, End(0)) && Upto(joined, n).On? && Upto(joined, n).items == items
    ensures var p := ProcessItems(st, Unknown, items);
            && Process(st, Unknown, alone) == Stopped(p.stack, p.Halted?, p.seen)
            && Process(st, Unknown, joined) ==
               if p.Halted? then Stopped(p.stack, true, p.seen) else Process(p.stack, p.seen, Upto(joined, n).rest)
  {
    ProcessThrough(st, Unknown, alone, n);
    ProcessThrough(st, Unknown, joined, n);
  }

  lemma SecondChunk(lx: Lexing, st: seq<Kind>, items: seq<Item>, b: string)
    requires Regular(lx) && ValidStack(st)
    ensures var p := ProcessItems(st, Unknown, items);
            p.Going? ==>
              SameStack(Process(p.stack, p.seen, Read(lx.read, b, ModeAfter(InBlockComment(st), items))),
                        Process(p.stack, Unknown, Read(lx.read, AfterBlanks(b), InBlockComment(p.stack))))
  {
    var p := ProcessItems(st, Unknown, items);
    if p.Going? {
      ModeIsStack(st, Unknown, items);
      LeadingBlanksSkipped(lx, p.stack, p.seen, b);
    }
  }

  /** Some iteration of the run on `s` starts at offset `n`. */
  ghost predicate BoundaryBy(lx: Lexing, st: seq<Kind>, s: string, n: nat)
    requires Regular(lx)
  {
    var k := RunLen(Blanks, s);
    k <= n && Upto(Read(lx.read, AfterBlanks(s), InBlockComment(st)), n - k).On?
  }

  /** The blanks before a boundary of the joined text are those of the first chunk. */
  lemma LeadingBlanksOfChunk(a: string, b: string)
    requires RunLen(Blanks, a + b) <= |a|
    ensures RunLen(Blanks, a) == RunLen(Blanks, a + b)
    ensures AfterBlanks(a + b) == AfterBlanks(a) + b
  {
    var k := RunLen(Blanks, a + b);
    forall i | 0 <= i < k ensures Blanks.Has(a[i]) {
      assert a[i] == (a + b)[i];
    }
    assert k < |a| ==> CharAt(a, k) == (a + b)[k];
    RunLenUnique(Blanks, a, k);
  }

  /** The items of the run on `s` before a boundary. */
  ghost function ItemsBy(lx: Lexing, st: seq<Kind>, s: string, n: nat): seq<Item>
    requires Regular(lx) && BoundaryBy(lx, st, s, n)
  {
    ReadBefore(lx, AfterBlanks(s), InBlockComment(st), n - RunLen(Blanks, s)).items
  }

  /**
   Incremental composition, for any regular lexing: behind a blank first chunk the second
   call is the joined one; a mismatch in the first chunk ends the joined call just there;
   otherwise the joined call goes on from the stack of the first.
   */
  lemma ComposeBy(lx: Lexing, st: seq<Kind>, a: string, b: string)
    requires Regular(lx) && ValidStack(st) && BoundaryBy(lx, st, a + b, |a|)
    requires !EndsInRightComment(ItemsBy(lx, st, a + b, |a|))
    ensures var first, joined := OutcomeBy(lx, st, a), OutcomeBy(lx, st, a + b);
            && first.Stopped?
            && if AfterBlanks(a) == "" then !first.mismatch && joined == OutcomeBy(lx, first.stack, b)
               else if first.mismatch then joined == first
               else SameStack(joined, Process(first.stack, Unknown, Read(lx.read, AfterBlanks(b), InBlockComment(first.stack))))
  {
    LeadingBlanksOfChunk(a, b);
    var t := AfterBlanks(a);
    if t == "" {
      assert t + b == b;
      BlankChunk(lx, st);
      SuffixBlanks(a, b);
    } else {
      ChunksCompose(lx, st, t, b);
    }
  }

  lemma BlankChunk(lx: Lexing, st: seq<Kind>)
    requires Regular(lx)
    ensures !lx.template("")
    ensures Process(Start(lx, st, ""), Unknown, Read(lx.read, "", InBlockComment(st))) == Stopped(st, false, Unknown)
  {
  }

  lemma SuffixBlanks(a: string, b: string)
    requires RunLen(Blanks, a + b) == |a|
    ensures AfterBlanks(b) == b
  {
    assert CharAt(b, 0) == CharAt(a + b, |a|);
    RunLenUnique(Blanks, b, 0);
  }

  /* ---------- a right comment in two chunks ---------- */

  /** A right comment is read from its star alone. */
  lemma StarStep(lx: Lexing, x: string, mode: bool)
    requires Regular(lx)
    requires var r := Read(lx.read, x, mode); r.Next? && r.item.kind == RComment
    ensures CharAt(x, 0) == '*' && CharAt(x, 1) == '/' && |x| >= 2
    ensures Read(lx.read, x, mode) == Next(Item(RComment, CloseComment), 1, Read(lx.read, x[1..], false))
  {
    assert StopsBehindStar(lx.read, x, mode);
  }

  lemma StarAlone(lx: Lexing, mode: bool)
    requires Regular(lx)
    ensures Read(lx.read, "*", mode) == Next(Item(Asterik, Other), 1, End(0))
  {
    assert "*"[1..] == "";
  }

  /** The last item before a cut, if it is a right comment, is the star that ends the first chunk. */
  lemma LastIsStar(lx: Lexing, t: string, b: string, inComment: bool)
    requires Regular(lx)
    requires var w := ReadBefore(lx, t + b, inComment, |t|); w.On? && EndsInRightComment(w.items)
    ensures t != "" && t[|t| - 1..] == "*" && CharAt(b, 0) == '/'
    ensures var items := ReadBefore(lx, t + b, inComment, |t|).items;
            ReadBefore(lx, t + b, inComment, |t| - 1) ==
            On(items[..|items| - 1], Next(Item(RComment, CloseComment), 1, Read(lx.read, b, false)))
  {
    var m := BeforeLast(lx, t + b, inComment, |t|);
    StarAt(lx, t, b, inComment, m);
  }

  lemma BeforeLast(lx: Lexing, t: string, inComment: bool, n: nat) returns (m: nat)
    requires Regular(lx)
    requires var w := ReadBefore(lx, t, inComment, n); w.On? && EndsInRightComment(w.items)
    ensures var items := ReadBefore(lx, t, inComment, n).items; var w := ReadBefore(lx, t, inComment, m);
            && m < n && w.On? && w.items == items[..|items| - 1]
            && w.rest.Next? && w.rest.item.kind == RComment && w.rest.span == n - m
  {
    ReadPositive(lx.read, t, inComment);
    m := UptoLast(Read(lx.read, t, inComment), n);
  }

  lemma StarAt(lx: Lexing, t: string, b: string, inComment: bool, m: nat)
    requires Regular(lx) && m < |t|
    requires var w := ReadBefore(lx, t + b, inComment, m);
             w.On? && w.rest.Next? && w.rest.item.kind == RComment && w.rest.span == |t| - m
    ensures m == |t| - 1 && t[|t| - 1..] == "*" && CharAt(b, 0) == '/'
    ensures ReadBefore(lx, t + b, inComment, |t| - 1) ==
            On(ReadBefore(lx, t + b, inComment, m).items, Next(Item(RComment, CloseComment), 1, Read(lx.read, b, false)))
  {
    UptoRest(lx.read, t + b, inComment, m);
    var x, mode := (t + b)[m..], ModeAfter(inComment, ReadBefore(lx, t + b, inComment, m).items);
    StarStep(lx, x, mode);
    CutBehindStar(t, b, m);
  }

  lemma CutBehindStar(t: string, b: string, m: nat)
    requires m == |t| - 1 && CharAt((t + b)[m..], 0) == '*' && CharAt((t + b)[m..], 1) == '/'
    ensures t[m..] == "*" && CharAt(b, 0) == '/' && (t + b)[m..][1..] == b
  {
    assert (t + b)[m..][0] == t[m];
    assert CharAt((t + b)[m..], 1) == CharAt(b, 0);
  }

  /** Alone, the first of two chunks that part a right comment ends in an asterisk, behind the same items. */
  lemma CutStar(lx: Lexing, t: string, b: string, inComment: bool) returns (before: seq<Item>)
    requires Regular(lx) && t != "" && t[|t| - 1..] == "*" && ReadBefore(lx, t + b, inComment, |t| - 1).On?
    ensures ReadBefore(lx, t + b, inComment, |t| - 1).items == before
    ensures ReadBefore(lx, t, inComment, |t| - 1) == On(before, Next(Item(Asterik, Other), 1, End(0)))
    ensures lx.template(t + b) == lx.template(t)
  {
    var m := |t| - 1;
    assert (t + b)[..m] == t[..m] && (t + b)[m] == t[m] == t[m..][0];
    before := CutAlike(lx, t + b, t, inComment, m);
    StarAlone(lx, ModeAfter(inComment, before));
    if m == 0 {
      NoTemplateBehindStar(lx, t);
      NoTemplateBehindStar(lx, t + b);
    }
  }

  lemma NoTemplateBehindStar(lx: Lexing, t: string)
    requires Regular(lx) && CharAt(t, 0) == '*'
    ensures !lx.template(t)
  {
  }

  /** Unless it has found a mismatch before, the first call ends without one, on the stack before the cut. */
  function CutFirst(p: Progress): Outcome {
    match p
    case Halted(s, l) => Stopped(s, true, l)
    case Going(s, l) => Stopped(s, false, Asterik)
  }

  /** The right comment closes a comment in the joined call. */
  predicate ClosesIn(p: Progress) {
    p.Going? && InBlockComment(p.stack)
  }

  lemma CutReadings(st: seq<Kind>, alone: Reading, joined: Reading, n: nat, before: seq<Item>, tail: Reading)
    requires Upto(alone, n) == On(before, Next(Item(Asterik, Other), 1, End(0)))
    requires Upto(joined, n) == On(before, Next(Item(RComment, CloseComment), 1, tail))
    ensures var p := ProcessItems(st, Unknown, before);
            && Process(st, Unknown, alone) == CutFirst(p)
            && Process(st, Unknown, joined) ==
               if ClosesIn(p) then Process(Pop(p.stack), RComment, tail) else Stopped(p.stack, true, p.seen)
  {
    ProcessThrough(st, Unknown, alone, n);
    ProcessThrough(st, Unknown, joined, n);
    var p := ProcessItems(st, Unknown, before);
    if p.Going? {
      ProcessOnce(p.stack, p.seen, Upto(alone, n).rest);
      ProcessOnce(p.stack, p.seen, Upto(joined, n).rest);
    }
  }

  /** Behind the leading blanks; `before` are the items of the joined reading without the right comment. */
  lemma CutProcessed(lx: Lexing, st: seq<Kind>, t: string, b: string) returns (before: seq<Item>)
    requires Regular(lx) && ValidStack(st)
    requires var w := ReadBefore(lx, t + b, InBlockComment(st), |t|); w.On? && EndsInRightComment(w.items)
    ensures var items := ReadBefore(lx, t + b, InBlockComment(st), |t|).items; before == items[..|items| - 1]
    ensures CharAt(b, 0) == '/' && Start(lx, st, t + b) == Start(lx, st, t)
    ensures var p := ProcessItems(Start(lx, st, t), Unknown, before);
            && Process(Start(lx, st, t), Unknown, Read(lx.read, t, InBlockComment(st))) == CutFirst(p)
            && Process(Start(lx, st, t), Unknown, Read(lx.read, t + b, InBlockComment(st))) ==
               if ClosesIn(p) then Process(Pop(p.stack), RComment, Read(lx.read, b, false)) else Stopped(p.stack, true, p.seen)
  {
    var mode := InBlockComment(st);
    LastIsStar(lx, t, b, mode);
    before := CutStar(lx, t, b, mode);
    CutReadings(Start(lx, st, t), Read(lx.read, t, mode), Read(lx.read, t + b, mode), |t| - 1, before, Read(lx.read, b, false));
  }

  lemma ItemsOfChunks(lx: Lexing, st: seq<Kind>, a: string, b: string) returns (t: string)
    requires Regular(lx) && BoundaryBy(lx, st, a + b, |a|)
    ensures t == AfterBlanks(a) && AfterBlanks(a + b) == t + b
    ensures var w := ReadBefore(lx, t + b, InBlockComment(st), |t|); w.On? && w.items == ItemsBy(lx, st, a + b, |a|)
  {
    LeadingBlanksOfChunk(a, b);
    t := AfterBlanks(a);
  }

  /** The same for whole calls: the joined call goes on behind the comment, the second call inside it. */
  lemma CutBy(lx: Lexing, st: seq<Kind>, a: string, b: string) returns (p: Progress)
    requires Regular(lx) && ValidStack(st) && BoundaryBy(lx, st, a + b, |a|)
    requires EndsInRightComment(ItemsBy(lx, st, a + b, |a|))
    ensures var items := ItemsBy(lx, st, a + b, |a|);
            p == ProcessItems(Start(lx, st, AfterBlanks(a)), Unknown, items[..|items| - 1])
    ensures OutcomeBy(lx, st, a) == CutFirst(p)
    ensures if ClosesIn(p) then SameStack(OutcomeBy(lx, st, a + b), OutcomeBy(lx, Pop(p.stack), b))
            else OutcomeBy(lx, st, a + b) == Stopped(p.stack, true, p.seen)
  {
    var t := ItemsOfChunks(lx, st, a, b);
    var before := CutProcessed(lx, st, t, b);
    var st0 := Start(lx, st, t);
    p := ProcessItems(st0, Unknown, before);
    if ClosesIn(p) {
      StartMode(lx, st, t);
      ModeIsStack(st0, Unknown, before);
      CommentBelow(p.stack);
      SlashCall(lx, Pop(p.stack), b);
    }
  }

  lemma CommentBelow(st: seq<Kind>)
    requires ValidStack(st)
    ensures st != [] ==> !InBlockComment(Pop(st))
  {
  }

  /** A call on text that begins with a slash. */
  lemma SlashCall(lx: Lexing, st: seq<Kind>, b: string)
    requires Regular(lx) && !InBlockComment(st) && CharAt(b, 0) == '/'
    ensures SameStack(Process(st, RComment, Read(lx.read, b, false)), OutcomeBy(lx, st, b))
  {
    RunLenUnique(Blanks, b, 0);
    assert b[0..] == b;
    NoTemplateBehindSlash(lx, b);
    SeenIrrelevant(st, RComment, Unknown, Read(lx.read, b, false));
  }

  lemma NoTemplateBehindSlash(lx: Lexing, b: string)
    requires Regular(lx) && CharAt(b, 0) == '/'
    ensures !lx.template(b)
  {
  }

  /* ---------- rewriting behind a boundary ---------- */

  /** The two readings have the same effect from every stack that is in mode `inComment`. */
  ghost predicate SameEffect(r: Reading, r': Reading, inComment: bool) {
    forall st, seen :: SameFrom(st, seen, r, r', inComment)
  }

  ghost predicate SameFrom(st: seq<Kind>, seen: Kind, r: Reading, r': Reading, inComment: bool) {
    ValidStack(st) && InBlockComment(st) == inComment ==> Process(st, seen, r) == Process(st, seen, r')
  }

  lemma SameItemsSameEffect(r: Reading, r': Reading, inComment: bool)
    requires SameItems(r, r')
    ensures SameEffect(r, r', inComment)
  {
    forall st, seen ensures SameFrom(st, seen, r, r', inComment) {
      SameItemsSameOutcome(st, seen, r, r');
    }
  }

  /** Behind the leading blanks: if the rests have the same effect in the mode of the boundary, so do the texts. */
  lemma RewriteTail(lx: Lexing, st: seq<Kind>, t: string, x: string, y: string, mode: bool)
    requires Regular(lx) && ValidStack(st)
    requires var w := ReadBefore(lx, t + x, InBlockComment(st), |t|);
             w.On? && mode == ModeAfter(InBlockComment(st), w.items)
    requires x != [] && y != [] && x[0] == y[0]
    requires SameEffect(Read(lx.read, x, mode), Read(lx.read, y, mode), mode)
    ensures t != [] ==> lx.template(t + x) == lx.template(t + y)
    ensures SameEffect(Read(lx.read, t + x, InBlockComment(st)), Read(lx.read, t + y, InBlockComment(st)), InBlockComment(st))
  {
    var start := InBlockComment(st);
    PrefixContinues(t, x, y);
    var items := CutAlike(lx, t + x, t + y, start, |t|);
    assert (t + x)[|t|..] == x && (t + y)[|t|..] == y;
    RewriteProcess(Read(lx.read, t + x, start), Read(lx.read, t + y, start), |t|, start);
  }

  lemma RewriteProcess(rx: Reading, ry: Reading, n: nat, start: bool)
    requires Upto(rx, n).On? && Upto(ry, n).On? && Upto(rx, n).items == Upto(ry, n).items
    requires SameEffect(Upto(rx, n).rest, Upto(ry, n).rest, ModeAfter(start, Upto(rx, n).items))
    ensures SameEffect(rx, ry, start)
  {
    var items := Upto(rx, n).items;
    forall st, seen ensures SameFrom(st, seen, rx, ry, start) {
      if ValidStack(st) && InBlockComment(st) == start {
        ProcessThrough(st, seen, rx, n);
        ProcessThrough(st, seen, ry, n);
        var p := ProcessItems(st, seen, items);
        if p.Going? {
          ModeIsStack(st, seen, items);
          assert SameFrom(p.stack, p.seen, Upto(rx, n).rest, Upto(ry, n).rest, ModeAfter(start, items));
        }
      }
    }
  }

  /**
   Texts `p + x` and `p + y` with a boundary behind `p`, where `x` and `y` have the same
   effect there and begin with the same character that is neither blank nor a word character.
   */
  lemma RewriteBy(lx: Lexing, st: seq<Kind>, p: string, x: string, y: string, mode: bool)
    requires Regular(lx) && ValidStack(st) && BoundaryBy(lx, st, p + x, |p|)
    requires mode == ModeAfter(InBlockComment(st), ItemsBy(lx, st, p + x, |p|))
    requires x != [] && y != [] && x[0] == y[0] && !IsBlank(x[0]) && !WordChars.Has(x[0])
    requires SameEffect(Read(lx.read, x, mode), Read(lx.read, y, mode), mode)
    ensures RunLen(Blanks, p + x) == RunLen(Blanks, p + y)
    ensures OutcomeBy(lx, st, p + x) == OutcomeBy(lx, st, p + y)
  {
    var t := BlanksBefore(p, x, y);
    RewriteTail(lx, st, t, x, y, mode);
    SameStart(lx, st, t, x, y);
    StartMode(lx, st, t + x);
    EffectFrom(Start(lx, st, t + x), Unknown, Read(lx.read, t + x, InBlockComment(st)),
               Read(lx.read, t + y, InBlockComment(st)), InBlockComment(st));
  }

  lemma SameStart(lx: Lexing, st: seq<Kind>, t: string, x: string, y: string)
    requires Regular(lx) && x != [] && y != [] && x[0] == y[0] && !WordChars.Has(x[0])
    requires t != [] ==> lx.template(t + x) == lx.template(t + y)
    ensures Start(lx, st, t + x) == Start(lx, st, t + y)
  {
    assert t == [] ==> t + x == x && t + y == y && !lx.template(x) && !lx.template(y);
  }

  lemma EffectFrom(st: seq<Kind>, seen: Kind, r: Reading, r': Reading, inComment: bool)
    requires SameEffect(r, r', inComment) && ValidStack(st) && InBlockComment(st) == inComment
    ensures Process(st, seen, r) == Process(st, seen, r')
  {
    assert SameFrom(st, seen, r, r', inComment);
  }

  /** Leading blanks end in `p`; `t` is what is left of it. */
  lemma BlanksBefore(p: string, x: string, y: string) returns (t: string)
    requires x != [] && y != [] && x[0] == y[0] && !IsBlank(x[0])
    ensures RunLen(Blanks, p + x) == RunLen(Blanks, p + y) == |p| - |t|
    ensures AfterBlanks(p + x) == t + x && AfterBlanks(p + y) == t + y
  {
    var k := RunLen(Blanks, p + x);
    assert (p + x)[|p|] == x[0];
    assert forall i :: 0 <= i < k && i <= |p| ==> (p + y)[i] == (p + x)[i];
    RunLenUnique(Blanks, p + y, k);
    t := p[k..];
    DropOf(p, x, k);
    DropOf(p, y, k);
  }

  lemma DropOf(p: string, x: string, n: nat)
    requires n <= |p|
    ensures (p + x)[n..] == p[n..] + x
  {
  }

  lemma PrefixContinues(t: string, x: string, y: string)
    requires x != [] && y != [] && x[0] == y[0]
    ensures forall items :: Continues(t + x, t + y, |t|, items)
  {
    assert (t + x)[..|t|] == t == (t + y)[..|t|];
    assert (t + x)[|t|] == x[0] == y[0] == (t + y)[|t|];
  }

  lemma {:induction false} SameItemsRefl(r: Reading)
    ensures SameItems(r, r)
    decreases r
  {
    if r.Next? {
      SameItemsRefl(r.rest);
    }
  }
}
