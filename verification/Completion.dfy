/** Every input that is merely incomplete is completed by the closers of its stack. */
module Completion {
  import opened Tokens
  import opened Scanning
  import opened Brackets
  import opened Lexemes
  import opened Readings
  import opened Validation
  import opened Boundaries
  import opened Chunks
  import opened Extensions
  import opened Separators

  /** What closes an opener in the text. */
  function CloserText(k: Kind): string {
    match k
    case LSquare => "]"
    case LParen => ")"
    case LBrace => "}"
    case Hash => "# endif"
    case LComment => "*/"
    case _ => ";"
  }

  /** The closers of a stack from top to bottom, each followed by a blank. */
  function CloserTexts(st: seq<Kind>): string
    decreases |st|
  {
    if st == [] then "" else CloserText(Top(st)) + " " + CloserTexts(Pop(st))
  }

  /** Blank, line end, blank, and the closers. */
  function Suffix(st: seq<Kind>): string {
    " " + SuffixLine(st)
  }

  function SuffixLine(st: seq<Kind>): string {
    "\n" + SuffixClosers(st)
  }

  function SuffixClosers(st: seq<Kind>): string {
    " " + CloserTexts(st)
  }

  /* ---------- reading the suffix ---------- */

  lemma Reads(t: string, rest: string, inComment: bool, item: Item, n: nat)
    requires n == |t| && ReadLexeme(t + rest, inComment) == Lexeme(item, n) && item.kind != Eof
    ensures ReadText(t + rest, inComment) == Next(item, n, ReadText(rest, NextMode(inComment, item.ev)))
  {
    ReadTextOnce(t + rest, inComment);
    assert (t + rest)[n..] == rest;
  }

  lemma ReadsBlank(rest: string, inComment: bool)
    requires !IsBlank(CharAt(rest, 0))
    ensures ReadText(" " + rest, inComment) == Next(Item(Space, Other), 1, ReadText(rest, NextMode(inComment, Other)))
  {
    var t := " " + rest;
    assert CharAt(t, 1) == CharAt(rest, 0);
    RunLenUnique(Blanks, t, 1);
    SpaceLexeme(t, inComment);
    Reads(" ", rest, inComment, Item(Space, Other), 1);
  }

  lemma ReadsLineEnd(rest: string, inComment: bool)
    ensures ReadText("\n" + rest, inComment) == Next(Item(Unknown, Other), 1, ReadText(rest, NextMode(inComment, Other)))
  {
    assert Scan("\n" + rest) == Scanned(Unknown, 0, 1);
    Reads("\n", rest, inComment, Item(Unknown, Other), 1);
  }

  lemma ReadsEndif(rest: string)
    ensures ReadText(CloserText(Hash) + (" " + rest), false) ==
            Next(Item(RawIdent, Close(Cond)), 7, ReadText(" " + rest, false))
  {
    var v := " endif" + (" " + rest);
    var t := CloserText(Hash) + (" " + rest);
    assert t[1..] == v;
    RunLenUnique(Blanks, v, 1);
    var u := v[1..];
    assert u == "endif" + (" " + rest);
    RunLenUnique(NonBlanks, u, 5);
    assert u[..5] == "endif";
    assert Directive(v) == Lexeme(Item(RawIdent, Close(Cond)), 6);
    assert Scan(t) == Scanned(Hash, 1, 1);
    Reads(CloserText(Hash), " " + rest, false, Item(RawIdent, Close(Cond)), 7);
  }

  lemma ReadsRightComment(rest: string)
    requires CharAt(rest, 0) != '/' && CharAt(rest, 0) != '*'
    ensures ReadText(CloserText(LComment) + rest, true) ==
            Next(Item(RComment, CloseComment), 1, ReadText("/" + rest, false))
    ensures ReadText("/" + rest, false) == Next(Item(Slash, Other), 1, ReadText(rest, false))
  {
    ClosesComment(rest);
    ReadsSlash(rest);
  }

  lemma ReadsSlash(rest: string)
    requires CharAt(rest, 0) != '/' && CharAt(rest, 0) != '*'
    ensures ReadText("/" + rest, false) == Next(Item(Slash, Other), 1, ReadText(rest, false))
  {
    assert CharAt("/" + rest, 1) == CharAt(rest, 0);
    assert Scan("/" + rest) == Scanned(Slash, 1, 1);
    Reads("/", rest, false, Item(Slash, Other), 1);
  }

  /** The items of one closer, before the reading of what follows: the `/` of a right comment is lexed again. */
  function CloserReading(k: Kind, tail: Reading): Reading {
    match k
    case LComment => Next(Item(RComment, CloseComment), 1, Next(Item(Slash, Other), 1, tail))
    case Hash => Next(Item(RawIdent, Close(Cond)), 7, tail)
    case _ => Next(Item(CloserKind(k), EventOf(CloserKind(k))), 1, tail)
  }

  function CloserKind(k: Kind): Kind {
    match k
    case LSquare => RSquare
    case LParen => RParen
    case LBrace => RBrace
    case _ => Semicolon
  }

  /** A blank, then the closers of a stack. */
  function ClosersReading(stack: seq<Kind>): Reading
    decreases |stack|
  {
    Next(Item(Space, Other), 1,
         if stack == [] then End(0) else CloserReading(Top(stack), ClosersReading(Pop(stack))))
  }

  lemma ReadsCloser(k: Kind, rest: string)
    requires IsOpener(k)
    ensures ReadText(CloserText(k) + (" " + rest), k == LComment) == CloserReading(k, ReadText(" " + rest, false))
  {
    var tail := " " + rest;
    if k == LComment {
      ReadsRightComment(tail);
    } else if k == Hash {
      ReadsEndif(rest);
    } else {
      ReadsPunctuator(k, tail);
    }
  }

  lemma ReadsPunctuator(k: Kind, tail: string)
    requires IsOpener(k) && k != LComment && k != Hash
    ensures ReadText(CloserText(k) + tail, false) == CloserReading(k, ReadText(tail, false))
  {
    var ch := CloserText(k)[0];
    assert CloserText(k) == [ch];
    ReadsChar(ch, CloserKind(k), tail);
  }

  lemma ReadsChar(ch: char, c: Kind, tail: string)
    requires IsPunctuator(ch) && PunctuatorKind(ch) == c && c != Hash && EventOf(c) != OpenComment
    ensures ReadText([ch] + tail, false) == Next(Item(c, EventOf(c)), 1, ReadText(tail, false))
  {
    assert ([ch] + tail)[0] == ch;
    assert Scan([ch] + tail) == Scanned(c, 1, 1);
    Reads([ch], tail, false, Item(c, EventOf(c)), 1);
  }

  lemma {:induction false} ReadsClosers(stack: seq<Kind>)
    requires ValidStack(stack)
    ensures ReadText(SuffixClosers(stack), InBlockComment(stack)) == ClosersReading(stack)
    decreases |stack|
  {
    var mode := InBlockComment(stack);
    if stack == [] {
      ReadsBlank("", mode);
      ReadTextOnce("", false);
    } else {
      ReadsClosers(Pop(stack));
      ReadsTop(stack);
      ReadsBlank(CloserTexts(stack), mode);
    }
  }

  lemma ReadsTop(stack: seq<Kind>)
    requires ValidStack(stack) && stack != []
    ensures !IsBlank(CharAt(CloserTexts(stack), 0)) && !InBlockComment(Pop(stack))
    ensures ReadText(CloserTexts(stack), InBlockComment(stack)) ==
            CloserReading(Top(stack), ReadText(SuffixClosers(Pop(stack)), false))
  {
    var k, rest := Top(stack), CloserTexts(Pop(stack));
    assert k == stack[|stack| - 1];
    assert CloserTexts(stack) == CloserText(k) + (" " + rest);
    ReadsCloser(k, rest);
  }

  /* ---------- processing the suffix ---------- */

  predicate Plainly(seen: Kind) {
    seen != Comma && seen != Backslash
  }

  /** The outcome of an input that is complete. */
  predicate Finished(o: Outcome) {
    o.Stopped? && o.stack == [] && !o.mismatch && Plainly(o.last)
  }

  /** The stack after the closer of `k`; without it, the closer of the marker finds the stack empty. */
  function Below(st: seq<Kind>, k: Kind): seq<Kind> {
    if st == [] || (k == LBrace && InTemplate(Pop(st))) then [] else Pop(st)
  }

  function CloserSeen(k: Kind): (seen: Kind)
    ensures Plainly(seen)
  {
    match k
    case LComment => Slash
    case Hash => RawIdent
    case _ => CloserKind(k)
  }

  /** One closer takes the top of the stack away, or is ignored if the marker went with the brace before. */
  lemma CloseOne(st: seq<Kind>, seen: Kind, k: Kind, tail: Reading)
    requires ValidStack(st) && ((st != [] && Top(st) == k) || (st == [] && k == Less))
    ensures Process(st, seen, CloserReading(k, tail)) == Process(Below(st, k), CloserSeen(k), tail)
  {
    if k == LComment {
      CloseRemark(st, seen, tail);
    } else {
      ProcessOnce(st, seen, CloserReading(k, tail));
      StepCloser(st, k);
    }
  }

  lemma CloseRemark(st: seq<Kind>, seen: Kind, tail: Reading)
    requires st != [] && Top(st) == LComment
    ensures Process(st, seen, CloserReading(LComment, tail)) == Process(Pop(st), Slash, tail)
  {
    var slash := Next(Item(Slash, Other), 1, tail);
    ProcessOnce(st, seen, Next(Item(RComment, CloseComment), 1, slash));
    ProcessOnce(Pop(st), RComment, slash);
  }

  lemma StepCloser(st: seq<Kind>, k: Kind)
    requires ValidStack(st) && ((st != [] && Top(st) == k) || (st == [] && k == Less)) && k != LComment
    ensures Step(st, if k == Hash then Close(Cond) else EventOf(CloserKind(k))) == Live(Below(st, k))
  {
    assert st != [] ==> IsOpener(st[|st| - 1]);
    assert k == Less ==> st == [] || InTemplate(st);
  }

  /** A blank and the closers of a stack empty it, also if the marker at its bottom is gone already. */
  lemma {:induction false} ClosersFinish(stack: seq<Kind>, st: seq<Kind>, seen: Kind)
    requires ValidStack(stack) && Plainly(seen)
    requires st == stack || (st == [] && stack == [Less])
    ensures Finished(Process(st, seen, ClosersReading(stack)))
    decreases |stack|
  {
    var r := ClosersReading(stack);
    ProcessOnce(st, seen, r);
    if stack != [] {
      var k, below := Top(stack), Pop(stack);
      CloseOne(st, seen, k, ClosersReading(below));
      ClosersFinish(below, Below(st, k), CloserSeen(k));
    }
  }

  /* ---------- the theorem ---------- */

  /** The suffix from offset `j` finishes a run that has reached `stack`. */
  ghost predicate SuffixFinishes(lx: Lexing, stack: seq<Kind>, seen: Kind, j: nat)
    requires Regular(lx)
  {
    ValidStack(stack) && j <= 2 && (j == 2 ==> Plainly(seen)) ==>
      Finished(Process(stack, seen, Read(lx.read, Suffix(stack)[j..], InBlockComment(stack))))
  }

  lemma LexerFinishes(stack: seq<Kind>, seen: Kind, j: nat)
    requires Regular(LEXER)
    ensures SuffixFinishes(LEXER, stack, seen, j)
  {
    if ValidStack(stack) && j <= 2 && (j == 2 ==> Plainly(seen)) {
      SuffixFrom(stack, seen, j);
    }
  }

  lemma SuffixFrom(stack: seq<Kind>, seen: Kind, j: nat)
    requires ValidStack(stack) && j <= 2 && (j == 2 ==> Plainly(seen))
    ensures Finished(Process(stack, seen, ReadText(Suffix(stack)[j..], InBlockComment(stack))))
  {
    SuffixParts(stack);
    if j == 2 {
      ReadsClosers(stack);
      ClosersFinish(stack, stack, seen);
    } else {
      SuffixLineFinishes(stack, seen, j);
    }
  }

  lemma SuffixParts(stack: seq<Kind>)
    ensures Suffix(stack)[0..] == Suffix(stack)
    ensures Suffix(stack)[1..] == SuffixLine(stack)
    ensures Suffix(stack)[2..] == SuffixClosers(stack)
  {
  }

  lemma SuffixLineFinishes(stack: seq<Kind>, seen: Kind, j: nat)
    requires ValidStack(stack) && j <= 1
    ensures Finished(Process(stack, seen, ReadText(if j == 0 then Suffix(stack) else SuffixLine(stack), InBlockComment(stack))))
  {
    var mode := InBlockComment(stack);
    ReadsClosers(stack);
    ReadsLineEnd(SuffixClosers(stack), mode);
    LineEndFinishes(stack, seen, ReadText(SuffixLine(stack), mode));
    if j == 0 {
      ReadsBlank(SuffixLine(stack), mode);
      ProcessOnce(stack, seen, ReadText(Suffix(stack), mode));
    }
  }

  lemma LineEndFinishes(stack: seq<Kind>, seen: Kind, r: Reading)
    requires ValidStack(stack) && r == Next(Item(Unknown, Other), 1, ClosersReading(stack))
    ensures Finished(Process(stack, seen, r))
  {
    ProcessOnce(stack, seen, r);
    ClosersFinish(stack, stack, Unknown);
  }

  lemma BlankDirectiveTakesLineEnd(v: string, u: string)
    requires RunLen(Blanks, v) == |v|
    requires |u| > 2 && u[0] == ' ' && u[1] == '\n' && u[2] == ' '
    ensures Directive(v + u) == Lexeme(Item(RawIdent, Other), |v| + 2)
  {
    var x, w := v + u, u[1..];
    RunLenAppend(Blanks, v, u);
    RunLenUnique(Blanks, u, 1);
    assert RunLen(Blanks, x) == |v| + 1;
    assert x[|v|..] == u;
    DropDrop(x, |v|, 1);
    LineEndWord(w);
  }

  lemma LineEndWord(w: string)
    requires |w| > 1 && w[0] == '\n' && w[1] == ' '
    ensures RunLen(NonBlanks, w) == 1 && DirectiveEvent(w[..1]) == Other
  {
    assert RunLen(NonBlanks, w[1..]) == 0;
  }

  /** A hash that ends a text takes the line end of the suffix as its directive word. */
  lemma HashTakesLineEnd(t: string, u: string, inComment: bool)
    requires |u| > 2 && u[0] == ' ' && u[1] == '\n' && u[2] == ' '
    ensures EndExtends(LEXER, t, u, inComment)
  {
    var r := ReadLexeme(t, inComment);
    if t != "" && r.Lexeme? && r.item.kind == Eof && r.span == |t| {
      EofStart(t, inComment);
      BlankHashTakesLineEnd(t, u);
    }
  }

  lemma BlankHashTakesLineEnd(t: string, u: string)
    requires |u| > 2 && u[0] == ' ' && u[1] == '\n' && u[2] == ' '
    requires t != "" && t[0] == '#' && RunLen(Blanks, t[1..]) == |t| - 1
    ensures ReadLexeme(t + u, false) == Lexeme(Item(RawIdent, Other), |t| + 2)
  {
    DropOf(t, u, 1);
    BlankDirectiveTakesLineEnd(t[1..], u);
    HashLexeme(t + u, Other, |t| + 1);
  }

  lemma LexerResumes(u: string)
    requires |u| > 2 && u[0] == ' ' && u[1] == '\n' && u[2] == ' '
    ensures Resumes(LEXER, u)
  {
    RunLenUnique(Blanks, u, 1);
    RunLenUnique(LineText, u, 1);
    RunLenUnique(NonBlanks, u, 0);
    LexerExtends(u, 1);
    forall t, m ensures EndExtends(LEXER, t, u, m) {
      HashTakesLineEnd(t, u, m);
    }
  }

  /** The run on `s` stops at the end of the text, not at a NUL inside it. */
  predicate ReachesEnd(st: seq<Kind>, s: string) {
    RunsOut(ReadText(AfterBlanks(s), InBlockComment(st)), |AfterBlanks(s)|)
  }

  lemma SuffixCompletesBy(lx: Lexing, st: seq<Kind>, s: string)
    requires Regular(lx) && ValidStack(st)
    requires RunsOut(Read(lx.read, AfterBlanks(s), InBlockComment(st)), |AfterBlanks(s)|)
    requires OutcomeBy(lx, st, s).Stopped? && !OutcomeBy(lx, st, s).mismatch
    requires Resumes(lx, Suffix(OutcomeBy(lx, st, s).stack))
    requires forall stack, seen, j :: SuffixFinishes(lx, stack, seen, j)
    ensures Finished(OutcomeBy(lx, st, s + Suffix(OutcomeBy(lx, st, s).stack)))
  {
    var stack := OutcomeBy(lx, st, s).stack;
    var u := Suffix(stack);
    assert u[0] == ' ' && u[1] == '\n';
    var j, seen := ResumeCall(lx, u, st, s);
    assert SuffixFinishes(lx, stack, seen, j);
  }

  /**
   Completability: whatever a mismatch-free call has left on the stack, appending the
   suffix of that stack to its input makes the whole text complete.
   */
  lemma SuffixCompletes(st: seq<Kind>, s: string)
    requires ValidStack(st) && ReachesEnd(st, s)
    requires OutcomeOf(st, s).Stopped? && !OutcomeOf(st, s).mismatch
    ensures var o := OutcomeOf(st, s + Suffix(OutcomeOf(st, s).stack));
            Finished(o) && Verdict(o) == Complete
  {
    var u := Suffix(OutcomeOf(st, s).stack);
    LexerResumes(u);
    OutcomeByLexer(st, s);
    OutcomeByLexer(st, s + u);
    forall stack, seen, j ensures SuffixFinishes(LEXER, stack, seen, j) {
      LexerFinishes(stack, seen, j);
    }
    SuffixCompletesBy(LEXER, st, s);
  }

  /* ---------- exactly when ---------- */

  lemma NulHidesTail(t: string, u: string, inComment: bool)
    ensures HidesTail(LEXER, t, u, inComment)
  {
    var r := ReadLexeme(t, inComment);
    if r.Lexeme? && r.item.kind == Eof {
      EofStart(t, inComment);
      if r.span < |t| {
        NulHidesLexeme(t, u, inComment);
      }
    }
  }

  lemma EofStart(t: string, inComment: bool)
    requires var r := ReadLexeme(t, inComment); r.Lexeme? && r.item.kind == Eof
    ensures CharAt(t, 0) == NUL || (!inComment && t[0] == '#' && Scan(t) == Scanned(Hash, 1, 1))
  {
    ScanSpansIf(t);
  }

  lemma NulHidesLexeme(t: string, u: string, inComment: bool)
    requires var r := ReadLexeme(t, inComment); r.Lexeme? && r.item.kind == Eof && r.span < |t|
    ensures ReadLexeme(t + u, inComment) == ReadLexeme(t, inComment)
  {
    EofStart(t, inComment);
    assert (t + u)[0] == t[0];
    if CharAt(t, 0) != NUL {
      NulHidesDirective(t, u);
    }
  }

  lemma NulHidesDirective(t: string, u: string)
    requires t != "" && Scan(t) == Scanned(Hash, 1, 1)
    requires Directive(t[1..]).item.kind == Eof && Directive(t[1..]).span < |t| - 1
    ensures ReadLexeme(t + u, false) == ReadLexeme(t, false)
  {
    assert (t + u)[0] == t[0] == '#';
    DropOf(t, u, 1);
    NulEndsDirective(t[1..], u);
  }

  lemma NulEndsDirective(v: string, u: string)
    requires Directive(v).item.kind == Eof && Directive(v).span < |v|
    ensures Directive(v + u) == Directive(v)
  {
    var b := RunLen(Blanks, v);
    RunLenAppend(Blanks, v, u);
    DropOf(v, u, b);
  }

  /** Text behind a NUL that stops the run is never seen. */
  lemma TextBehindNul(st: seq<Kind>, s: string, u: string)
    requires OutcomeOf(st, s).Stopped? && !ReachesEnd(st, s)
    ensures OutcomeOf(st, s + u) == OutcomeOf(st, s)
  {
    LexerIsRegular();
    OutcomeByLexer(st, s);
    OutcomeByLexer(st, s + u);
    forall t, m ensures HidesTail(LEXER, t, u, m) {
      NulHidesTail(t, u, m);
    }
    HiddenTailBy(LEXER, u, st, s);
  }

  /** An incomplete input without a mismatch is completed by its suffix exactly when its run reaches the end of the text. */
  lemma CompletableIff(st: seq<Kind>, s: string)
    requires ValidStack(st) && OutcomeOf(st, s).Stopped? && !OutcomeOf(st, s).mismatch
    requires Verdict(OutcomeOf(st, s)) == Incomplete
    ensures var o := OutcomeOf(st, s + Suffix(OutcomeOf(st, s).stack));
            o.Stopped? && (Verdict(o) == Complete <==> ReachesEnd(st, s))
  {
    if ReachesEnd(st, s) {
      SuffixCompletes(st, s);
    } else {
      TextBehindNul(st, s, Suffix(OutcomeOf(st, s).stack));
    }
  }

  /** A text without a NUL is read to its end, unless a literal is not closed or a mismatch comes first. */
  lemma {:induction false} WithoutNul(t: string, inComment: bool)
    requires NUL !in t
    ensures var r := ReadText(t, inComment); EndsStuck(r) || RunsOut(r, |t|)
    decreases |t|
  {
    ReadTextOnce(t, inComment);
    var r := ReadLexeme(t, inComment);
    if r.Lexeme? && r.item.kind != Eof {
      WithoutNul(t[r.span..], NextMode(inComment, r.item.ev));
    }
  }

  predicate EndsStuck(r: Reading)
    decreases r
  {
    r.Stuck? || (r.Next? && EndsStuck(r.rest))
  }

  lemma {:induction false} StuckNeverStops(st: seq<Kind>, seen: Kind, r: Reading)
    requires EndsStuck(r) && Process(st, seen, r).Stopped?
    ensures Process(st, seen, r).mismatch
    decreases r
  {
    ProcessOnce(st, seen, r);
    if Step(st, r.item.ev).Live? {
      StuckNeverStops(Step(st, r.item.ev).stack, Note(seen, r.item.kind), r.rest);
    }
  }

  /** So every incomplete input without a NUL and without a mismatch is completed. */
  lemma Completability(st: seq<Kind>, s: string)
    requires ValidStack(st) && OutcomeOf(st, s).Stopped? && !OutcomeOf(st, s).mismatch
    requires NUL !in s
    ensures var o := OutcomeOf(st, s + Suffix(OutcomeOf(st, s).stack));
            Finished(o) && Verdict(o) == Complete
  {
    var t, mode := AfterBlanks(s), InBlockComment(st);
    assert NUL !in t by {
      assert forall c :: c in t ==> c in s;
    }
    WithoutNul(t, mode);
    if EndsStuck(ReadText(t, mode)) {
      StuckNeverStops(StartStack(st, s), Unknown, ReadText(t, mode));
    }
    SuffixCompletes(st, s);
  }
}
