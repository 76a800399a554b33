/**
 The lexer of the validator is regular, so its runs can be cut at loop boundaries:
 literals and comments rewritten in place.
 */
module Chunks {
  import opened Tokens
  import opened Scanning
  import opened Brackets
  import opened Lexemes
  import opened Readings
  import opened Validation
  import opened Boundaries

  const LEXER := Lexing(ReadLexeme, TemplateFirst)

  lemma LexerIsRegular()
    ensures Regular(LEXER)
  {
    LexemesLookOneAhead();
    forall s, m ensures BlanksAreOneSpace(LEXER, s, m) {
      SpaceLexeme(s, m);
    }
    forall t, u, m ensures TemplateAlike(LEXER, t, u, m) {
      var r := ReadLexeme(t, m);
      if r.Lexeme? && r.item.kind != Eof && Continues(t, u, r.span, [r.item]) {
        TemplateFirstLocal(t, u, m);
      }
    }
    forall t | TemplateFirst(t) ensures WordChars.Has(CharAt(t, 0)) {
      TemplateStart(t);
    }
    forall t, m ensures CloserIsNoWord(LEXER, t, m) {
      CloserStart(t, m);
    }
    forall m ensures ReadLexeme("*", m) == Lexeme(Item(Asterik, Other), 1) {
      assert Scan("*") == Scanned(Asterik, 1, 1);
    }
  }

  lemma CloserStart(t: string, inComment: bool)
    ensures CloserIsNoWord(LEXER, t, inComment)
  {
  }

  lemma SpaceLexeme(s: string, inComment: bool)
    ensures RunLen(Blanks, s) > 0 ==> ReadLexeme(s, inComment) == Lexeme(Item(Space, Other), RunLen(Blanks, s))
  {
    if RunLen(Blanks, s) > 0 {
      assert IsBlank(s[0]) && Scan(s) == Scanned(Space, RunLen(Blanks, s), RunLen(Blanks, s));
    }
  }

  lemma TemplateStart(t: string)
    requires TemplateFirst(t)
    ensures WordChars.Has(CharAt(t, 0))
  {
  }

  /** Whether the text begins with `template` is decided by its first token and the character behind it. */
  lemma TemplateFirstLocal(t: string, u: string, inComment: bool)
    requires var r := ReadLexeme(t, inComment); r.Lexeme? && r.item.kind != Eof && Continues(t, u, r.span, [r.item])
    ensures TemplateFirst(t) <==> TemplateFirst(u)
  {
    var r, s := ReadLexeme(t, inComment), Scan(t);
    FirstTokenInLexeme(t, inComment);
    ScanSpans(t);
    if s.advance < r.span {
      SameUpToShorter(t, u, r.span, s.advance);
    }
    ScanLocal(t, u);
    if s.kind == Ident {
      assert t[..s.length] == u[..s.length];
    }
  }

  lemma FirstTokenInLexeme(t: string, inComment: bool)
    requires var r := ReadLexeme(t, inComment); r.Lexeme? && r.item.kind != Eof
    ensures var r, s := ReadLexeme(t, inComment), Scan(t);
            && s.Scanned? && s.kind != Eof && 0 < s.advance <= r.span
            && (s.kind == RComment ==> r == Lexeme(Item(RComment, CloseComment), 1) && s.advance == 1)
  {
    ScanSpansIf(t);
  }

  lemma OutcomeByLexer(st: seq<Kind>, s: string)
    requires Regular(LEXER)
    ensures OutcomeOf(st, s) == OutcomeBy(LEXER, st, s)
  {
  }

  /** Some iteration of the run on `s`, called with stack `st`, starts at offset `n`. */
  predicate AtBoundary(st: seq<Kind>, s: string, n: nat) {
    var k := RunLen(Blanks, s);
    k <= n && Upto(ReadText(AfterBlanks(s), InBlockComment(st)), n - k).On?
  }

  /** What the run on `s` has read before that iteration. */
  function ItemsBefore(st: seq<Kind>, s: string, n: nat): seq<Item>
    requires AtBoundary(st, s, n)
  {
    Upto(ReadText(AfterBlanks(s), InBlockComment(st)), n - RunLen(Blanks, s)).items
  }

  /** Whether that iteration starts inside a block comment. */
  function ModeAtBoundary(st: seq<Kind>, s: string, n: nat): bool
    requires AtBoundary(st, s, n)
  {
    ModeAfter(InBlockComment(st), ItemsBefore(st, s, n))
  }

  lemma BoundaryByLexer(st: seq<Kind>, s: string, n: nat)
    requires Regular(LEXER) && AtBoundary(st, s, n)
    ensures BoundaryBy(LEXER, st, s, n) && ItemsBy(LEXER, st, s, n) == ItemsBefore(st, s, n)
  {
  }

  /** Rewriting behind a boundary: only the effect of what follows matters. */
  lemma RewriteText(st: seq<Kind>, p: string, x: string, y: string)
    requires ValidStack(st) && AtBoundary(st, p + x, |p|)
    requires x != [] && y != [] && x[0] == y[0] && !IsBlank(x[0]) && !WordChars.Has(x[0])
    requires var mode := ModeAtBoundary(st, p + x, |p|); SameEffect(ReadText(x, mode), ReadText(y, mode), mode)
    ensures RunLen(Blanks, p + y) == RunLen(Blanks, p + x)
    ensures OutcomeOf(st, p + y) == OutcomeOf(st, p + x)
  {
    LexerIsRegular();
    OutcomeByLexer(st, p + x);
    OutcomeByLexer(st, p + y);
    BoundaryByLexer(st, p + x, |p|);
    RewriteBy(LEXER, st, p, x, y, ModeAtBoundary(st, p + x, |p|));
  }

  /* ---------- literals ---------- */

  /** A literal read as one item, whatever it holds. */
  lemma LiteralItem(l: string, q: char, r: string, inComment: bool)
    requires IsLiteral(l, q)
    ensures ReadText(l + r, inComment) ==
            Next(Item(if q == '"' then StringLit else CharLit, Other), |l|, ReadText(r, inComment))
  {
    ScanWholeLiteral(l, q, r);
    ReadTextOnce(l + r, inComment);
    assert (l + r)[|l|..] == r;
  }

  lemma LiteralItems(l: string, l': string, q: char, r: string, inComment: bool)
    requires IsLiteral(l, q) && IsLiteral(l', q)
    ensures SameEffect(ReadText(l + r, inComment), ReadText(l' + r, inComment), inComment)
  {
    LiteralItem(l, q, r, inComment);
    LiteralItem(l', q, r, inComment);
    SameItemsRefl(ReadText(r, inComment));
    SameItemsSameEffect(ReadText(l + r, inComment), ReadText(l' + r, inComment), inComment);
  }

  /**
   Literal opacity. At a loop boundary, a closed literal can be replaced by any other one
   of the same quote: the outcome, and with it the verdict, stays the same, and so do the
   leading blanks that go into the indent.
   */
  lemma LiteralOpacity(st: seq<Kind>, p: string, l: string, l': string, q: char, r: string)
    requires ValidStack(st) && IsLiteral(l, q) && IsLiteral(l', q)
    requires AtBoundary(st, p + (l + r), |p|)
    ensures OutcomeOf(st, p + (l' + r)) == OutcomeOf(st, p + (l + r))
    ensures RunLen(Blanks, p + (l' + r)) == RunLen(Blanks, p + (l + r))
  {
    LiteralItems(l, l', q, r, ModeAtBoundary(st, p + (l + r), |p|));
    RewriteText(st, p, l + r, l' + r);
  }

  /* ---------- line comments ---------- */

  /** The text of a `//` comment, up to but not including the end of its line. */
  predicate IsLineComment(c: string) {
    |c| >= 2 && c[0] == '/' && c[1] == '/' && forall i :: 2 <= i < |c| ==> LineText.Has(c[i])
  }

  predicate EndsLine(r: string) {
    !LineText.Has(CharAt(r, 0))
  }

  lemma LineCommentItem(c: string, r: string)
    requires IsLineComment(c) && EndsLine(r)
    ensures ReadText(c + r, false) == Next(Item(Unknown, Other), |c|, ReadText(r, false))
  {
    var t := c + r;
    assert forall i :: 0 <= i < |c| - 2 ==> t[2..][i] == c[i + 2];
    assert CharAt(t[2..], |c| - 2) == CharAt(r, 0);
    RunLenUnique(LineText, t[2..], |c| - 2);
    assert Scan(t) == Scanned(Comment, 2, 2);
    ReadTextOnce(t, false);
    assert t[|c|..] == r;
  }

  lemma LineCommentItems(c: string, c': string, r: string)
    requires IsLineComment(c) && IsLineComment(c') && EndsLine(r)
    ensures SameEffect(ReadText(c + r, false), ReadText(c' + r, false), false)
  {
    LineCommentItem(c, r);
    LineCommentItem(c', r);
    SameItemsRefl(ReadText(r, false));
    SameItemsSameEffect(ReadText(c + r, false), ReadText(c' + r, false), false);
  }

  /** Outside block comments, the text of a line comment can be rewritten without changing anything. */
  lemma LineCommentOpacity(st: seq<Kind>, p: string, c: string, c': string, r: string)
    requires ValidStack(st) && IsLineComment(c) && IsLineComment(c') && EndsLine(r)
    requires AtBoundary(st, p + (c + r), |p|) && !ModeAtBoundary(st, p + (c + r), |p|)
    ensures OutcomeOf(st, p + (c' + r)) == OutcomeOf(st, p + (c + r))
    ensures RunLen(Blanks, p + (c' + r)) == RunLen(Blanks, p + (c + r))
  {
    LineCommentItems(c, c', r);
    RewriteComment(st, p, c + r, c' + r);
  }

  /* ---------- block comments ---------- */

  /** `c` can stand between the marks of a block comment before `r`: its own lexemes fill it and none is a right comment. */
  predicate IsCommentBody(c: string, r: string) {
    var w := Upto(ReadText(c + ("*/" + r), true), |c|);
    w.On? && NoneCloses(w.items)
  }

  function CommentText(c: string, r: string): string {
    "/*" + (c + ("*/" + r))
  }

  lemma OpensComment(t: string)
    ensures ReadText("/*" + t, false) == Next(Item(LComment, OpenComment), 2, ReadText(t, true))
  {
    var u := "/*" + t;
    assert u[0] == '/' && u[1] == '*';
    assert Scan(u) == Scanned(LComment, 2, 2);
    ReadTextOnce(u, false);
    assert u[2..] == t;
  }

  lemma ClosesComment(r: string)
    ensures ReadText("*/" + r, true) == Next(Item(RComment, CloseComment), 1, ReadText("/" + r, false))
  {
    var u := "*/" + r;
    assert u[0] == '*' && u[1] == '/';
    assert Scan(u) == Scanned(RComment, 2, 1);
    ReadTextOnce(u, true);
    assert u[1..] == "/" + r;
  }

  /** Items without a right comment leave the stack of a block comment alone. */
  lemma {:induction false} BodyItems(st: seq<Kind>, seen: Kind, items: seq<Item>)
    requires InBlockComment(st) && NoneCloses(items)
    ensures ProcessItems(st, seen, items).Going? && ProcessItems(st, seen, items).stack == st
    decreases |items|
  {
    if items != [] {
      BodyItems(st, Note(seen, items[0].kind), items[1..]);
    }
  }

  predicate NoneCloses(items: seq<Item>) {
    forall i :: 0 <= i < |items| ==> items[i].ev != CloseComment
  }

  /** Behind the opener, a body and the right comment bring back the stack. */
  lemma CommentReading(st: seq<Kind>, seen: Kind, body: Reading, n: nat, items: seq<Item>, tail: Reading)
    requires ValidStack(st) && !InBlockComment(st) && NoneCloses(items)
    requires Upto(body, n) == On(items, Next(Item(RComment, CloseComment), 1, tail))
    ensures Process(st, seen, Next(Item(LComment, OpenComment), 2, body)) == Process(st, RComment, tail)
  {
    var inside := st + [LComment];
    ProcessOnce(st, seen, Next(Item(LComment, OpenComment), 2, body));
    ProcessThrough(inside, LComment, body, n);
    BodyThenClose(st, LComment, items, tail);
  }

  lemma BodyThenClose(st: seq<Kind>, seen: Kind, items: seq<Item>, tail: Reading)
    requires NoneCloses(items)
    ensures var inside := st + [LComment];
            var p := ProcessItems(inside, seen, items);
            && p.Going? && p.stack == inside
            && Process(inside, p.seen, Next(Item(RComment, CloseComment), 1, tail)) == Process(st, RComment, tail)
  {
    var inside := st + [LComment];
    BodyItems(inside, seen, items);
    assert Pop(inside) == st;
    ProcessOnce(inside, ProcessItems(inside, seen, items).seen, Next(Item(RComment, CloseComment), 1, tail));
  }

  /** The `/` of the right comment is lexed again. */
  lemma CommentReads(c: string, r: string)
    requires IsCommentBody(c, r)
    ensures ReadText(CommentText(c, r), false) ==
            Next(Item(LComment, OpenComment), 2, ReadText(c + ("*/" + r), true))
    ensures Upto(ReadText(c + ("*/" + r), true), |c|).rest ==
            Next(Item(RComment, CloseComment), 1, ReadText("/" + r, false))
  {
    var t := c + ("*/" + r);
    OpensComment(t);
    UptoText(t, true, |c|);
    assert t[|c|..] == "*/" + r;
    NoRightComment(Upto(ReadText(t, true), |c|).items);
    ClosesComment(r);
  }

  lemma {:induction false} NoRightComment(items: seq<Item>)
    requires NoneCloses(items)
    ensures ModeAfter(true, items)
    decreases |items|
  {
    if items != [] {
      NoRightComment(items[1..]);
    }
  }

  lemma UptoText(t: string, inComment: bool, n: nat)
    requires Upto(ReadText(t, inComment), n).On?
    ensures n <= |t|
    ensures var w := Upto(ReadText(t, inComment), n); w.rest == ReadText(t[n..], ModeAfter(inComment, w.items))
  {
    LexemesAdvance();
    UptoRest(ReadLexeme, t, inComment, n);
  }

  lemma CommentsSameEffect(c: string, c': string, r: string)
    requires IsCommentBody(c, r) && IsCommentBody(c', r)
    ensures SameEffect(ReadText(CommentText(c, r), false), ReadText(CommentText(c', r), false), false)
  {
    var x, y := ReadText(CommentText(c, r), false), ReadText(CommentText(c', r), false);
    CommentReads(c, r);
    CommentReads(c', r);
    forall st, seen ensures SameFrom(st, seen, x, y, false) {
      if ValidStack(st) && !InBlockComment(st) {
        CommentReading(st, seen, x.rest, |c|, Upto(x.rest, |c|).items, ReadText("/" + r, false));
        CommentReading(st, seen, y.rest, |c'|, Upto(y.rest, |c'|).items, ReadText("/" + r, false));
      }
    }
  }

  /** Two texts that start with a slash outside block comments and have the same effect can stand for each other. */
  lemma RewriteComment(st: seq<Kind>, p: string, x: string, y: string)
    requires ValidStack(st) && AtBoundary(st, p + x, |p|) && !ModeAtBoundary(st, p + x, |p|)
    requires x != [] && y != [] && x[0] == '/' && y[0] == '/'
    requires SameEffect(ReadText(x, false), ReadText(y, false), false)
    ensures OutcomeOf(st, p + y) == OutcomeOf(st, p + x)
    ensures RunLen(Blanks, p + y) == RunLen(Blanks, p + x)
  {
    RewriteText(st, p, x, y);
  }

  /** Outside block comments, the text of a whole block comment can be rewritten without changing anything. */
  lemma BlockCommentOpacity(st: seq<Kind>, p: string, c: string, c': string, r: string)
    requires ValidStack(st) && IsCommentBody(c, r) && IsCommentBody(c', r)
    requires AtBoundary(st, p + CommentText(c, r), |p|) && !ModeAtBoundary(st, p + CommentText(c, r), |p|)
    ensures OutcomeOf(st, p + CommentText(c', r)) == OutcomeOf(st, p + CommentText(c, r))
    ensures RunLen(Blanks, p + CommentText(c', r)) == RunLen(Blanks, p + CommentText(c, r))
  {
    CommentsSameEffect(c, c', r);
    CommentStarts(c, r);
    CommentStarts(c', r);
    RewriteComment(st, p, CommentText(c, r), CommentText(c', r));
  }

  lemma CommentStarts(c: string, r: string)
    ensures CommentText(c, r) != "" && CommentText(c, r)[0] == '/'
  {
  }
}
