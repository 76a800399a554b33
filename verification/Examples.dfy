/**
 Concrete inputs for the findings: each text is read first, and then processed.
 */
module Examples {
  import opened Tokens
  import opened Scanning
  import opened Brackets
  import opened Lexemes
  import opened Readings
  import opened Validation
  import opened Chunks
  import opened Completion
  import opened Mismatches
  import opened Segments

  /** A text without leading blanks that does not begin with a `t` is read as it is, from the stack as it is. */
  lemma ReadAsItIs(st: seq<Kind>, s: string)
    requires !IsBlank(CharAt(s, 0)) && CharAt(s, 0) != 't'
    ensures RunLen(Blanks, s) == 0 && AfterBlanks(s) == s && StartStack(st, s) == st
  {
    assert s[0..] == s;
    NotTemplateWord(s);
  }

  lemma NotTemplateWord(s: string)
    requires CharAt(s, 0) != 't'
    ensures !TemplateFirst(s)
  {
    var n := if Scan(s).Scanned? then Scan(s).length else 0;
    assert Prefix(s, n) != "" ==> Prefix(s, n)[0] == CharAt(s, 0);
    assert "template"[0] == 't';
  }

  lemma OutcomeIs(st: seq<Kind>, s: string, r: Reading, o: Outcome)
    requires !IsBlank(CharAt(s, 0)) && CharAt(s, 0) != 't' && r == ReadText(s, InBlockComment(st))
    requires Process(st, Unknown, r) == o
    ensures OutcomeOf(st, s) == o
  {
    ReadAsItIs(st, s);
  }

  lemma ReadsEmpty(inComment: bool)
    ensures ReadText("", inComment) == End(0)
  {
    ReadTextOnce("", inComment);
  }

  /* ---------- a mismatch behind a comma ---------- */

  lemma CommaThenCloser(x: string, k: Kind, b: Bracket, span: nat, tail: Reading)
    requires ReadText(x, false) == Next(Item(k, Close(b)), span, tail)
    ensures OutcomeOf([], "," + x) == Stopped([], true, Comma)
    ensures FatalOf([], "," + x) == Fatal(1, Item(k, Close(b)))
  {
    var s, r := "," + x, Next(Item(Comma, Other), 1, Next(Item(k, Close(b)), span, tail));
    ReadsComma(x);
    CloserBehindComma(k, b, r.rest);
    Starts(s, ',');
    OutcomeIs([], s, r, Stopped([], true, Comma));
    FatalIs(s, r, Fatal(1, Item(k, Close(b))));
  }

  lemma ReadsComma(x: string)
    ensures ReadText("," + x, false) == Next(Item(Comma, Other), 1, ReadText(x, false))
  {
    assert IsPunctuator(',') && PunctuatorKind(',') == Comma;
    ReadsChar(',', Comma, x);
  }

  lemma Starts(s: string, c: char)
    requires CharAt(s, 0) == c && !IsBlank(c) && c != 't'
    ensures !IsBlank(CharAt(s, 0)) && CharAt(s, 0) != 't'
  {
  }

  lemma CloserBehindComma(k: Kind, b: Bracket, close: Reading)
    requires close.Next? && close.item == Item(k, Close(b))
    ensures var r := Next(Item(Comma, Other), 1, close);
            Process([], Unknown, r) == Stopped([], true, Comma) && FatalAt([], r) == Fatal(1, Item(k, Close(b)))
  {
    ProcessOnce([], Unknown, Next(Item(Comma, Other), 1, close));
    ProcessOnce([], Comma, close);
  }

  lemma FatalIs(s: string, r: Reading, f: Fatal)
    requires !IsBlank(CharAt(s, 0)) && CharAt(s, 0) != 't' && r == ReadText(s, false) && FatalAt([], r) == f
    ensures FatalOf([], s) == f
  {
    ReadAsItIs([], s);
  }

  /** The verdict of `,]` is incomplete, and nothing at all that is appended changes it. */
  lemma CommaHidesMismatch(u: string)
    ensures OutcomeOf([], ",]" + u) == Stopped([], true, Comma)
  {
    ReadsChar(']', RSquare, u);
    CommaThenCloser("]" + u, RSquare, Square, 1, ReadText(u, false));
    assert ",]" + u == "," + ("]" + u);
  }

  /** The verdict of `,#endif` is incomplete too, but a letter behind it takes the mismatch away: the text is complete. */
  lemma EndifHidesMismatch()
    ensures OutcomeOf([], ",#endif") == Stopped([], true, Comma)
    ensures OutcomeOf([], ",#endif" + "x") == Stopped([], false, RawIdent)
  {
    var x := "#endif";
    EndifReads(x);
    CommaThenCloser(x, RawIdent, Cond, 6, End(0));
    assert "," + x == ",#endif" && ",#endif"[1..] == x;
    BareEndifUndone([], ",#endif");
  }

  lemma EndifReads(x: string)
    requires x == "#endif"
    ensures IsBareEndif(x) && ReadText(x, false) == Next(Item(RawIdent, Close(Cond)), 6, End(0))
  {
    EndifWord(x[1..]);
    HashLexeme(x, Close(Cond), 5);
    ReadsEmpty(false);
    assert x + "" == x;
    Reads(x, "", false, Item(RawIdent, Close(Cond)), 6);
  }

  lemma EndifWord(w: string)
    requires w == "endif"
    ensures AfterBlanks(w) == w && Directive(w) == Lexeme(Item(RawIdent, Close(Cond)), 5)
  {
    RunLenUnique(Blanks, w, 0);
    RunLenUnique(NonBlanks, w, 5);
    assert w[0..] == w && w[..5] == w;
  }

  /* ---------- a bracket in a literal ---------- */

  const BRACKETS := [Plain("a["), Literal('\'', "]"), Plain("]")]

  /** The text `a[']']`, piece by piece: its one pair of brackets is balanced. */
  lemma BracketInLiteral()
    ensures Source(BRACKETS) == "a[']']" && IsSource(BRACKETS)
    ensures ReadSource([], false, BRACKETS) == Result(Live([]), false)
  {
    LastBracket();
    LiteralThere();
    BracketsRead();
    assert BRACKETS[1..] == [Literal('\'', "]"), Plain("]")];
  }

  lemma LastBracket()
    ensures Source([Plain("]")]) == "]" && IsSource([Plain("]")])
  {
    assert [Plain("]")][1..] == [];
    assert Source([Plain("]")]) == "]" + "";
  }

  lemma LiteralThere()
    ensures var segs := [Literal('\'', "]"), Plain("]")]; Source(segs) == "']']" && IsSource(segs)
  {
    var segs := [Literal('\'', "]"), Plain("]")];
    LastBracket();
    assert segs[1..] == [Plain("]")];
    assert Text(segs[0]) == "']'";
  }

  lemma BracketsRead()
    ensures ReadSource([], false, BRACKETS) == Result(Live([]), false)
  {
    OpenedThere();
    ClosedThere();
    assert BRACKETS[1..] == [Literal('\'', "]"), Plain("]")];
    assert [Literal('\'', "]"), Plain("]")][1..] == [Plain("]")] && [Plain("]")][1..] == [];
  }

  lemma OpenedThere()
    ensures ReadPlain([], false, "a[") == Result(Live([LSquare]), false)
  {
    assert "a["[1..] == "[" && "["[1..] == "";
    assert [] + [LSquare] == [LSquare];
  }

  lemma ClosedThere()
    ensures ReadPlain([LSquare], false, "]") == Result(Live([]), false)
  {
    assert "]"[1..] == "" && Pop([LSquare]) == [];
  }

  /* ---------- a right comment in two chunks ---------- */

  lemma ReadsStar()
    ensures ReadText("*", true) == Next(Item(Asterik, Other), 1, End(0))
  {
    ReadsEmpty(true);
    assert Scan("*") == Scanned(Asterik, 1, 1);
    ReadTextOnce("*", true);
    assert "*"[1..] == "";
  }

  lemma ReadsSlashEnd(inComment: bool)
    ensures ReadText("/", inComment) == Next(Item(Slash, Other), 1, End(0))
  {
    ReadsEmpty(inComment);
    assert Scan("/") == Scanned(Slash, 1, 1);
    ReadTextOnce("/", inComment);
    assert "/"[1..] == "";
  }

  const OPENED := "/" + "**"
  const CLOSED := "/" + "**/"

  lemma CloseMarkReading()
    ensures ReadText("*/", true) == Next(Item(RComment, CloseComment), 1, Next(Item(Slash, Other), 1, End(0)))
  {
    ReadsSlashEnd(false);
    assert "/" + "" == "/" && "*/" + "" == "*/";
    ClosesComment("");
  }

  /** The reading of a closed block comment with a second slash behind it. */
  const CLOSED_READING :=
    Next(Item(LComment, OpenComment), 2,
         Next(Item(RComment, CloseComment), 1, Next(Item(Slash, Other), 1, End(0))))

  lemma ReadsClosed()
    ensures ReadText(CLOSED, false) == CLOSED_READING
  {
    CloseMarkReading();
    assert "/*" + "*/" == CLOSED;
    OpensComment("*/");
  }

  lemma ClosedProcessed()
    ensures Process([], Unknown, CLOSED_READING) == Stopped([], false, Slash)
  {
    var r := CLOSED_READING;
    ProcessOnce([], Unknown, r);
    assert [] + [LComment] == [LComment] && Pop([LComment]) == [];
    ProcessOnce([LComment], LComment, r.rest);
    ProcessOnce([], RComment, r.rest.rest);
  }

  /** The joined text closes its comment. */
  lemma ClosedOutcome()
    ensures OutcomeOf([], CLOSED) == Stopped([], false, Slash)
  {
    ReadsClosed();
    ClosedProcessed();
    OutcomeIs([], CLOSED, CLOSED_READING, Stopped([], false, Slash));
  }

  const OPENED_READING := Next(Item(LComment, OpenComment), 2, Next(Item(Asterik, Other), 1, End(0)))

  lemma ReadsOpened()
    ensures ReadText(OPENED, false) == OPENED_READING
  {
    ReadsStar();
    assert "/*" + "*" == OPENED;
    OpensComment("*");
  }

  lemma OpenedProcessed()
    ensures Process([], Unknown, OPENED_READING) == Stopped([LComment], false, Asterik)
  {
    var r := OPENED_READING;
    ProcessOnce([], Unknown, r);
    assert [] + [LComment] == [LComment];
    ProcessOnce([LComment], LComment, r.rest);
  }

  /** Its first chunk leaves it open. */
  lemma OpenedOutcome()
    ensures OutcomeOf([], OPENED) == Stopped([LComment], false, Asterik)
  {
    ReadsOpened();
    OpenedProcessed();
    OutcomeIs([], OPENED, OPENED_READING, Stopped([LComment], false, Asterik));
  }

  /** And so does the second chunk. */
  lemma SecondOutcome()
    ensures OPENED + "/" == CLOSED
    ensures OutcomeOf([LComment], "/") == Stopped([LComment], false, Slash)
  {
    ReadsSlashEnd(true);
    var r := Next(Item(Slash, Other), 1, End(0));
    ProcessOnce([LComment], Unknown, r);
    OutcomeIs([LComment], "/", r, Stopped([LComment], false, Slash));
  }

  /* ---------- a NUL inside the text ---------- */

  /** A brace before a NUL stays open for good: whatever is appended is never seen. */
  lemma NulInside(u: string)
    ensures OutcomeOf([], ['{', NUL] + u) == Stopped([LBrace], false, LBrace)
  {
    var s := ['{', NUL] + u;
    assert s == ['{'] + ([NUL] + u);
    ReadsNul([NUL] + u);
    var r := Next(Item(LBrace, Open(Brace)), 1, End(0));
    ProcessOnce([], Unknown, r);
    assert [] + [LBrace] == [LBrace];
    OutcomeIs([], s, r, Stopped([LBrace], false, LBrace));
  }

  lemma ReadsNul(t: string)
    requires t != "" && t[0] == NUL
    ensures ReadText(['{'] + t, false) == Next(Item(LBrace, Open(Brace)), 1, End(0))
  {
    NothingAtNul(t);
    ReadsChar('{', LBrace, t);
  }

  lemma NothingAtNul(t: string)
    requires t != "" && t[0] == NUL
    ensures ReadText(t, false) == End(0)
  {
    ScanSpansIf(t);
    assert Scan(t) == Scanned(Eof, 1, 1);
    assert ReadLexeme(t, false) == Lexeme(Item(Eof, Other), 0);
    ReadTextOnce(t, false);
  }
}
