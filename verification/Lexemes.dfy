/**
 What one iteration of the validation loop reads. The loop replaces a line comment by
 the rest of its line and a hash by the directive word behind it, except in a block comment.
 */
module Lexemes {
  import opened Tokens
  import opened Scanning
  import opened Brackets

  /** The kind the loop sees after the iteration, and the event it hands to the stack. */
  datatype Item = Item(kind: Kind, ev: Event)

  /** `span` is the text consumed; for an eof item it is the offset of the terminator. */
  datatype Lexeme = Unterminated | Lexeme(item: Item, span: nat)

  function EventOf(k: Kind): Event {
    match k
    case LSquare => Open(Square)
    case LParen => Open(Paren)
    case LBrace => Open(Brace)
    case RSquare => Close(Square)
    case RParen => Close(Paren)
    case RBrace => Close(Brace)
    case LComment => OpenComment
    case RComment => CloseComment
    case Semicolon => Semi
    case _ => Other
  }

  function Prefix(w: string, n: nat): string {
    if n <= |w| then w[..n] else w
  }

  /** `if...` opens a conditional. */
  predicate OpensConditional(w: string) {
    |w| >= 2 && w[0] == 'i' && w[1] == 'f'
  }

  /** `endif` closes one when a slash, a space or nothing follows it. */
  predicate ClosesConditional(w: string) {
    |w| >= 5 && w[0] == 'e' && w[1] == 'n' && w[2] == 'd' && w[3] == 'i' && w[4] == 'f'
    && (|w| == 5 || w[5] == '/' || IsSpace(w[5]))
  }

  function DirectiveEvent(w: string): Event {
    if OpensConditional(w) then Open(Cond)
    else if ClosesConditional(w) then Close(Cond)
    else Other
  }

  /** Behind a hash: the word after optional blanks, up to a blank. */
  function Directive(v: string): (r: Lexeme)
    ensures r.Lexeme? && r.span <= |v|
  {
    var b := RunLen(Blanks, v);
    var u := v[b..];
    var w := RunLen(NonBlanks, u);
    if CharAt(u, 0) == NUL then Lexeme(Item(Eof, Other), b)
    else Lexeme(Item(RawIdent, DirectiveEvent(u[..w])), b + w)
  }

  /** The iteration on `t` when its first token is of kind `k` and takes `n` characters. */
  function LexemeFrom(k: Kind, n: nat, t: string, inComment: bool): (r: Lexeme)
    requires k != Eof ==> 0 < n <= |t|
    ensures r.Lexeme? && r.span <= |t| && (r.item.kind != Eof ==> 0 < r.span)
  {
    if k == Eof then Lexeme(Item(Eof, Other), 0)
    else if !inComment && k == Comment then
      Lexeme(Item(Unknown, Other), n + RunLen(LineText, t[n..]))
    else if !inComment && k == Hash then
      var d := Directive(t[n..]);
      Lexeme(d.item, n + d.span)
    else Lexeme(Item(k, EventOf(k)), n)
  }

  function ReadLexeme(t: string, inComment: bool): (r: Lexeme)
    ensures r.Lexeme? ==> r.span <= |t| && (r.item.kind != Eof ==> 0 < r.span)
    ensures r.Lexeme? && r.item.kind == Eof ==> CharAt(t, r.span) == NUL && r.item.ev == Other
  {
    ScanSpansIf(t);
    match Scan(t)
    case OpenLiteral => Unterminated
    case Scanned(kind, length, advance) => LexemeFrom(kind, advance, t, inComment)
  }

  /** A hash outside block comments takes the directive word behind it. */
  lemma HashLexeme(t: string, e: Event, n: nat)
    requires t != "" && t[0] == '#' && Directive(t[1..]) == Lexeme(Item(RawIdent, e), n)
    ensures ReadLexeme(t, false) == Lexeme(Item(RawIdent, e), n + 1)
  {
    assert Scan(t) == Scanned(Hash, 1, 1);
  }

  lemma ScanSpansIf(t: string)
    ensures var r := Scan(t); r.Scanned? ==>
              && (r.kind == Eof <==> CharAt(t, 0) == NUL)
              && (r.kind != Eof ==> 0 < r.advance <= |t|)
  {
    if Scan(t).Scanned? {
      ScanSpans(t);
    }
  }

  /* ---------- lookahead ---------- */

  lemma SameUpToShorter(t: string, u: string, n: nat, m: nat)
    requires SameUpTo(t, u, n) && m < n
    ensures SameUpTo(t, u, m) && CharAt(u, m) == CharAt(t, m)
  {
    assert t[..m] == t[..n][..m] == u[..n][..m] == u[..m];
    assert t[m] == t[..n][m] == u[..n][m] == u[m];
  }

  lemma SameUpToDrop(t: string, u: string, n: nat, m: nat)
    requires SameUpTo(t, u, n) && m <= n
    ensures SameUpTo(t[m..], u[m..], n - m)
  {
    assert t[m..][..n - m] == t[..n][m..] == u[..n][m..] == u[m..][..n - m];
  }

  lemma DirectiveLocal(v: string, x: string)
    requires Directive(v).item.kind != Eof && SameUpTo(v, x, Directive(v).span)
    ensures Directive(x) == Directive(v)
  {
    var b := RunLen(Blanks, v);
    var u, y := v[b..], x[b..];
    var w := RunLen(NonBlanks, u);
    assert w > 0;
    SameUpToShorter(v, x, b + w, b);
    RunLenLocal(Blanks, v, x);
    SameUpToDrop(v, x, b + w, b);
    RunLenLocal(NonBlanks, u, y);
    assert u[..w] == y[..w];
    assert y[0] == y[..w][0] == u[..w][0];
  }

  lemma LexemeFromLocal(k: Kind, n: nat, t: string, u: string, inComment: bool)
    requires k != Eof && 0 < n <= |t| && n <= |u|
    requires var r := LexemeFrom(k, n, t, inComment); r.item.kind != Eof && SameUpTo(t, u, r.span)
    ensures LexemeFrom(k, n, u, inComment) == LexemeFrom(k, n, t, inComment)
    ensures n <= LexemeFrom(k, n, t, inComment).span
  {
    if !inComment && (k == Comment || k == Hash) {
      SameUpToDrop(t, u, LexemeFrom(k, n, t, inComment).span, n);
      if k == Comment {
        RunLenLocal(LineText, t[n..], u[n..]);
      } else {
        DirectiveLocal(t[n..], u[n..]);
      }
    }
  }

  /** One iteration looks at most one character past what it consumes; only the right comment depends on that character. */
  lemma ReadLexemeLocal(t: string, u: string, inComment: bool)
    requires ReadLexeme(t, inComment).Lexeme? && ReadLexeme(t, inComment).item.kind != Eof
    requires var r := ReadLexeme(t, inComment);
             SameUpTo(t, u, r.span) && (r.item.kind == RComment ==> CharAt(u, 1) == CharAt(t, 1))
    ensures ReadLexeme(u, inComment) == ReadLexeme(t, inComment)
  {
    ScanSpansIf(t);
    var s, n := Scan(t), ReadLexeme(t, inComment).span;
    assert s.kind == RComment ==> ReadLexeme(t, inComment).item.kind == RComment;
    LexemeFromLocal(s.kind, s.advance, t, u, inComment);
    if s.advance < n {
      SameUpToShorter(t, u, n, s.advance);
    }
    ScanLocal(t, u);
  }

  /** The cursor stops between the two characters of a right comment. */
  lemma RightCommentStart(t: string, inComment: bool)
    ensures var r := ReadLexeme(t, inComment);
            r.Lexeme? && r.item.kind == RComment ==>
              r == Lexeme(Item(RComment, CloseComment), 1) && CharAt(t, 0) == '*' && CharAt(t, 1) == '/'
  {
  }
}
