/** The lexer over a text that is extended behind a separator: a blank or a line end. */
module Separators {
  import opened Tokens
  import opened Scanning
  import opened Lexemes
  import opened Validation
  import opened Boundaries
  import opened Chunks
  import opened Extensions

  predicate IsSeparator(c: char) {
    IsBlank(c) || IsLineEnd(c)
  }

  lemma RunLenAppend(cc: CharClass, t: string, u: string)
    ensures RunLen(cc, t + u) == if RunLen(cc, t) == |t| then |t| + RunLen(cc, u) else RunLen(cc, t)
  {
    var n := RunLen(cc, t);
    var m := if n == |t| then n + RunLen(cc, u) else n;
    forall k | 0 <= k < m ensures cc.Has((t + u)[k]) {
      assert (t + u)[k] == if k < |t| then t[k] else u[k - |t|];
    }
    assert CharAt(t + u, m) == if n == |t| then CharAt(u, m - |t|) else CharAt(t, m);
    RunLenUnique(cc, t + u, m);
  }

  /** A token that does not end the text is the same with anything behind; one that does may only grow if it is blank. */
  lemma ScanExtends(t: string, u: string)
    requires Scan(t).Scanned? && Scan(t).kind != Eof
    requires u != "" && IsSeparator(u[0])
    ensures var s, s' := Scan(t), Scan(t + u);
            if s.kind == Space && s.advance == |t| then
              s' == Scanned(Space, |t| + RunLen(Blanks, u), |t| + RunLen(Blanks, u))
            else
              s' == s
  {
    ScanSpans(t);
    assert (t + u)[0] == t[0];
    if IsQuote(t[0]) {
      ScanExtendsLiteral(t, u);
    } else if StartsRun(t[0]) {
      ScanExtendsRun(t, u);
    } else {
      assert CharAt(t + u, 1) == if |t| == 1 then u[0] else t[1];
    }
  }

  /** The class and the kind of the run that a character starts. */
  function RunClass(c: char): (CharClass, Kind) {
    if IsDigit(c) then (Digits, Constant) else if IsBlank(c) then (Blanks, Space) else (WordChars, Ident)
  }

  predicate StartsRun(c: char) {
    IsDigit(c) || WordChars.Has(c) || IsBlank(c)
  }

  lemma ScanIsRun(t: string)
    requires t != "" && StartsRun(t[0])
    ensures var (cc, kind) := RunClass(t[0]); Scan(t) == RunToken(kind, cc, t)
  {
  }

  lemma ScanExtendsRun(t: string, u: string)
    requires t != "" && StartsRun(t[0])
    requires u != "" && IsSeparator(u[0])
    ensures var s, s' := Scan(t), Scan(t + u);
            if s.kind == Space && s.advance == |t| then
              s' == Scanned(Space, |t| + RunLen(Blanks, u), |t| + RunLen(Blanks, u))
            else
              s' == s
  {
    var v := t + u;
    var (cc, kind) := RunClass(t[0]);
    ScanIsRun(t);
    ScanIsRun(v);
    RunLenAppend(cc, t, u);
    assert cc != Blanks ==> RunLen(cc, u) == 0;
  }

  lemma ScanExtendsLiteral(t: string, u: string)
    requires Scan(t).Scanned? && t != "" && IsQuote(t[0])
    ensures Scan(t + u) == Scan(t)
  {
    var n := Scan(t).advance;
    ScanLiteral(t, n);
    ScanWholeLiteral(t[..n], t[0], t[n..]);
    ScanWholeLiteral(t[..n], t[0], t[n..] + u);
    assert t == t[..n] + t[n..];
    assert t + u == t[..n] + (t[n..] + u);
  }

  /** Extended over a separator, a word is the same directive: a line end may follow `endif`. */
  lemma DirectiveEventExtends(w: string, w': string)
    requires w != "" && |w| <= |w'| && w'[..|w|] == w
    requires |w| < |w'| ==> IsLineEnd(w'[|w|])
    ensures DirectiveEvent(w') == DirectiveEvent(w)
  {
    assert forall i :: 0 <= i < |w| ==> w'[i] == w'[..|w|][i];
  }

  lemma DirectiveExtends(v: string, u: string)
    requires Directive(v).item.kind != Eof
    requires u != "" && IsSeparator(u[0])
    ensures var d, d' := Directive(v), Directive(v + u);
            && d'.item == d.item
            && d'.span == if d.span == |v| then d.span + RunLen(NonBlanks, u) else d.span
  {
    var b := RunLen(Blanks, v);
    var x := v[b..];
    assert x != "";
    RunLenAppend(Blanks, v, u);
    DropOf(v, u, b);
    WordExtends(x, u);
  }

  /** `x` starts with a directive word. */
  lemma WordExtends(x: string, u: string)
    requires x != "" && CharAt(x, 0) != NUL && !IsBlank(x[0])
    requires u != "" && IsSeparator(u[0])
    ensures var w, w' := RunLen(NonBlanks, x), RunLen(NonBlanks, x + u);
            && w' == (if w == |x| then w + RunLen(NonBlanks, u) else w)
            && DirectiveEvent((x + u)[..w']) == DirectiveEvent(x[..w])
  {
    var w, w' := RunLen(NonBlanks, x), RunLen(NonBlanks, x + u);
    RunLenAppend(NonBlanks, x, u);
    var y := (x + u)[..w'];
    assert x[..w] == y[..w];
    assert w < w' ==> y[w] == u[0] && NonBlanks.Has(u[0]);
    DirectiveEventExtends(x[..w], y);
  }

  /** What a lexeme that ends a text can take from `u`. */
  predicate WithinGap(u: string, gap: nat) {
    RunLen(Blanks, u) <= gap && RunLen(LineText, u) <= gap && RunLen(NonBlanks, u) <= gap
  }

  lemma LexemeFromExtends(k: Kind, n: nat, t: string, u: string, inComment: bool)
    requires k != Eof && 0 < n <= |t|
    requires u != "" && IsSeparator(u[0])
    requires LexemeFrom(k, n, t, inComment).item.kind != Eof
    ensures var r, r' := LexemeFrom(k, n, t, inComment), LexemeFrom(k, n, t + u, inComment);
            && r'.item == r.item
            && (r'.span == r.span
                || (r.span == |t| && r'.span == |t| + RunLen(LineText, u))
                || (r.span == |t| && r'.span == |t| + RunLen(NonBlanks, u)))
  {
    DropOf(t, u, n);
    RunLenAppend(LineText, t[n..], u);
    if !inComment && k == Hash {
      DirectiveExtends(t[n..], u);
    }
  }

  lemma ReadLexemeExtends(t: string, u: string, inComment: bool, gap: nat)
    requires u != "" && IsSeparator(u[0]) && WithinGap(u, gap)
    ensures LexemeExtends(LEXER, t, u, inComment, gap)
  {
    var r := ReadLexeme(t, inComment);
    if r.Lexeme? && r.item.kind != Eof {
      var s := Scan(t);
      ScanSpansIf(t);
      ScanExtends(t, u);
      if s.kind == Space && s.advance == |t| {
      } else {
        LexemeFromExtends(s.kind, s.advance, t, u, inComment);
      }
    }
  }

  /** `template` is a whole word, so a separator behind the text does not make or break it. */
  lemma TemplateFirstExtends(t: string, u: string)
    requires u != "" && IsSeparator(u[0])
    ensures TemplateExtends(LEXER, t, u)
  {
    if t != "" {
      assert (t + u)[0] == t[0];
      if IsAlpha(t[0]) || t[0] == '_' {
        ScanIsRun(t);
        ScanExtendsRun(t, u);
        assert (t + u)[..Scan(t).length] == t[..Scan(t).length];
      } else {
        NotTemplateStart(t);
        NotTemplateStart(t + u);
      }
    }
  }

  lemma NotTemplateStart(t: string)
    requires t != "" && !IsAlpha(t[0]) && t[0] != '_'
    ensures !TemplateFirst(t)
  {
  }

  lemma LexerExtends(u: string, gap: nat)
    requires u != "" && IsSeparator(u[0]) && WithinGap(u, gap)
    ensures ExtendsOver(LEXER, u, gap)
  {
    LexerIsRegular();
    forall t, m ensures LexemeExtends(LEXER, t, u, m, gap) {
      ReadLexemeExtends(t, u, m, gap);
    }
    forall t ensures TemplateExtends(LEXER, t, u) {
      TemplateFirstExtends(t, u);
    }
  }
}
