/**
 The functional tokenizer: what one call of the lexer yields on the text that is
 left before the terminator. `Lexer` refines it with a cursor.
 */
module Scanning {
  import opened Options
  import opened Tokens

  /** Length of the run of `cc` characters at the start of `t`: it is maximal. */
  function RunLen(cc: CharClass, t: string): (n: nat)
    ensures n <= |t|
    ensures forall k :: 0 <= k < n ==> cc.Has(t[k])
    ensures !cc.Has(CharAt(t, n))
  {
    if t != [] && cc.Has(t[0]) then 1 + RunLen(cc, t[1..]) else 0
  }

  /** A maximal run is unique, so `RunLen` can be recognised without unfolding it. */
  lemma {:induction false} RunLenUnique(cc: CharClass, t: string, n: nat)
    requires n <= |t|
    requires forall k :: 0 <= k < n ==> cc.Has(t[k])
    requires !cc.Has(CharAt(t, n))
    ensures RunLen(cc, t) == n
  {
    if n > 0 {
      RunLenUnique(cc, t[1..], n - 1);
    }
  }

  /**
   `t` starts just after an opening quote `q`: the number of characters up to and
   including the closing quote, with backslash pairs consumed whole.
   */
  function LiteralRest(t: string, q: char): (r: Option<nat>)
    ensures r.Some? ==> 0 < r.value <= |t| && t[r.value - 1] == q
  {
    if t == [] then
      None
    else if t[0] == '\\' then
      if |t| < 2 then None else Plus(2, LiteralRest(t[2..], q))
    else if t[0] == q then
      Some(1)
    else
      Plus(1, LiteralRest(t[1..], q))
  }

  function Plus(k: nat, r: Option<nat>): Option<nat> {
    match r
    case None => None
    case Some(n) => Some(k + n)
  }

  /** The same scan from a cursor at `pos`: where the literal ends. */
  function LiteralEnd(t: string, pos: nat, q: char): Option<nat>
    requires pos <= |t|
    decreases |t| - pos
  {
    if pos == |t| then None
    else if t[pos] == '\\' then if |t| < pos + 2 then None else LiteralEnd(t, pos + 2, q)
    else if t[pos] == q then Some(pos + 1)
    else LiteralEnd(t, pos + 1, q)
  }

  lemma {:induction false} LiteralEndIsRest(t: string, pos: nat, q: char)
    requires pos <= |t|
    ensures LiteralEnd(t, pos, q) == Plus(pos, LiteralRest(t[pos..], q))
    decreases |t| - pos
  {
    var u := t[pos..];
    if u != [] {
      if t[pos] == '\\' {
        if |u| >= 2 {
          LiteralEndIsRest(t, pos + 2, q);
          assert u[2..] == t[pos + 2..];
        }
      } else if t[pos] != q {
        LiteralEndIsRest(t, pos + 1, q);
        assert u[1..] == t[pos + 1..];
      }
    }
  }

  /** What the lexer reports (kind, length) and how far its cursor moves. */
  datatype Scanned = OpenLiteral | Scanned(kind: Kind, length: nat, advance: nat)

  function PunctuatorKind(c: char): Kind {
    match c
    case '[' => LSquare
    case ']' => RSquare
    case '(' => LParen
    case ')' => RParen
    case '{' => LBrace
    case '}' => RBrace
    case ',' => Comma
    case '.' => Dot
    case '!' => ExclMark
    case '?' => QuestMark
    case '/' => Slash
    case '\\' => Backslash
    case '<' => Less
    case '>' => Greater
    case '@' => At
    case '&' => Ampersand
    case '#' => Hash
    case '*' => Asterik
    case ';' => Semicolon
    case _ => Unknown
  }

  function RunToken(kind: Kind, cc: CharClass, t: string): Scanned {
    Scanned(kind, RunLen(cc, t), RunLen(cc, t))
  }

  function Scan(t: string): Scanned {
    var c, d := CharAt(t, 0), CharAt(t, 1);
    if IsQuote(c) then
      match LiteralRest(t[1..], c) {
        case None => OpenLiteral
        case Some(n) => Scanned(if c == '"' then StringLit else CharLit, n + 1, n + 1)
      }
    else if IsPunctuator(c) then Scanned(PunctuatorKind(c), 1, 1)
    else if c == '/' then
      if d == '/' then Scanned(Comment, 2, 2)
      else if d == '*' then Scanned(LComment, 2, 2)
      else Scanned(Slash, 1, 1)
    else if c == '*' then
      if d == '/' then Scanned(RComment, 2, 1) else Scanned(Asterik, 1, 1)
    else if IsDigit(c) then RunToken(Constant, Digits, t)
    else if IsAlpha(c) || c == '_' then RunToken(Ident, WordChars, t)
    else if IsBlank(c) then RunToken(Space, Blanks, t)
    else if c == NUL then Scanned(Eof, 1, 1)
    else Scanned(Unknown, 0, 1)
  }

  /**
   Every call advances, only the eof token steps past the terminator, and the reported
   length is the span except for the right comment (2 for 1) and unknown (0 for 1).
   */
  lemma ScanSpans(t: string)
    requires Scan(t).Scanned?
    ensures var r := Scan(t);
            && 0 < r.advance
            && (r.kind == Eof <==> CharAt(t, 0) == NUL)
            && (r.kind != Eof ==> r.advance <= |t|)
            && (r.length == r.advance || (r.kind == RComment && r.length == 2 && r.advance == 1)
                || (r.kind == Unknown && r.length == 0 && r.advance == 1))
  {
    RunLenPositive(t);
  }

  lemma RunLenPositive(t: string)
    ensures IsDigit(CharAt(t, 0)) ==> RunLen(Digits, t) > 0
    ensures IsAlpha(CharAt(t, 0)) || CharAt(t, 0) == '_' ==> RunLen(WordChars, t) > 0
    ensures IsBlank(CharAt(t, 0)) ==> RunLen(Blanks, t) > 0
  {
  }

  /* ---------- literals ---------- */

  /** The grammar of a literal's body: backslash pairs, and characters other than backslash and the quote. */
  predicate IsLiteralBody(b: string, q: char) {
    b == [] ||
    if b[0] == '\\' then |b| >= 2 && IsLiteralBody(b[2..], q)
    else b[0] != q && IsLiteralBody(b[1..], q)
  }

  /** A whole closed literal: the quote, a body, and the same quote. */
  predicate IsLiteral(l: string, q: char) {
    IsQuote(q) && |l| >= 2 && l[0] == q && l[|l| - 1] == q && IsLiteralBody(l[1..|l| - 1], q)
  }

  /** The scanner stops at `n` exactly when the text before the quote at `n - 1` is a literal body. */
  lemma {:induction false} LiteralRestIsGrammar(t: string, q: char, n: nat)
    requires q != '\\'
    ensures LiteralRest(t, q) == Some(n) <==>
            0 < n <= |t| && t[n - 1] == q && IsLiteralBody(t[..n - 1], q)
  {
    if t == [] {
    } else if t[0] == '\\' {
      if |t| >= 2 && n >= 2 {
        LiteralRestIsGrammar(t[2..], q, n - 2);
        if 2 < n <= |t| {
          assert t[..n - 1][2..] == t[2..][..n - 3];
        } else if n == 2 {
          assert t[..1][0] == '\\';
        }
      }
    } else if t[0] == q {
      if 1 < n <= |t| {
        assert t[..n - 1][0] == q;
      }
    } else if n >= 1 {
      LiteralRestIsGrammar(t[1..], q, n - 1);
      if 1 < n <= |t| {
        assert t[..n - 1][1..] == t[1..][..n - 2];
      }
    }
  }

  /** A token that starts with a quote is the one closed literal at the start of the text; no shorter or longer span is. */
  lemma ScanLiteral(t: string, n: nat)
    requires t != [] && IsQuote(t[0])
    ensures (Scan(t).Scanned? && Scan(t).advance == n) <==> n <= |t| && IsLiteral(t[..n], t[0])
  {
    if n >= 1 {
      LiteralRestIsGrammar(t[1..], t[0], n - 1);
      if 2 <= n <= |t| {
        assert t[..n][1..n - 1] == t[1..][..n - 2];
        assert t[..n][n - 1] == t[1..][n - 2];
      }
    }
  }

  /** A literal at the start of a text is scanned whole, whatever it contains and whatever follows. */
  lemma ScanWholeLiteral(l: string, q: char, r: string)
    requires IsLiteral(l, q)
    ensures Scan(l + r) == Scanned(if q == '"' then StringLit else CharLit, |l|, |l|)
  {
    assert (l + r)[..|l|] == l;
    ScanLiteral(l + r, |l|);
  }

  /* ---------- lookahead ---------- */

  /**
   `u` starts with the `n` characters of `t`, and what follows them is either the
   same character or the terminator.
   */
  predicate SameUpTo(t: string, u: string, n: nat) {
    n <= |t| && n <= |u| && t[..n] == u[..n] && (CharAt(u, n) == CharAt(t, n) || CharAt(u, n) == NUL)
  }

  lemma RunLenLocal(cc: CharClass, t: string, u: string)
    requires SameUpTo(t, u, RunLen(cc, t))
    ensures RunLen(cc, u) == RunLen(cc, t)
  {
    var n := RunLen(cc, t);
    forall k | 0 <= k < n ensures cc.Has(u[k]) {
      assert u[k] == u[..n][k] == t[..n][k];
    }
    RunLenUnique(cc, u, n);
  }

  lemma LiteralRestLocal(t: string, u: string, q: char)
    requires q != '\\'
    requires LiteralRest(t, q).Some?
    requires LiteralRest(t, q).value <= |u| && t[..LiteralRest(t, q).value] == u[..LiteralRest(t, q).value]
    ensures LiteralRest(u, q) == LiteralRest(t, q)
  {
    var n := LiteralRest(t, q).value;
    LiteralRestIsGrammar(t, q, n);
    LiteralRestIsGrammar(u, q, n);
    assert t[..n][n - 1] == u[..n][n - 1];
    assert t[..n][..n - 1] == u[..n][..n - 1];
    assert t[..n - 1] == t[..n][..n - 1];
    assert u[..n - 1] == u[..n][..n - 1];
  }

  /** A token looks at most one character past its end; only the right comment needs to see that character. */
  lemma ScanLocal(t: string, u: string)
    requires Scan(t).Scanned? && Scan(t).kind != Eof
    requires SameUpTo(t, u, Scan(t).advance)
    requires Scan(t).kind == RComment ==> CharAt(u, 1) == CharAt(t, 1)
    ensures Scan(u) == Scan(t)
  {
    ScanSpans(t);
    var n := Scan(t).advance;
    assert t[0] == t[..n][0] == u[..n][0] == u[0];
    if IsQuote(t[0]) {
      ScanLocalLiteral(t, u);
    } else if IsPunctuator(t[0]) {
    } else if t[0] == '/' || t[0] == '*' {
      assert n == 2 ==> t[1] == t[..n][1] == u[..n][1] == u[1];
    } else if IsDigit(t[0]) {
      RunLenLocal(Digits, t, u);
    } else if IsAlpha(t[0]) || t[0] == '_' {
      RunLenLocal(WordChars, t, u);
    } else if IsBlank(t[0]) {
      RunLenLocal(Blanks, t, u);
    }
  }

  lemma ScanLocalLiteral(t: string, u: string)
    requires t != [] && u != [] && t[0] == u[0] && IsQuote(t[0])
    requires Scan(t).Scanned? && SameUpTo(t, u, Scan(t).advance)
    ensures Scan(u) == Scan(t)
  {
    var n := Scan(t).advance;
    assert t[..n][1..] == t[1..][..n - 1];
    assert u[..n][1..] == u[1..][..n - 1];
    LiteralRestLocal(t[1..], u[1..], t[0]);
  }
}
