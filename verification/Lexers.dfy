/** The cursor lexer: every scanner moves `pos` over the buffer, and refines `Scan`. */
module Lexers {
  import opened Tokens
  import opened Scanning

  class Lexer {
    const text: string
    var pos: nat
    /** Set by an eof token: nothing may be lexed after it, because its cursor is past the terminator. */
    ghost var ended: bool

    constructor (code: string, skipWhitespace: bool)
      ensures text == code && !ended
      ensures pos == if skipWhitespace then RunLen(Blanks, code) else 0
    {
      text, pos, ended := code, 0, false;
      new;
      if skipWhitespace {
        var _ := this.SkipWhitespace();
      }
      assert code[0..] == code;
    }

    ghost predicate Valid()
      reads this
    {
      !ended ==> pos <= |text|
    }

    /** The text left before the terminator. */
    ghost function Rest(): string
      reads this
      requires pos <= |text|
    {
      text[pos..]
    }

    /** Reads one character of the buffer: the terminator is the last one that may be read. */
    function CharAtCursor(i: nat): (c: char)
      requires i <= |text|
      ensures c == CharAt(text, i)
    {
      if i == |text| then NUL else text[i]
    }

    method Lex() returns (t: Token)
      requires Valid() && !ended && Scan(Rest()).Scanned?
      modifies this
      ensures Valid() && (ended <==> t.kind == Eof)
      ensures var s := old(Scan(Rest()));
              t == Token(s.kind, old(pos), s.length) && pos == old(pos) + s.advance
    {
      ghost var rest := Rest();
      ScanSpans(rest);
      var c := CharAtCursor(pos);
      assert c == CharAt(rest, 0);
      assert c != NUL ==> CharAt(text, pos + 1) == CharAt(rest, 1);
      if IsQuote(c) {
        assert rest[1..] == text[pos + 1..];
        LiteralEndIsRest(text, pos + 1, c);
        t := LexQuotedString();
      } else if IsPunctuator(c) {
        t := LexPunctuator();
      } else if c == '/' {
        var d := CharAtCursor(pos + 1);
        if d == '/' || d == '*' {
          t := LexLeftComment();
        } else {
          t := LexPunctuator();
        }
      } else if c == '*' {
        var d := CharAtCursor(pos + 1);
        if d == '/' {
          t := LexRightComment();
        } else {
          t := LexPunctuator();
        }
      } else if IsDigit(c) {
        t := LexConstant();
      } else if IsAlpha(c) || c == '_' {
        t := LexIdentifier();
      } else if IsBlank(c) {
        t := LexWhitespace();
      } else {
        var start := pos;
        pos := pos + 1;
        if c == NUL {
          ended := true;
          t := Token(Eof, start, 1);
        } else {
          t := Token(Unknown, start, 0);
        }
      }
    }

    /** The directive word: everything up to a blank, line ends included. */
    method LexAnyString() returns (t: Token)
      requires Valid() && !ended
      modifies this
      ensures Valid() && (ended <==> t.kind == Eof)
      ensures var n := old(RunLen(NonBlanks, Rest()));
              pos == old(pos) + n &&
              t == Token(if old(CharAt(Rest(), 0)) == NUL then Eof else RawIdent, old(pos), n)
    {
      var start := pos;
      ghost var rest := Rest();
      if CharAtCursor(pos) == NUL {
        ended := true;
        return Token(Eof, start, 0);
      }
      while CharAtCursor(pos) != ' ' && CharAtCursor(pos) != '\t' && CharAtCursor(pos) != NUL
        invariant start <= pos <= |text| && !ended
        invariant forall k :: 0 <= k < pos - start ==> NonBlanks.Has(rest[k])
        decreases |text| - pos
      {
        assert rest[pos - start] == text[pos];
        pos := pos + 1;
      }
      RunLenUnique(NonBlanks, rest, pos - start);
      t := Token(RawIdent, start, pos - start);
    }

    method ReadToEndOfLine() returns (t: Token)
      requires Valid() && !ended
      modifies this
      ensures Valid() && !ended
      ensures var n := old(RunLen(LineText, Rest()));
              pos == old(pos) + n && t == Token(Unknown, old(pos), n)
    {
      var start := pos;
      ghost var rest := Rest();
      while CharAtCursor(pos) != '\r' && CharAtCursor(pos) != '\n' && CharAtCursor(pos) != NUL
        invariant start <= pos <= |text| && !ended
        invariant forall k :: 0 <= k < pos - start ==> LineText.Has(rest[k])
        decreases |text| - pos
      {
        assert rest[pos - start] == text[pos];
        pos := pos + 1;
      }
      RunLenUnique(LineText, rest, pos - start);
      t := Token(Unknown, start, pos - start);
    }

    method SkipWhitespace() returns (n: nat)
      requires Valid() && !ended
      modifies this`pos
      ensures Valid()
      ensures n == old(RunLen(Blanks, Rest())) && pos == old(pos) + n
    {
      ghost var start := pos;
      ghost var rest := Rest();
      var c := CharAtCursor(pos);
      n := 0;
      while IsBlank(c) && c != NUL
        invariant pos == start + n <= |text| && c == CharAt(text, pos)
        invariant forall k :: 0 <= k < n ==> Blanks.Has(rest[k])
        decreases |text| - pos
      {
        assert rest[n] == text[pos];
        n := n + 1;
        pos := pos + 1;
        c := CharAtCursor(pos);
      }
      RunLenUnique(Blanks, rest, n);
    }

    /** No test for the terminator: the literal must be closed. */
    method LexQuotedString() returns (t: Token)
      requires Valid() && !ended && pos < |text| && IsQuote(text[pos])
      requires LiteralEnd(text, pos + 1, text[pos]).Some?
      modifies this`pos
      ensures Valid()
      ensures old(pos) < pos && pos == LiteralEnd(text, old(pos) + 1, text[old(pos)]).value
      ensures t == Token(if text[old(pos)] == '"' then StringLit else CharLit, old(pos), pos - old(pos))
    {
      var kind := if CharAtCursor(pos) == '"' then StringLit else CharLit;
      var start := pos;
      pos := pos + 1;
      while true
        invariant start < pos <= |text|
        invariant LiteralEnd(text, pos, text[start]) == LiteralEnd(text, start + 1, text[start])
        decreases |text| - pos
      {
        if CharAtCursor(pos) == '\\' {
          pos := pos + 2;
          continue;
        }
        pos := pos + 1;
        if CharAtCursor(pos - 1) == CharAtCursor(start) {
          return Token(kind, start, pos - start);
        }
      }
    }

    method LexPunctuator() returns (t: Token)
      requires Valid() && !ended && CharAt(Rest(), 0) != NUL
      modifies this`pos
      ensures Valid()
      ensures t == Token(PunctuatorKind(old(CharAt(Rest(), 0))), old(pos), 1) && pos == old(pos) + 1
    {
      var start := pos;
      pos := pos + 1;
      match CharAtCursor(start)
      case '[' => t := Token(LSquare, start, 1);
      case ']' => t := Token(RSquare, start, 1);
      case '(' => t := Token(LParen, start, 1);
      case ')' => t := Token(RParen, start, 1);
      case '{' => t := Token(LBrace, start, 1);
      case '}' => t := Token(RBrace, start, 1);
      case ',' => t := Token(Comma, start, 1);
      case '.' => t := Token(Dot, start, 1);
      case '!' => t := Token(ExclMark, start, 1);
      case '?' => t := Token(QuestMark, start, 1);
      case '/' => t := Token(Slash, start, 1);
      case '\\' => t := Token(Backslash, start, 1);
      case '<' => t := Token(Less, start, 1);
      case '>' => t := Token(Greater, start, 1);
      case '@' => t := Token(At, start, 1);
      case '&' => t := Token(Ampersand, start, 1);
      case '#' => t := Token(Hash, start, 1);
      case '*' => t := Token(Asterik, start, 1);
      case ';' => t := Token(Semicolon, start, 1);
      case _ => t := Token(Unknown, start, 1);
    }

    method LexLeftComment() returns (t: Token)
      requires Valid() && !ended && |Rest()| >= 2
      modifies this`pos
      ensures Valid()
      ensures t == Token(if old(Rest())[1] == '/' then Comment else LComment, old(pos), 2) && pos == old(pos) + 2
    {
      var start := pos;
      pos := pos + 1;
      var kind := if CharAtCursor(pos) == '/' then Comment else LComment;
      pos := pos + 1;
      t := Token(kind, start, 2);
    }

    /** Reports two characters but moves over one. */
    method LexRightComment() returns (t: Token)
      requires Valid() && !ended && |Rest()| >= 2
      modifies this`pos
      ensures Valid()
      ensures t == Token(RComment, old(pos), 2) && pos == old(pos) + 1
    {
      var start := pos;
      pos := pos + 1;
      t := Token(RComment, start, 2);
    }

    method LexConstant() returns (t: Token)
      requires Valid() && !ended && IsDigit(CharAt(Rest(), 0))
      modifies this`pos
      ensures Valid()
      ensures var n := old(RunLen(Digits, Rest()));
              t == Token(Constant, old(pos), n) && pos == old(pos) + n
    {
      var start := pos;
      ghost var rest := Rest();
      var c := CharAtCursor(pos);
      pos := pos + 1;
      while IsDigit(c)
        invariant start < pos <= |text| + 1 && c == CharAt(text, pos - 1)
        invariant c != NUL ==> pos <= |text|
        invariant forall k :: 0 <= k < pos - 1 - start ==> Digits.Has(rest[k])
        decreases |text| + 1 - pos
      {
        assert rest[pos - 1 - start] == text[pos - 1];
        c := CharAtCursor(pos);
        pos := pos + 1;
      }
      pos := pos - 1;
      RunLenUnique(Digits, rest, pos - start);
      t := Token(Constant, start, pos - start);
    }

    method LexIdentifier() returns (t: Token)
      requires Valid() && !ended && WordChars.Has(CharAt(Rest(), 0))
      modifies this`pos
      ensures Valid()
      ensures var n := old(RunLen(WordChars, Rest()));
              t == Token(Ident, old(pos), n) && pos == old(pos) + n
    {
      var start := pos;
      ghost var rest := Rest();
      var c := CharAtCursor(pos);
      pos := pos + 1;
      while IsAlpha(c) || IsDigit(c) || c == '_'
        invariant start < pos <= |text| + 1 && c == CharAt(text, pos - 1)
        invariant forall k :: 0 <= k < pos - 1 - start ==> WordChars.Has(rest[k])
        decreases |text| + 1 - pos
      {
        assert rest[pos - 1 - start] == text[pos - 1];
        c := CharAtCursor(pos);
        pos := pos + 1;
      }
      pos := pos - 1;
      RunLenUnique(WordChars, rest, pos - start);
      t := Token(Ident, start, pos - start);
    }

    method LexWhitespace() returns (t: Token)
      requires Valid() && !ended
      modifies this`pos
      ensures Valid()
      ensures var n := old(RunLen(Blanks, Rest()));
              t == Token(Space, old(pos), n) && pos == old(pos) + n
    {
      var start := pos;
      var _ := SkipWhitespace();
      t := Token(Space, start, pos - start);
    }
  }
}
