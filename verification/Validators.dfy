/** The validator object: a stack and an indent that live across calls. */
module Validators {
  import opened Tokens
  import opened Scanning
  import opened Brackets
  import opened Lexemes
  import opened Lexers
  import opened Readings
  import opened Validation

  class InputValidator {
    var parentStack: seq<Kind>
    var indent: string

    ghost predicate Valid()
      reads this
    {
      ValidStack(parentStack)
    }

    constructor ()
      ensures Valid() && parentStack == [] && indent == ""
    {
      parentStack, indent := [], "";
    }

    method GetExpectedIndent() returns (r: string)
      ensures r == indent
    {
      r := indent;
    }

    /** The call is defined when every literal that the run reaches is closed. */
    method Validate(input: string, nbCharIndent: nat := 4) returns (res: ValidationResult)
      requires Valid() && OutcomeOf(parentStack, input).Stopped?
      modifies this
      ensures Valid()
      ensures var o := old(OutcomeOf(parentStack, input));
              res == Verdict(o) && parentStack == o.stack
      ensures var n := RunLen(Blanks, input) + |parentStack| * nbCharIndent;
              if n == 0 then indent == old(indent)
              else |indent| == n && forall i :: 0 <= i < n ==> indent[i] == ' '
    {
      var nbInitSpaces, mismatch, lastNotSpaceTok := ReadInput(input);
      res := if mismatch then Mismatch else Complete;

      var continued := lastNotSpaceTok.kind == Backslash || lastNotSpaceTok.kind == Comma;
      if continued || (parentStack != [] && res != Mismatch) {
        res := Incomplete;
      }
      SetIndent(nbInitSpaces, nbCharIndent);
    }

    /** The first half of `Validate`: the marker, the leading blanks and the loop. */
    method ReadInput(input: string) returns (nbInitSpaces: nat, mismatch: bool, lastNotSpaceTok: Token)
      requires Valid() && OutcomeOf(parentStack, input).Stopped?
      modifies this`parentStack
      ensures Valid() && nbInitSpaces == RunLen(Blanks, input)
      ensures old(OutcomeOf(parentStack, input)) == Stopped(parentStack, mismatch, lastNotSpaceTok.kind)
    {
      ghost var o := OutcomeOf(parentStack, input);
      ghost var mode := InBlockComment(parentStack);
      FirstTokenClosed(parentStack, input);
      PushTemplateMarker(input);
      assert o == Process(parentStack, Unknown, ReadText(AfterBlanks(input), mode));
      var luthor := new Lexer(input, false);
      assert luthor.Rest() == input;
      nbInitSpaces := luthor.SkipWhitespace();
      assert luthor.Rest() == AfterBlanks(input);
      mismatch, lastNotSpaceTok := ReadAll(luthor);
    }

    /** An indent of no length leaves the one of the call before. */
    method SetIndent(nbInitSpaces: nat, nbCharIndent: nat)
      modifies this`indent
      ensures var n := nbInitSpaces + |parentStack| * nbCharIndent;
              if n == 0 then indent == old(indent)
              else |indent| == n && forall i :: 0 <= i < n ==> indent[i] == ' '
    {
      var indentSize: nat := nbInitSpaces + |parentStack| * nbCharIndent;
      if indentSize != 0 {
        indent := Spaces(indentSize);
      }
    }

    /** The do-while loop of `Validate`: until the eof token or a mismatch. */
    method ReadAll(luthor: Lexer) returns (mismatch: bool, lastNotSpaceTok: Token)
      requires Valid() && luthor.Valid() && !luthor.ended
      requires Process(parentStack, Unknown, ReadText(luthor.Rest(), InBlockComment(parentStack))).Stopped?
      modifies luthor, this`parentStack
      ensures Valid()
      ensures old(Process(parentStack, Unknown, ReadText(luthor.Rest(), InBlockComment(parentStack))))
              == Stopped(parentStack, mismatch, lastNotSpaceTok.kind)
    {
      ghost var o := Process(parentStack, Unknown, ReadText(luthor.Rest(), InBlockComment(parentStack)));
      var tok := DEFAULT_TOKEN;
      mismatch, lastNotSpaceTok := false, DEFAULT_TOKEN;
      var first := true;
      while first || (tok.kind != Eof && !mismatch)
        invariant luthor.Valid() && Valid()
        invariant first ==> tok.kind == Unknown && !mismatch
        invariant if tok.kind == Eof || mismatch then
                    o == Stopped(parentStack, mismatch, lastNotSpaceTok.kind)
                  else
                    !luthor.ended &&
                    o == Process(parentStack, Note(lastNotSpaceTok.kind, tok.kind),
                                 ReadText(luthor.Rest(), InBlockComment(parentStack)))
        decreases !luthor.ended, |luthor.text| - luthor.pos
      {
        first := false;
        if tok.kind != Space {
          lastNotSpaceTok := tok;
        }
        ProcessLexeme(parentStack, lastNotSpaceTok.kind, luthor.Rest());
        tok, mismatch := Iterate(luthor);
      }
    }

    /** One iteration of the loop of `Validate`: one token, which `//` and `#` replace, and its effect on the stack. */
    method Iterate(luthor: Lexer) returns (tok: Token, mismatch: bool)
      requires luthor.Valid() && !luthor.ended
      requires ReadLexeme(luthor.Rest(), InBlockComment(parentStack)).Lexeme?
      modifies luthor, this`parentStack
      ensures luthor.Valid() && (luthor.ended <==> tok.kind == Eof)
      ensures var r := old(ReadLexeme(luthor.Rest(), InBlockComment(parentStack)));
              && tok.kind == r.item.kind
              && (tok.kind != Eof ==> luthor.Rest() == old(luthor.Rest())[r.span..])
              && parentStack == Step(old(parentStack), r.item.ev).stack
              && (mismatch <==> Step(old(parentStack), r.item.ev).Dead?)
    {
      var inComment := InBlockComment(parentStack);
      var lexed, pptk;
      ghost var r := ReadLexeme(luthor.Rest(), inComment);
      lexed, tok, pptk := ReadItem(luthor, inComment, r);
      mismatch := false;
      if inComment && lexed.kind != RComment {
        return;
      }
      if lexed.kind != Hash {
        mismatch := ApplyToken(lexed);
      } else if tok.kind != Eof {
        mismatch := ApplyDirective(pptk);
      }
    }

    /**
     Lexes a token and, outside block comments, goes on to the end of the line behind `//`
     and to the directive word `pptk` behind `#`; `tok` is the last token read.
     */
    static method ReadItem(luthor: Lexer, inComment: bool, ghost r: Lexeme)
      returns (lexed: Token, tok: Token, pptk: string)
      requires luthor.Valid() && !luthor.ended
      requires r == ReadLexeme(luthor.Rest(), inComment) && r.Lexeme?
      modifies luthor
      ensures luthor.Valid() && (luthor.ended <==> tok.kind == Eof) && tok.kind == r.item.kind
      ensures tok.kind != Eof ==> luthor.pos == old(luthor.pos) + r.span
      ensures r.item.ev == if !inComment && lexed.kind == Hash && tok.kind != Eof
                           then DirectiveEvent(pptk)
                           else EventOf(lexed.kind)
    {
      ghost var t := luthor.Rest();
      ScanSpansIf(t);
      lexed := luthor.Lex();
      tok, pptk := ReadOn(luthor, lexed, inComment, t, Scan(t).advance);
    }

    /** The cursor is behind token `lexed`, which took the first `n` characters of `t`. */
    static method ReadOn(luthor: Lexer, lexed: Token, inComment: bool, ghost t: string, ghost n: nat)
      returns (tok: Token, pptk: string)
      requires luthor.Valid() && (luthor.ended <==> lexed.kind == Eof)
      requires lexed.kind != Eof ==> 0 < n <= |t| && luthor.Rest() == t[n..]
      modifies luthor
      ensures var r := LexemeFrom(lexed.kind, n, t, inComment);
              && luthor.Valid() && (luthor.ended <==> tok.kind == Eof) && tok.kind == r.item.kind
              && (tok.kind != Eof ==> luthor.pos + n == old(luthor.pos) + r.span)
              && r.item.ev == if !inComment && lexed.kind == Hash && tok.kind != Eof
                              then DirectiveEvent(pptk)
                              else EventOf(lexed.kind)
    {
      tok, pptk := lexed, "";
      if !inComment && lexed.kind == Comment {
        tok := luthor.ReadToEndOfLine();
      } else if !inComment && lexed.kind == Hash {
        tok, pptk := ReadDirective(luthor);
      }
    }

    static lemma SliceOfRest(text: string, pos: nat, n: nat)
      requires pos + n <= |text|
      ensures text[pos..][..n] == text[pos..pos + n]
    {
    }

    static lemma DirectiveIs(v: string, b: nat, u: string, word: string)
      requires b == RunLen(Blanks, v) && u == v[b..] && word == u[..RunLen(NonBlanks, u)]
      ensures Directive(v) == if CharAt(u, 0) == NUL then Lexeme(Item(Eof, Other), b)
                              else Lexeme(Item(RawIdent, DirectiveEvent(word)), b + |word|)
    {
    }

    /** The cursor is behind a hash. */
    static method ReadDirective(luthor: Lexer) returns (tok: Token, pptk: string)
      requires luthor.Valid() && !luthor.ended
      modifies luthor
      ensures luthor.Valid() && (luthor.ended <==> tok.kind == Eof)
      ensures var d := old(Directive(luthor.Rest()));
              && tok.kind == d.item.kind
              && (tok.kind != Eof ==> luthor.pos == old(luthor.pos) + d.span && d.item.ev == DirectiveEvent(pptk))
              && (tok.kind == Eof ==> d.item.ev == Other)
    {
      ghost var v := luthor.Rest();
      var b := luthor.SkipWhitespace();
      ghost var u := luthor.Rest();
      DropDrop(luthor.text, old(luthor.pos), b);
      tok := luthor.LexAnyString();
      SliceOfRest(luthor.text, tok.start, tok.length);
      pptk := luthor.text[tok.start..tok.start + tok.length];
      DirectiveIs(v, b, u, pptk);
    }

    /** The effect of a token other than `//` and `#` on the stack. */
    method ApplyToken(tok: Token) returns (mismatch: bool)
      requires InBlockComment(parentStack) ==> tok.kind == RComment
      modifies this`parentStack
      ensures parentStack == Step(old(parentStack), EventOf(tok.kind)).stack
      ensures mismatch <==> Step(old(parentStack), EventOf(tok.kind)).Dead?
    {
      mismatch := false;
      match tok.kind
      case RComment =>
        if InBlockComment(parentStack) {
          parentStack := Pop(parentStack);
        } else {
          mismatch := true;
        }
      case LSquare | LParen | LBrace | LComment =>
        parentStack := parentStack + [tok.kind];
      case RSquare | RParen | RBrace =>
        mismatch := CloseBracket(tok);
      case Semicolon =>
        if InTemplate(parentStack) {
          parentStack := Pop(parentStack);
        }
      case _ =>
    }

    method CloseBracket(tok: Token) returns (mismatch: bool)
      requires tok.kind == RSquare || tok.kind == RParen || tok.kind == RBrace
      requires !InBlockComment(parentStack)
      modifies this`parentStack
      ensures parentStack == Step(old(parentStack), EventOf(tok.kind)).stack
      ensures mismatch <==> Step(old(parentStack), EventOf(tok.kind)).Dead?
    {
      var tos := Top(parentStack);
      ClosesBraceIsMatching(tok, tos);
      if !tok.ClosesBrace(tos) {
        return true;
      }
      parentStack := Pop(parentStack);
      // '}' also pops the template marker if it is alone
      if tok.kind == RBrace && InTemplate(parentStack) {
        parentStack := Pop(parentStack);
      }
      return false;
    }

    /** The effect of a directive word on the stack. */
    method ApplyDirective(pptk: string) returns (mismatch: bool)
      requires !InBlockComment(parentStack)
      modifies this`parentStack
      ensures parentStack == Step(old(parentStack), DirectiveEvent(pptk)).stack
      ensures mismatch <==> Step(old(parentStack), DirectiveEvent(pptk)).Dead?
    {
      mismatch := false;
      if Prefix(pptk, 2) == "if" {
        parentStack := parentStack + [Hash];
      } else if Prefix(pptk, 5) == "endif" && (|pptk| == 5 || pptk[5] == '/' || IsSpace(pptk[5])) {
        if parentStack == [] || Top(parentStack) != Hash {
          mismatch := true;
        } else {
          parentStack := Pop(parentStack);
        }
      }
    }

    /** Only when not already indented: the first token decides. */
    method PushTemplateMarker(input: string)
      requires Valid() && Scan(AfterBlanks(input)).Scanned?
      modifies this`parentStack
      ensures Valid() && parentStack == old(StartStack(parentStack, input))
    {
      if parentStack == [] {
        var luthor := new Lexer(input, true);
        assert luthor.Rest() == AfterBlanks(input);
        var tok := luthor.Lex();
        if tok.kind == Ident && input[tok.start..tok.start + tok.length] == "template" {
          parentStack := parentStack + [Less];
        }
      }
    }
  }
}
