/** Blanks around a text, and a line behind it: what they do to the outcome, and to the indent. */
module Continuations {
  import opened Tokens
  import opened Scanning
  import opened Brackets
  import opened Lexemes
  import opened Readings
  import opened Validation
  import opened Boundaries
  import opened Chunks
  import opened Extensions
  import opened Separators
  import opened Completion
  import opened Vocabulary
  import opened Mismatches

  /* ---------- a blank behind a text, for any regular lexing ---------- */

  /** A blank behind a hash that ends the text does not give it a word. */
  ghost predicate EofStays(lx: Lexing, t: string, u: string, inComment: bool) {
    var r, r' := lx.read(t, inComment), lx.read(t + u, inComment);
    t != "" && r.Lexeme? && r.item.kind == Eof && r.span == |t| ==> r'.Lexeme? && r'.item.kind == Eof
  }

  ghost predicate BlankAfter(lx: Lexing, u: string) {
    ExtendsOver(lx, u, 1) && |u| == 1 && IsBlank(u[0]) && (forall t, m :: EofStays(lx, t, u, m))
  }

  /** The first lexeme in both texts, which takes the blank if it ends the shorter one. */
  lemma FirstInBoth(lx: Lexing, u: string, t: string, mode: bool) returns (grown: bool)
    requires BlankAfter(lx, u) && Read(lx.read, t, mode).Next?
    ensures var r, r' := Read(lx.read, t, mode), Read(lx.read, t + u, mode);
            && 0 < r.span <= |t| && r'.Next? && r'.item == r.item
            && r.rest == Read(lx.read, t[r.span..], NextMode(mode, r.item.ev))
            && if grown then r.rest == End(0) && r'.rest == End(0)
               else r'.rest == Read(lx.read, t[r.span..] + u, NextMode(mode, r.item.ev))
  {
    var r, r' := lx.read(t, mode), lx.read(t + u, mode);
    assert LexemeExtends(lx, t, u, mode, 1);
    grown := r'.span != r.span;
    EmptyEnds(lx, NextMode(mode, r.item.ev));
    if grown {
      assert t[r.span..] == "" && (t + u)[r'.span..] == "";
    } else {
      DropOf(t, u, r.span);
    }
  }

  lemma BlankAlone(lx: Lexing, u: string, mode: bool)
    requires BlankAfter(lx, u)
    ensures Read(lx.read, "", mode) == End(0)
    ensures Read(lx.read, u, mode) == Next(Item(Space, Other), 1, End(0))
  {
    EmptyEnds(lx, mode);
    EmptyEnds(lx, NextMode(mode, Other));
    RunLenUnique(Blanks, u, 1);
    assert BlanksAreOneSpace(lx, u, mode);
    assert u[1..] == "";
  }

  /** A run that reaches the end of its text ends the same with a blank behind it. */
  lemma {:induction false} BlankBehindRun(lx: Lexing, u: string, st: seq<Kind>, seen: Kind, t: string, mode: bool)
    requires BlankAfter(lx, u) && RunsOut(Read(lx.read, t, mode), |t|)
    ensures Process(st, seen, Read(lx.read, t + u, mode)) == Process(st, seen, Read(lx.read, t, mode))
    decreases |t|
  {
    var r, r' := Read(lx.read, t, mode), Read(lx.read, t + u, mode);
    if t == "" {
      assert t + u == u;
      BlankAlone(lx, u, mode);
      ProcessOnce(st, seen, r');
    } else if r.Next? {
      var grown := FirstInBoth(lx, u, t, mode);
      ProcessOnce(st, seen, r);
      ProcessOnce(st, seen, r');
      if !grown && Step(st, r.item.ev).Live? {
        BlankBehindRun(lx, u, Step(st, r.item.ev).stack, Note(seen, r.item.kind), t[r.span..], NextMode(mode, r.item.ev));
      }
    } else {
      assert EofStays(lx, t, u, mode);
    }
  }

  lemma BlankBehindBy(lx: Lexing, u: string, st: seq<Kind>, s: string)
    requires BlankAfter(lx, u) && RunsOut(Read(lx.read, AfterBlanks(s), InBlockComment(st)), |AfterBlanks(s)|)
    ensures OutcomeBy(lx, st, s + u) == OutcomeBy(lx, st, s)
  {
    var t := AfterBlanks(s);
    if t == "" {
      AllBlank(s, u);
    } else {
      BlanksOfExtension(s, u);
      assert TemplateExtends(lx, t, u);
      BlankBehindRun(lx, u, Start(lx, st, t), Unknown, t, InBlockComment(st));
    }
  }

  lemma AllBlank(s: string, u: string)
    requires AfterBlanks(s) == "" && |u| == 1 && IsBlank(u[0])
    ensures AfterBlanks(s + u) == ""
  {
    assert forall i :: 0 <= i < |s| ==> (s + u)[i] == s[i];
    RunLenUnique(Blanks, s + u, |s| + 1);
  }

  /* ---------- the validator's lexer ---------- */

  lemma HashStaysBare(t: string, u: string, inComment: bool)
    requires |u| == 1 && IsBlank(u[0])
    ensures EofStays(LEXER, t, u, inComment)
  {
    var r := ReadLexeme(t, inComment);
    if t != "" && r.Lexeme? && r.item.kind == Eof && r.span == |t| {
      EofStart(t, inComment);
      DropOf(t, u, 1);
      BlankWord(t[1..], u);
      assert (t + u)[0] == t[0];
      assert Scan(t + u) == Scanned(Hash, 1, 1);
    }
  }

  lemma BlankWord(v: string, u: string)
    requires RunLen(Blanks, v) == |v| && |u| == 1 && IsBlank(u[0])
    ensures Directive(v + u).item.kind == Eof
  {
    RunLenAppend(Blanks, v, u);
    RunLenUnique(Blanks, u, 1);
    assert (v + u)[|v| + 1..] == "";
  }

  lemma LexerBlankAfter(u: string)
    requires |u| == 1 && IsBlank(u[0])
    ensures BlankAfter(LEXER, u)
  {
    RunLenUnique(Blanks, u, 1);
    RunLenUnique(NonBlanks, u, 0);
    LexerExtends(u, 1);
    forall t, m ensures EofStays(LEXER, t, u, m) {
      HashStaysBare(t, u, m);
    }
  }

  /**
   A blank behind any text changes nothing: not the stack, not the mismatch flag, and not
   the token that is remembered as the last one.
   */
  lemma BlankBehind(st: seq<Kind>, s: string, c: char)
    requires c == ' ' || c == '\t'
    requires OutcomeOf(st, s).Stopped?
    ensures OutcomeOf(st, s + [c]) == OutcomeOf(st, s)
  {
    if OutcomeOf(st, s).mismatch {
      MismatchIsPermanent(st, s, [c]);
    } else if ReachesEnd(st, s) {
      LexerBlankAfter([c]);
      OutcomeByLexer(st, s);
      OutcomeByLexer(st, s + [c]);
      BlankBehindBy(LEXER, [c], st, s);
    } else {
      TextBehindNul(st, s, [c]);
    }
  }

  /** A blank in front of any text only adds to the indent. */
  lemma BlankInFront(st: seq<Kind>, s: string, c: char)
    requires c == ' ' || c == '\t'
    ensures OutcomeOf(st, [c] + s) == OutcomeOf(st, s)
    ensures RunLen(Blanks, [c] + s) == 1 + RunLen(Blanks, s)
  {
    var k := RunLen(Blanks, s);
    assert forall i :: 0 < i <= k ==> ([c] + s)[i] == s[i - 1];
    assert CharAt([c] + s, k + 1) == CharAt(s, k);
    RunLenUnique(Blanks, [c] + s, k + 1);
    assert ([c] + s)[k + 1..] == s[k..];
  }

  /* ---------- a line behind a text ---------- */

  function NewLine(v: string): string {
    " \n " + v
  }

  ghost predicate ReadsLine(lx: Lexing, v: string, stack: seq<Kind>, seen: Kind, j: nat)
    requires Regular(lx)
  {
    j <= 2 && ValidStack(stack) ==>
      SameStack(Process(stack, seen, Read(lx.read, NewLine(v)[j..], InBlockComment(stack))),
                Process(stack, Unknown, Read(lx.read, v, InBlockComment(stack))))
  }

  lemma LineRead(v: string, stack: seq<Kind>, seen: Kind, j: nat)
    requires j <= 2 && ValidStack(stack) && !IsBlank(CharAt(v, 0))
    ensures SameStack(Process(stack, seen, ReadText(NewLine(v)[j..], InBlockComment(stack))),
                      Process(stack, Unknown, ReadText(v, InBlockComment(stack))))
  {
    LineParts(v);
    if j == 0 {
      LineEndNext(v, stack, seen);
      ReadsBlank("\n" + (" " + v), InBlockComment(stack));
      ProcessOnce(stack, seen, ReadText(NewLine(v), InBlockComment(stack)));
    } else if j == 1 {
      LineEndNext(v, stack, seen);
    } else {
      BlankNext(v, stack, seen);
    }
  }

  lemma LineParts(v: string)
    ensures NewLine(v)[0..] == NewLine(v) == " " + ("\n" + (" " + v))
    ensures NewLine(v)[1..] == "\n" + (" " + v) && NewLine(v)[2..] == " " + v
  {
    assert " \n " == " " + ("\n" + " ");
  }

  lemma BlankNext(v: string, stack: seq<Kind>, seen: Kind)
    requires !IsBlank(CharAt(v, 0))
    ensures SameStack(Process(stack, seen, ReadText(" " + v, InBlockComment(stack))),
                      Process(stack, Unknown, ReadText(v, InBlockComment(stack))))
  {
    ReadsBlank(v, InBlockComment(stack));
    ProcessOnce(stack, seen, ReadText(" " + v, InBlockComment(stack)));
    SeenIrrelevant(stack, seen, Unknown, ReadText(v, InBlockComment(stack)));
  }

  lemma LineEndNext(v: string, stack: seq<Kind>, seen: Kind)
    requires !IsBlank(CharAt(v, 0))
    ensures SameStack(Process(stack, seen, ReadText("\n" + (" " + v), InBlockComment(stack))),
                      Process(stack, Unknown, ReadText(v, InBlockComment(stack))))
  {
    ReadsLineEnd(" " + v, InBlockComment(stack));
    ProcessOnce(stack, seen, ReadText("\n" + (" " + v), InBlockComment(stack)));
    BlankNext(v, stack, Unknown);
  }

  lemma LineBehindBy(lx: Lexing, st: seq<Kind>, s: string, v: string)
    requires Resumes(lx, NewLine(v)) && ValidStack(st)
    requires RunsOut(Read(lx.read, AfterBlanks(s), InBlockComment(st)), |AfterBlanks(s)|)
    requires OutcomeBy(lx, st, s).Stopped? && !OutcomeBy(lx, st, s).mismatch
    requires forall stack, seen, j :: ReadsLine(lx, v, stack, seen, j)
    ensures var stack := OutcomeBy(lx, st, s).stack;
            && ValidStack(stack)
            && SameStack(OutcomeBy(lx, st, s + NewLine(v)), Process(stack, Unknown, Read(lx.read, v, InBlockComment(stack))))
  {
    var u, stack := NewLine(v), OutcomeBy(lx, st, s).stack;
    assert u[0] == ' ' && u[1] == '\n';
    var j, seen := ResumeCall(lx, u, st, s);
    assert ReadsLine(lx, v, stack, seen, j);
  }

  /** A new line behind a text that is read to its end without a mismatch goes on from the stack reached. */
  lemma LineBehind(st: seq<Kind>, s: string, v: string)
    requires ValidStack(st) && ReachesEnd(st, s) && !IsBlank(CharAt(v, 0))
    requires OutcomeOf(st, s).Stopped? && !OutcomeOf(st, s).mismatch
    ensures var stack := OutcomeOf(st, s).stack;
            && ValidStack(stack)
            && SameStack(OutcomeOf(st, s + NewLine(v)), Process(stack, Unknown, ReadText(v, InBlockComment(stack))))
  {
    LexerResumes(NewLine(v));
    OutcomeByLexer(st, s);
    OutcomeByLexer(st, s + NewLine(v));
    forall stack, seen, j ensures ReadsLine(LEXER, v, stack, seen, j) {
      if j <= 2 && ValidStack(stack) {
        LineRead(v, stack, seen, j);
      }
    }
    LineBehindBy(LEXER, st, s, v);
  }

  /** An open bracket more, outside comments, is one level more for the indent. */
  lemma BracketBehind(st: seq<Kind>, s: string, c: char)
    requires ValidStack(st) && ReachesEnd(st, s) && (c == '[' || c == '(' || c == '{')
    requires var o := OutcomeOf(st, s); o.Stopped? && !o.mismatch && !InBlockComment(o.stack)
    ensures var o, o' := OutcomeOf(st, s), OutcomeOf(st, s + NewLine([c]));
            o'.Stopped? && !o'.mismatch && |o'.stack| == |o.stack| + 1
  {
    LineBehind(st, s, [c]);
    BracketAlone(OutcomeOf(st, s).stack, c);
  }

  lemma BracketAlone(stack: seq<Kind>, c: char)
    requires !InBlockComment(stack) && (c == '[' || c == '(' || c == '{')
    ensures var o := Process(stack, Unknown, ReadText([c], false));
            o.Stopped? && !o.mismatch && |o.stack| == |stack| + 1
  {
    BracketItem(c, "");
    assert [c] + "" == [c];
    ReadTextOnce("", false);
    ProcessOnce(stack, Unknown, ReadText([c], false));
  }

}
