/** Appending text behind a separator, for any regular lexing whose lexemes extend over it. */
module Extensions {
  import opened Tokens
  import opened Scanning
  import opened Brackets
  import opened Lexemes
  import opened Readings
  import opened Validation
  import opened Boundaries

  /** A lexeme of `t` is also one of `t + u`; only one that ends `t` may grow, by at most `gap` characters. */
  ghost predicate LexemeExtends(lx: Lexing, t: string, u: string, inComment: bool, gap: nat) {
    var r, r' := lx.read(t, inComment), lx.read(t + u, inComment);
    r.Lexeme? && r.item.kind != Eof ==>
      && r'.Lexeme? && r'.item == r.item
      && (r'.span == r.span || (r.span == |t| && |t| < r'.span <= |t| + gap))
  }

  ghost predicate TemplateExtends(lx: Lexing, t: string, u: string) {
    t != "" ==> lx.template(t + u) == lx.template(t)
  }

  ghost predicate ExtendsOver(lx: Lexing, u: string, gap: nat) {
    && Regular(lx)
    && u != "" && (IsBlank(u[0]) || IsLineEnd(u[0]))
    && (forall t, m :: LexemeExtends(lx, t, u, m, gap))
    && (forall t :: TemplateExtends(lx, t, u))
  }


  /** Leading blanks of a text that is not all blank do not change when it is extended. */
  lemma BlanksOfExtension(s: string, u: string)
    requires AfterBlanks(s) != ""
    ensures RunLen(Blanks, s + u) == RunLen(Blanks, s) && AfterBlanks(s + u) == AfterBlanks(s) + u
  {
    var k := RunLen(Blanks, s);
    assert forall i :: 0 <= i < k ==> (s + u)[i] == s[i];
    assert CharAt(s + u, k) == CharAt(s, k);
    RunLenUnique(Blanks, s + u, k);
  }

  /* ---------- text behind a run that reached the end ---------- */

  /** The run stops at the end of the text, not at a NUL inside it. */
  predicate RunsOut(r: Reading, length: nat)
    decreases r
  {
    match r
    case Stuck => false
    case End(offset) => offset == length
    case Next(_, span, rest) => span <= length && RunsOut(rest, length - span)
  }

  /** A hash with nothing behind it takes the next word as its directive: here the line end of " \n ". */
  ghost predicate EndExtends(lx: Lexing, t: string, u: string, inComment: bool) {
    var r := lx.read(t, inComment);
    t != "" && r.Lexeme? && r.item.kind == Eof && r.span == |t| ==>
      lx.read(t + u, inComment) == Lexeme(Item(RawIdent, Other), |t| + 2)
  }

  ghost predicate Resumes(lx: Lexing, u: string) {
    ExtendsOver(lx, u, 1) && |u| >= 2 && (forall t, m :: EndExtends(lx, t, u, m))
  }

  /** The longer run goes on behind the shorter one, from its stack and `j` characters into `u`. */
  ghost predicate ResumesAs(lx: Lexing, u: string, o: Outcome, o': Outcome, j: nat, seen: Kind)
    requires Regular(lx)
  {
    && j <= 2 && j <= |u| && (j == 2 ==> seen == RawIdent)
    && o.Stopped? && ValidStack(o.stack)
    && o' == Process(o.stack, seen, Read(lx.read, u[j..], InBlockComment(o.stack)))
  }

  ghost predicate EndsLive(st: seq<Kind>, seen: Kind, r: Reading, length: nat) {
    RunsOut(r, length) && Process(st, seen, r).Stopped? && !Process(st, seen, r).mismatch
  }

  /**
   When the run on `t` stops at its end without a mismatch, the run on `t + u` goes on from
   the stack reached, at most two characters into `u`.
   */
  lemma {:induction false} ResumeBehind(lx: Lexing, u: string, st: seq<Kind>, seen: Kind, t: string)
    returns (j: nat, seen': Kind)
    requires Resumes(lx, u) && ValidStack(st)
    requires EndsLive(st, seen, Read(lx.read, t, InBlockComment(st)), |t|)
    ensures ResumesAs(lx, u, Process(st, seen, Read(lx.read, t, InBlockComment(st))),
                      Process(st, seen, Read(lx.read, t + u, InBlockComment(st))), j, seen')
    decreases |t|, 1
  {
    if t == "" {
      j, seen' := 0, seen;
      EmptyEnds(lx, InBlockComment(st));
      assert t + u == u == u[0..];
    } else if Read(lx.read, t, InBlockComment(st)).End? {
      j, seen' := 2, RawIdent;
      ResumeAtEnd(lx, u, st, seen, t);
    } else {
      j, seen' := ResumeBehindLexeme(lx, u, st, seen, t);
    }
  }

  /** The last word of the shorter text is a hash without a directive. */
  lemma ResumeAtEnd(lx: Lexing, u: string, st: seq<Kind>, seen: Kind, t: string)
    requires Resumes(lx, u) && ValidStack(st) && t != ""
    requires Read(lx.read, t, InBlockComment(st)) == End(|t|)
    ensures ResumesAs(lx, u, Process(st, seen, Read(lx.read, t, InBlockComment(st))),
                      Process(st, seen, Read(lx.read, t + u, InBlockComment(st))), 2, RawIdent)
  {
    HashGrows(lx, u, t, InBlockComment(st));
    ProcessOnce(st, seen, Read(lx.read, t + u, InBlockComment(st)));
  }

  lemma HashGrows(lx: Lexing, u: string, t: string, mode: bool)
    requires Resumes(lx, u) && t != "" && Read(lx.read, t, mode) == End(|t|)
    ensures Read(lx.read, t + u, mode) == Next(Item(RawIdent, Other), |t| + 2, Read(lx.read, u[2..], NextMode(mode, Other)))
  {
    assert EndExtends(lx, t, u, mode);
    assert (t + u)[|t| + 2..] == u[2..];
  }

  /** The first lexeme in both texts, which may grow by one character if it ends the shorter one. */
  lemma LexemeInBoth(lx: Lexing, u: string, t: string, mode: bool) returns (grown: bool)
    requires Resumes(lx, u) && Read(lx.read, t, mode).Next?
    ensures var r, r' := Read(lx.read, t, mode), Read(lx.read, t + u, mode);
            && 0 < r.span <= |t| && r'.Next? && r'.item == r.item
            && r.rest == Read(lx.read, t[r.span..], NextMode(mode, r.item.ev))
            && if grown then t[r.span..] == "" && r'.rest == Read(lx.read, u[1..], NextMode(mode, r.item.ev))
               else r'.rest == Read(lx.read, t[r.span..] + u, NextMode(mode, r.item.ev))
  {
    var r, r' := lx.read(t, mode), lx.read(t + u, mode);
    assert LexemeExtends(lx, t, u, mode, 1);
    grown := r'.span != r.span;
    if grown {
      assert (t + u)[r'.span..] == u[1..];
    } else {
      DropOf(t, u, r.span);
    }
  }

  lemma {:induction false} ResumeBehindLexeme(lx: Lexing, u: string, st: seq<Kind>, seen: Kind, t: string)
    returns (j: nat, seen': Kind)
    requires Resumes(lx, u) && ValidStack(st) && Read(lx.read, t, InBlockComment(st)).Next?
    requires EndsLive(st, seen, Read(lx.read, t, InBlockComment(st)), |t|)
    ensures ResumesAs(lx, u, Process(st, seen, Read(lx.read, t, InBlockComment(st))),
                      Process(st, seen, Read(lx.read, t + u, InBlockComment(st))), j, seen')
    decreases |t|, 0
  {
    var mode := InBlockComment(st);
    var r, r' := Read(lx.read, t, mode), Read(lx.read, t + u, mode);
    var grown := LexemeInBoth(lx, u, t, mode);
    var next, noted, rest := Step(st, r.item.ev).stack, Note(seen, r.item.kind), t[r.span..];
    ProcessOnce(st, seen, r);
    ProcessOnce(st, seen, r');
    StepKeepsShape(st, r.item.ev);
    if grown {
      j, seen' := 1, noted;
      EmptyEnds(lx, InBlockComment(next));
    } else {
      j, seen' := ResumeBehind(lx, u, next, noted, rest);
    }
  }

  /** The same for a whole call. */
  lemma ResumeCall(lx: Lexing, u: string, st: seq<Kind>, s: string) returns (j: nat, seen: Kind)
    requires Resumes(lx, u) && ValidStack(st) && IsBlank(u[0]) && !IsBlank(u[1])
    requires !WordChars.Has(u[1])
    requires RunsOut(Read(lx.read, AfterBlanks(s), InBlockComment(st)), |AfterBlanks(s)|)
    requires OutcomeBy(lx, st, s).Stopped? && !OutcomeBy(lx, st, s).mismatch
    ensures j <= 2 && (j == 2 ==> seen == RawIdent)
    ensures var stack := OutcomeBy(lx, st, s).stack;
            && ValidStack(stack)
            && OutcomeBy(lx, st, s + u) == Process(stack, seen, Read(lx.read, u[j..], InBlockComment(stack)))
  {
    var t := AfterBlanks(s);
    StartMode(lx, st, t);
    if t == "" {
      j, seen := 1, Unknown;
      BlanksThenBlank(s, u);
      EmptyEnds(lx, InBlockComment(st));
      NotTemplate(lx, "");
      NotTemplate(lx, u[1..]);
    } else {
      BlanksOfExtension(s, u);
      assert TemplateExtends(lx, t, u);
      j, seen := ResumeBehind(lx, u, Start(lx, st, t), Unknown, t);
    }
  }

  lemma BlanksThenBlank(s: string, u: string)
    requires AfterBlanks(s) == "" && |u| >= 2 && IsBlank(u[0]) && !IsBlank(u[1])
    ensures AfterBlanks(s + u) == u[1..]
  {
    assert forall i :: 0 <= i < |s| ==> (s + u)[i] == s[i];
    RunLenUnique(Blanks, s + u, |s| + 1);
  }

  lemma NotTemplate(lx: Lexing, t: string)
    requires Regular(lx) && !WordChars.Has(CharAt(t, 0))
    ensures !lx.template(t)
  {
  }

  lemma EmptyEnds(lx: Lexing, inComment: bool)
    requires Regular(lx)
    ensures Read(lx.read, "", inComment) == End(0)
  {
  }

  /* ---------- text behind a run that stopped at a NUL ---------- */

  ghost predicate HidesTail(lx: Lexing, t: string, u: string, inComment: bool) {
    var r := lx.read(t, inComment);
    r.Lexeme? && r.item.kind == Eof ==>
      !WordChars.Has(CharAt(t, 0)) && (r.span < |t| ==> lx.read(t + u, inComment) == r)
  }

  lemma ReadsInside(lx: Lexing, u: string, t: string, inComment: bool)
    requires Regular(lx)
    requires var r := lx.read(t, inComment); r.Lexeme? && r.item.kind != Eof && r.span < |t|
    ensures lx.read(t + u, inComment) == lx.read(t, inComment)
    ensures lx.template(t + u) == lx.template(t)
  {
    var n := lx.read(t, inComment).span;
    assert (t + u)[..n] == t[..n] && (t + u)[n] == t[n];
    assert |t| > 1 ==> (t + u)[1] == t[1];
    assert ReadsAlike(lx.read, t, t + u, inComment);
    assert TemplateAlike(lx, t, t + u, inComment);
  }

  lemma {:induction false} HiddenTail(lx: Lexing, u: string, st: seq<Kind>, seen: Kind, t: string, inComment: bool)
    requires Regular(lx) && (forall t, m :: HidesTail(lx, t, u, m))
    requires Process(st, seen, Read(lx.read, t, inComment)).Stopped? && !RunsOut(Read(lx.read, t, inComment), |t|)
    ensures Process(st, seen, Read(lx.read, t + u, inComment)) == Process(st, seen, Read(lx.read, t, inComment))
    decreases |t|
  {
    var r, r' := Read(lx.read, t, inComment), Read(lx.read, t + u, inComment);
    assert HidesTail(lx, t, u, inComment);
    if r.Next? {
      var rest, mode := t[r.span..], NextMode(inComment, r.item.ev);
      EmptyEnds(lx, mode);
      assert rest != "";
      ReadsInside(lx, u, t, inComment);
      DropOf(t, u, r.span);
      ProcessOnce(st, seen, r);
      ProcessOnce(st, seen, r');
      if Step(st, r.item.ev).Live? {
        HiddenTail(lx, u, Step(st, r.item.ev).stack, Note(seen, r.item.kind), rest, mode);
      }
    }
  }

  lemma HiddenTailBy(lx: Lexing, u: string, st: seq<Kind>, s: string)
    requires Regular(lx) && (forall t, m :: HidesTail(lx, t, u, m))
    requires OutcomeBy(lx, st, s).Stopped?
    requires !RunsOut(Read(lx.read, AfterBlanks(s), InBlockComment(st)), |AfterBlanks(s)|)
    ensures OutcomeBy(lx, st, s + u) == OutcomeBy(lx, st, s)
  {
    var t, mode := AfterBlanks(s), InBlockComment(st);
    EmptyEnds(lx, mode);
    assert t != "";
    BlanksOfExtension(s, u);
    SameStartOfHidden(lx, u, st, t, mode);
    HiddenTail(lx, u, Start(lx, st, t), Unknown, t, mode);
  }

  lemma SameStartOfHidden(lx: Lexing, u: string, st: seq<Kind>, t: string, mode: bool)
    requires Regular(lx) && HidesTail(lx, t, u, mode) && t != ""
    requires !RunsOut(Read(lx.read, t, mode), |t|) && !Read(lx.read, t, mode).Stuck?
    ensures Start(lx, st, t + u) == Start(lx, st, t)
  {
    assert (t + u)[0] == t[0];
    if Read(lx.read, t, mode).Next? {
      EmptyEnds(lx, NextMode(mode, Read(lx.read, t, mode).item.ev));
      ReadsInside(lx, u, t, mode);
    } else {
      NotTemplate(lx, t);
      NotTemplate(lx, t + u);
    }
  }

}
