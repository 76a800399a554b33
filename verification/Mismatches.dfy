/**
 A mismatch is permanent: what has to hold of appended text, or of the text it is appended
 to, for the run to stop at the same token.
 */
module Mismatches {
  import opened Tokens
  import opened Scanning
  import opened Brackets
  import opened Nesting
  import opened Lexemes
  import opened Readings
  import opened Validation
  import opened Verdicts
  import opened Boundaries
  import opened Extensions
  import opened Chunks
  import opened Separators

  /* ---------- up to the fatal item, for any regular lexing ---------- */

  /** The items before offset `n` go through, and the one there is a mismatch. */
  predicate StopsAt(st: seq<Kind>, seen: Kind, r: Reading, n: nat, item: Item) {
    var w := Upto(r, n);
    && w.On? && w.rest.Next? && w.rest.item == item
    && ProcessItems(st, seen, w.items).Going?
    && Step(ProcessItems(st, seen, w.items).stack, item.ev).Dead?
  }

  lemma StopsAtLater(st: seq<Kind>, seen: Kind, r: Reading, n: nat, item: Item)
    requires r.Next? && r.span > 0 && Step(st, r.item.ev).Live?
    requires StopsAt(Step(st, r.item.ev).stack, Note(seen, r.item.kind), r.rest, n, item)
    ensures StopsAt(st, seen, r, r.span + n, item)
  {
    var w := Upto(r.rest, n);
    assert Upto(r, r.span + n) == On([r.item] + w.items, w.rest);
    assert ([r.item] + w.items)[1..] == w.items;
  }

  /** The fatal item begins at a boundary. */
  lemma {:induction false} FatalBoundary(st: seq<Kind>, seen: Kind, r: Reading)
    requires Positive(r) && FatalAt(st, r).Fatal?
    ensures StopsAt(st, seen, r, FatalAt(st, r).offset, FatalAt(st, r).item)
    decreases r
  {
    if Step(st, r.item.ev).Live? {
      var next, noted := Step(st, r.item.ev).stack, Note(seen, r.item.kind);
      var f := FatalAt(next, r.rest);
      FatalBoundary(next, noted, r.rest);
      StopsAtLater(st, seen, r, f.offset, f.item);
    }
  }

  lemma {:induction false} FatalThrough(st: seq<Kind>, seen: Kind, r: Reading, n: nat)
    requires Upto(r, n).On? && ProcessItems(st, seen, Upto(r, n).items).Going?
    ensures FatalAt(st, r) == Shift(n, FatalAt(ProcessItems(st, seen, Upto(r, n).items).stack, Upto(r, n).rest))
    decreases r
  {
    if n > 0 {
      var w := Upto(r.rest, n - r.span);
      assert ([r.item] + w.items)[1..] == w.items;
      FatalThrough(Step(st, r.item.ev).stack, Note(seen, r.item.kind), r.rest, n - r.span);
    }
  }

  /** Two readings with the same items before a boundary, and a mismatch at the same item behind it. */
  lemma SameFatal(st: seq<Kind>, seen: Kind, r: Reading, r': Reading, n: nat, item: Item)
    requires StopsAt(st, seen, r, n, item) && SameBefore(r, r', n)
    requires Upto(r', n).rest.Next? && Upto(r', n).rest.item == item
    ensures Process(st, seen, r') == Process(st, seen, r)
    ensures FatalAt(st, r') == FatalAt(st, r)
  {
    ProcessThrough(st, seen, r, n);
    ProcessThrough(st, seen, r', n);
    FatalThrough(st, seen, r, n);
    FatalThrough(st, seen, r', n);
  }

  /** The fatal item of `t`, behind its leading blanks: where it starts, in which mode, and what extensions do before it. */
  lemma FatalExtends(lx: Lexing, st: seq<Kind>, t: string, u: string, inComment: bool) returns (mode: bool)
    requires Regular(lx) && FatalAt(st, Read(lx.read, t, inComment)).Fatal?
    ensures var r, r' := Read(lx.read, t, inComment), Read(lx.read, t + u, inComment);
            var n := FatalAt(st, r).offset;
            && n < |t|
            && StopsAt(st, Unknown, r, n, FatalAt(st, r).item)
            && SameBefore(r, r', n)
            && Upto(r, n).rest == Read(lx.read, t[n..], mode)
            && Upto(r', n).rest == Read(lx.read, t[n..] + u, mode)
            && (n > 0 ==> lx.template(t + u) == lx.template(t))
  {
    var r := Read(lx.read, t, inComment);
    var n := FatalAt(st, r).offset;
    ReadPositive(lx.read, t, inComment);
    FatalBoundary(st, Unknown, r);
    UptoRest(lx.read, t, inComment, n);
    EndIsEmpty(lx, t[n..], ModeAfter(inComment, Upto(r, n).items));
    PrefixContinuesOver(t, u, n);
    var items := CutAlike(lx, t, t + u, inComment, n);
    DropOf(t, u, n);
    mode := ModeAfter(inComment, items);
  }

  lemma EndIsEmpty(lx: Lexing, x: string, mode: bool)
    requires Regular(lx) && Read(lx.read, x, mode).Next?
    ensures x != ""
  {
    EmptyEnds(lx, mode);
  }

  lemma PrefixContinuesOver(t: string, u: string, n: nat)
    requires n < |t|
    ensures forall items :: Continues(t, t + u, n, items)
  {
    assert (t + u)[..n] == t[..n] && (t + u)[n] == t[n];
  }

  ghost function FatalBy(lx: Lexing, st: seq<Kind>, s: string): Fatal
    requires Regular(lx)
  {
    var t := AfterBlanks(s);
    Shift(RunLen(Blanks, s), FatalAt(Start(lx, st, t), Read(lx.read, t, InBlockComment(st))))
  }

  /** The closer that `x` starts with is also the first item of `x + u`. */
  ghost predicate CloserStays(lx: Lexing, x: string, u: string, mode: bool) {
    var r, r' := lx.read(x, mode), lx.read(x + u, mode);
    r.Lexeme? && IsCloser(r.item.ev) && r.item.kind != Eof ==> r'.Lexeme? && r'.item == r.item
  }

  lemma SameStartOfMismatch(lx: Lexing, st: seq<Kind>, t: string, u: string, inComment: bool)
    requires Regular(lx) && FatalAt(Start(lx, st, t), Read(lx.read, t, inComment)).Fatal?
    ensures Start(lx, st, t + u) == Start(lx, st, t)
  {
    var r := Read(lx.read, t, inComment);
    if FatalAt(Start(lx, st, t), r).offset == 0 {
      FatalStartsText(lx, Start(lx, st, t), t, inComment);
      assert t != "" && (t + u)[0] == t[0];
    } else {
      var _ := FatalExtends(lx, Start(lx, st, t), t, u, inComment);
    }
  }

  lemma FatalStartsText(lx: Lexing, st: seq<Kind>, t: string, inComment: bool)
    requires Regular(lx)
    requires var f := FatalAt(st, Read(lx.read, t, inComment)); f.Fatal? && f.offset == 0
    ensures t != "" && !WordChars.Has(t[0])
  {
    EmptyEnds(lx, inComment);
    ReadPositive(lx.read, t, inComment);
    assert CloserIsNoWord(lx, t, inComment);
  }

  /** Behind the leading blanks: when the fatal closer stays what it is, so does everything else. */
  lemma MismatchStays(lx: Lexing, st: seq<Kind>, t: string, u: string, inComment: bool) returns (mode: bool)
    requires Regular(lx) && FatalAt(st, Read(lx.read, t, inComment)).Fatal?
    ensures FatalAt(st, Read(lx.read, t, inComment)).offset < |t|
    ensures FatalReads(lx, t, FatalAt(st, Read(lx.read, t, inComment)), mode)
    ensures CloserStays(lx, t[FatalAt(st, Read(lx.read, t, inComment)).offset..], u, mode) ==>
              SameMismatch(st, Read(lx.read, t, inComment), Read(lx.read, t + u, inComment))
  {
    var r, r' := Read(lx.read, t, inComment), Read(lx.read, t + u, inComment);
    var f := FatalAt(st, r);
    mode := FatalExtends(lx, st, t, u, inComment);
    var x := t[f.offset..];
    FirstItem(lx, x, mode);
    FirstItem(lx, x + u, mode);
    if CloserStays(lx, x, u, mode) {
      SameFatal(st, Unknown, r, r', f.offset, f.item);
    }
  }

  predicate SameMismatch(st: seq<Kind>, r: Reading, r': Reading) {
    Process(st, Unknown, r') == Process(st, Unknown, r) && FatalAt(st, r') == FatalAt(st, r)
  }

  /** The fatal item is the closer read at its offset. */
  predicate FatalReads(lx: Lexing, t: string, f: Fatal, mode: bool) {
    && f.Fatal? && f.offset < |t| && IsCloser(f.item.ev)
    && lx.read(t[f.offset..], mode).Lexeme? && lx.read(t[f.offset..], mode).item == f.item && f.item.kind != Eof
  }

  lemma FirstItem(lx: Lexing, x: string, mode: bool)
    requires Regular(lx)
    ensures var r := Read(lx.read, x, mode);
            r.Next? <==> lx.read(x, mode).Lexeme? && lx.read(x, mode).item.kind != Eof
    ensures var r := Read(lx.read, x, mode); r.Next? ==> r.item == lx.read(x, mode).item
  {
  }

  /** A whole call with a mismatch, and what appended text leaves as it is before the fatal item. */
  lemma MismatchCall(lx: Lexing, st: seq<Kind>, s: string, u: string) returns (t: string, st0: seq<Kind>)
    requires Regular(lx) && OutcomeBy(lx, st, s).Stopped? && OutcomeBy(lx, st, s).mismatch
    ensures RunLen(Blanks, s + u) == RunLen(Blanks, s)
    ensures var r, r' := Read(lx.read, t, InBlockComment(st)), Read(lx.read, t + u, InBlockComment(st));
            && FatalAt(st0, r).Fatal?
            && OutcomeBy(lx, st, s) == Process(st0, Unknown, r)
            && OutcomeBy(lx, st, s + u) == Process(st0, Unknown, r')
            && FatalBy(lx, st, s) == Shift(RunLen(Blanks, s), FatalAt(st0, r))
            && FatalBy(lx, st, s + u) == Shift(RunLen(Blanks, s), FatalAt(st0, r'))
    ensures t == AfterBlanks(s)
  {
    t := AfterBlanks(s);
    st0 := Start(lx, st, t);
    MismatchIsFatal(st0, Unknown, Read(lx.read, t, InBlockComment(st)));
    SameStartOfMismatch(lx, st, t, u, InBlockComment(st));
    FatalNotEmpty(lx, st0, t, InBlockComment(st));
    BlanksOfExtension(s, u);
  }

  lemma FatalNotEmpty(lx: Lexing, st: seq<Kind>, t: string, inComment: bool)
    requires Regular(lx) && FatalAt(st, Read(lx.read, t, inComment)).Fatal?
    ensures t != ""
  {
    EmptyEnds(lx, inComment);
  }

  lemma FatalReadsBehindBlanks(lx: Lexing, s: string, f: Fatal, mode: bool)
    requires FatalReads(lx, AfterBlanks(s), f, mode)
    ensures FatalReads(lx, s, Shift(RunLen(Blanks, s), f), mode)
    ensures s[Shift(RunLen(Blanks, s), f).offset..] == AfterBlanks(s)[f.offset..]
  {
    DropDrop(s, RunLen(Blanks, s), f.offset);
  }

  lemma MismatchStaysBy(lx: Lexing, st: seq<Kind>, s: string, u: string) returns (mode: bool)
    requires Regular(lx) && OutcomeBy(lx, st, s).Stopped? && OutcomeBy(lx, st, s).mismatch
    ensures FatalReads(lx, s, FatalBy(lx, st, s), mode)
    ensures RunLen(Blanks, s + u) == RunLen(Blanks, s)
    ensures CloserStays(lx, s[FatalBy(lx, st, s).offset..], u, mode) ==>
              OutcomeBy(lx, st, s + u) == OutcomeBy(lx, st, s) && FatalBy(lx, st, s + u) == FatalBy(lx, st, s)
  {
    var t, st0 := MismatchCall(lx, st, s, u);
    mode := MismatchStays(lx, st0, t, u, InBlockComment(st));
    FatalReadsBehindBlanks(lx, s, FatalAt(st0, Read(lx.read, t, InBlockComment(st))), mode);
  }

  /** How a mismatch goes away: the closer becomes part of an item without effect that ends the longer text. */
  lemma MismatchUndone(lx: Lexing, st: seq<Kind>, t: string, u: string, inComment: bool, kind: Kind) returns (mode: bool)
    requires Regular(lx) && FatalAt(st, Read(lx.read, t, inComment)).Fatal? && kind != Eof && kind != Space
    ensures FatalReads(lx, t, FatalAt(st, Read(lx.read, t, inComment)), mode)
    ensures var x := t[FatalAt(st, Read(lx.read, t, inComment)).offset..] + u;
            lx.read(x, mode) == Lexeme(Item(kind, Other), |x|) ==>
              Reopened(Process(st, Unknown, Read(lx.read, t, inComment)), Process(st, Unknown, Read(lx.read, t + u, inComment)), kind)
  {
    var r, r' := Read(lx.read, t, inComment), Read(lx.read, t + u, inComment);
    var n := FatalAt(st, r).offset;
    mode := FatalExtends(lx, st, t, u, inComment);
    var x := t[n..] + u;
    FirstItem(lx, t[n..], mode);
    if lx.read(x, mode) == Lexeme(Item(kind, Other), |x|) {
      LastItemOnly(lx, x, mode, kind);
      OpenFrom(st, r, r', n, FatalAt(st, r).item, kind, |x|);
    }
  }

  /** The mismatch is gone, the stack the same, and `kind` the last token. */
  predicate Reopened(o: Outcome, o': Outcome, kind: Kind) {
    o.Stopped? && o' == Stopped(o.stack, false, kind)
  }

  lemma OpenFrom(st: seq<Kind>, r: Reading, r': Reading, n: nat, item: Item, kind: Kind, span: nat)
    requires StopsAt(st, Unknown, r, n, item) && SameBefore(r, r', n)
    requires kind != Space && Upto(r', n).rest == Next(Item(kind, Other), span, End(0))
    ensures Reopened(Process(st, Unknown, r), Process(st, Unknown, r'), kind)
  {
    ProcessThrough(st, Unknown, r, n);
    ProcessThrough(st, Unknown, r', n);
    var p := ProcessItems(st, Unknown, Upto(r, n).items);
    ProcessOnce(p.stack, p.seen, Upto(r, n).rest);
    ProcessOnce(p.stack, p.seen, Upto(r', n).rest);
  }

  lemma LastItemOnly(lx: Lexing, x: string, mode: bool, kind: Kind)
    requires Regular(lx) && kind != Eof && lx.read(x, mode) == Lexeme(Item(kind, Other), |x|)
    ensures Read(lx.read, x, mode) == Next(Item(kind, Other), |x|, End(0))
  {
    assert x[|x|..] == "";
    EmptyEnds(lx, NextMode(mode, Other));
  }

  lemma MismatchUndoneBy(lx: Lexing, st: seq<Kind>, s: string, u: string, kind: Kind) returns (mode: bool)
    requires Regular(lx) && OutcomeBy(lx, st, s).Stopped? && OutcomeBy(lx, st, s).mismatch
    requires kind != Eof && kind != Space
    ensures FatalReads(lx, s, FatalBy(lx, st, s), mode)
    ensures var x := s[FatalBy(lx, st, s).offset..] + u;
            lx.read(x, mode) == Lexeme(Item(kind, Other), |x|) ==>
              Reopened(OutcomeBy(lx, st, s), OutcomeBy(lx, st, s + u), kind)
  {
    var t, st0 := MismatchCall(lx, st, s, u);
    mode := MismatchUndone(lx, st0, t, u, InBlockComment(st), kind);
    FatalReadsBehindBlanks(lx, s, FatalAt(st0, Read(lx.read, t, InBlockComment(st))), mode);
  }

  /* ---------- the validator's lexer ---------- */

  lemma FatalByLexer(st: seq<Kind>, s: string)
    requires Regular(LEXER)
    ensures FatalOf(st, s) == FatalBy(LEXER, st, s)
  {
  }

  lemma CloserStaysOverSeparator(x: string, u: string, mode: bool)
    requires u != "" && IsSeparator(u[0])
    ensures CloserStays(LEXER, x, u, mode)
  {
    ReadLexemeExtends(x, u, mode, |u|);
  }

  /**
   A mismatch is permanent: whatever is appended behind a separator, the run stops at the
   same token, with the same stack, the same verdict and the same indent.
   */
  lemma MismatchIsPermanent(st: seq<Kind>, s: string, u: string)
    requires OutcomeOf(st, s).Stopped? && OutcomeOf(st, s).mismatch
    requires u != "" ==> IsSeparator(u[0])
    ensures FatalOf(st, s).Fatal? && FatalOf(st, s + u) == FatalOf(st, s)
    ensures OutcomeOf(st, s + u) == OutcomeOf(st, s)
    ensures RunLen(Blanks, s + u) == RunLen(Blanks, s)
  {
    var mode := MismatchStaysByLexer(st, s, u);
    if u == "" {
      assert s + u == s;
    } else {
      CloserStaysOverSeparator(s[FatalOf(st, s).offset..], u, mode);
    }
  }

  lemma MismatchStaysByLexer(st: seq<Kind>, s: string, u: string) returns (mode: bool)
    requires OutcomeOf(st, s).Stopped? && OutcomeOf(st, s).mismatch
    ensures FatalReads(LEXER, s, FatalOf(st, s), mode)
    ensures RunLen(Blanks, s + u) == RunLen(Blanks, s)
    ensures CloserStays(LEXER, s[FatalOf(st, s).offset..], u, mode) ==> SameEnd(st, s, s + u)
  {
    LexerIsRegular();
    OutcomeByLexer(st, s);
    OutcomeByLexer(st, s + u);
    FatalByLexer(st, s);
    FatalByLexer(st, s + u);
    mode := MismatchStaysBy(LEXER, st, s, u);
  }

  /** Both calls stop at the same token, with the same outcome. */
  predicate SameEnd(st: seq<Kind>, s: string, s': string) {
    OutcomeOf(st, s') == OutcomeOf(st, s) && FatalOf(st, s') == FatalOf(st, s)
  }

  /** `#endif`, with nothing behind it: more letters would make another directive of it. */
  predicate IsBareEndif(x: string) {
    x != "" && x[0] == '#' && AfterBlanks(x[1..]) == "endif"
  }

  lemma DirectiveStays(v: string, u: string)
    requires Directive(v).item.kind != Eof && Directive(v).item.ev == Close(Cond) && AfterBlanks(v) != "endif"
    ensures Directive(v + u).item == Directive(v).item
  {
    var b := RunLen(Blanks, v);
    var x := v[b..];
    RunLenAppend(Blanks, v, u);
    DropOf(v, u, b);
    EndifStays(x, u);
  }

  lemma EndifStays(x: string, u: string)
    requires x != "" && x != "endif" && DirectiveEvent(x[..RunLen(NonBlanks, x)]) == Close(Cond)
    ensures DirectiveEvent((x + u)[..RunLen(NonBlanks, x + u)]) == Close(Cond)
  {
    var w, w' := RunLen(NonBlanks, x), RunLen(NonBlanks, x + u);
    RunLenAppend(NonBlanks, x, u);
    var word, word' := x[..w], (x + u)[..w'];
    assert forall i :: 0 <= i < w ==> word'[i] == word[i];
    assert w == 5 ==> word == "endif";
    assert w == |x| ==> word == x;
  }

  lemma CloserStaysUnlessBare(x: string, u: string, mode: bool)
    requires !IsBareEndif(x)
    ensures CloserStays(LEXER, x, u, mode)
  {
    var r := ReadLexeme(x, mode);
    if r.Lexeme? && IsCloser(r.item.ev) && r.item.kind != Eof {
      ScanSpansIf(x);
      if Scan(x).kind == Hash {
        HashCloserStays(x, u);
      } else {
        CloserScan(x, u);
        ScanSpansIf(x + u);
      }
    }
  }

  lemma HashCloserStays(x: string, u: string)
    requires !IsBareEndif(x) && Scan(x) == Scanned(Hash, 1, 1) && x != ""
    requires var d := Directive(x[1..]).item; d.kind != Eof && IsCloser(d.ev)
    ensures ReadLexeme(x + u, false).Lexeme? && ReadLexeme(x + u, false).item == Directive(x[1..]).item
  {
    assert (x + u)[0] == x[0] == '#';
    DropOf(x, u, 1);
    DirectiveStays(x[1..], u);
  }

  lemma CloserScan(x: string, u: string)
    requires Scan(x).Scanned? && IsCloser(EventOf(Scan(x).kind))
    ensures Scan(x + u) == Scan(x)
  {
    assert x != "" && (x + u)[0] == x[0];
    assert |x| > 1 ==> (x + u)[1] == x[1];
  }

  lemma BareEndifGrows(x: string)
    requires IsBareEndif(x)
    ensures ReadLexeme(x + "x", false) == Lexeme(Item(RawIdent, Other), |x + "x"|)
  {
    DropOf(x, "x", 1);
    BareWordGrows(x[1..]);
    HashLexeme(x + "x", Other, |x|);
  }

  lemma BareWordGrows(v: string)
    requires AfterBlanks(v) == "endif"
    ensures Directive(v + "x") == Lexeme(Item(RawIdent, Other), |v| + 1)
  {
    RunLenAppend(Blanks, v, "x");
    DropOf(v, "x", RunLen(Blanks, v));
    LongerWord(v + "x");
  }

  lemma LongerWord(v: string)
    requires AfterBlanks(v) == "endifx"
    ensures Directive(v) == Lexeme(Item(RawIdent, Other), |v|)
  {
    RunLenUnique(NonBlanks, AfterBlanks(v), 6);
  }

  /** A closer that begins with a hash is a directive outside block comments. */
  lemma HashClosesOutside(x: string, mode: bool)
    requires IsBareEndif(x) && ReadLexeme(x, mode).Lexeme? && IsCloser(ReadLexeme(x, mode).item.ev)
    ensures !mode
  {
    assert Scan(x) == Scanned(Hash, 1, 1);
  }

  /** A letter behind such an `#endif` takes the mismatch away and leaves the stack as it is. */
  lemma BareEndifUndone(st: seq<Kind>, s: string)
    requires OutcomeOf(st, s).Stopped? && OutcomeOf(st, s).mismatch
    requires FatalOf(st, s).Fatal? && FatalOf(st, s).offset <= |s| && IsBareEndif(s[FatalOf(st, s).offset..])
    ensures OutcomeOf(st, s + "x") == Stopped(OutcomeOf(st, s).stack, false, RawIdent)
  {
    LexerIsRegular();
    OutcomeByLexer(st, s);
    OutcomeByLexer(st, s + "x");
    FatalByLexer(st, s);
    var mode := MismatchUndoneBy(LEXER, st, s, "x", RawIdent);
    var x := s[FatalOf(st, s).offset..];
    HashClosesOutside(x, mode);
    BareEndifGrows(x);
  }

  /**
   A mismatch is final, that is, stays with its token and its outcome whatever is appended,
   exactly when the token it is found at is not an `#endif` at the very end of the text.
   */
  lemma MismatchIsFinal(st: seq<Kind>, s: string)
    requires OutcomeOf(st, s).Stopped? && OutcomeOf(st, s).mismatch
    ensures FatalOf(st, s).Fatal? && FatalOf(st, s).offset < |s|
    ensures (forall u :: SameEnd(st, s, s + u)) <==> !IsBareEndif(s[FatalOf(st, s).offset..])
  {
    var _ := MismatchStaysByLexer(st, s, "");
    var x := s[FatalOf(st, s).offset..];
    if IsBareEndif(x) {
      BareEndifUndone(st, s);
      assert !SameEnd(st, s, s + "x");
    } else {
      forall u ensures SameEnd(st, s, s + u) {
        var mode := MismatchStaysByLexer(st, s, u);
        CloserStaysUnlessBare(x, u, mode);
      }
    }
  }

  /** A mismatch that a comma or backslash hides makes the text incomplete, but nothing behind a separator completes it. */
  lemma HiddenMismatch(s: string, u: string)
    requires OutcomeOf([], s).Stopped? && Continued(s) && !Viable(TextEvents(s))
    requires u != "" ==> IsSeparator(u[0])
    ensures Verdict(OutcomeOf([], s)) == Incomplete
    ensures OutcomeOf([], s + u).Stopped? && Verdict(OutcomeOf([], s + u)) == Incomplete && !Accepted(s + u)
  {
    OutcomeIsGrammar(s);
    MismatchIsPermanent([], s, u);
    OutcomeIsGrammar(s + u);
  }
}
