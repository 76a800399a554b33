/**
 Validating a text in two calls on one object against one call on the whole text: when
 the results agree, and what happens at each cut where they need not.
 */
module Compositions {
  import opened Tokens
  import opened Brackets
  import opened Templates
  import opened Readings
  import opened Validation
  import opened Verdicts
  import opened Boundaries
  import opened Chunks

  /** The cut falls between the `*` and the `/` of a right comment, which is read from its `*` alone. */
  predicate CutsRightComment(st: seq<Kind>, s: string, n: nat)
    requires AtBoundary(st, s, n)
  {
    EndsInRightComment(ItemsBefore(st, s, n))
  }

  /**
   Incremental composition. When the first chunk ends at a loop boundary of the run on the
   joined text that does not cut a right comment, has no mismatch, and the second chunk does
   not start with `template` on a stack that the first one emptied, two calls on one object
   give the same stack and the same mismatch flag as one call on the concatenation. A
   mismatch in the first chunk is what the one call stops at.
   */
  lemma IncrementalComposition(st: seq<Kind>, a: string, b: string)
    requires ValidStack(st) && AtBoundary(st, a + b, |a|) && !CutsRightComment(st, a + b, |a|)
    ensures var first, joined := OutcomeOf(st, a), OutcomeOf(st, a + b);
            && first.Stopped?
            && (first.mismatch ==> joined == first)
            && (!first.mismatch && (first.stack == [] && AfterBlanks(a) != "" ==> !StartsWithTemplate(b)) ==>
                  SameStack(joined, OutcomeOf(first.stack, b)))
  {
    Composition(st, a, b);
  }

  /** The joined call goes on from the stack of the first one, but pushes no template marker in the middle. */
  lemma Composition(st: seq<Kind>, a: string, b: string)
    requires ValidStack(st) && AtBoundary(st, a + b, |a|) && !CutsRightComment(st, a + b, |a|)
    ensures var first, joined := OutcomeOf(st, a), OutcomeOf(st, a + b);
            && first.Stopped?
            && if AfterBlanks(a) == "" then !first.mismatch && joined == OutcomeOf(first.stack, b)
               else if first.mismatch then joined == first
               else SameStack(joined, Process(first.stack, Unknown, ReadText(AfterBlanks(b), InBlockComment(first.stack))))
  {
    LexerIsRegular();
    OutcomeByLexer(st, a);
    OutcomeByLexer(st, a + b);
    BoundaryByLexer(st, a + b, |a|);
    ComposeBy(LEXER, st, a, b);
    var first := OutcomeOf(st, a);
    if first.Stopped? {
      OutcomeByLexer(first.stack, b);
    }
  }

  /**
   The other case: behind a chunk that empties the stack, the second call pushes the marker
   and the joined one does not. They still agree exactly if the second chunk releases it.
   */
  lemma CompositionAtTemplate(st: seq<Kind>, a: string, b: string)
    requires ValidStack(st) && AtBoundary(st, a + b, |a|) && !CutsRightComment(st, a + b, |a|)
    requires OutcomeOf(st, a + b).Stopped?
    requires var first := OutcomeOf(st, a); first.Stopped? && !first.mismatch && first.stack == []
    requires AfterBlanks(a) != "" && StartsWithTemplate(b)
    ensures SameStack(OutcomeOf(st, a + b), OutcomeOf([], b)) <==> Released([], TextEvents(b))
  {
    Composition(st, a, b);
    TemplateLifecycle(b);
  }

  /**
   A cut inside a right comment: nothing of the comment's end is seen. Unless the run has
   found a mismatch before, the first call ends without one, on the stack just before the
   right comment. The joined call goes on as a call on the second chunk with the comment
   closed, where the second call still has it open; and outside block comments only the
   joined call finds the mismatch.
   */
  lemma CutRightComment(st: seq<Kind>, a: string, b: string) returns (p: Progress)
    requires ValidStack(st) && AtBoundary(st, a + b, |a|) && CutsRightComment(st, a + b, |a|)
    ensures var items := ItemsBefore(st, a + b, |a|);
            p == ProcessItems(StartStack(st, a), Unknown, items[..|items| - 1])
    ensures OutcomeOf(st, a) == CutFirst(p)
    ensures if ClosesIn(p) then SameStack(OutcomeOf(st, a + b), OutcomeOf(Pop(p.stack), b))
            else OutcomeOf(st, a + b) == Stopped(p.stack, true, p.seen)
  {
    p := CutByLexer(st, a, b);
    OutcomesByLexer(st, a, b);
    if ClosesIn(p) {
      OutcomeByLexer(Pop(p.stack), b);
    }
  }

  lemma OutcomesByLexer(st: seq<Kind>, a: string, b: string)
    ensures Regular(LEXER)
    ensures OutcomeOf(st, a) == OutcomeBy(LEXER, st, a) && OutcomeOf(st, a + b) == OutcomeBy(LEXER, st, a + b)
  {
    LexerIsRegular();
    OutcomeByLexer(st, a);
    OutcomeByLexer(st, a + b);
  }

  lemma CutByLexer(st: seq<Kind>, a: string, b: string) returns (p: Progress)
    requires ValidStack(st) && AtBoundary(st, a + b, |a|) && CutsRightComment(st, a + b, |a|)
    ensures Regular(LEXER)
    ensures var items := ItemsBefore(st, a + b, |a|);
            p == ProcessItems(StartStack(st, a), Unknown, items[..|items| - 1])
    ensures OutcomeBy(LEXER, st, a) == CutFirst(p)
    ensures if ClosesIn(p) then SameStack(OutcomeBy(LEXER, st, a + b), OutcomeBy(LEXER, Pop(p.stack), b))
            else OutcomeBy(LEXER, st, a + b) == Stopped(p.stack, true, p.seen)
  {
    LexerIsRegular();
    BoundaryByLexer(st, a + b, |a|);
    p := CutBy(LEXER, st, a, b);
  }

}
