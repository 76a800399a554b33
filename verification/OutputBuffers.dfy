/**
 The output stream buffer: several writers, one lock around each operation, so that a run
 is an interleaving of atomic steps.
 */
module OutputBuffers {
  import opened Options

  /** A character with the writer that wrote it. */
  datatype Cell = Cell(writer: nat, c: char)

  /** Overflow of one character, or of end-of-file (None); a chunk written at once; a flush. */
  datatype Step =
    | Overflow(writer: nat, ch: Option<char>)
    | Xsputn(writer: nat, chunk: string)
    | Sync(writer: nat)

  datatype State = State(pending: seq<Cell>, delivered: seq<seq<Cell>>)

  const INITIAL := State([], [])

  function Cells(writer: nat, s: string): (r: seq<Cell>)
    ensures |r| == |s| && forall i :: 0 <= i < |s| ==> r[i] == Cell(writer, s[i])
  {
    seq(|s|, i requires 0 <= i < |s| => Cell(writer, s[i]))
  }

  /** What a step writes. */
  function Written(step: Step): seq<Cell> {
    match step
    case Overflow(w, Some(c)) => [Cell(w, c)]
    case Overflow(_, None) => []
    case Xsputn(w, chunk) => Cells(w, chunk)
    case Sync(_) => []
  }

  function Next(s: State, step: Step): State {
    match step
    case Sync(_) => if s.pending == [] then s else State([], s.delivered + [s.pending])
    case Overflow(w, None) => s
    case Overflow(w, Some(c)) => s.(pending := s.pending + [Cell(w, c)])
    case Xsputn(w, chunk) => s.(pending := s.pending + Cells(w, chunk))
  }

  function Run(s: State, steps: seq<Step>): State
    decreases |steps|
  {
    if steps == [] then s else Run(Next(s, steps[0]), steps[1..])
  }

  function Flatten<T>(ss: seq<seq<T>>): seq<T> {
    if ss == [] then [] else Flatten(ss[..|ss| - 1]) + ss[|ss| - 1]
  }

  function WrittenBy(steps: seq<Step>): seq<Cell>
    decreases |steps|
  {
    if steps == [] then [] else Written(steps[0]) + WrittenBy(steps[1..])
  }

  /** Everything that has gone through the buffer, in order. */
  function Stream(s: State): seq<Cell> {
    Flatten(s.delivered) + s.pending
  }

  lemma FlattenSnoc<T>(ss: seq<seq<T>>, x: seq<T>)
    ensures Flatten(ss + [x]) == Flatten(ss) + x
  {
    assert (ss + [x])[..|ss|] == ss;
  }

  lemma NextConserves(s: State, step: Step)
    ensures Stream(Next(s, step)) == Stream(s) + Written(step)
    ensures [] !in s.delivered ==> [] !in Next(s, step).delivered
  {
    if step.Sync? {
      FlattenSnoc(s.delivered, s.pending);
    }
  }

  /**
   Conservation, for every interleaving: delivered payloads and the pending buffer together
   are what was written, step by step; no payload is empty.
   */
  lemma {:induction false} OutputConserved(s: State, steps: seq<Step>)
    ensures Stream(Run(s, steps)) == Stream(s) + WrittenBy(steps)
    ensures [] !in s.delivered ==> [] !in Run(s, steps).delivered
    decreases |steps|
  {
    if steps == [] {
      assert Stream(s) + [] == Stream(s);
    } else {
      NextConserves(s, steps[0]);
      OutputConserved(Next(s, steps[0]), steps[1..]);
      assert Stream(s) + Written(steps[0]) + WrittenBy(steps[1..]) == Stream(s) + (Written(steps[0]) + WrittenBy(steps[1..]));
    }
  }

  /* ---------- chunks ---------- */

  /** A delivered payload, or behind the last one the pending buffer. */
  function Part(s: State, k: nat): seq<Cell>
    requires k <= |s.delivered|
  {
    if k < |s.delivered| then s.delivered[k] else s.pending
  }

  /** `cells` lie in one part, behind `a`, and are preceded in the stream by `before`. */
  predicate LiesIn(s: State, k: nat, a: seq<Cell>, cells: seq<Cell>, b: seq<Cell>, before: seq<Cell>) {
    k <= |s.delivered| && Part(s, k) == a + cells + b && Flatten(s.delivered[..k]) + a == before
  }

  /** Later steps may write behind a chunk and deliver it, but leave it where it is. */
  lemma NextKeepsChunk(s: State, step: Step, k: nat, a: seq<Cell>, cells: seq<Cell>, b: seq<Cell>, before: seq<Cell>)
    returns (b': seq<Cell>)
    requires LiesIn(s, k, a, cells, b, before)
    ensures LiesIn(Next(s, step), k, a, cells, b', before)
  {
    var s' := Next(s, step);
    assert s'.delivered[..k] == s.delivered[..k];
    b' := if k < |s.delivered| then b else b + Written(step);
    assert a + cells + b + Written(step) == a + cells + (b + Written(step));
    assert step.Sync? ==> b + Written(step) == b;
    assert Written(step) == [] ==> b + Written(step) == b;
  }

  lemma {:induction false} RunKeepsChunk(s: State, steps: seq<Step>, k: nat, a: seq<Cell>, cells: seq<Cell>, b: seq<Cell>,
                                         before: seq<Cell>)
    returns (b': seq<Cell>)
    requires LiesIn(s, k, a, cells, b, before)
    ensures LiesIn(Run(s, steps), k, a, cells, b', before)
    decreases |steps|
  {
    b' := b;
    if steps != [] {
      b' := NextKeepsChunk(s, steps[0], k, a, cells, b, before);
      b' := RunKeepsChunk(Next(s, steps[0]), steps[1..], k, a, cells, b', before);
    }
  }

  /**
   Every chunk that is written at once lies whole in one payload or in the pending buffer,
   just behind everything written before it.
   */
  lemma {:induction false} ChunkStaysWhole(s: State, steps: seq<Step>, i: nat) returns (k: nat, a: seq<Cell>, b: seq<Cell>)
    requires i < |steps| && steps[i].Xsputn?
    ensures LiesIn(Run(s, steps), k, a, Written(steps[i]), b, Stream(s) + WrittenBy(steps[..i]))
    decreases i
  {
    var next, later := Next(s, steps[0]), steps[1..];
    if i == 0 {
      k, a := |s.delivered|, s.pending;
      ChunkWritten(s, steps[0]);
      b := RunKeepsChunk(next, later, k, a, Written(steps[0]), [], Stream(s));
    } else {
      k, a, b := ChunkStaysWhole(next, later, i - 1);
      WrittenBefore(s, steps, i);
    }
  }

  lemma ChunkWritten(s: State, step: Step)
    requires step.Xsputn?
    ensures LiesIn(Next(s, step), |s.delivered|, s.pending, Written(step), [], Stream(s))
    ensures Stream(s) + WrittenBy([]) == Stream(s)
  {
    assert s.delivered[..|s.delivered|] == s.delivered;
    assert s.pending + Written(step) + [] == s.pending + Written(step);
  }

  lemma WrittenBefore(s: State, steps: seq<Step>, i: nat)
    requires 0 < i < |steps|
    ensures Stream(Next(s, steps[0])) + WrittenBy(steps[1..][..i - 1]) == Stream(s) + WrittenBy(steps[..i])
  {
    NextConserves(s, steps[0]);
    assert steps[..i][1..] == steps[1..][..i - 1];
  }

  /* ---------- flushes ---------- */

  predicate NoSync(steps: seq<Step>) {
    forall step :: step in steps ==> !step.Sync?
  }

  lemma {:induction false} RunSnoc(s: State, steps: seq<Step>, step: Step)
    ensures Run(s, steps + [step]) == Next(Run(s, steps), step)
    decreases |steps|
  {
    if steps == [] {
      assert [] + [step] == [step];
    } else {
      assert (steps + [step])[1..] == steps[1..] + [step];
      RunSnoc(Next(s, steps[0]), steps[1..], step);
    }
  }

  /** A flush delivers everything: nothing is pending behind it, and the payloads are all that was written so far. */
  lemma FlushDelivers(s: State, steps: seq<Step>, writer: nat)
    ensures var t := Run(s, steps + [Step.Sync(writer)]);
            t.pending == [] && Flatten(t.delivered) == Stream(s) + WrittenBy(steps)
  {
    RunSnoc(s, steps, Step.Sync(writer));
    OutputConserved(s, steps);
    NextConserves(Run(s, steps), Step.Sync(writer));
    assert forall cells: seq<Cell> :: cells + [] == cells;
  }

  /** Without a flush nothing is delivered, and what is written gathers. */
  lemma {:induction false} NothingElseDelivers(s: State, steps: seq<Step>)
    requires NoSync(steps)
    ensures Run(s, steps) == State(s.pending + WrittenBy(steps), s.delivered)
    decreases |steps|
  {
    if steps == [] {
      assert s.pending + [] == s.pending;
    } else {
      assert steps[0] in steps;
      WritingStep(s, steps[0]);
      NothingElseDelivers(Next(s, steps[0]), steps[1..]);
      assert s.pending + Written(steps[0]) + WrittenBy(steps[1..]) == s.pending + WrittenBy(steps);
    }
  }

  lemma WritingStep(s: State, step: Step)
    requires !step.Sync?
    ensures Next(s, step) == State(s.pending + Written(step), s.delivered)
  {
    assert s.pending + [] == s.pending;
  }

  /** A payload is exactly what was written between two flushes, if that is anything. */
  lemma PayloadIsBetweenFlushes(s: State, before: seq<Step>, steps: seq<Step>, w: nat, w': nat)
    requires NoSync(steps)
    ensures var flushed := Run(s, before + [Step.Sync(w)]);
            var written := WrittenBy(steps);
            Run(flushed, steps + [Step.Sync(w')]) ==
            State([], flushed.delivered + if written == [] then [] else [written])
  {
    FlushDelivers(s, before, w);
    var flushed := Run(s, before + [Step.Sync(w)]);
    NothingElseDelivers(flushed, steps);
    RunSnoc(flushed, steps, Step.Sync(w'));
    assert [] + WrittenBy(steps) == WrittenBy(steps);
    assert flushed.delivered + [] == flushed.delivered;
  }

  /* ---------- writers ---------- */

  function Only(writer: nat, cells: seq<Cell>): string {
    if cells == [] then "" else (if cells[0].writer == writer then [cells[0].c] else "") + Only(writer, cells[1..])
  }

  lemma {:induction false} OnlyAppend(writer: nat, xs: seq<Cell>, ys: seq<Cell>)
    ensures Only(writer, xs + ys) == Only(writer, xs) + Only(writer, ys)
    decreases |xs|
  {
    if xs == [] {
      assert xs + ys == ys;
    } else {
      assert (xs + ys)[1..] == xs[1..] + ys;
      OnlyAppend(writer, xs[1..], ys);
    }
  }

  /** What one writer wrote, whatever the others did in between. */
  function OwnText(writer: nat, steps: seq<Step>): string
    decreases |steps|
  {
    if steps == [] then ""
    else
      (match steps[0]
       case Overflow(w, Some(c)) => if w == writer then [c] else ""
       case Xsputn(w, chunk) => if w == writer then chunk else ""
       case _ => "")
      + OwnText(writer, steps[1..])
  }

  lemma {:induction false} OnlyOfCells(writer: nat, w: nat, s: string)
    ensures Only(writer, Cells(w, s)) == if w == writer then s else ""
    decreases |s|
  {
    if s != "" {
      assert Cells(w, s)[1..] == Cells(w, s[1..]);
      OnlyOfCells(writer, w, s[1..]);
    }
  }

  /** Each writer's own text comes through in its own order. */
  lemma WriterOrderKept(writer: nat, steps: seq<Step>)
    ensures Only(writer, Stream(Run(INITIAL, steps))) == OwnText(writer, steps)
  {
    OutputConserved(INITIAL, steps);
    OwnTextIsFiltered(writer, steps);
    StreamStartsEmpty(WrittenBy(steps));
  }

  lemma StreamStartsEmpty(cells: seq<Cell>)
    ensures Stream(INITIAL) + cells == cells
  {
  }

  lemma {:induction false} OwnTextIsFiltered(writer: nat, steps: seq<Step>)
    ensures Only(writer, WrittenBy(steps)) == OwnText(writer, steps)
    decreases |steps|
  {
    if steps != [] {
      OwnTextIsFiltered(writer, steps[1..]);
      OnlyAppend(writer, Written(steps[0]), WrittenBy(steps[1..]));
      if steps[0].Xsputn? {
        OnlyOfCells(writer, steps[0].writer, steps[0].chunk);
      }
    }
  }

  /** The buffer object; `delivered` records the calls of its callback. */
  class OutputBuffer {
    var output: seq<Cell>
    var delivered: seq<seq<Cell>>

    constructor ()
      ensures Abstract() == INITIAL
    {
      output, delivered := [], [];
    }

    function Abstract(): State
      reads this
    {
      State(output, delivered)
    }

    method Overflow(writer: nat, ch: Option<char>) returns (r: Option<char>)
      modifies this
      ensures r == ch && Abstract() == Next(old(Abstract()), Step.Overflow(writer, ch))
      ensures output == old(output) + (if ch.Some? then [Cell(writer, ch.value)] else []) && delivered == old(delivered)
    {
      if ch.Some? {
        output := output + [Cell(writer, ch.value)];
      }
      r := ch;
    }

    method Xsputn(writer: nat, chunk: string) returns (count: nat)
      modifies this
      ensures count == |chunk| && Abstract() == Next(old(Abstract()), Step.Xsputn(writer, chunk))
      ensures output == old(output) + Cells(writer, chunk) && delivered == old(delivered)
    {
      output := output + Cells(writer, chunk);
      count := |chunk|;
    }

    method Sync(writer: nat)
      modifies this
      ensures Abstract() == Next(old(Abstract()), Step.Sync(writer))
      ensures output == [] && delivered == old(delivered) + if old(output) == [] then [] else [old(output)]
    {
      if output != [] {
        delivered := delivered + [output];
        output := [];
      }
    }
  }
}
