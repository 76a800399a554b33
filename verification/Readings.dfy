/**
 The whole reading of a text, iteration by iteration, for any reader of single lexemes;
 loop boundaries, and what the reading up to a boundary depends on.
 */
module Readings {
  import opened Tokens
  import opened Scanning
  import opened Brackets
  import opened Lexemes

  type Reader = (string, bool) -> Lexeme

  ghost predicate Advances(read: Reader) {
    forall t, m :: read(t, m).Lexeme? ==>
      read(t, m).span <= |t| && (read(t, m).item.kind != Eof ==> 0 < read(t, m).span)
  }

  /** Stuck at a literal that is never closed; End at a terminator `offset` characters on; or one iteration and the rest. */
  datatype Reading =
    | Stuck
    | End(offset: nat)
    | Next(item: Item, span: nat, rest: Reading)

  /** Block-comment mode after an event: in a comment `//` and `#` are ordinary tokens. */
  function NextMode(inComment: bool, e: Event): bool {
    if inComment then e != CloseComment else e == OpenComment
  }

  function Read(read: Reader, t: string, inComment: bool): Reading
    requires Advances(read)
    decreases |t|
  {
    match read(t, inComment)
    case Unterminated => Stuck
    case Lexeme(item, span) =>
      if item.kind == Eof then End(span)
      else Next(item, span, Read(read, t[span..], NextMode(inComment, item.ev)))
  }

  function Events(r: Reading): seq<Event> {
    match r
    case Next(item, _, rest) => [item.ev] + Events(rest)
    case _ => []
  }

  /* ---------- loop boundaries ---------- */

  datatype Walked = Off | On(items: seq<Item>, rest: Reading)

  /** The items of the first `n` characters, if some iteration starts after exactly `n`. */
  function Upto(r: Reading, n: nat): Walked {
    if n == 0 then On([], r)
    else if r.Next? && r.span <= n then
      match Upto(r.rest, n - r.span)
      case Off => Off
      case On(items, rest) => On([r.item] + items, rest)
    else Off
  }

  function ModeAfter(inComment: bool, items: seq<Item>): bool
    decreases |items|
  {
    if items == [] then inComment else ModeAfter(NextMode(inComment, items[0].ev), items[1..])
  }

  lemma DropDrop(t: string, a: nat, b: nat)
    requires a + b <= |t|
    ensures t[a..][b..] == t[a + b..]
  {
  }

  lemma DropTo(t: string, k: nat, n: nat)
    requires k <= n <= |t|
    ensures t[k..][n - k..] == t[n..]
  {
  }

  /** The first iteration before a boundary that is not the start. */
  lemma FirstBefore(read: Reader, t: string, inComment: bool, n: nat)
    requires Advances(read) && 0 < n && Upto(Read(read, t, inComment), n).On?
    ensures var r := Read(read, t, inComment);
            && r.Next? && 0 < r.span <= n && r.span <= |t|
            && r.rest == Read(read, t[r.span..], NextMode(inComment, r.item.ev))
            && Upto(r.rest, n - r.span).On?
            && Upto(r, n) == On([r.item] + Upto(r.rest, n - r.span).items, Upto(r.rest, n - r.span).rest)
            && (r.span == n ==> Upto(r.rest, n - r.span).items == [])
  {
  }

  /** At a boundary the rest of the reading is the reading of the rest. */
  lemma {:induction false} UptoRest(read: Reader, t: string, inComment: bool, n: nat)
    requires Advances(read) && Upto(Read(read, t, inComment), n).On?
    ensures n <= |t|
    ensures var w := Upto(Read(read, t, inComment), n);
            w.rest == Read(read, t[n..], ModeAfter(inComment, w.items))
    decreases n
  {
    if n == 0 {
      assert t[0..] == t;
    } else {
      FirstBefore(read, t, inComment, n);
      var r := Read(read, t, inComment);
      var k, mode := r.span, NextMode(inComment, r.item.ev);
      UptoRest(read, t[k..], mode, n - k);
      DropTo(t, k, n);
      ModeAfterFirst(inComment, r.item, Upto(r.rest, n - k).items);
    }
  }

  lemma ModeAfterFirst(inComment: bool, first: Item, later: seq<Item>)
    ensures ModeAfter(inComment, [first] + later) == ModeAfter(NextMode(inComment, first.ev), later)
  {
    assert ([first] + later)[1..] == later;
  }

  /**
   One iteration looks at most one character past what it consumes, and of the lexemes
   only the right comment, which starts at its `*`, depends on that character being there.
   */
  ghost predicate LooksOneAhead(read: Reader) {
    && Advances(read)
    && (forall t, m :: StopsBehindStar(read, t, m))
    && (forall t, u, m :: ReadsAlike(read, t, u, m))
  }

  ghost predicate StopsBehindStar(read: Reader, t: string, inComment: bool) {
    var r := read(t, inComment);
    r.Lexeme? && r.item.kind == RComment ==>
      r == Lexeme(Item(RComment, CloseComment), 1) && CharAt(t, 0) == '*' && CharAt(t, 1) == '/'
  }

  ghost predicate ReadsAlike(read: Reader, t: string, u: string, inComment: bool) {
    var r := read(t, inComment);
    r.Lexeme? && r.item.kind != Eof && Continues(t, u, r.span, [r.item])
    ==> read(u, inComment) == r
  }

  predicate EndsInRightComment(items: seq<Item>) {
    items != [] && items[|items| - 1].kind == RComment
  }

  /** `u` continues the first `n` characters of `t`, which are `items`; behind a right comment, with the character it needs. */
  predicate Continues(t: string, u: string, n: nat, items: seq<Item>) {
    SameUpTo(t, u, n) && (EndsInRightComment(items) ==> CharAt(u, n) == CharAt(t, n))
  }

  lemma ContinuesFirst(t: string, u: string, n: nat, first: Item, span: nat, later: seq<Item>)
    requires Continues(t, u, n, [first] + later)
    requires 0 < span <= n && (span == n ==> later == [])
    ensures Continues(t, u, span, [first])
    ensures Continues(t[span..], u[span..], n - span, later)
  {
    SameUpToDrop(t, u, n, span);
    if span < n {
      SameUpToShorter(t, u, n, span);
    }
  }

  /** The items up to a boundary depend on nothing beyond the first character after it. */
  lemma {:induction false} UptoLocal(read: Reader, t: string, u: string, inComment: bool, n: nat)
    requires LooksOneAhead(read)
    requires var w := Upto(Read(read, t, inComment), n); w.On? && Continues(t, u, n, w.items)
    ensures SameBefore(Read(read, t, inComment), Read(read, u, inComment), n)
    decreases n
  {
    if n > 0 {
      var k, mode := AlikeStep(read, t, u, inComment, n);
      UptoLocal(read, t[k..], u[k..], mode, n - k);
    }
  }

  /** Both texts begin with the same iteration, and go on alike. */
  lemma AlikeStep(read: Reader, t: string, u: string, inComment: bool, n: nat) returns (k: nat, mode: bool)
    requires LooksOneAhead(read) && n > 0
    requires var w := Upto(Read(read, t, inComment), n); w.On? && Continues(t, u, n, w.items)
    ensures 0 < k <= n && k <= |t| && k <= |u|
    ensures var w := Upto(Read(read, t[k..], mode), n - k); w.On? && Continues(t[k..], u[k..], n - k, w.items)
    ensures SameBefore(Read(read, t[k..], mode), Read(read, u[k..], mode), n - k) ==>
              SameBefore(Read(read, t, inComment), Read(read, u, inComment), n)
  {
    FirstBefore(read, t, inComment, n);
    FirstContinues(read, t, u, inComment, n);
    FirstAlike(read, t, u, inComment);
    var r, r' := Read(read, t, inComment), Read(read, u, inComment);
    k, mode := r.span, NextMode(inComment, r.item.ev);
    SameBeforeNext(r, r', n);
  }

  /** Both readings have the boundary, and the same items before it. */
  predicate SameBefore(r: Reading, r': Reading, n: nat) {
    Upto(r, n).On? && Upto(r', n).On? && Upto(r, n).items == Upto(r', n).items
  }

  lemma SameBeforeNext(r: Reading, r': Reading, n: nat)
    requires r.Next? && r'.Next? && r'.item == r.item && r'.span == r.span && 0 < r.span <= n
    ensures SameBefore(r.rest, r'.rest, n - r.span) ==> SameBefore(r, r', n)
  {
  }

  lemma FirstContinues(read: Reader, t: string, u: string, inComment: bool, n: nat)
    requires Advances(read) && n > 0
    requires var w := Upto(Read(read, t, inComment), n); w.On? && Continues(t, u, n, w.items)
    ensures var r := Read(read, t, inComment);
            && r.Next? && 0 < r.span <= n && r.span <= |t|
            && Continues(t, u, r.span, [r.item])
            && Upto(r.rest, n - r.span).On?
            && Continues(t[r.span..], u[r.span..], n - r.span, Upto(r.rest, n - r.span).items)
  {
    FirstBefore(read, t, inComment, n);
    var r := Read(read, t, inComment);
    var later := Upto(r.rest, n - r.span).items;
    assert Upto(r, n).items == [r.item] + later;
    ContinuesFirst(t, u, n, r.item, r.span, later);
  }

  lemma FirstAlike(read: Reader, t: string, u: string, inComment: bool)
    requires LooksOneAhead(read)
    requires var r := Read(read, t, inComment); r.Next? && Continues(t, u, r.span, [r.item])
    ensures var r, mode := Read(read, t, inComment), NextMode(inComment, Read(read, t, inComment).item.ev);
            Read(read, u, inComment) == Next(r.item, r.span, Read(read, u[r.span..], mode))
  {
    assert ReadsAlike(read, t, u, inComment);
  }

  /** Every iteration consumes something. */
  predicate Positive(r: Reading) {
    r.Next? ==> r.span > 0 && Positive(r.rest)
  }

  lemma {:induction false} ReadPositive(read: Reader, t: string, inComment: bool)
    requires Advances(read)
    ensures Positive(Read(read, t, inComment))
    decreases |t|
  {
    var r := Read(read, t, inComment);
    if r.Next? {
      ReadPositive(read, t[r.span..], NextMode(inComment, r.item.ev));
    }
  }

  /** The boundary before the last item. */
  lemma {:induction false} UptoLast(r: Reading, n: nat) returns (m: nat)
    requires Positive(r) && Upto(r, n).On? && Upto(r, n).items != []
    ensures var w := Upto(r, n); var last := |w.items| - 1;
            m < n && Upto(r, m) == On(w.items[..last], Next(w.items[last], n - m, w.rest))
    decreases r
  {
    var w := Upto(r.rest, n - r.span);
    if w.items == [] {
      m := 0;
      assert [r.item][..0] == [];
    } else {
      var k := UptoLast(r.rest, n - r.span);
      m := r.span + k;
      assert ([r.item] + w.items)[..|w.items|] == [r.item] + w.items[..|w.items| - 1];
    }
  }

  /* ---------- the reader of the validation loop ---------- */

  lemma LexemesAdvance()
    ensures Advances(ReadLexeme)
  {
  }

  function ReadText(t: string, inComment: bool): Reading {
    LexemesAdvance();
    Read(ReadLexeme, t, inComment)
  }

  lemma ReadTextOnce(t: string, inComment: bool)
    ensures ReadText(t, inComment) ==
            match ReadLexeme(t, inComment)
            case Unterminated => Stuck
            case Lexeme(item, span) =>
              if item.kind == Eof then End(span)
              else Next(item, span, ReadText(t[span..], NextMode(inComment, item.ev)))
  {
    LexemesAdvance();
  }

  lemma LexemesLookOneAhead()
    ensures LooksOneAhead(ReadLexeme)
  {
    forall t, m ensures StopsBehindStar(ReadLexeme, t, m) {
      RightCommentStart(t, m);
    }
    forall t, u, m ensures ReadsAlike(ReadLexeme, t, u, m) {
      LexemesReadAlike(t, u, m);
    }
  }

  lemma LexemesReadAlike(t: string, u: string, inComment: bool)
    ensures ReadsAlike(ReadLexeme, t, u, inComment)
  {
    var r := ReadLexeme(t, inComment);
    if r.Lexeme? && r.item.kind != Eof && Continues(t, u, r.span, [r.item]) {
      RightCommentStart(t, inComment);
      ReadLexemeLocal(t, u, inComment);
    }
  }
}
