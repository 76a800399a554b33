/**
 What source text means, told piece by piece from its characters, without the lexer: an
 independent reading of a text, and the theorem that the validator's outcome is its result.
 */
module Segments {
  import opened Tokens
  import opened Scanning
  import opened Brackets
  import opened Nesting
  import opened Templates
  import opened Lexemes
  import opened Readings
  import opened Validation
  import opened Boundaries
  import opened Chunks
  import opened Separators
  import opened Completion
  import opened Vocabulary

  /**
   Plain text holds words, numbers, blanks, line ends, brackets and punctuation; an operator
   is a slash or a star by itself; a comment is given by the text behind `//` or between its
   marks; a directive by the blanks and the word behind the hash.
   */
  datatype Segment =
    | Plain(text: string)
    | Operator(sign: char)
    | Literal(quote: char, body: string)
    | LineComment(remark: string)
    | BlockRemark(remark: string)
    | Hashed(blanks: string, word: string)

  function Text(s: Segment): string {
    match s
    case Plain(text) => text
    case Operator(sign) => [sign]
    case Literal(quote, body) => [quote] + body + [quote]
    case LineComment(remark) => "//" + remark
    case BlockRemark(remark) => "/*" + (remark + "*/")
    case Hashed(blanks, word) => "#" + blanks + word
  }

  function Source(segs: seq<Segment>): string {
    if segs == [] then "" else Text(segs[0]) + Source(segs[1..])
  }

  /* ---------- which texts are meant ---------- */

  predicate IsPlainChar(c: char) {
    c != '"' && c != '\'' && c != '/' && c != '*' && c != '#' && c != '\0'
  }

  predicate IsPlain(p: string) {
    forall i :: 0 <= i < |p| ==> IsPlainChar(p[i])
  }

  predicate MarkAt(c: string, i: nat) {
    "*/" <= Behind(c, i) || "/*" <= Behind(c, i)
  }

  function Behind(c: string, i: nat): string {
    if i <= |c| then c[i..] else ""
  }

  /** Comment text without quotes in which no two characters make a mark, and whose last one makes none with the closing mark. */
  predicate IsRemark(c: string) {
    && (forall i :: 0 <= i < |c| ==> c[i] != '"' && c[i] != '\'' && c[i] != '\0')
    && (forall i :: 0 <= i < |c| ==> !MarkAt(c, i))
    && (c != "" ==> c[|c| - 1] != '/')
  }

  predicate WellFormed(s: Segment) {
    match s
    case Plain(text) => IsPlain(text)
    case Operator(sign) => sign == '/' || sign == '*'
    case Literal(quote, body) => (quote == '"' || quote == '\'') && IsLiteralBody(body, quote)
    case LineComment(remark) => forall i :: 0 <= i < |remark| ==> remark[i] !in "\r\n\0"
    case BlockRemark(remark) => IsRemark(remark)
    case Hashed(blanks, word) => IsBlankText(blanks) && IsWord(word)
  }

  /** What may stand behind a segment, so that its characters do not run on. */
  predicate Ends(s: Segment, r: string) {
    r == "" ||
    match s
    case Plain(_) => !IsPlainChar(r[0]) && r[0] != '\0'
    case Operator(sign) => r[0] != '/' && (sign == '/' ==> r[0] != '*')
    case Literal(_, _) => true
    case LineComment(_) => r[0] in "\r\n"
    case BlockRemark(_) => r[0] != '/' && r[0] != '*'
    case Hashed(_, _) => r[0] in " \t"
  }

  predicate IsSource(segs: seq<Segment>) {
    segs == [] || (WellFormed(segs[0]) && Ends(segs[0], Source(segs[1..])) && IsSource(segs[1..]))
  }

  /* ---------- what they mean ---------- */

  /** The effect of a plain character on the stack. */
  function MarkOf(c: char): Event {
    match c
    case '[' => Open(Square)
    case ']' => Close(Square)
    case '(' => Open(Paren)
    case ')' => Close(Paren)
    case '{' => Open(Brace)
    case '}' => Close(Brace)
    case ';' => Semi
    case _ => Other
  }

  function MarkOfWord(w: string): Event {
    if "if" <= w then Open(Cond)
    else if "endif" <= w && (w == "endif" || w[5] in "/ \t\r\n\U{B}\U{C}") then Close(Cond)
    else Other
  }

  /** The state of a reader: the stack, or where it stopped; and whether the last character that is not blank asks for more. */
  datatype Result = Result(m: Machine, continued: bool)

  function ReadChar(st: seq<Kind>, continued: bool, c: char): Result {
    match Step(st, MarkOf(c))
    case Dead(s) => Result(Dead(s), continued)
    case Live(s) => Result(Live(s), if c == ' ' || c == '\t' then continued else c == ',' || c == '\\')
  }

  function ReadPlain(st: seq<Kind>, continued: bool, p: string): Result
    decreases |p|
  {
    if p == "" then Result(Live(st), continued)
    else
      var r := ReadChar(st, continued, p[0]);
      if r.m.Dead? then r else ReadPlain(r.m.stack, r.continued, p[1..])
  }

  function ReadSegment(st: seq<Kind>, continued: bool, s: Segment): Result {
    match s
    case Plain(text) => ReadPlain(st, continued, text)
    case Hashed(_, word) =>
      var m := Step(st, MarkOfWord(word));
      Result(m, m.Dead? && continued)
    case _ => Result(Live(st), false)
  }

  function ReadSource(st: seq<Kind>, continued: bool, segs: seq<Segment>): Result
    decreases |segs|
  {
    if segs == [] then Result(Live(st), continued)
    else
      var r := ReadSegment(st, continued, segs[0]);
      if r.m.Dead? then r else ReadSource(r.m.stack, r.continued, segs[1..])
  }

  /** The marks of a text: its brackets, semicolons and conditional directives, in order. */
  function Marks(segs: seq<Segment>): seq<Event> {
    if segs == [] then []
    else (match segs[0]
          case Plain(text) => CharMarks(text)
          case Hashed(_, word) => [MarkOfWord(word)]
          case _ => [])
         + Marks(segs[1..])
  }

  function CharMarks(p: string): seq<Event> {
    if p == "" then [] else [MarkOf(p[0])] + CharMarks(p[1..])
  }

  lemma {:induction false} PlainIsRun(st: seq<Kind>, continued: bool, p: string, later: seq<Event>)
    ensures var m := ReadPlain(st, continued, p).m;
            Run(st, CharMarks(p) + later) == if m.Dead? then m else Run(m.stack, later)
    decreases |p|
  {
    if p == "" {
      assert [] + later == later;
    } else {
      var r := ReadChar(st, continued, p[0]);
      assert CharMarks(p) + later == [MarkOf(p[0])] + (CharMarks(p[1..]) + later);
      RunStep(st, MarkOf(p[0]), CharMarks(p[1..]) + later);
      if r.m.Live? {
        PlainIsRun(r.m.stack, r.continued, p[1..], later);
      }
    }
  }

  /** The stack of the reader is the bracket machine's, run over the marks. */
  lemma {:induction false} ReadIsRun(st: seq<Kind>, continued: bool, segs: seq<Segment>)
    ensures ReadSource(st, continued, segs).m == Run(st, Marks(segs))
    decreases |segs|
  {
    if segs != [] {
      var r := ReadSegment(st, continued, segs[0]);
      match segs[0] {
        case Plain(text) => PlainIsRun(st, continued, text, Marks(segs[1..]));
        case Hashed(_, word) => RunStep(st, MarkOfWord(word), Marks(segs[1..]));
        case _ => assert [] + Marks(segs[1..]) == Marks(segs[1..]);
      }
      if r.m.Live? {
        ReadIsRun(r.m.stack, r.continued, segs[1..]);
      }
    }
  }

  /* ---------- the validator reads the same: plain text ---------- */

  predicate AsksForMore(k: Kind) {
    k == Comma || k == Backslash
  }

  predicate Agrees(o: Outcome, r: Result) {
    && o.Stopped? && o.stack == r.m.stack && o.mismatch == r.m.Dead?
    && (AsksForMore(o.last) <==> r.continued)
  }

  /** `n` plain characters read as one item of kind `k`: one character, or a run of blanks or of word characters. */
  predicate IsItem(p: string, n: nat, k: Kind) {
    && 1 <= n <= |p| && k != Eof && (k == Space <==> IsBlank(p[0]))
    && if k == Space then forall i :: 0 <= i < n ==> IsBlank(p[i])
       else && (n > 1 ==> forall i :: 0 <= i < n ==> WordChars.Has(p[i]))
            && (AsksForMore(k) <==> p[0] == ',' || p[0] == '\\')
  }

  /** The first item of plain text. */
  lemma PlainItem(p: string, r: string) returns (n: nat, k: Kind)
    requires p != "" && IsPlain(p) && Ends(Plain(p), r)
    ensures IsItem(p, n, k)
    ensures ReadText(p + r, false) == Next(Item(k, MarkOf(p[0])), n, ReadText(p[n..] + r, false))
  {
    assert IsPlainChar(p[0]);
    if StartsRun(p[0]) {
      n, k := PlainRun(p, r);
    } else {
      n, k := 1, if IsPunctuator(p[0]) then PunctuatorKind(p[0]) else Unknown;
      SingleItem(p[0], p[1..] + r, k);
      HeadOf(p, r);
    }
  }

  lemma HeadOf(p: string, r: string)
    requires p != ""
    ensures p + r == [p[0]] + (p[1..] + r)
  {
  }

  lemma SingleItem(c: char, tail: string, k: Kind)
    requires IsPlainChar(c) && !StartsRun(c)
    requires k == if IsPunctuator(c) then PunctuatorKind(c) else Unknown
    ensures ReadText([c] + tail, false) == Next(Item(k, MarkOf(c)), 1, ReadText(tail, false))
    ensures k != Eof && k != Space && (AsksForMore(k) <==> c == ',' || c == '\\')
  {
    MarkIsEvent(c);
    if IsPunctuator(c) {
      ReadsChar(c, k, tail);
    } else {
      OddChar(c, tail);
      Reads([c], tail, false, Item(Unknown, Other), 1);
    }
  }

  lemma MarkIsEvent(c: char)
    requires IsPlainChar(c) && !StartsRun(c)
    ensures IsPunctuator(c) ==> EventOf(PunctuatorKind(c)) == MarkOf(c) && PunctuatorKind(c) != Hash
    ensures IsPunctuator(c) ==> PunctuatorKind(c) != Eof && PunctuatorKind(c) != Space
    ensures IsPunctuator(c) ==> (AsksForMore(PunctuatorKind(c)) <==> c == ',' || c == '\\')
    ensures !IsPunctuator(c) ==> MarkOf(c) == Other && c != ',' && c != '\\'
  {
  }

  /** A character that is in no class, such as a sign or a line end. */
  lemma OddChar(c: char, tail: string)
    requires IsPlainChar(c) && !StartsRun(c) && !IsPunctuator(c)
    ensures ReadLexeme([c] + tail, false) == Lexeme(Item(Unknown, Other), 1)
  {
    assert Scan([c] + tail) == Scanned(Unknown, 0, 1);
  }

  lemma RunScan(p: string, r: string)
    requires p != "" && StartsRun(p[0]) && Ends(Plain(p), r)
    ensures var (cc, kind) := RunClass(p[0]); Scan(p + r) == Scanned(kind, RunLen(cc, p), RunLen(cc, p))
  {
    var (cc, kind) := RunClass(p[0]);
    assert (p + r)[0] == p[0];
    ScanIsRun(p + r);
    RunLenAppend(cc, p, r);
    NoRunBehind(cc, r);
  }

  /** Behind its first token, a run is read as it is, inside comments too. */
  lemma RunLexeme(t: string, kind: Kind, n: nat, inComment: bool)
    requires Scan(t) == Scanned(kind, n, n) && (kind == Space || kind == Ident || kind == Constant)
    ensures ReadLexeme(t, inComment) == Lexeme(Item(kind, Other), n)
  {
  }

  lemma ReadsAhead(t: string, n: nat, item: Item)
    requires ReadLexeme(t, false) == Lexeme(item, n) && item.kind != Eof && item.ev == Other
    ensures n <= |t| && ReadText(t, false) == Next(item, n, ReadText(t[n..], false))
  {
    ReadTextOnce(t, false);
  }

  lemma NoRunBehind(cc: CharClass, r: string)
    requires Ends(Plain(""), r) && (cc == Digits || cc == Blanks || cc == WordChars)
    ensures RunLen(cc, r) == 0
  {
  }

  lemma PlainRun(p: string, r: string) returns (n: nat, k: Kind)
    requires p != "" && StartsRun(p[0]) && Ends(Plain(p), r)
    ensures IsItem(p, n, k) && MarkOf(p[0]) == Other
    ensures ReadText(p + r, false) == Next(Item(k, Other), n, ReadText(p[n..] + r, false))
  {
    var (cc, kind) := RunClass(p[0]);
    n, k := RunLen(cc, p), kind;
    RunScan(p, r);
    RunLexeme(p + r, k, n, false);
    RunChars(p);
    ReadsAhead(p + r, n, Item(k, Other));
    DropOf(p, r, n);
  }

  lemma RunChars(p: string)
    requires p != "" && StartsRun(p[0])
    ensures var (cc, kind) := RunClass(p[0]); RunLen(cc, p) >= 1 ==> IsItem(p, RunLen(cc, p), kind)
  {
  }

  /** A run of blanks, or of word characters, is read character by character with the same result. */
  lemma {:induction false} RunOfPlain(st: seq<Kind>, continued: bool, p: string, n: nat)
    requires 1 <= n <= |p|
    requires (forall i :: 0 <= i < n ==> IsBlank(p[i])) || (forall i :: 0 <= i < n ==> WordChars.Has(p[i]))
    ensures ReadPlain(st, continued, p) == ReadPlain(st, IsBlank(p[0]) && continued, p[n..])
    decreases n
  {
    assert MarkOf(p[0]) == Other;
    if n > 1 {
      assert IsBlank(p[1]) <==> IsBlank(p[0]);
      RunOfPlain(st, IsBlank(p[0]) && continued, p[1..], n - 1);
      assert p[1..][n - 1..] == p[n..];
    }
  }

  lemma OneItem(st: seq<Kind>, continued: bool, p: string, n: nat, k: Kind)
    requires p != "" && IsItem(p, n, k)
    ensures var m := Step(st, MarkOf(p[0]));
            ReadPlain(st, continued, p) ==
            if m.Dead? then Result(m, continued)
            else ReadPlain(m.stack, if k == Space then continued else AsksForMore(k), p[n..])
  {
    if n > 1 || k == Space {
      RunOfPlain(st, continued, p, n);
      NoMarkInRun(st, p[0]);
    } else {
      assert p[1..] == p[n..];
    }
  }

  lemma NoMarkInRun(st: seq<Kind>, c: char)
    requires IsBlank(c) || WordChars.Has(c)
    ensures Step(st, MarkOf(c)) == Live(st) && c != ',' && c != '\\'
  {
  }

  /** Plain text leaves the validator where it leaves the reader. */
  lemma {:induction false} PlainReads(st: seq<Kind>, seen: Kind, p: string, r: string) returns (seen': Kind)
    requires ValidStack(st) && !InBlockComment(st) && IsPlain(p) && Ends(Plain(p), r)
    ensures GoesOn(st, seen, p, r, ReadPlain(st, AsksForMore(seen), p), seen')
    decreases |p|
  {
    seen' := seen;
    if p == "" {
      assert p + r == r;
    } else {
      var n, k := PlainItem(p, r);
      var e := MarkOf(p[0]);
      OneItem(st, AsksForMore(seen), p, n, k);
      MarkStep(st, p[0]);
      PlainBehind(p, n, r);
      if Step(st, e).Live? {
        seen' := PlainReads(Step(st, e).stack, Note(seen, k), p[n..], r);
      }
      PlainStep(st, seen, p, r, n, k, seen');
    }
  }

  lemma MarkStep(st: seq<Kind>, c: char)
    requires ValidStack(st) && !InBlockComment(st)
    ensures ValidStack(Step(st, MarkOf(c)).stack) && !InBlockComment(Step(st, MarkOf(c)).stack)
  {
    StepKeepsShape(st, MarkOf(c));
  }

  lemma PlainBehind(p: string, n: nat, r: string)
    requires IsPlain(p) && Ends(Plain(p), r) && n <= |p|
    ensures IsPlain(p[n..]) && Ends(Plain(p[n..]), r)
  {
  }

  lemma PlainStep(st: seq<Kind>, seen: Kind, p: string, r: string, n: nat, k: Kind, seen': Kind)
    requires ValidStack(st) && p != "" && IsItem(p, n, k)
    requires ReadText(p + r, false) == Next(Item(k, MarkOf(p[0])), n, ReadText(p[n..] + r, false))
    requires var m := Step(st, MarkOf(p[0])); var noted := Note(seen, k);
             && ValidStack(m.stack)
             && ReadPlain(st, AsksForMore(seen), p) ==
                (if m.Dead? then Result(m, AsksForMore(seen))
                 else ReadPlain(m.stack, if k == Space then AsksForMore(seen) else AsksForMore(k), p[n..]))
             && (m.Live? ==> GoesOn(m.stack, noted, p[n..], r, ReadPlain(m.stack, AsksForMore(noted), p[n..]), seen'))
    ensures GoesOn(st, seen, p, r, ReadPlain(st, AsksForMore(seen), p), seen')
  {
    ProcessOnce(st, seen, ReadText(p + r, false));
  }

  /** Processing `t` and then `r`: it stops in `t` with the reader's result, or goes on behind it from there. */
  predicate GoesOn(st: seq<Kind>, seen: Kind, t: string, r: string, res: Result, seen': Kind) {
    var o := Process(st, seen, ReadText(t + r, false));
    && ValidStack(res.m.stack)
    && if res.m.Dead? then Agrees(o, res)
       else !InBlockComment(res.m.stack) && (AsksForMore(seen') <==> res.continued)
            && o == Process(res.m.stack, seen', ReadText(r, false))
  }

  /** The events that act on the stack. */
  function Acting(evs: seq<Event>): seq<Event> {
    if evs == [] then [] else (if evs[0] == Other then [] else [evs[0]]) + Acting(evs[1..])
  }

  predicate IsMark(c: char) {
    c == '[' || c == ']' || c == '(' || c == ')' || c == '{' || c == '}' || c == ';'
  }

  /** The bracket and semicolon characters of a text, as events. */
  function Filtered(p: string): seq<Event> {
    if p == "" then [] else (if IsMark(p[0]) then [MarkOf(p[0])] else []) + Filtered(p[1..])
  }

  lemma {:induction false} NothingFiltered(p: string, n: nat)
    requires n <= |p| && ((forall i :: 0 <= i < n ==> IsBlank(p[i])) || (forall i :: 0 <= i < n ==> WordChars.Has(p[i])))
    ensures Filtered(p) == Filtered(p[n..])
    decreases n
  {
    if n == 0 {
      assert p[0..] == p;
    } else {
      NothingFiltered(p[1..], n - 1);
      assert p[1..][n - 1..] == p[n..];
      NoMarkInRun([], p[0]);
      FilteredFirst(p[0]);
    }
  }

  lemma FilteredFirst(c: char)
    ensures MarkOf(c) == Other <==> !IsMark(c)
  {
  }

  /** The events of plain text, apart from those without effect, are its brackets and semicolons in order. */
  lemma {:induction false} PlainEvents(p: string)
    requires IsPlain(p)
    ensures Acting(Events(ReadText(p, false))) == Filtered(p)
    decreases |p|
  {
    if p == "" {
      ReadTextOnce("", false);
    } else {
      var n, k := PlainItem(p, "");
      assert p + "" == p && p[n..] + "" == p[n..];
      PlainBehind(p, n, "");
      PlainEvents(p[n..]);
      FirstActs(ReadText(p, false));
      FilteredItem(p, n, k);
    }
  }

  lemma FirstActs(r: Reading)
    requires r.Next?
    ensures Acting(Events(r)) == (if r.item.ev == Other then [] else [r.item.ev]) + Acting(Events(r.rest))
  {
    assert Events(r)[1..] == Events(r.rest);
  }

  lemma FilteredItem(p: string, n: nat, k: Kind)
    requires p != "" && IsItem(p, n, k)
    ensures Filtered(p) == (if MarkOf(p[0]) == Other then [] else [MarkOf(p[0])]) + Filtered(p[n..])
  {
    FilteredFirst(p[0]);
    if n > 1 || k == Space {
      NothingFiltered(p, n);
      NoMarkInRun([], p[0]);
      RunNoMark(p[0]);
    } else {
      assert p[1..] == p[n..];
    }
  }

  lemma RunNoMark(c: char)
    requires IsBlank(c) || WordChars.Has(c)
    ensures MarkOf(c) == Other
  {
  }

  /* ---------- the other segments ---------- */

  /** A segment that is read as one item, other than a comma or backslash. */
  lemma ItemGoesOn(st: seq<Kind>, seen: Kind, t: string, r: string, item: Item, span: nat)
    requires ValidStack(st) && !InBlockComment(st) && item.ev != OpenComment && item.kind != Space && !AsksForMore(item.kind)
    requires ReadText(t + r, false) == Next(item, span, ReadText(r, false))
    ensures var m := Step(st, item.ev); GoesOn(st, seen, t, r, Result(m, m.Dead? && AsksForMore(seen)), item.kind)
  {
    ProcessOnce(st, seen, ReadText(t + r, false));
    StepKeepsShape(st, item.ev);
  }

  lemma OperatorReads(st: seq<Kind>, seen: Kind, c: char, r: string) returns (seen': Kind)
    requires ValidStack(st) && !InBlockComment(st) && WellFormed(Operator(c)) && Ends(Operator(c), r)
    ensures GoesOn(st, seen, [c], r, Result(Live(st), false), seen')
  {
    if c == '/' {
      ReadsSlash(r);
      seen' := Slash;
    } else {
      ReadsStar(r);
      seen' := Asterik;
    }
    assert [c] + r == (if c == '/' then "/" else "*") + r;
    ItemGoesOn(st, seen, [c], r, Item(seen', Other), 1);
  }

  lemma ReadsStar(r: string)
    requires CharAt(r, 0) != '/'
    ensures ReadText("*" + r, false) == Next(Item(Asterik, Other), 1, ReadText(r, false))
  {
    assert CharAt("*" + r, 1) == CharAt(r, 0);
    assert Scan("*" + r) == Scanned(Asterik, 1, 1);
    Reads("*", r, false, Item(Asterik, Other), 1);
  }

  lemma LiteralReads(st: seq<Kind>, seen: Kind, q: char, b: string, r: string) returns (seen': Kind)
    requires ValidStack(st) && !InBlockComment(st) && WellFormed(Literal(q, b))
    ensures GoesOn(st, seen, Text(Literal(q, b)), r, Result(Live(st), false), seen')
  {
    var l := Text(Literal(q, b));
    assert l[1..|l| - 1] == b;
    LiteralItem(l, q, r, false);
    seen' := if q == '"' then StringLit else CharLit;
    ItemGoesOn(st, seen, l, r, Item(seen', Other), |l|);
  }

  lemma LineCommentReads(st: seq<Kind>, seen: Kind, c: string, r: string) returns (seen': Kind)
    requires ValidStack(st) && !InBlockComment(st) && WellFormed(LineComment(c)) && Ends(LineComment(c), r)
    ensures GoesOn(st, seen, Text(LineComment(c)), r, Result(Live(st), false), seen')
  {
    var t := "//" + c;
    IsRemarkLine(c);
    LineEnded(c, r);
    LineCommentItem(t, r);
    seen' := Unknown;
    ItemGoesOn(st, seen, t, r, Item(Unknown, Other), |t|);
  }

  lemma LineEnded(c: string, r: string)
    requires Ends(LineComment(c), r)
    ensures EndsLine(r)
  {
    if r != "" {
      CharacterSets(r[0]);
    }
  }

  lemma IsRemarkLine(c: string)
    requires WellFormed(LineComment(c))
    ensures IsLineComment("//" + c)
  {
    var t := "//" + c;
    forall i | 2 <= i < |t| ensures LineText.Has(t[i]) {
      assert t[i] == c[i - 2];
      CharacterSets(c[i - 2]);
    }
  }

  lemma HashedReads(st: seq<Kind>, seen: Kind, b: string, w: string, r: string) returns (seen': Kind)
    requires ValidStack(st) && !InBlockComment(st) && WellFormed(Hashed(b, w)) && Ends(Hashed(b, w), r)
    ensures var m := Step(st, MarkOfWord(w));
            GoesOn(st, seen, Text(Hashed(b, w)), r, Result(m, m.Dead? && AsksForMore(seen)), seen')
  {
    DirectiveItem(b, w, r);
    DirectiveMark(w);
    seen' := RawIdent;
    ItemGoesOn(st, seen, "#" + b + w, r, Item(RawIdent, MarkOfWord(w)), 1 + |b| + |w|);
  }

  lemma DirectiveMark(w: string)
    ensures DirectiveEvent(w) == MarkOfWord(w)
  {
    DirectiveWordIff(w);
    if !("if" <= w) && !("endif" <= w) {
      DirectiveWords(w);
    } else if "endif" <= w {
      assert w == "endif" + w[5..];
      DirectiveWords(w[5..]);
    }
  }

  /* ---------- block comments ---------- */

  /** The first item inside a block comment: it stays before the closing mark and is none. */
  lemma RemarkItem(c: string, r: string) returns (n: nat)
    requires IsRemark(c) && c != ""
    ensures 1 <= n <= |c| && IsRemark(c[n..])
    ensures var l := ReadLexeme(c + ("*/" + r), true);
            l.Lexeme? && l.span == n && l.item.kind != Eof && l.item.kind != RComment && l.item.ev != CloseComment
  {
    var t := c + ("*/" + r);
    if StartsRun(c[0]) {
      var (cc, kind) := RunClass(c[0]);
      n := RunLen(cc, c);
      RemarkRun(c, r);
    } else {
      n := if "//" <= c then 2 else 1;
      RemarkSingle(c, r, n);
    }
    RestOfRemark(c, n);
  }

  lemma RestOfRemark(c: string, n: nat)
    requires IsRemark(c) && n <= |c|
    ensures IsRemark(c[n..])
  {
    forall i | 0 <= i < |c[n..]| ensures !MarkAt(c[n..], i) {
      assert Behind(c[n..], i) == Behind(c, n + i);
      assert !MarkAt(c, n + i);
    }
  }

  lemma RemarkRun(c: string, r: string)
    requires c != "" && StartsRun(c[0])
    ensures var (cc, kind) := RunClass(c[0]); var n := RunLen(cc, c);
            1 <= n && ReadLexeme(c + ("*/" + r), true) == Lexeme(Item(kind, Other), n)
  {
    var (cc, kind) := RunClass(c[0]);
    RunScan(c, "*/" + r);
    RunLexeme(c + ("*/" + r), kind, RunLen(cc, c), true);
  }

  lemma RemarkSingle(c: string, r: string, n: nat)
    requires IsRemark(c) && c != "" && !StartsRun(c[0]) && n == (if "//" <= c then 2 else 1)
    ensures n <= |c|
    ensures var l := ReadLexeme(c + ("*/" + r), true);
            l.Lexeme? && l.span == n && l.item.kind != Eof && l.item.kind != RComment && l.item.ev != CloseComment
  {
    var t := c + ("*/" + r);
    assert t[0] == c[0] && t[1] == if |c| > 1 then c[1] else '*';
    assert !MarkAt(c, 0);
    assert Behind(c, 0) == c;
    FirstTwo(c);
  }

  lemma FirstTwo(c: string)
    requires c != ""
    ensures "//" <= c <==> |c| > 1 && c[0] == '/' && c[1] == '/'
    ensures "*/" <= c <==> |c| > 1 && c[0] == '*' && c[1] == '/'
    ensures "/*" <= c <==> |c| > 1 && c[0] == '/' && c[1] == '*'
  {
  }

  /** Comment text is a body: its items fill it, and none closes the comment. */
  lemma {:induction false} RemarkIsBody(c: string, r: string)
    requires IsRemark(c)
    ensures IsCommentBody(c, r)
    decreases |c|
  {
    if c != "" {
      var n := RemarkItem(c, r);
      RemarkStep(c, r, n);
      RemarkIsBody(c[n..], r);
      BodyBehind(ReadText(c + ("*/" + r), true), n, |c|);
    }
  }

  lemma RemarkStep(c: string, r: string, n: nat)
    requires 1 <= n <= |c|
    requires var l := ReadLexeme(c + ("*/" + r), true);
             l.Lexeme? && l.span == n && l.item.kind != Eof && l.item.ev != CloseComment
    ensures var t := ReadText(c + ("*/" + r), true);
            t.Next? && t.span == n && t.item.ev != CloseComment && t.rest == ReadText(c[n..] + ("*/" + r), true)
  {
    ReadTextOnce(c + ("*/" + r), true);
    DropOf(c, "*/" + r, n);
  }

  lemma BodyBehind(r: Reading, n: nat, m: nat)
    requires r.Next? && r.span == n && 0 < n <= m && r.item.ev != CloseComment
    requires Upto(r.rest, m - n).On? && NoneCloses(Upto(r.rest, m - n).items)
    ensures Upto(r, m).On? && NoneCloses(Upto(r, m).items)
  {
  }

  lemma RemarkReads(st: seq<Kind>, seen: Kind, c: string, r: string) returns (seen': Kind)
    requires ValidStack(st) && !InBlockComment(st) && WellFormed(BlockRemark(c)) && Ends(BlockRemark(c), r)
    ensures GoesOn(st, seen, Text(BlockRemark(c)), r, Result(Live(st), false), seen')
  {
    RemarkOutcome(st, seen, c, r);
    RemarkText(c, r);
    seen' := Slash;
  }

  lemma RemarkText(c: string, r: string)
    ensures Text(BlockRemark(c)) + r == CommentText(c, r)
  {
  }

  /** The slash of the closing mark is read once more. */
  lemma RemarkOutcome(st: seq<Kind>, seen: Kind, c: string, r: string)
    requires ValidStack(st) && !InBlockComment(st) && IsRemark(c) && CharAt(r, 0) != '/' && CharAt(r, 0) != '*'
    ensures Process(st, seen, ReadText(CommentText(c, r), false)) == Process(st, Slash, ReadText(r, false))
  {
    var body := ReadText(c + ("*/" + r), true);
    RemarkIsBody(c, r);
    CommentReads(c, r);
    CommentReading(st, seen, body, |c|, Upto(body, |c|).items, ReadText("/" + r, false));
    ReadsSlash(r);
    ProcessOnce(st, RComment, ReadText("/" + r, false));
  }

  /* ---------- the theorem ---------- */

  lemma SegmentReads(st: seq<Kind>, seen: Kind, s: Segment, r: string) returns (seen': Kind)
    requires ValidStack(st) && !InBlockComment(st) && WellFormed(s) && Ends(s, r)
    ensures GoesOn(st, seen, Text(s), r, ReadSegment(st, AsksForMore(seen), s), seen')
  {
    match s
    case Plain(text) => seen' := PlainReads(st, seen, text, r);
    case Operator(sign) => seen' := OperatorReads(st, seen, sign, r);
    case Literal(quote, body) => seen' := LiteralReads(st, seen, quote, body, r);
    case LineComment(remark) => seen' := LineCommentReads(st, seen, remark, r);
    case BlockRemark(remark) => seen' := RemarkReads(st, seen, remark, r);
    case Hashed(blanks, word) => seen' := HashedReads(st, seen, blanks, word, r);
  }

  /** Outside block comments, the loop reads a source as the reader does. */
  lemma {:induction false} SourceReads(st: seq<Kind>, seen: Kind, segs: seq<Segment>)
    requires ValidStack(st) && !InBlockComment(st) && IsSource(segs)
    ensures Agrees(Process(st, seen, ReadText(Source(segs), false)), ReadSource(st, AsksForMore(seen), segs))
    decreases |segs|
  {
    if segs == [] {
      ReadTextOnce("", false);
    } else {
      var s, later := segs[0], segs[1..];
      var seen' := SegmentReads(st, seen, s, Source(later));
      var r := ReadSegment(st, AsksForMore(seen), s);
      if r.m.Live? {
        SourceReads(r.m.stack, seen', later);
      }
    }
  }

  /** The blanks in front, which a call skips, would change nothing. */
  lemma BlanksReadOrSkipped(st: seq<Kind>, s: string, inComment: bool)
    ensures Process(st, Unknown, ReadText(s, inComment)) == Process(st, Unknown, ReadText(AfterBlanks(s), inComment))
  {
    if RunLen(Blanks, s) == 0 {
      assert s[0..] == s;
    } else {
      SpaceLexeme(s, inComment);
      ReadTextOnce(s, inComment);
      assert NextMode(inComment, Other) == inComment;
      ProcessOnce(st, Unknown, ReadText(s, inComment));
    }
  }

  /** The outcome of any call on a source, from any reachable stack outside block comments. */
  lemma SourceOutcome(st: seq<Kind>, segs: seq<Segment>)
    requires ValidStack(st) && !InBlockComment(st) && IsSource(segs)
    ensures Agrees(OutcomeOf(st, Source(segs)), ReadSource(StartStack(st, Source(segs)), false, segs))
  {
    var s := Source(segs);
    BlanksReadOrSkipped(StartStack(st, s), s, false);
    SourceReads(StartStack(st, s), Unknown, segs);
  }

  /**
   The verdict of a new validator on a source, told by its marks alone: balanced, or behind
   `template` a balanced declaration; not to be balanced by anything; or open, or asking for
   more by a comma or backslash as the last character that is not blank.
   */
  lemma SourceVerdict(segs: seq<Segment>)
    requires IsSource(segs)
    ensures var o := OutcomeOf([], Source(segs));
            var marks, template := Marks(segs), StartsWithTemplate(Source(segs));
            var continued := ReadSource(if template then [Less] else [], false, segs).continued;
            && o.Stopped?
            && (Verdict(o) == Complete <==> !continued && if template then BalancedDeclaration(marks) else Balanced(marks))
            && (Verdict(o) == Mismatch <==> !continued && !Viable(marks))
  {
    var s := Source(segs);
    SourceOutcome([], segs);
    ReadIsRun(StartStack([], s), false, segs);
    MarkerAcceptsIff(Marks(segs));
    AcceptsIffBalanced(Marks(segs));
    LiveIffViable(Marks(segs));
  }
}
