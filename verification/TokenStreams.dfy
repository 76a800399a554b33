/** The tokens of a whole text, as successive calls of `Lexer.Lex` return them. */
module TokenStreams {
  import opened Tokens
  import opened Scanning

  /** How much text a token takes, told by the token alone: its length, except for two kinds. */
  function Width(t: Token): nat {
    if t.kind == RComment || t.kind == Unknown then 1 else t.length
  }

  /** What a tokenizer yields is as wide as the cursor moves; eof is at a NUL and nowhere else. */
  ghost predicate WidthIsAdvance(scan: string -> Scanned, t: string) {
    var s := scan(t);
    s.Scanned? ==>
      && (s.kind == Eof <==> CharAt(t, 0) == NUL)
      && (s.kind != Eof ==> 0 < s.advance <= |t| && Width(Token(s.kind, 0, s.length)) == s.advance)
  }

  ghost predicate Steady(scan: string -> Scanned) {
    forall t :: WidthIsAdvance(scan, t)
  }

  lemma ScanIsSteady()
    ensures Steady(Scan)
  {
    forall t ensures WidthIsAdvance(Scan, t) {
      ScanWidth(t);
    }
  }

  lemma ScanWidth(t: string)
    ensures WidthIsAdvance(Scan, t)
  {
    if Scan(t).Scanned? {
      ScanSpans(t);
    }
  }

  /** From cursor `pos` on, up to eof or a literal that is not closed: each call yields a token and moves by its advance. */
  ghost function TokensFrom(scan: string -> Scanned, text: string, pos: nat): seq<Token>
    requires Steady(scan) && pos <= |text|
    decreases |text| - pos
  {
    match scan(text[pos..])
    case OpenLiteral => []
    case Scanned(kind, length, advance) =>
      assert WidthIsAdvance(scan, text[pos..]);
      [Token(kind, pos, length)] + if kind == Eof then [] else TokensFrom(scan, text, pos + advance)
  }

  ghost function TokensOf(text: string): seq<Token> {
    ScanIsSteady();
    TokensFrom(Scan, text, 0)
  }

  /** Each token starts where the one before ends, and only the last one, at a NUL, is eof. */
  predicate Tile(text: string, pos: nat, ts: seq<Token>)
    decreases |ts|
  {
    && ts != [] && ts[0].start == pos
    && if |ts| == 1 then ts[0].kind == Eof && pos <= |text| && CharAt(text, pos) == NUL
       else ts[0].kind != Eof && 0 < Width(ts[0]) && Tile(text, pos + Width(ts[0]), ts[1..])
  }

  predicate EndsInEof(ts: seq<Token>) {
    ts != [] && ts[|ts| - 1].kind == Eof
  }

  /** The first token, and those behind it. */
  lemma FirstToken(scan: string -> Scanned, text: string, pos: nat) returns (t: Token, later: seq<Token>)
    requires Steady(scan) && pos <= |text| && TokensFrom(scan, text, pos) != []
    ensures TokensFrom(scan, text, pos) == [t] + later && t.start == pos
    ensures if t.kind == Eof then CharAt(text, pos) == NUL && later == []
            else 0 < Width(t) <= |text| - pos && later == TokensFrom(scan, text, pos + Width(t))
  {
    var s := scan(text[pos..]);
    assert WidthIsAdvance(scan, text[pos..]);
    assert CharAt(text[pos..], 0) == CharAt(text, pos);
    t := Token(s.kind, pos, s.length);
    later := if s.kind == Eof then [] else TokensFrom(scan, text, pos + s.advance);
  }

  lemma {:induction false} TileFrom(scan: string -> Scanned, text: string, pos: nat)
    requires Steady(scan) && pos <= |text| && EndsInEof(TokensFrom(scan, text, pos))
    ensures Tile(text, pos, TokensFrom(scan, text, pos))
    decreases |text| - pos
  {
    var t, later := FirstToken(scan, text, pos);
    BehindFirst(t, later);
    if t.kind != Eof {
      TileFrom(scan, text, pos + Width(t));
    }
  }

  lemma BehindFirst(t: Token, later: seq<Token>)
    ensures ([t] + later)[1..] == later
    ensures EndsInEof([t] + later) && t.kind != Eof ==> EndsInEof(later)
  {
    assert later != [] ==> ([t] + later)[|later|] == later[|later| - 1];
  }

  /** The texts of the tokens before eof, one after the other. */
  function Spelled(text: string, ts: seq<Token>): string {
    if |ts| <= 1 then "" else Piece(text, ts[0]) + Spelled(text, ts[1..])
  }

  function Piece(text: string, t: Token): string {
    if t.start + Width(t) <= |text| then text[t.start..t.start + Width(t)] else ""
  }

  lemma {:induction false} TilesSpell(text: string, pos: nat, ts: seq<Token>)
    requires Tile(text, pos, ts)
    ensures pos <= ts[|ts| - 1].start <= |text| && Spelled(text, ts) == text[pos..ts[|ts| - 1].start]
    decreases |ts|
  {
    if |ts| > 1 {
      TilesSpell(text, pos + Width(ts[0]), ts[1..]);
      assert ts[1..][|ts| - 2] == ts[|ts| - 1];
    }
  }

  /**
   The tokens of a text whose literals are closed tile it up to the first NUL that is lexed:
   by their own starts and lengths, no character is skipped and none belongs to two tokens.
   */
  lemma TokensTile(text: string)
    requires EndsInEof(TokensOf(text))
    ensures var ts := TokensOf(text); var end := ts[|ts| - 1].start;
            && Tile(text, 0, ts)
            && end <= |text| && CharAt(text, end) == NUL && Spelled(text, ts) == text[..end]
  {
    ScanIsSteady();
    TileFrom(Scan, text, 0);
    TilesSpell(text, 0, TokensOf(text));
    TileEnd(text, 0, TokensOf(text));
  }

  lemma {:induction false} TileEnd(text: string, pos: nat, ts: seq<Token>)
    requires Tile(text, pos, ts)
    ensures CharAt(text, ts[|ts| - 1].start) == NUL
    decreases |ts|
  {
    if |ts| > 1 {
      TileEnd(text, pos + Width(ts[0]), ts[1..]);
    }
  }
}
