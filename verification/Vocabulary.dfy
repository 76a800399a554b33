/** What characters and words mean to the validator, spelled out one by one. */
module Vocabulary {
  import opened Tokens
  import opened Scanning
  import opened Brackets
  import opened Lexemes
  import opened Readings
  import opened Validation
  import opened Separators
  import opened Completion

  /* ---------- characters ---------- */

  /** The character classes, by their members. */
  lemma CharacterSets(c: char)
    ensures Digits.Has(c) <==> c in "0123456789"
    ensures WordChars.Has(c) <==> c in "0123456789" || 'a' <= c <= 'z' || 'A' <= c <= 'Z' || c == '_'
    ensures Blanks.Has(c) <==> c in " \t"
    ensures LineText.Has(c) <==> c !in "\r\n\0"
    ensures NonBlanks.Has(c) <==> c !in " \t\0"
    ensures IsSpace(c) <==> c in " \t\r\n\U{B}\U{C}"
    ensures IsQuote(c) <==> c in "\"'"
  {
    DigitsByCode(c);
  }

  lemma DigitsByCode(c: char)
    ensures '0' <= c <= '9' <==> c in "0123456789"
  {
    var s := "0123456789";
    if '0' <= c <= '9' {
      assert s[c as int - '0' as int] == c;
    }
  }

  /* ---------- punctuators ---------- */

  /** Outside comments, what the loop reads at the first character. */
  predicate ReadsFirst(c: char, r: string, item: Item) {
    ReadText([c] + r, false) == Next(item, 1, ReadText(r, false))
  }

  /** The brackets and the semicolon, which act on the stack. */
  lemma BracketItem(c: char, r: string)
    ensures c == '[' ==> ReadsFirst(c, r, Item(LSquare, Open(Square)))
    ensures c == ']' ==> ReadsFirst(c, r, Item(RSquare, Close(Square)))
    ensures c == '(' ==> ReadsFirst(c, r, Item(LParen, Open(Paren)))
    ensures c == ')' ==> ReadsFirst(c, r, Item(RParen, Close(Paren)))
    ensures c == '{' ==> ReadsFirst(c, r, Item(LBrace, Open(Brace)))
    ensures c == '}' ==> ReadsFirst(c, r, Item(RBrace, Close(Brace)))
    ensures c == ';' ==> ReadsFirst(c, r, Item(Semicolon, Semi))
  {
    if IsPunctuator(c) && c != '#' {
      ReadsChar(c, PunctuatorKind(c), r);
    }
  }

  /** The comma and the backslash, which are remembered at the end, and the other punctuators, which do nothing. */
  lemma PunctuatorItem(c: char, r: string)
    ensures c == ',' ==> ReadsFirst(c, r, Item(Comma, Other))
    ensures c == '\\' ==> ReadsFirst(c, r, Item(Backslash, Other))
    ensures c == '.' ==> ReadsFirst(c, r, Item(Dot, Other))
    ensures c == '!' ==> ReadsFirst(c, r, Item(ExclMark, Other))
    ensures c == '?' ==> ReadsFirst(c, r, Item(QuestMark, Other))
    ensures c == '@' ==> ReadsFirst(c, r, Item(At, Other))
    ensures c == '<' ==> ReadsFirst(c, r, Item(Less, Other))
    ensures c == '>' ==> ReadsFirst(c, r, Item(Greater, Other))
    ensures c == '&' ==> ReadsFirst(c, r, Item(Ampersand, Other))
  {
    if IsPunctuator(c) && c != '#' {
      ReadsChar(c, PunctuatorKind(c), r);
    }
  }

  /* ---------- directives ---------- */

  /** What a directive word does, by what it begins with. */
  lemma DirectiveWords(x: string)
    ensures DirectiveEvent("if" + x) == Open(Cond)
    ensures DirectiveEvent("endif" + x) ==
            if x == "" || x[0] in "/ \t\r\n\U{B}\U{C}" then Close(Cond) else Other
    ensures !("if" <= x) && !("endif" <= x) ==> DirectiveEvent(x) == Other
  {
    assert ("if" + x)[0] == 'i' && ("if" + x)[1] == 'f';
    EndifWords(x);
    if !("if" <= x) && !("endif" <= x) {
      OtherWords(x);
    }
  }

  lemma EndifWords(x: string)
    ensures DirectiveEvent("endif" + x) ==
            if x == "" || x[0] in "/ \t\r\n\U{B}\U{C}" then Close(Cond) else Other
  {
    var w := "endif" + x;
    assert w[0] == 'e' && w[1] == 'n' && w[2] == 'd' && w[3] == 'i' && w[4] == 'f';
    if x != "" {
      assert w[5] == x[0];
      CharacterSets(x[0]);
    }
  }

  lemma OtherWords(x: string)
    requires !("if" <= x) && !("endif" <= x)
    ensures DirectiveEvent(x) == Other
  {
    assert OpensConditional(x) ==> "if" <= x;
    assert ClosesConditional(x) ==> "endif" <= x;
  }

  /** Whether a directive opens or closes a conditional is known from its word alone. */
  lemma DirectiveWordIff(w: string)
    ensures DirectiveEvent(w) == Open(Cond) <==> "if" <= w
    ensures DirectiveEvent(w) == Close(Cond) <==> "endif" <= w && (w == "endif" || w[5] in "/ \t\r\n\U{B}\U{C}")
  {
    DirectiveWords(w);
    if "if" <= w {
      assert w == "if" + w[2..];
      DirectiveWords(w[2..]);
    }
    if "endif" <= w {
      assert w == "endif" + w[5..];
      DirectiveWords(w[5..]);
    }
  }

  predicate IsBlankText(b: string) {
    forall i :: 0 <= i < |b| ==> b[i] in " \t"
  }

  /** The directive word: not empty, without blanks or a NUL; line ends, quotes and comment marks can be part of it. */
  predicate IsWord(w: string) {
    w != "" && forall i :: 0 <= i < |w| ==> w[i] !in " \t\0"
  }

  predicate EndsWord(r: string) {
    r == "" || r[0] in " \t\0"
  }

  lemma WordRun(w: string, r: string)
    requires IsWord(w) && EndsWord(r)
    ensures RunLen(NonBlanks, w + r) == |w| && (w + r)[..|w|] == w
    ensures CharAt(w + r, 0) == w[0] && w[0] != NUL && !IsBlank(w[0])
  {
    forall i | 0 <= i < |w| ensures NonBlanks.Has((w + r)[i]) {
      CharacterSets(w[i]);
    }
    CharacterSets(CharAt(r, 0));
    assert CharAt(w + r, |w|) == CharAt(r, 0);
    RunLenUnique(NonBlanks, w + r, |w|);
    CharacterSets(w[0]);
  }

  lemma BlankRun(b: string, x: string)
    requires IsBlankText(b) && !IsBlank(CharAt(x, 0))
    ensures RunLen(Blanks, b + x) == |b| && (b + x)[|b|..] == x
  {
    forall i | 0 <= i < |b| ensures Blanks.Has((b + x)[i]) {
      CharacterSets(b[i]);
    }
    assert CharAt(b + x, |b|) == CharAt(x, 0);
    RunLenUnique(Blanks, b + x, |b|);
  }

  /** Outside comments, a hash takes the word behind its blanks, and nothing else. */
  lemma DirectiveItem(b: string, w: string, r: string)
    requires IsBlankText(b) && IsWord(w) && EndsWord(r)
    ensures ReadText("#" + b + w + r, false) ==
            Next(Item(RawIdent, DirectiveEvent(w)), 1 + |b| + |w|, ReadText(r, false))
  {
    var v, t := b + (w + r), "#" + b + w + r;
    WordRun(w, r);
    BlankRun(b, w + r);
    assert t[1..] == v;
    HashLexeme(t, DirectiveEvent(w), |b| + |w|);
    assert t == ("#" + b + w) + r;
    Reads("#" + b + w, r, false, Item(RawIdent, DirectiveEvent(w)), 1 + |b| + |w|);
  }

  /** A hash with nothing but blanks behind it ends the run. */
  lemma BareHash(b: string)
    requires IsBlankText(b)
    ensures ReadText("#" + b, false) == End(|b| + 1)
  {
    var t := "#" + b;
    BlankRun(b, "");
    assert b + "" == b && t[1..] == b;
    assert Scan(t) == Scanned(Hash, 1, 1);
    ReadTextOnce(t, false);
  }

  /* ---------- template ---------- */

  /** The marker is pushed for a first token `template`, a whole word, and for nothing else. */
  lemma TemplateWord(t: string)
    ensures TemplateFirst(t) <==> "template" <= t && !WordChars.Has(CharAt(t, 8))
  {
    if t != "" && WordChars.Has(t[0]) && !IsDigit(t[0]) {
      ScanIsRun(t);
      var n := RunLen(WordChars, t);
      if "template" <= t {
        TemplateLetters(t);
        if !WordChars.Has(CharAt(t, 8)) {
          RunLenUnique(WordChars, t, 8);
        }
      }
    } else {
      assert "template"[0] == 't';
      NotTemplateHere(t);
    }
  }

  lemma TemplateLetters(t: string)
    requires "template" <= t
    ensures forall i :: 0 <= i < 8 ==> WordChars.Has(t[i])
  {
    assert forall i :: 0 <= i < 8 ==> t[i] == "template"[i];
  }

  lemma NotTemplateHere(t: string)
    requires t == "" || !WordChars.Has(t[0]) || IsDigit(t[0])
    ensures !TemplateFirst(t) && !("template" <= t)
  {
    assert "template"[0] == 't';
    if t != "" {
      NotTemplateStart(t);
    }
  }

  /** When a call pushes it: on an empty stack, for that word behind any blanks. */
  lemma MarkerPushed(st: seq<Kind>, b: string, t: string)
    requires IsBlankText(b) && !IsBlank(CharAt(t, 0))
    ensures StartStack(st, b + t) ==
            if st == [] && "template" <= t && !WordChars.Has(CharAt(t, 8)) then [Less] else st
  {
    BlankRun(b, t);
    TemplateWord(t);
  }
}
