/**
 Token kinds, tokens and character classes of the input validator's lexer.
 A code buffer is a string followed by one NUL: `CharAt` is what the cursor reads.
 */
module Tokens {
  /** The kinds in the order of the enumeration: `ClosesBrace` does arithmetic on it. */
  datatype Kind =
    | LSquare | RSquare | LParen | RParen | LBrace | RBrace
    | StringLit | CharLit
    | Comma | Dot | ExclMark | QuestMark | Slash | Backslash
    | Less | Greater | Ampersand | Hash
    | Ident | RawIdent
    | Comment | LComment | RComment
    | Space | Constant | At | Asterik | Semicolon
    | Eof | Unknown

  /** A token starts at an offset of the buffer; its length is what the lexer reports. */
  datatype Token = Token(kind: Kind, start: nat, length: nat) {
    predicate ClosesBrace(k: Kind) {
      (kind.RSquare? || kind.RParen? || kind.RBrace?) && AsInt(kind) == AsInt(k) + 1
    }
  }

  const DEFAULT_TOKEN := Token(Unknown, 0, 0)

  function AsInt(k: Kind): nat {
    match k
    case LSquare => 0
    case RSquare => 1
    case LParen => 2
    case RParen => 3
    case LBrace => 4
    case RBrace => 5
    case StringLit => 6
    case CharLit => 7
    case Comma => 8
    case Dot => 9
    case ExclMark => 10
    case QuestMark => 11
    case Slash => 12
    case Backslash => 13
    case Less => 14
    case Greater => 15
    case Ampersand => 16
    case Hash => 17
    case Ident => 18
    case RawIdent => 19
    case Comment => 20
    case LComment => 21
    case RComment => 22
    case Space => 23
    case Constant => 24
    case At => 25
    case Asterik => 26
    case Semicolon => 27
    case Eof => 28
    case Unknown => 29
  }

  /** "+1" on the enumeration values accepts exactly the three matching pairs. */
  lemma ClosesBraceIsMatching(t: Token, k: Kind)
    ensures t.ClosesBrace(k) <==>
            || (t.kind == RSquare && k == LSquare)
            || (t.kind == RParen && k == LParen)
            || (t.kind == RBrace && k == LBrace)
  {
  }

  /* ---------- characters ("C" locale) ---------- */

  const NUL: char := '\0'

  function CharAt(t: string, i: nat): char {
    if i < |t| then t[i] else NUL
  }

  predicate IsAlpha(c: char) {
    'a' <= c <= 'z' || 'A' <= c <= 'Z'
  }

  predicate IsDigit(c: char) {
    '0' <= c <= '9'
  }

  predicate IsPunctuator(c: char) {
    || c == '[' || c == ']' || c == '(' || c == ')' || c == '{' || c == '}' || c == '\\' || c == ','
    || c == '.' || c == '!' || c == '?' || c == '<' || c == '>' || c == '&' || c == '#' || c == '@' || c == ';'
  }

  predicate IsQuote(c: char) {
    c == '"' || c == '\''
  }

  predicate IsBlank(c: char) {
    c == ' ' || c == '\t'
  }

  predicate IsLineEnd(c: char) {
    c == '\r' || c == '\n'
  }

  /** std::isspace: blanks, line ends, vertical tab and form feed. */
  predicate IsSpace(c: char) {
    IsBlank(c) || IsLineEnd(c) || c == 11 as char || c == 12 as char
  }

  /** The sets of characters the scanning loops run over; none contains NUL. */
  datatype CharClass = Blanks | Digits | WordChars | LineText | NonBlanks {
    predicate Has(c: char) {
      match this
      case Blanks => IsBlank(c)
      case Digits => IsDigit(c)
      case WordChars => IsAlpha(c) || IsDigit(c) || c == '_'
      case LineText => !IsLineEnd(c) && c != NUL
      case NonBlanks => !IsBlank(c) && c != NUL
    }
  }
}
