/**
 A parser for the JSON texts the chat history consists of: strings, arrays and objects
 (sections 2, 4, 5 and 7 of RFC 8259). It is the specification the history is held to.
 */
module JsonTexts {
  import opened Options
  import opened Scanning
  import opened Escaping

  /** Strings are sequences of code units; members keep their order. */
  datatype Value =
    | Str(units: seq<nat>)
    | Arr(items: seq<Value>)
    | Obj(members: seq<(seq<nat>, Value)>)

  predicate IsWs(c: char) {
    c == ' ' || c == '\t' || c == '\n' || c == '\r'
  }

  function SkipWs(t: string): (r: string)
    ensures |r| <= |t|
    ensures r != "" ==> !IsWs(r[0])
    decreases |t|
  {
    if t != "" && IsWs(t[0]) then SkipWs(t[1..]) else t
  }

  /** Behind an opening quote: the string and the text behind its closing quote. */
  function ParseString(t: string): (r: Option<(seq<nat>, string)>)
    ensures r.Some? ==> |r.value.1| < |t|
  {
    match LiteralRest(t, '"')
    case None => None
    case Some(n) =>
      match Decode(t[..n - 1])
      case None => None
      case Some(us) => Some((us, t[n..]))
  }

  /** A value behind optional white space, and the rest of the text. */
  function ParseValue(t: string): (r: Option<(Value, string)>)
    ensures r.Some? ==> |r.value.1| < |t|
    decreases |t|, 1
  {
    var u := SkipWs(t);
    if u == "" then None
    else if u[0] == '"' then
      match ParseString(u[1..])
      case None => None
      case Some((us, rest)) => Some((Str(us), rest))
    else if u[0] == '[' then
      var v := SkipWs(u[1..]);
      if v != "" && v[0] == ']' then Some((Arr([]), v[1..]))
      else match ParseElements(u[1..])
        case None => None
        case Some((vs, rest)) => Some((Arr(vs), rest))
    else if u[0] == '{' then
      var v := SkipWs(u[1..]);
      if v != "" && v[0] == '}' then Some((Obj([]), v[1..]))
      else match ParseMembers(u[1..])
        case None => None
        case Some((ms, rest)) => Some((Obj(ms), rest))
    else None
  }

  /** One or more elements separated by commas, and the closing bracket. */
  function ParseElements(t: string): (r: Option<(seq<Value>, string)>)
    ensures r.Some? ==> |r.value.1| < |t|
    decreases |t|, 2
  {
    match ParseValue(t)
    case None => None
    case Some((v, rest)) =>
      var u := SkipWs(rest);
      if u != "" && u[0] == ']' then Some(([v], u[1..]))
      else if u != "" && u[0] == ',' then
        match ParseElements(u[1..])
        case None => None
        case Some((vs, rest')) => Some(([v] + vs, rest'))
      else None
  }

  /** One or more members separated by commas, and the closing brace. */
  function ParseMembers(t: string): (r: Option<(seq<(seq<nat>, Value)>, string)>)
    ensures r.Some? ==> |r.value.1| < |t|
    decreases |t|, 2
  {
    match ParseMember(t)
    case None => None
    case Some((m, rest)) =>
      var u := SkipWs(rest);
      if u != "" && u[0] == '}' then Some(([m], u[1..]))
      else if u != "" && u[0] == ',' then
        match ParseMembers(u[1..])
        case None => None
        case Some((ms, rest')) => Some(([m] + ms, rest'))
      else None
  }

  function ParseMember(t: string): (r: Option<((seq<nat>, Value), string)>)
    ensures r.Some? ==> |r.value.1| < |t|
    decreases |t|, 0
  {
    var u := SkipWs(t);
    if u == "" || u[0] != '"' then None
    else match ParseString(u[1..])
      case None => None
      case Some((key, rest)) =>
        var v := SkipWs(rest);
        if v == "" || v[0] != ':' then None
        else match ParseValue(v[1..])
          case None => None
          case Some((value, rest')) => Some(((key, value), rest'))
  }

  /** A whole text is one value and white space around it. */
  function ParseText(t: string): Option<Value> {
    match ParseValue(t)
    case None => None
    case Some((v, rest)) => if SkipWs(rest) == "" then Some(v) else None
  }

  /* ---------- parsing what was written ---------- */

  function Quoted(body: string): string {
    "\"" + body + "\""
  }

  /** A string whose body decodes has no unescaped quote inside. */
  lemma {:induction false} DecodableIsBody(b: string)
    requires Decode(b).Some?
    ensures IsLiteralBody(b, '"')
    decreases |b|
  {
    if b != "" {
      if b[0] == '\\' {
        if b[1] == 'u' {
          DecodableIsBody(b[6..]);
          HexIsBody(b);
        } else {
          DecodableIsBody(b[2..]);
        }
      } else {
        DecodableIsBody(b[1..]);
      }
    }
  }

  lemma HexIsBody(b: string)
    requires |b| >= 6 && FourHexDigits(b[2..6]) && IsLiteralBody(b[6..], '"')
    ensures IsLiteralBody(b[2..], '"')
  {
    var h := b[2..6];
    forall c | c in h ensures c != '\\' && c != '"' {
      var i :| 0 <= i < 4 && h[i] == c;
      assert HexValue(h[i]).Some?;
    }
    PlainBody(h, b[6..]);
    assert b[2..] == h + b[6..];
  }

  lemma ParsesString(body: string, rest: string)
    requires Decode(body).Some?
    ensures ParseString(body + "\"" + rest) == Some((Decode(body).value, rest))
  {
    var t := body + "\"" + rest;
    var n := |body| + 1;
    DecodableIsBody(body);
    assert t[..n - 1] == body && t[n..] == rest && t[n - 1] == '"';
    LiteralRestIsGrammar(t, '"', n);
  }

  lemma ParsesQuoted(body: string, rest: string)
    requires Decode(body).Some?
    ensures ParseValue(Quoted(body) + rest) == Some((Str(Decode(body).value), rest))
  {
    var t := Quoted(body) + rest;
    assert t[1..] == body + "\"" + rest;
    assert SkipWs(t) == t;
    ParsesString(body, rest);
  }

  /** The serialized form `s` of value `v`: it parses to `v` whatever follows, and does not start with white space. */
  ghost predicate Serializes(s: string, v: Value) {
    && s != "" && !IsWs(s[0])
    && forall rest :: ParsesTo(s, v, rest)
  }

  ghost predicate ParsesTo(s: string, v: Value, rest: string) {
    ParseValue(s + rest) == Some((v, rest))
  }

  lemma QuotedSerializes(body: string)
    requires Decode(body).Some?
    ensures Serializes(Quoted(body), Str(Decode(body).value))
  {
    forall rest ensures ParsesTo(Quoted(body), Str(Decode(body).value), rest) {
      ParsesQuoted(body, rest);
    }
  }

  lemma SkipsBlank(t: string)
    requires t != "" && !IsWs(t[0])
    ensures SkipWs(t) == t && SkipWs(" " + t) == t && SkipWs("\n" + t) == t
  {
    assert (" " + t)[1..] == t && ("\n" + t)[1..] == t;
  }

  /** Leading white space does not matter to a value. */
  lemma BlankBeforeValue(t: string)
    requires t != "" && !IsWs(t[0])
    ensures ParseValue(" " + t) == ParseValue(t)
  {
    SkipsBlank(t);
  }

  /** `"key": value` as the history writes it. */
  function MemberText(key: string, value: string): string {
    Quoted(key) + ": " + value
  }

  lemma ParsesMember(key: string, value: string, v: Value, rest: string)
    requires Decode(key).Some? && Serializes(value, v)
    ensures ParseMember(" " + MemberText(key, value) + rest) == Some(((Decode(key).value, v), rest))
  {
    var tail := ":" + (" " + (value + rest));
    MemberAsTail(key, value, rest);
    SkipsBlank(Quoted(key) + tail);
    assert (Quoted(key) + tail)[1..] == key + "\"" + tail;
    ParsesString(key, tail);
    assert SkipWs(tail) == tail && tail[1..] == " " + (value + rest);
    BlankBeforeValue(value + rest);
    assert ParsesTo(value, v, rest);
  }

  lemma MemberAsTail(key: string, value: string, rest: string)
    ensures " " + MemberText(key, value) + rest == " " + (Quoted(key) + (":" + (" " + (value + rest))))
  {
    assert ": " == ":" + " ";
  }

  lemma LastMember(t: string, m: (seq<nat>, Value), rest: string)
    requires ParseMember(t) == Some((m, "}" + rest))
    ensures ParseMembers(t) == Some(([m], rest))
  {
    SkipsBlank("}" + rest);
    assert ("}" + rest)[1..] == rest;
  }

  lemma OneMoreMember(t: string, m: (seq<nat>, Value), last: string, ms: seq<(seq<nat>, Value)>, rest: string)
    requires ParseMember(t) == Some((m, "," + last)) && ParseMembers(last) == Some((ms, rest))
    ensures ParseMembers(t) == Some(([m] + ms, rest))
  {
    SkipsBlank("," + last);
    assert ("," + last)[1..] == last;
  }

  /** An object of two members, laid out as the history does. */
  lemma ParsesObject2(k: string, s: string, v: Value, k': string, s': string, v': Value, rest: string)
    requires Decode(k).Some? && Decode(k').Some? && Serializes(s, v) && Serializes(s', v')
    ensures ParseValue("{ " + MemberText(k, s) + ", " + MemberText(k', s') + "}" + rest) ==
            Some((Obj([(Decode(k).value, v), (Decode(k').value, v')]), rest))
  {
    ParsesMember(k', s', v', "}" + rest);
    ParsesMember(k, s, v, "," + (" " + MemberText(k', s') + ("}" + rest)));
    ObjectOf2(MemberText(k, s), MemberText(k', s'), (Decode(k).value, v), (Decode(k').value, v'), rest);
  }

  lemma ObjectOf2(a: string, b: string, m: (seq<nat>, Value), m': (seq<nat>, Value), rest: string)
    requires a != "" && a[0] == '"'
    requires ParseMember(" " + b + ("}" + rest)) == Some((m', "}" + rest))
    requires var last := " " + b + ("}" + rest); ParseMember(" " + a + ("," + last)) == Some((m, "," + last))
    ensures ParseValue("{ " + a + ", " + b + "}" + rest) == Some((Obj([m, m']), rest))
  {
    var last := " " + b + ("}" + rest);
    var members := " " + a + ("," + last);
    LastMember(last, m', rest);
    OneMoreMember(members, m, last, [m'], rest);
    assert [m] + [m'] == [m, m'];
    ObjectOfMembers(members, a, "," + last, [m, m'], rest);
    Object2Text(a, b, rest);
  }

  lemma Object2Text(a: string, b: string, rest: string)
    ensures "{ " + a + ", " + b + "}" + rest == "{" + (" " + a + ("," + (" " + b + ("}" + rest))))
  {
    assert "{ " == "{" + " " && ", " == "," + " ";
  }

  /** An object of one member. */
  lemma ParsesObject1(k: string, s: string, v: Value, rest: string)
    requires Decode(k).Some? && Serializes(s, v)
    ensures ParseValue("{ " + MemberText(k, s) + "}" + rest) == Some((Obj([(Decode(k).value, v)]), rest))
  {
    var members := " " + MemberText(k, s) + ("}" + rest);
    ParsesMember(k, s, v, "}" + rest);
    LastMember(members, (Decode(k).value, v), rest);
    ObjectOf(members, MemberText(k, s) + ("}" + rest));
    Object1Text(MemberText(k, s), rest);
  }

  lemma Object1Text(a: string, rest: string)
    ensures "{ " + a + "}" + rest == "{" + (" " + a + ("}" + rest))
  {
    assert "{ " == "{" + " ";
  }

  lemma ObjectOfMembers(members: string, a: string, tail: string, ms: seq<(seq<nat>, Value)>, rest: string)
    requires a != "" && a[0] == '"' && members == " " + a + tail
    requires ParseMembers(members) == Some((ms, rest))
    ensures ParseValue("{" + members) == Some((Obj(ms), rest))
  {
    assert members == " " + (a + tail);
    ObjectOf(members, a + tail);
  }

  lemma ObjectOf(members: string, first: string)
    requires members == " " + first && first != "" && first[0] == '"'
    ensures ParseValue("{" + members) == match ParseMembers(members)
                                         case None => None
                                         case Some((ms, rest)) => Some((Obj(ms), rest))
  {
    var t := "{" + members;
    SkipsBlank(first);
    assert SkipWs(t) == t && t[1..] == members;
  }

  /** An array of one element between `[ ` and `]`. */
  lemma ParsesArray1(s: string, v: Value, rest: string)
    requires Serializes(s, v) && s[0] != ']'
    ensures ParseValue("[ " + s + "]" + rest) == Some((Arr([v]), rest))
  {
    var elements := " " + (s + ("]" + rest));
    BlankBeforeValue(s + ("]" + rest));
    assert ParsesTo(s, v, "]" + rest);
    SkipsBlank("]" + rest);
    LastElement(elements, v, rest);
    ArrayOf(elements, s + ("]" + rest));
    assert "[ " == "[" + " ";
    assert "[ " + s + "]" + rest == "[" + elements;
  }

  lemma LastElement(t: string, v: Value, rest: string)
    requires ParseValue(t).Some? && ParseValue(t).value.0 == v && SkipWs(ParseValue(t).value.1) == "]" + rest
    ensures ParseElements(t) == Some(([v], rest))
  {
    assert ("]" + rest)[1..] == rest;
  }

  lemma OneMoreElement(t: string, v: Value, last: string, vs: seq<Value>, rest: string)
    requires ParseValue(t).Some? && ParseValue(t).value.0 == v && SkipWs(ParseValue(t).value.1) == "," + last
    requires ParseElements(last) == Some((vs, rest))
    ensures ParseElements(t) == Some(([v] + vs, rest))
  {
    assert ("," + last)[1..] == last;
  }

  lemma ArrayOf(elements: string, first: string)
    requires elements == " " + first || elements == first
    requires first != "" && !IsWs(first[0]) && first[0] != ']'
    ensures ParseValue("[" + elements) == match ParseElements(elements)
                                          case None => None
                                          case Some((vs, rest)) => Some((Arr(vs), rest))
  {
    var t := "[" + elements;
    SkipsBlank(first);
    assert SkipWs(t) == t && t[1..] == elements;
  }

  /** A text of plain characters stands for itself. */
  lemma {:induction false} DecodePlain(w: string)
    requires forall i :: 0 <= i < |w| ==> ' ' <= w[i] <= '~' && w[i] != '"' && w[i] != '\\'
    ensures Decode(w) == Some(Codes(w))
    decreases |w|
  {
    if w != "" {
      DecodePlain(w[1..]);
    }
  }

  function Codes(w: string): seq<nat> {
    if w == "" then [] else [w[0] as nat] + Codes(w[1..])
  }
}
