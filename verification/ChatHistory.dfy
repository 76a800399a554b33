/**
 The chat log: one growing file per model, spliced between square brackets when a request
 is sent. Files are strings in a map; the file system always opens them.
 */
module ChatHistory {
  import opened Options
  import opened Escaping
  import opened JsonTexts

  /* ---------- one entry ---------- */

  function Entry(gemini: bool, user: string, serializedCell: string): string {
    if gemini then
      "{ \"role\": \"" + user + "\", \"parts\": [ { \"text\": " + serializedCell + "}]}\n"
    else
      "{ \"role\": \"" + user + "\", \"content\": " + serializedCell + "}\n"
  }

  /** A call of the log: the layout, the role and the serialized text. */
  datatype Message = Message(gemini: bool, user: string, cell: string)

  function EntryOf(m: Message): string {
    Entry(m.gemini, m.user, m.cell)
  }

  /** The role is the body of a string, and the cell the serialized form of some value. */
  ghost predicate Sound(m: Message) {
    Decode(m.user).Some? && exists v :: Serializes(m.cell, v)
  }

  ghost function CellValue(m: Message): Value
    requires Sound(m)
    ensures Serializes(m.cell, CellValue(m))
  {
    var v :| Serializes(m.cell, v);
    v
  }

  /** A text serializes at most one value. */
  lemma CellValueIs(m: Message, v: Value)
    requires Decode(m.user).Some? && Serializes(m.cell, v)
    ensures Sound(m) && CellValue(m) == v
  {
    assert ParsesTo(m.cell, v, "") && ParsesTo(m.cell, CellValue(m), "");
  }

  /** What a message means as JSON. */
  ghost function ValueOf(m: Message): Value
    requires Sound(m)
  {
    var role, v := (Codes("role"), Str(Decode(m.user).value)), CellValue(m);
    if m.gemini then Obj([role, (Codes("parts"), Arr([Obj([(Codes("text"), v)])]))])
    else Obj([role, (Codes("content"), v)])
  }

  lemma KeysDecode()
    ensures Decode("role") == Some(Codes("role")) && Decode("content") == Some(Codes("content"))
    ensures Decode("parts") == Some(Codes("parts")) && Decode("text") == Some(Codes("text"))
  {
    DecodePlain("role");
    DecodePlain("content");
    DecodePlain("parts");
    DecodePlain("text");
  }

  lemma Regroup(a: string, q: string, user: string, b: string, c: string, cell: string, e: string, nl: string)
    ensures (a + q) + user + (q + b + c) + cell + (e + nl) == a + (q + user + q) + b + (c + cell) + e + nl
  {
  }

  /** The pieces of an entry that are written as they stand. */
  lemma Pieces()
    ensures "{ \"role\": \"" == "{ " + (Quoted("role") + ": ") + "\""
    ensures "\", \"content\": " == "\"" + ", " + (Quoted("content") + ": ")
    ensures "\", \"parts\": [ { \"text\": " == "\"" + ", " + ((Quoted("parts") + ": ") + ("[ " + ("{ " + (Quoted("text") + ": "))))
    ensures "}\n" == "}" + "\n" && "}]}\n" == ("}" + "]") + ("}" + "\n")
  {
  }

  lemma DefaultEntryText(user: string, cell: string)
    ensures Entry(false, user, cell) ==
            "{ " + MemberText("role", Quoted(user)) + ", " + MemberText("content", cell) + "}" + "\n"
  {
    Pieces();
    var r, c := Quoted("role") + ": ", Quoted("content") + ": ";
    Regroup("{ " + r, "\"", user, ", ", c, cell, "}", "\n");
    assert ("{ " + r) + Quoted(user) == "{ " + (r + Quoted(user));
  }

  function PartsText(cell: string): string {
    "[ " + ("{ " + MemberText("text", cell) + "}") + "]"
  }

  lemma GeminiEntryText(user: string, cell: string)
    ensures Entry(true, user, cell) ==
            "{ " + MemberText("role", Quoted(user)) + ", " + MemberText("parts", PartsText(cell)) + "}" + "\n"
  {
    Pieces();
    var r, p, x := Quoted("role") + ": ", Quoted("parts") + ": ", Quoted("text") + ": ";
    var open, close := "[ " + ("{ " + x), "}" + "]";
    Regroup("{ " + r, "\"", user, ", ", p + open, cell, close + "}", "\n");
    assert close + ("}" + "\n") == (close + "}") + "\n";
    PartsRegroup(p, x, cell);
    assert ("{ " + r) + Quoted(user) == "{ " + (r + Quoted(user));
    var head := "{ " + MemberText("role", Quoted(user)) + ", ";
    assert head + ((p + open) + cell) + (close + "}") == head + (((p + open) + cell) + close) + "}";
  }

  lemma PartsRegroup(p: string, x: string, cell: string)
    ensures ((p + ("[ " + ("{ " + x))) + cell) + ("}" + "]") == p + ("[ " + ("{ " + (x + cell) + "}") + "]")
  {
  }

  lemma PartsSerialize(cell: string, v: Value)
    requires Serializes(cell, v)
    ensures Serializes(PartsText(cell), Arr([Obj([(Codes("text"), v)])]))
  {
    KeysDecode();
    var part := "{ " + MemberText("text", cell) + "}";
    var pv := Obj([(Codes("text"), v)]);
    forall rest ensures ParsesTo(part, pv, rest) {
      ParsesObject1("text", cell, v, rest);
    }
    forall rest ensures ParsesTo(PartsText(cell), Arr([pv]), rest) {
      ParsesArray1(part, pv, rest);
    }
  }

  lemma DefaultEntryParses(user: string, cell: string, v: Value, rest: string)
    requires Decode(user).Some? && Serializes(cell, v)
    ensures ParseValue(Entry(false, user, cell) + rest) ==
            Some((Obj([(Codes("role"), Str(Decode(user).value)), (Codes("content"), v)]), "\n" + rest))
  {
    KeysDecode();
    QuotedSerializes(user);
    DefaultEntryText(user, cell);
    EntryLine("{ " + MemberText("role", Quoted(user)) + ", " + MemberText("content", cell) + "}", rest);
    ParsesObject2("role", Quoted(user), Str(Decode(user).value), "content", cell, v, "\n" + rest);
  }

  lemma GeminiEntryParses(user: string, cell: string, v: Value, rest: string)
    requires Decode(user).Some? && Serializes(cell, v)
    ensures ParseValue(Entry(true, user, cell) + rest) ==
            Some((Obj([(Codes("role"), Str(Decode(user).value)), (Codes("parts"), Arr([Obj([(Codes("text"), v)])]))]),
                  "\n" + rest))
  {
    KeysDecode();
    QuotedSerializes(user);
    PartsSerialize(cell, v);
    GeminiEntryText(user, cell);
    EntryLine("{ " + MemberText("role", Quoted(user)) + ", " + MemberText("parts", PartsText(cell)) + "}", rest);
    ParsesObject2("role", Quoted(user), Str(Decode(user).value),
                  "parts", PartsText(cell), Arr([Obj([(Codes("text"), v)])]), "\n" + rest);
  }

  lemma EntryLine(obj: string, rest: string)
    ensures obj + "\n" + rest == obj + ("\n" + rest)
  {
  }

  /** An entry parses to its message and leaves the line end. */
  lemma EntryParses(m: Message, rest: string)
    requires Sound(m)
    ensures ParseValue(EntryOf(m) + rest) == Some((ValueOf(m), "\n" + rest))
  {
    if m.gemini {
      GeminiEntryParses(m.user, m.cell, CellValue(m), rest);
    } else {
      DefaultEntryParses(m.user, m.cell, CellValue(m), rest);
    }
  }

  /* ---------- the content of a file ---------- */

  function Join(ms: seq<Message>): string
    decreases |ms|
  {
    if ms == [] then ""
    else if |ms| == 1 then EntryOf(ms[0])
    else EntryOf(ms[0]) + ", " + Join(ms[1..])
  }

  lemma {:induction false} JoinSnoc(ms: seq<Message>, m: Message)
    ensures Join(ms + [m]) == if ms == [] then EntryOf(m) else Join(ms) + ", " + EntryOf(m)
    decreases |ms|
  {
    if ms == [] {
      assert ms + [m] == [m];
    } else {
      assert (ms + [m])[1..] == ms[1..] + [m];
      JoinSnoc(ms[1..], m);
    }
  }

  lemma JoinEmpty(ms: seq<Message>)
    ensures Join(ms) == "" <==> ms == []
  {
  }

  ghost predicate AllSound(ms: seq<Message>) {
    forall m :: m in ms ==> Sound(m)
  }

  ghost function Values(ms: seq<Message>): seq<Value>
    requires AllSound(ms)
    decreases |ms|
  {
    if ms == [] then [] else [ValueOf(ms[0])] + Values(ms[1..])
  }

  /** Up to the closing bracket, the content parses to the messages in order. */
  lemma {:induction false} JoinParses(ms: seq<Message>, rest: string)
    requires ms != [] && AllSound(ms)
    ensures ParseElements(Join(ms) + "]" + rest) == Some((Values(ms), rest))
    decreases |ms|
  {
    var m, later := ms[0], ms[1..];
    JoinValues(ms);
    if later == [] {
      LastEntryParses(m, rest);
    } else {
      JoinParses(later, rest);
      FirstEntryParses(m, later, Values(later), rest);
    }
  }

  lemma JoinValues(ms: seq<Message>)
    requires ms != [] && AllSound(ms)
    ensures Sound(ms[0]) && AllSound(ms[1..])
    ensures ms[1..] == [] ==> Join(ms) == EntryOf(ms[0]) && Values(ms) == [ValueOf(ms[0])]
    ensures ms[1..] != [] ==>
              && Join(ms) == EntryOf(ms[0]) + ", " + Join(ms[1..])
              && Values(ms) == [ValueOf(ms[0])] + Values(ms[1..])
  {
    assert ms[1..] == [] ==> Values(ms) == [ValueOf(ms[0])] + [];
  }

  lemma LastEntryParses(m: Message, rest: string)
    requires Sound(m)
    ensures ParseElements(EntryOf(m) + "]" + rest) == Some(([ValueOf(m)], rest))
  {
    var e := EntryOf(m);
    EntryParses(m, "]" + rest);
    SkipsBlank("]" + rest);
    assert e + "]" + rest == e + ("]" + rest);
    LastElement(e + ("]" + rest), ValueOf(m), rest);
  }

  lemma FirstEntryParses(m: Message, later: seq<Message>, vs: seq<Value>, rest: string)
    requires Sound(m) && later != []
    requires ParseElements(Join(later) + "]" + rest) == Some((vs, rest))
    ensures ParseElements(EntryOf(m) + ", " + Join(later) + "]" + rest) == Some(([ValueOf(m)] + vs, rest))
  {
    var tail := " " + (Join(later) + "]" + rest);
    EntryParses(m, "," + tail);
    SkipsBlank("," + tail);
    JoinText(m, later, rest);
    JoinStart(later);
    ElementsBehindBlank(Join(later) + "]" + rest);
    OneMoreElement(EntryOf(m) + ("," + tail), ValueOf(m), tail, vs, rest);
  }

  lemma JoinText(m: Message, later: seq<Message>, rest: string)
    requires later != []
    ensures EntryOf(m) + ", " + Join(later) + "]" + rest == EntryOf(m) + ("," + (" " + (Join(later) + "]" + rest)))
  {
    RegroupTail(EntryOf(m) + ", ", Join(later), "]", rest);
    SplitComma(EntryOf(m), Join(later) + "]" + rest);
  }

  lemma RegroupTail(a: string, b: string, c: string, d: string)
    ensures a + b + c + d == a + (b + c + d)
  {
  }

  lemma SplitComma(e: string, t: string)
    ensures e + ", " + t == e + ("," + (" " + t))
  {
    assert ", " == "," + " ";
  }

  lemma JoinStart(ms: seq<Message>)
    requires ms != []
    ensures Join(ms) != "" && Join(ms)[0] == '{'
  {
  }

  lemma ElementsBehindBlank(t: string)
    requires t != "" && !IsWs(t[0])
    ensures ParseElements(" " + t) == ParseElements(t)
  {
    BlankBeforeValue(t);
  }

  /** Spliced between brackets, the content is the array of the messages. */
  lemma HistoryParses(ms: seq<Message>)
    requires AllSound(ms)
    ensures ParseText("[" + Join(ms) + "]") == Some(Arr(Values(ms)))
  {
    if ms == [] {
      assert "[" + Join(ms) + "]" == "[]";
      assert "[]"[1..] == "]" && "]"[1..] == "";
    } else {
      JoinParses(ms, "");
      JoinStart(ms);
      assert Join(ms) + "]" + "" == Join(ms) + "]";
      ArrayOf(Join(ms) + "]", Join(ms) + "]");
      assert "[" + Join(ms) + "]" == "[" + (Join(ms) + "]");
    }
  }

  /* ---------- runs of the log ---------- */

  function PathOf(model: string): string {
    model + "_chat_history.txt"
  }

  lemma PathInjective(a: string, b: string)
    ensures PathOf(a) == PathOf(b) <==> a == b
  {
    var suffix := "_chat_history.txt";
    assert (a + suffix)[..|a|] == a && (b + suffix)[..|b|] == b;
  }

  datatype Op = Chat(model: string, user: string, cell: string) | Refresh(model: string)

  type Files = map<string, string>

  function Content(files: Files, model: string): string {
    if PathOf(model) in files then files[PathOf(model)] else ""
  }

  /** The effect of one operation on the files. */
  function Apply(files: Files, op: Op): Files {
    match op
    case Refresh(model) => files[PathOf(model) := ""]
    case Chat(model, user, cell) =>
      var content := Content(files, model);
      files[PathOf(model) := content + (if content == "" then "" else ", ") + Entry(model == "gemini", user, cell)]
  }

  function ApplyAll(files: Files, ops: seq<Op>): Files
    decreases |ops|
  {
    if ops == [] then files else Apply(ApplyAll(files, ops[..|ops| - 1]), ops[|ops| - 1])
  }

  /** The messages of a model since its last refresh. */
  function Log(ops: seq<Op>, model: string): seq<Message>
    decreases |ops|
  {
    if ops == [] then []
    else
      var before, op := Log(ops[..|ops| - 1], model), ops[|ops| - 1];
      if op.model != model then before
      else match op
        case Refresh(_) => []
        case Chat(_, user, cell) => before + [Message(model == "gemini", user, cell)]
  }

  /** Whatever the operations on whatever models, a model's file holds its messages since its last refresh. */
  lemma {:induction false} FileIsLog(ops: seq<Op>, model: string)
    ensures Content(ApplyAll(map[], ops), model) == Join(Log(ops, model))
    decreases |ops|
  {
    if ops != [] {
      var before, op := ops[..|ops| - 1], ops[|ops| - 1];
      FileIsLog(before, model);
      PathInjective(op.model, model);
      if op.model == model && op.Chat? {
        var ms := Log(before, model);
        JoinEmpty(ms);
        JoinSnoc(ms, Message(model == "gemini", op.user, op.cell));
      }
    }
  }

  ghost predicate SoundOps(ops: seq<Op>) {
    forall op :: op in ops && op.Chat? ==> Sound(Message(op.model == "gemini", op.user, op.cell))
  }

  lemma {:induction false} LogIsSound(ops: seq<Op>, model: string)
    requires SoundOps(ops)
    ensures AllSound(Log(ops, model))
    decreases |ops|
  {
    if ops != [] {
      assert ops[|ops| - 1] in ops;
      assert forall op :: op in ops[..|ops| - 1] ==> op in ops;
      LogIsSound(ops[..|ops| - 1], model);
    }
  }

  /** After any operations, every model's file parses back to exactly its messages, in order. */
  lemma HistoryParsesBack(ops: seq<Op>, model: string)
    requires SoundOps(ops)
    ensures AllSound(Log(ops, model))
    ensures ParseText("[" + Content(ApplyAll(map[], ops), model) + "]") == Some(Arr(Values(Log(ops, model))))
  {
    LogIsSound(ops, model);
    FileIsLog(ops, model);
    HistoryParses(Log(ops, model));
  }

  /** A prompt is escaped before it is logged, so it is always sound; ASCII prompts come back unchanged. */
  lemma PromptIsSound(prompt: seq<Byte>, signedChar: bool, user: string, gemini: bool)
    requires Decode(user).Some?
    ensures var m := Message(gemini, user, Quoted(Escape(prompt, signedChar)));
            && Sound(m)
            && CellValue(m) == Str(CodeUnits(prompt, signedChar))
            && (IsAscii(prompt) ==> CellValue(m) == Str(prompt))
  {
    EscapeRoundTrip(prompt, signedChar);
    DecodesToItself(prompt, signedChar);
    QuotedSerializes(Escape(prompt, signedChar));
    CellValueIs(Message(gemini, user, Quoted(Escape(prompt, signedChar))), Str(CodeUnits(prompt, signedChar)));
  }

  /* ---------- the object ---------- */

  class FileSystem {
    var files: Files

    constructor ()
      ensures files == map[]
    {
      files := map[];
    }

    /** The overload for text that is escaped already. */
    method ChatText(model: string, user: string, cell: string) returns (content: string)
      modifies this
      ensures files == Apply(old(files), Op.Chat(model, user, Quoted(cell)))
      ensures content == Content(files, model)
    {
      content := AppendAndReadBack(model, user, "\"" + cell + "\"");
    }

    /** The overload for a JSON value, given as its dump. */
    method ChatJson(model: string, user: string, dump: string) returns (content: string)
      modifies this
      ensures files == Apply(old(files), Op.Chat(model, user, dump))
      ensures content == Content(files, model)
    {
      content := AppendAndReadBack(model, user, dump);
    }

    method RefreshHistory(model: string)
      modifies this
      ensures files == Apply(old(files), Op.Refresh(model))
      ensures files == old(files)[model + "_chat_history.txt" := ""]
      ensures Content(files, model) == ""
    {
      files := files[model + "_chat_history.txt" := ""];
    }

    method AppendAndReadBack(model: string, user: string, serializedCell: string) returns (content: string)
      modifies this
      ensures files == Apply(old(files), Op.Chat(model, user, serializedCell))
      ensures files == old(files)[model + "_chat_history.txt" := content]
      ensures var before := old(Content(files, model));
              content == before + (if before == "" then "" else ", ") + Entry(model == "gemini", user, serializedCell)
    {
      var path := model + "_chat_history.txt";
      var isEmpty := IsFileEmpty(path);
      var out := if path in files then files[path] else "";
      if !isEmpty {
        out := out + ", ";
      }
      if model == "gemini" {
        out := out + ("{ \"role\": \"" + user + "\", \"parts\": [ { \"text\": " + serializedCell + "}]}\n");
      } else {
        out := out + ("{ \"role\": \"" + user + "\", \"content\": " + serializedCell + "}\n");
      }
      files := files[path := out];
      content := ReadFileContent(path);
    }

    /** A file that cannot be opened counts as empty. */
    method IsFileEmpty(path: string) returns (empty: bool)
      ensures empty <==> path !in files || files[path] == ""
    {
      if path !in files {
        return true;
      }
      return |files[path]| == 0;
    }

    method ReadFileContent(path: string) returns (content: string)
      ensures content == if path in files then files[path] else ""
    {
      content := if path in files then files[path] else "";
    }
  }
}
