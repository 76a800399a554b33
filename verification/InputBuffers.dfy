/**
 The input stream buffer: a get area that a callback refills, one requested value and a
 line end at a time. A reader takes characters and calls underflow only on an empty area.
 */
module InputBuffers {
  /** The unread part of the get area, and how many values the callback has been asked for. */
  datatype State = State(unread: string, asked: nat)

  const INITIAL := State("", 0)

  /** Underflow: the area becomes the next value and a line end. */
  function Refill(s: State, requests: seq<string>): State
    requires s.asked < |requests|
  {
    State(requests[s.asked] + "\n", s.asked + 1)
  }

  predicate CanRead(s: State, requests: seq<string>) {
    s.unread != "" || s.asked < |requests|
  }

  /** The area from which the next character is taken. */
  function Ready(s: State, requests: seq<string>): (r: State)
    requires CanRead(s, requests)
    ensures r.unread != ""
  {
    if s.unread == "" then Refill(s, requests) else s
  }

  /** The state after `n` characters have been read, and those characters, as far as the requests reach. */
  function ReadMany(s: State, requests: seq<string>, n: nat): (string, State)
    decreases n
  {
    if n == 0 || !CanRead(s, requests) then ("", s)
    else
      var r := Ready(s, requests);
      var (text, after) := ReadMany(r.(unread := r.unread[1..]), requests, n - 1);
      ([r.unread[0]] + text, after)
  }

  /** Requested values as they appear in the stream. */
  function Lines(values: seq<string>): string {
    if values == [] then "" else values[0] + "\n" + Lines(values[1..])
  }

  lemma LinesHead(values: seq<string>, i: nat, j: nat)
    requires i < j <= |values|
    ensures Lines(values[i..j]) == values[i] + "\n" + Lines(values[i + 1..j])
  {
    assert values[i..j][1..] == values[i + 1..j];
  }

  /** What a reader has and can still get. */
  function Available(s: State, requests: seq<string>): string
    requires s.asked <= |requests|
  {
    s.unread + Lines(requests[s.asked..])
  }

  lemma ReadyConserves(s: State, requests: seq<string>)
    requires s.asked <= |requests| && CanRead(s, requests)
    ensures var r := Ready(s, requests); r.asked <= |requests| && Available(r, requests) == Available(s, requests)
  {
    if s.unread == "" {
      LinesHead(requests, s.asked, |requests|);
      assert requests[s.asked..|requests|] == requests[s.asked..];
      assert requests[s.asked + 1..|requests|] == requests[s.asked + 1..];
    }
  }

  lemma Regroup(c: char, a: string, b: string)
    ensures [c] + a + b == [c] + (a + b)
  {
  }

  /** Conservation: consumed, unread and not yet requested text are together always the same. */
  lemma {:induction false} InputConserved(s: State, requests: seq<string>, n: nat)
    requires s.asked <= |requests|
    ensures var (text, after) := ReadMany(s, requests, n);
            && after.asked <= |requests|
            && text + Available(after, requests) == Available(s, requests)
            && (n <= |Available(s, requests)| ==> |text| == n)
    decreases n
  {
    if n == 0 || !CanRead(s, requests) {
      assert "" + Available(s, requests) == Available(s, requests);
    } else {
      ReadyConserves(s, requests);
      var r := Ready(s, requests);
      var next := r.(unread := r.unread[1..]);
      InputConserved(next, requests, n - 1);
      var (text, after) := ReadMany(next, requests, n - 1);
      Regroup(r.unread[0], next.unread, Lines(requests[r.asked..]));
      assert r.unread == [r.unread[0]] + next.unread;
      Regroup(r.unread[0], text, Available(after, requests));
    }
  }

  /** A value is requested only when the text before it has been consumed. */
  lemma {:induction false} NoEarlyRequest(s: State, requests: seq<string>, n: nat)
    requires s.asked <= |requests|
    ensures var (text, after) := ReadMany(s, requests, n);
            && s.asked <= after.asked <= |requests|
            && (after.asked > s.asked ==>
                  |s.unread + Lines(requests[s.asked..after.asked - 1])| < |text|)
    decreases n
  {
    if n > 0 && CanRead(s, requests) {
      var r := Ready(s, requests);
      var next := r.(unread := r.unread[1..]);
      NoEarlyRequest(next, requests, n - 1);
      var (text, after) := ReadMany(next, requests, n - 1);
      if s.unread == "" && after.asked > r.asked {
        LinesHead(requests, s.asked, after.asked - 1);
      }
    }
  }

  /** Line by line: the text up to the first line end, and the lines behind it. */
  function SplitLines(t: string): seq<string>
    decreases |t|
  {
    if t == "" then []
    else
      var n := LineLength(t);
      [t[..n]] + (if n < |t| then SplitLines(t[n + 1..]) else [])
  }

  function LineLength(t: string): (n: nat)
    ensures n <= |t|
  {
    if t == "" || t[0] == '\n' then 0 else 1 + LineLength(t[1..])
  }

  predicate IsLine(v: string) {
    '\n' !in v
  }

  lemma {:induction false} LineLengthOf(v: string, rest: string)
    requires IsLine(v)
    ensures LineLength(v + "\n" + rest) == |v|
    decreases |v|
  {
    var t := v + "\n" + rest;
    if v != "" {
      assert t[0] == v[0] && v[0] in v;
      assert t[1..] == v[1..] + "\n" + rest;
      LineLengthOf(v[1..], rest);
    }
  }

  lemma {:induction false} SplitOfLines(values: seq<string>)
    requires forall v :: v in values ==> IsLine(v)
    ensures SplitLines(Lines(values)) == values
    decreases |values|
  {
    if values != [] {
      var t := Lines(values);
      LineLengthOf(values[0], Lines(values[1..]));
      assert t[..|values[0]|] == values[0] && t[|values[0]| + 1..] == Lines(values[1..]);
      SplitOfLines(values[1..]);
    }
  }

  /** Reading everything line by line returns exactly the requested values, if none holds a line end. */
  lemma LinesAreRequests(requests: seq<string>)
    requires forall v :: v in requests ==> IsLine(v)
    ensures var (text, after) := ReadMany(INITIAL, requests, |Lines(requests)|);
            SplitLines(text) == requests && after == State("", |requests|)
  {
    var all := Lines(requests);
    assert requests[0..] == requests;
    assert Available(INITIAL, requests) == all;
    InputConserved(INITIAL, requests, |all|);
    var (text, after) := ReadMany(INITIAL, requests, |all|);
    assert text + Available(after, requests) == all;
    assert Available(after, requests) == "";
    assert text == all;
    assert Lines(requests[after.asked..]) == "";
    assert requests[after.asked..] == [];
    SplitOfLines(requests);
  }

  /** The buffer object: the value and the position of the get area in it. */
  class InputBuffer {
    const requests: seq<string>
    var asked: nat
    var value: string
    var gptr: nat

    constructor (requests: seq<string>)
      ensures Valid() && this.requests == requests && Abstract() == INITIAL
    {
      this.requests := requests;
      value, gptr, asked := "", 0, 0;
    }

    ghost predicate Valid()
      reads this
    {
      gptr <= |value|
    }

    ghost function Abstract(): State
      reads this
      requires Valid()
    {
      State(value[gptr..], asked)
    }

    method Underflow() returns (c: char)
      requires Valid() && Abstract().unread == "" && asked < |requests|
      modifies this
      ensures Valid() && Abstract() == Refill(old(Abstract()), requests)
      ensures value == requests[old(asked)] + "\n" && gptr == 0 && asked == old(asked) + 1 && c == value[0]
    {
      value := requests[asked];
      asked := asked + 1;
      value := value + "\n";
      gptr := 0;
      c := value[gptr];
    }
  }
}
