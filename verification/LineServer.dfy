/** The server's read loop: bounded reads from a byte stream, one answer a line. */
module LineServer {
  import opened Json
  import opened Options
  import opened Rpc

  newtype byte = x: int | 0 <= x < 256

  const LF: byte := 10
  const CR: byte := 13

  // ---- the stream ----

  predicate NoLF(s: seq<byte>, k: nat)
    requires k <= |s|
  {
    forall i :: 0 <= i < k ==> s[i] != LF
  }

  /** Index of the first newline, or the length if there is none. */
  function FirstLF(s: seq<byte>): (k: nat)
    ensures k <= |s| && (k < |s| ==> s[k] == LF) && NoLF(s, k)
  {
    if s == [] || s[0] == LF then 0 else FirstLF(s[1..]) + 1
  }

  /** The bytes of the first line, its newline included. */
  function LineEnd(s: seq<byte>): nat
    ensures LineEnd(s) <= |s| && (s != [] ==> LineEnd(s) > 0)
  {
    if FirstLF(s) < |s| then FirstLF(s) + 1 else |s|
  }

  /** How many bytes a read of at most `n` bytes takes: it stops after a newline. */
  function Reach(s: seq<byte>, n: nat): nat
    ensures Reach(s, n) <= |s|
  {
    if FirstLF(s) < |s| && FirstLF(s) < n then FirstLF(s) + 1
    else if n < |s| then n else |s|
  }

  class Stream {
    var rest: seq<byte>

    constructor (input: seq<byte>)
      ensures rest == input
    {
      rest := input;
    }

    method ReadLine(n: nat) returns (chunk: seq<byte>)
      modifies this
      ensures chunk == old(rest)[..Reach(old(rest), n)] && rest == old(rest)[Reach(old(rest), n)..]
    {
      var k := Reach(rest, n);
      chunk, rest := rest[..k], rest[k..];
    }
  }

  // ---- the reference: the whole input split at newlines ----

  datatype Line = Line(content: seq<byte>, ended: bool)

  function FirstLine(s: seq<byte>): Line {
    Line(s[..FirstLF(s)], FirstLF(s) < |s|)
  }

  function Lines(s: seq<byte>): seq<Line>
    decreases |s|
  {
    if s == [] then [] else [FirstLine(s)] + Lines(s[LineEnd(s)..])
  }

  function Text(l: Line): seq<byte> {
    l.content + if l.ended then [LF] else []
  }

  function Joined(ls: seq<Line>): seq<byte> {
    if ls == [] then [] else Text(ls[0]) + Joined(ls[1..])
  }

  /** No line holds a newline, and only the last may lack one, if it holds anything at all. */
  predicate WellSplit(ls: seq<Line>) {
    && (forall i :: 0 <= i < |ls| ==> NoLF(ls[i].content, |ls[i].content|))
    && (forall i :: 0 <= i < |ls| ==> ls[i].ended || (i == |ls| - 1 && ls[i].content != []))
  }

  lemma FirstLFAt(s: seq<byte>, k: nat)
    requires k <= |s| && NoLF(s, k) && (k < |s| ==> s[k] == LF)
    ensures FirstLF(s) == k
  {
    hide FirstLF;
  }

  lemma CutFirstLine(s: seq<byte>)
    requires s != []
    ensures NoLF(FirstLine(s).content, |FirstLine(s).content|)
    ensures s == Text(FirstLine(s)) + s[LineEnd(s)..]
    ensures !FirstLine(s).ended ==> FirstLine(s).content == s && s[LineEnd(s)..] == []
  {
    hide FirstLF;
  }

  /** Joining the lines gives the input back, and each is a single line. */
  lemma {:induction false} LinesRejoin(s: seq<byte>)
    ensures WellSplit(Lines(s)) && Joined(Lines(s)) == s
    decreases |s|
  {
    hide FirstLF, FirstLine, LineEnd, NoLF;
    if s != [] {
      CutFirstLine(s);
      LinesRejoin(s[LineEnd(s)..]);
      assert Lines(s)[1..] == Lines(s[LineEnd(s)..]);
      assert Lines([]) == [];
    }
  }

  lemma FirstOfJoined(l: Line, rest: seq<byte>)
    requires NoLF(l.content, |l.content|) && (l.ended || (l.content != [] && rest == []))
    ensures var s := Text(l) + rest; s != [] && FirstLine(s) == l && s[LineEnd(s)..] == rest
  {
    hide FirstLF;
    var s := Text(l) + rest;
    FirstLFAt(s, |l.content|);
    assert s[..|l.content|] == l.content;
  }

  /** The split is the only one: cutting a rejoined list of lines gives the list back. */
  lemma {:induction false} LinesOfJoined(ls: seq<Line>)
    requires WellSplit(ls)
    ensures Lines(Joined(ls)) == ls
    decreases |ls|
  {
    hide FirstLF, FirstLine, LineEnd, NoLF, Text;
    if ls != [] {
      LinesOfJoined(ls[1..]);
      FirstOfJoined(ls[0], Joined(ls[1..]));
    }
  }

  /** A newline is a clean cut, whatever came before it. */
  lemma {:induction false} LinesAfterNewline(a: seq<byte>, b: seq<byte>)
    ensures Lines(a + [LF] + b) == Lines(a + [LF]) + Lines(b)
    decreases |a|
  {
    hide FirstLF, FirstLine, LineEnd, NoLF, Text;
    var s, t, l := a + [LF] + b, a + [LF], Line(a[..FirstLF(a)], true);
    var rest := if FirstLF(a) < |a| then a[FirstLF(a) + 1..] + [LF] else [];
    CutBefore(a);
    assert s == Text(l) + (rest + b);
    FirstOfJoined(l, rest);
    FirstOfJoined(l, rest + b);
    if FirstLF(a) < |a| {
      LinesAfterNewline(a[FirstLF(a) + 1..], b);
    } else {
      assert [] + b == b;
      assert Lines([]) == [];
    }
  }

  lemma CutBefore(a: seq<byte>)
    ensures var l, k := Line(a[..FirstLF(a)], true), FirstLF(a);
      && NoLF(l.content, |l.content|)
      && a + [LF] == Text(l) + (if k < |a| then a[k + 1..] + [LF] else [])
  {
    hide FirstLF;
  }

  // ---- answering one line ----

  function StripEnd(s: seq<byte>): seq<byte> {
    if s != [] && (s[|s| - 1] == CR || s[|s| - 1] == LF) then StripEnd(s[..|s| - 1]) else s
  }

  predicate IsBlank(s: seq<byte>) {
    forall b <- s :: b == 32 || 9 <= b <= 13
  }

  /** Decoding as UTF-8 and parsing as JSON, `None` where either fails. */
  type Decoder = seq<byte> -> Option<Json>

  /** What the server makes of the bytes of a message. */
  function Parsed(decode: Decoder, raw: seq<byte>): Option<Json> {
    if decode(raw).Some? && Fits(decode(raw).value) then decode(raw) else None
  }

  const TOO_LARGE := Failed(Null, INVALID_REQUEST, MessageTooLarge)

  function Handled(limit: nat, decode: Decoder, s: State, raw: seq<byte>): (State, seq<Reply>) {
    if |raw| > limit then (s, [TOO_LARGE]) else HandleMessage(s, Parsed(decode, raw))
  }

  /** Too long for the reads to see its end: an ended line may exceed the limit by the one byte that a
      trailing carriage return takes, a final line without newline may not. */
  predicate Oversize(limit: nat, l: Line) {
    |l.content| > if l.ended then limit + 1 else limit
  }

  function Respond(limit: nat, decode: Decoder, s: State, l: Line): (State, seq<Reply>) {
    if Oversize(limit, l) then (s, [TOO_LARGE])
    else if IsBlank(StripEnd(l.content)) then (s, [])
    else Handled(limit, decode, s, StripEnd(l.content))
  }

  /** The reference: each line of the input answered once, in order. */
  function RespondAll(limit: nat, decode: Decoder, s: State, ls: seq<Line>): (State, seq<Reply>)
    decreases |ls|
  {
    if ls == [] then (s, [])
    else
      var (t, r) := Respond(limit, decode, s, ls[0]);
      var (u, q) := RespondAll(limit, decode, t, ls[1..]);
      (u, r + q)
  }

  // ---- the loop ----

  lemma StripKeepsContent(s: seq<byte>)
    ensures StripEnd(s + [LF]) == StripEnd(s)
  {
    assert (s + [LF])[..|s|] == s;
  }

  class McpServer {
    const limit: nat
    const decode: Decoder
    var state: State
    var output: seq<Reply>

    constructor (limit: nat, decode: Decoder)
      ensures state == START && output == [] && this.limit == limit && this.decode == decode
    {
      this.limit, this.decode := limit, decode;
      state, output := START, [];
    }

    method HandleLine(raw: seq<byte>)
      modifies this
      ensures state == Handled(limit, decode, old(state), raw).0
      ensures output == old(output) + Handled(limit, decode, old(state), raw).1
    {
      if |raw| > limit {
        output := output + [TOO_LARGE];
        return;
      }
      var msg := decode(raw);
      if msg.Some? {
        var budget := new Budget();
        var ok := Measure(msg.value, 0, budget);
        if !ok {
          msg := None;
        }
      }
      var (next, replies) := HandleMessage(state, msg);
      state, output := next, output + replies;
    }

    /** Reads the rest of an oversize line and forgets it. */
    method Discard(stream: Stream)
      modifies stream
      ensures stream.rest == old(stream.rest)[LineEnd(old(stream.rest))..]
    {
      while true
        invariant |stream.rest| <= |old(stream.rest)|
        invariant stream.rest[LineEnd(stream.rest)..] == old(stream.rest)[LineEnd(old(stream.rest))..]
        decreases |stream.rest|
      {
        ghost var before := stream.rest;
        var rest := stream.ReadLine(limit + 2);
        if rest == [] || rest[|rest| - 1] == LF {
          ChunkEndsLine(before, limit + 2);
          return;
        }
        ChunkInsideLine(before, limit + 2);
      }
    }

    /** The read loop answers exactly as the reference does. */
    method Serve(stream: Stream)
      modifies this, stream
      ensures state == RespondAll(limit, decode, old(state), Lines(old(stream.rest))).0
      ensures output == old(output) + RespondAll(limit, decode, old(state), Lines(old(stream.rest))).1
      ensures stream.rest == []
    {
      hide Lines, RespondAll, Reach, LineEnd, FirstLine, FirstLF, Handled, StripEnd, IsBlank, Oversize;
      ghost var goal := RespondAll(limit, decode, state, Lines(stream.rest));
      while true
        invariant RespondAll(limit, decode, state, Lines(stream.rest)).0 == goal.0
        invariant output + RespondAll(limit, decode, state, Lines(stream.rest)).1 == old(output) + goal.1
        decreases |stream.rest|
      {
        ghost var s, before := state, stream.rest;
        var line := stream.ReadLine(limit + 2);
        if line == [] {
          assert |line| == 0;
          NothingLeft(limit, decode, state, before);
          break;
        }
        if |line| > limit && line[|line| - 1] != LF {
          ReadTooMuch(limit, before);
          Discard(stream);
          output := output + [TOO_LARGE];
        } else {
          ReadWholeLine(limit, before);
          line := StripEnd(line);
          if !IsBlank(line) {
            HandleLine(line);
          }
        }
        RespondStep(limit, decode, s, before);
      }
    }
  }

  lemma RespondStep(limit: nat, decode: Decoder, s: State, input: seq<byte>)
    requires input != []
    ensures var (t, r) := Respond(limit, decode, s, FirstLine(input));
      var rest := RespondAll(limit, decode, t, Lines(input[LineEnd(input)..]));
      RespondAll(limit, decode, s, Lines(input)) == (rest.0, r + rest.1)
  {
    hide Respond, FirstLine, LineEnd;
    assert Lines(input)[1..] == Lines(input[LineEnd(input)..]);
  }

  /** A read that takes all there is, or ends in a newline, has reached the end of the line. */
  lemma ChunkEndsLine(s: seq<byte>, n: nat)
    requires n > 0
    requires Reach(s, n) < n || s[Reach(s, n) - 1] == LF
    ensures Reach(s, n) == LineEnd(s)
  {
    hide FirstLF;
  }

  /** A read that does not end in a newline leaves the end of the line where it was. */
  lemma ChunkInsideLine(s: seq<byte>, n: nat)
    requires n > 0 && s != [] && s[Reach(s, n) - 1] != LF
    ensures 0 < Reach(s, n) <= FirstLF(s)
    ensures var rest := s[Reach(s, n)..]; rest[LineEnd(rest)..] == s[LineEnd(s)..]
  {
    hide FirstLF;
    var k, f := Reach(s, n), FirstLF(s);
    FirstLFAt(s[k..], f - k);
  }

  lemma ReadTooMuch(limit: nat, s: seq<byte>)
    requires var line := s[..Reach(s, limit + 2)]; |line| > limit && line[|line| - 1] != LF
    ensures var rest := s[Reach(s, limit + 2)..]; rest[LineEnd(rest)..] == s[LineEnd(s)..]
    ensures Oversize(limit, FirstLine(s))
  {
    hide FirstLF;
    ChunkInsideLine(s, limit + 2);
  }

  lemma ReadWholeLine(limit: nat, s: seq<byte>)
    requires var line := s[..Reach(s, limit + 2)]; line != [] && (|line| <= limit || line[|line| - 1] == LF)
    ensures s[Reach(s, limit + 2)..] == s[LineEnd(s)..]
    ensures StripEnd(s[..Reach(s, limit + 2)]) == StripEnd(FirstLine(s).content)
    ensures !Oversize(limit, FirstLine(s))
  {
    hide FirstLF, StripEnd;
    ChunkEndsLine(s, limit + 2);
    CutFirstLine(s);
    StripKeepsContent(FirstLine(s).content);
  }

  lemma NothingLeft(limit: nat, decode: Decoder, s: State, input: seq<byte>)
    requires Reach(input, limit + 2) == 0
    ensures input == [] && RespondAll(limit, decode, s, Lines(input)) == (s, [])
  {
  }

  // ---- what follows for whole inputs ----

  /** Answers to a first part of the lines, then to the rest from the state reached. */
  lemma {:induction false} RespondInParts(limit: nat, decode: Decoder, s: State, a: seq<Line>, b: seq<Line>)
    ensures var (t, r) := RespondAll(limit, decode, s, a);
      var (u, q) := RespondAll(limit, decode, t, b);
      RespondAll(limit, decode, s, a + b) == (u, r + q)
    decreases |a|
  {
    hide Respond;
    if a == [] {
      assert a + b == b;
      assert [] + RespondAll(limit, decode, s, b).1 == RespondAll(limit, decode, s, b).1;
    } else {
      var (t, r) := Respond(limit, decode, s, a[0]);
      RespondInParts(limit, decode, t, a[1..], b);
      assert (a + b)[1..] == a[1..] + b;
      var (u, q) := RespondAll(limit, decode, t, a[1..]);
      assert r + (q + RespondAll(limit, decode, u, b).1) == r + q + RespondAll(limit, decode, u, b).1;
    }
  }

  /** Whatever bytes came before, an oversize line costs one error reply and nothing else: what follows
      its newline is answered as though the line had never been sent. */
  lemma OversizeLineIsForgotten(limit: nat, decode: Decoder, s: State, a: seq<byte>, big: seq<byte>, b: seq<byte>)
    requires NoLF(big, |big|) && |big| > limit + 1
    ensures var (t, r) := RespondAll(limit, decode, s, Lines(a + [LF]));
      var (u, q) := RespondAll(limit, decode, t, Lines(b));
      RespondAll(limit, decode, s, Lines(a + [LF] + (big + [LF] + b))) == (u, r + [TOO_LARGE] + q)
  {
    hide Lines, FirstLine, LineEnd, Joined;
    var l := Line(big, true);
    LinesAfterNewline(a, big + [LF] + b);
    LinesAfterNewline(big, b);
    OneLine(big);
    RespondInParts(limit, decode, s, Lines(a + [LF]), [l] + Lines(b));
    var t := RespondAll(limit, decode, s, Lines(a + [LF])).0;
    assert ([l] + Lines(b))[1..] == Lines(b);
    var r, q := RespondAll(limit, decode, s, Lines(a + [LF])).1, RespondAll(limit, decode, t, Lines(b)).1;
    assert RespondAll(limit, decode, t, [l] + Lines(b)).1 == [TOO_LARGE] + q;
    assert r + ([TOO_LARGE] + q) == r + [TOO_LARGE] + q;
  }

  lemma OneLine(c: seq<byte>)
    requires NoLF(c, |c|)
    ensures Lines(c + [LF]) == [Line(c, true)]
  {
    hide FirstLF;
    FirstOfJoined(Line(c, true), []);
    assert c + [LF] + [] == c + [LF];
  }

  /** The messages the server takes from the lines: the ones neither oversize nor blank. */
  function Messages(limit: nat, decode: Decoder, ls: seq<Line>): seq<Option<Json>> {
    if ls == [] then []
    else
      var rest, raw := Messages(limit, decode, ls[1..]), StripEnd(ls[0].content);
      if Oversize(limit, ls[0]) || IsBlank(raw) || |raw| > limit then rest
      else [Parsed(decode, raw)] + rest
  }

  lemma {:induction false} AfterFirst(s: State, m: Option<Json>, ms: seq<Option<Json>>)
    ensures After(s, [m] + ms) == After(HandleMessage(s, m).0, ms)
  {
    hide HandleMessage;
    var all := [m] + ms;
    if ms == [] {
      assert all[..0] == [];
    } else {
      AfterFirst(s, m, ms[..|ms| - 1]);
      assert all[..|all| - 1] == [m] + ms[..|ms| - 1];
    }
  }

  /** A byte stream drives the server through the states of a conversation of its messages, so what
      holds over every conversation holds over every byte stream. */
  lemma {:induction false} StreamIsAConversation(limit: nat, decode: Decoder, s: State, ls: seq<Line>)
    ensures RespondAll(limit, decode, s, ls).0 == After(s, Messages(limit, decode, ls))
    decreases |ls|
  {
    hide HandleMessage, Parsed, Oversize, IsBlank, StripEnd;
    if ls != [] {
      var raw := StripEnd(ls[0].content);
      StreamIsAConversation(limit, decode, Respond(limit, decode, s, ls[0]).0, ls[1..]);
      if !(Oversize(limit, ls[0]) || IsBlank(raw) || |raw| > limit) {
        AfterFirst(s, Parsed(decode, raw), Messages(limit, decode, ls[1..]));
      }
    }
  }

  /** Every reply other than the size complaint answers one of the messages, in the state reached there. */
  lemma {:induction false} ReplyAnswersAMessage(limit: nat, decode: Decoder, s: State, ls: seq<Line>, r: Reply)
    returns (k: nat)
    requires r in RespondAll(limit, decode, s, ls).1 && r != TOO_LARGE
    ensures var ms := Messages(limit, decode, ls);
      k < |ms| && r in HandleMessage(After(s, ms[..k]), ms[k]).1
    decreases |ls|
  {
    hide HandleMessage, Parsed, Oversize, IsBlank, StripEnd;
    var raw, ms := StripEnd(ls[0].content), Messages(limit, decode, ls);
    if Oversize(limit, ls[0]) || IsBlank(raw) || |raw| > limit {
      k := ReplyAnswersAMessage(limit, decode, s, ls[1..], r);
    } else if r in Respond(limit, decode, s, ls[0]).1 {
      k := 0;
      assert ms[..0] == [];
    } else {
      var rest := Messages(limit, decode, ls[1..]);
      k := ReplyAnswersAMessage(limit, decode, Respond(limit, decode, s, ls[0]).0, ls[1..], r);
      AfterFirst(s, ms[0], rest[..k]);
      assert ms[..k + 1] == [ms[0]] + rest[..k];
      k := k + 1;
    }
  }

  /** Whatever bytes arrive, a tool is listed or called only after an accepted `initialize` and then the
      initialized notification were among the messages. */
  lemma ToolsOnlyAfterHandshakeOnTheWire(limit: nat, decode: Decoder, input: seq<byte>, r: Reply) returns (i: int, j: int)
    requires r in RespondAll(limit, decode, START, Lines(input)).1 && IsToolReply(r)
    ensures var ms := Messages(limit, decode, Lines(input));
      0 <= i < j < |ms| && ms[i].Some? && IsInitialize(ms[i].value) && ms[j].Some? && IsInitializedNotice(ms[j].value)
  {
    hide IsInitialize, IsInitializedNotice, RespondAll, Lines, Messages, HandleMessage;
    var k := ReplyAnswersAMessage(limit, decode, START, Lines(input), r);
    i, j := ToolsOnlyAfterHandshake(Messages(limit, decode, Lines(input)), k, r);
  }

  // ---- which reply on the wire ----

  predicate EndByte(b: byte) {
    b == 10 || b == 13
  }

  /** What a line says once the newline and carriage returns at its end are off. */
  lemma {:induction false} StrippedIs(s: seq<byte>, k: nat)
    requires k <= |s| && (forall i :: k <= i < |s| ==> EndByte(s[i])) && (k == 0 || !EndByte(s[k - 1]))
    ensures StripEnd(s) == s[..k]
  {
    if k < |s| {
      StrippedIs(s[..|s| - 1], k);
      assert s[..|s| - 1][..k] == s[..k];
    }
  }

  /** The answer to one line: the size complaint, silence for a line of white space, the complaint of the parser, or the
      answer to its message. */
  lemma LineAnswered(limit: nat, decode: Decoder, s: State, l: Line)
    ensures var text := StripEnd(l.content);
      Respond(limit, decode, s, l) ==
        if |l.content| > limit + 1 || (!l.ended && |l.content| > limit) then (s, [Failed(Null, -32600, MessageTooLarge)])
        else if forall b <- text :: b in {9, 10, 11, 12, 13, 32} then (s, [])
        else if |text| > limit then (s, [Failed(Null, -32600, MessageTooLarge)])
        else match decode(text)
             case None => (s, [Failed(Null, -32700, ParseError)])
             case Some(j) => if Nodes(j) > 2000 || Depth(j) > 24 then (s, [Failed(Null, -32700, ParseError)]) else HandleMessage(s, Some(j))
  {
    hide StripEnd, Nodes, Depth;
    var text := StripEnd(l.content);
    assert IsBlank(text) <==> forall b <- text :: b in {9, 10, 11, 12, 13, 32};
  }

  /** Every message is answered, in the state reached before it. */
  lemma {:induction false} EveryMessageIsAnswered(limit: nat, decode: Decoder, s: State, ls: seq<Line>, k: nat, r: Reply)
    requires k < |Messages(limit, decode, ls)|
    requires r in HandleMessage(After(s, Messages(limit, decode, ls)[..k]), Messages(limit, decode, ls)[k]).1
    ensures r in RespondAll(limit, decode, s, ls).1
    decreases |ls|
  {
    hide HandleMessage, Parsed, Oversize, IsBlank, StripEnd;
    var raw, ms := StripEnd(ls[0].content), Messages(limit, decode, ls);
    if Oversize(limit, ls[0]) || IsBlank(raw) || |raw| > limit {
      EveryMessageIsAnswered(limit, decode, s, ls[1..], k, r);
    } else if k == 0 {
      assert ms[..0] == [];
    } else {
      var rest := Messages(limit, decode, ls[1..]);
      assert ms[..k] == [ms[0]] + rest[..k - 1];
      AfterFirst(s, ms[0], rest[..k - 1]);
      EveryMessageIsAnswered(limit, decode, Respond(limit, decode, s, ls[0]).0, ls[1..], k - 1, r);
    }
  }

  /** Message `k` arrives in Ready and asks for the tool list under this id. */
  ghost predicate ListsTools(ms: seq<Option<Json>>, k: nat, id: Json) {
    k < |ms| && After(START, ms[..k]).phase == Ready && exists p :: Requests(ms[k], id, "tools/list", p)
  }

  /** Message `k` arrives in Ready and calls the tool under this id. */
  ghost predicate CallsTool(ms: seq<Option<Json>>, k: nat, id: Json, tool: string) {
    k < |ms| && After(START, ms[..k]).phase == Ready && exists p :: Requests(ms[k], id, "tools/call", p) && Names(p, tool)
  }

  /** Whatever bytes arrive: the tool list goes out under an id exactly when some message asks for it under that id in
      Ready, and a tool's result exactly when some message calls that tool under that id in Ready. */
  lemma ToolRepliesOnTheWire(limit: nat, decode: Decoder, input: seq<byte>, id: Json, tool: string)
    ensures var ms, out := Messages(limit, decode, Lines(input)), RespondAll(limit, decode, START, Lines(input)).1;
      && (Tools(id) in out <==> exists k: nat :: ListsTools(ms, k, id))
      && (ToolResult(id, tool) in out <==> exists k: nat :: CallsTool(ms, k, id, tool))
  {
    hide RespondAll, Lines, Messages, HandleMessage, Requests, Names;
    var ls := Lines(input);
    var ms := Messages(limit, decode, ls);
    if Tools(id) in RespondAll(limit, decode, START, ls).1 {
      var k := ReplyAnswersAMessage(limit, decode, START, ls, Tools(id));
      ToolsExactly(After(START, ms[..k]), ms[k], id);
      assert ListsTools(ms, k, id);
    }
    if k: nat :| ListsTools(ms, k, id) {
      ToolsExactly(After(START, ms[..k]), ms[k], id);
      EveryMessageIsAnswered(limit, decode, START, ls, k, Tools(id));
    }
    if ToolResult(id, tool) in RespondAll(limit, decode, START, ls).1 {
      var k := ReplyAnswersAMessage(limit, decode, START, ls, ToolResult(id, tool));
      ToolResultExactly(After(START, ms[..k]), ms[k], id, tool);
      assert CallsTool(ms, k, id, tool);
    }
    if k: nat :| CallsTool(ms, k, id, tool) {
      ToolResultExactly(After(START, ms[..k]), ms[k], id, tool);
      EveryMessageIsAnswered(limit, decode, START, ls, k, ToolResult(id, tool));
    }
  }
}
