/** The JSON-RPC lifecycle of the server, one line at a time. */
module Rpc {
  import opened Json
  import opened Options

  datatype Phase = New | Initializing | Ready

  /** The server's state. The session exists from the answer to `initialize` on. */
  datatype State = State(phase: Phase, protocol: Option<string>, session: bool)

  const START := State(New, None, false)

  datatype ErrorKey =
    | MessageTooLarge | ParseError | InvalidRequest | InvalidParams | NotInitialized | MethodNotFound

  datatype Reply =
    | Initialized(id: Json, protocol: string)
    | Pong(id: Json)
    | Tools(id: Json)
    | ToolResult(id: Json, tool: string)
    | Failed(id: Json, code: int, key: ErrorKey)

  const PARSE_ERROR := -32700
  const INVALID_REQUEST := -32600
  const METHOD_NOT_FOUND := -32601
  const INVALID_PARAMS := -32602

  const SUPPORTED: seq<string> := ["2025-06-18", "2025-03-26", "2024-11-05"]

  predicate IsToolReply(r: Reply) {
    r.Tools? || r.ToolResult?
  }

  // ---- the shape of a message ----

  predicate OnlyKeys(members: seq<Member>, allowed: set<string>) {
    forall m <- members :: m.key in allowed
  }

  predicate Envelope(m: seq<Member>) {
    && Lookup(m, "jsonrpc") == Some(Str("2.0"))
    && Lookup(m, "method").Some? && Lookup(m, "method").value.Str?
    && OnlyKeys(m, {"jsonrpc", "id", "method", "params"})
  }

  predicate IdOk(id: Json) {
    id.Int? || (id.Str? && |id.s| <= 64)
  }

  /** Parameters may be absent, null or an object. */
  predicate ParamsOk(p: Option<Json>) {
    p.None? || p.value.Null? || p.value.Obj?
  }

  function ParamsOf(p: Option<Json>): seq<Member> {
    if p.Some? && p.value.Obj? then p.value.members else []
  }

  predicate IsRequest(j: Json) {
    && j.Obj? && Envelope(j.members)
    && Lookup(j.members, "id").Some? && IdOk(Lookup(j.members, "id").value)
    && ParamsOk(Lookup(j.members, "params"))
  }

  predicate IsNotification(j: Json) {
    && j.Obj? && Envelope(j.members)
    && Lookup(j.members, "id").None?
    && ParamsOk(Lookup(j.members, "params"))
  }

  // ---- requests ----

  predicate ObjectOr(p: Option<Json>, absent: bool) {
    if p.None? then absent else p.value.Obj?
  }

  predicate InitializeParamsOk(p: seq<Member>) {
    && Lookup(p, "protocolVersion").Some? && Lookup(p, "protocolVersion").value.Str?
    && ObjectOr(Lookup(p, "capabilities"), true)
    && ObjectOr(Lookup(p, "clientInfo"), true)
  }

  function Negotiate(version: string): string {
    if version in SUPPORTED then version else SUPPORTED[0]
  }

  predicate CallParamsOk(p: seq<Member>) {
    && OnlyKeys(p, {"name", "arguments", "_meta"})
    && Lookup(p, "name").Some? && Lookup(p, "name").value.Str?
    && (Lookup(p, "arguments").None? || Lookup(p, "arguments").value.Null? || Lookup(p, "arguments").value.Obj?)
    && ObjectOr(Lookup(p, "_meta"), true)
  }

  /** The answer to a request, and the state after it. */
  function Answer(s: State, id: Json, method_: string, p: seq<Member>): (State, Reply) {
    if method_ == "initialize" then
      if s.phase != New then (s, Failed(id, INVALID_REQUEST, InvalidRequest))
      else if !InitializeParamsOk(p) then (s, Failed(id, INVALID_PARAMS, InvalidParams))
      else
        var version := Negotiate(Lookup(p, "protocolVersion").value.s);
        (State(Initializing, Some(version), true), Initialized(id, version))
    else if method_ == "ping" then (s, Pong(id))
    else if s.phase != Ready then (s, Failed(id, INVALID_REQUEST, NotInitialized))
    else if method_ == "tools/list" then (s, Tools(id))
    else if method_ == "tools/call" then
      if !CallParamsOk(p) then (s, Failed(id, INVALID_PARAMS, InvalidParams))
      else (s, ToolResult(id, Lookup(p, "name").value.s))
    else (s, Failed(id, METHOD_NOT_FOUND, MethodNotFound))
  }

  function Notified(s: State, method_: string): State {
    if method_ == "notifications/initialized" && s.phase == Initializing then s.(phase := Ready) else s
  }

  /** The id an envelope error may echo. */
  function EchoId(m: seq<Member>): Json {
    var id := Lookup(m, "id");
    if id.Some? && (id.value.Int? || id.value.Str?) then id.value else Null
  }

  /** One parsed message; `None` stands for a line that is not acceptable JSON. */
  function HandleMessage(s: State, msg: Option<Json>): (State, seq<Reply>) {
    if msg.None? then (s, [Failed(Null, PARSE_ERROR, ParseError)])
    else if !msg.value.Obj? then (s, [Failed(Null, INVALID_REQUEST, InvalidRequest)])
    else
      var m := msg.value.members;
      var id := Lookup(m, "id");
      if !Envelope(m) then (s, [Failed(EchoId(m), INVALID_REQUEST, InvalidRequest)])
      else if id.Some? && !IdOk(id.value) then (s, [Failed(Null, INVALID_REQUEST, InvalidRequest)])
      else if !ParamsOk(Lookup(m, "params")) then
        (s, [Failed(if id.Some? then id.value else Null, INVALID_PARAMS, InvalidParams)])
      else
        var method_, p := Lookup(m, "method").value.s, ParamsOf(Lookup(m, "params"));
        if id.None? then (Notified(s, method_), [])
        else
          var (t, r) := Answer(s, id.value, method_, p);
          (t, [r])
  }

  // ---- one message ----

  /** A line gets no reply exactly when it is a well-formed notification, and one reply otherwise; a
      well-formed request gets its own id back. */
  lemma OneReplyEach(s: State, msg: Option<Json>)
    ensures |HandleMessage(s, msg).1| == if msg.Some? && IsNotification(msg.value) then 0 else 1
    ensures msg.Some? && IsRequest(msg.value) ==>
      HandleMessage(s, msg).1[0].id == Lookup(msg.value.members, "id").value
  {
  }

  /** Array parameters are refused even on a notification, which then does get a reply. */
  lemma ArrayParamsRefused(s: State, m: seq<Member>)
    requires Envelope(m) && Lookup(m, "id").None?
    requires Lookup(m, "params").Some? && Lookup(m, "params").value.Arr?
    ensures HandleMessage(s, Some(Obj(m))) == (s, [Failed(Null, INVALID_PARAMS, InvalidParams)])
  {
  }

  function Rank(p: Phase): nat {
    match p
    case New => 0
    case Initializing => 1
    case Ready => 2
  }

  /** A reachable state: the session and a supported version exist exactly after initialization. */
  predicate Coherent(s: State) {
    && (s.session <==> s.phase != New)
    && (s.protocol.Some? <==> s.phase != New)
    && (s.protocol.Some? ==> s.protocol.value in SUPPORTED)
  }

  predicate IsInitialize(j: Json) {
    IsRequest(j) && Lookup(j.members, "method").value.s == "initialize"
  }

  predicate IsInitializedNotice(j: Json) {
    IsNotification(j) && Lookup(j.members, "method").value.s == "notifications/initialized"
  }

  /** A message moves the phase by one step at most, forward, and only the two handshake messages do. */
  lemma PhaseStep(s: State, msg: Option<Json>)
    requires Coherent(s)
    ensures var t := HandleMessage(s, msg).0;
      && Coherent(t) && Rank(s.phase) <= Rank(t.phase) <= Rank(s.phase) + 1
      && (s.phase == New && t.phase == Initializing <==>
            s.phase == New && msg.Some? && IsInitialize(msg.value) && InitializeParamsOk(ParamsOf(Lookup(msg.value.members, "params"))))
      && (s.phase == Initializing && t.phase == Ready <==>
            s.phase == Initializing && msg.Some? && IsInitializedNotice(msg.value))
      && (s.protocol.Some? ==> t.protocol == s.protocol)
  {
  }

  lemma ToolsNeedReady(s: State, msg: Option<Json>, r: Reply)
    requires Coherent(s) && r in HandleMessage(s, msg).1 && IsToolReply(r)
    ensures s.phase == Ready && s.session
  {
  }

  // ---- which reply ----

  /** A well-formed request with this id, method and parameters; absent or null parameters are empty. */
  predicate Requests(msg: Option<Json>, id: Json, method_: string, p: seq<Member>) {
    && msg.Some? && msg.value.Obj?
    && var m := msg.value.members;
    && (forall x <- m :: x.key in {"jsonrpc", "id", "method", "params"})
    && Lookup(m, "jsonrpc") == Some(Str("2.0")) && Lookup(m, "method") == Some(Str(method_))
    && Lookup(m, "id") == Some(id) && (id.Int? || (id.Str? && |id.s| <= 64))
    && match Lookup(m, "params")
       case None => p == []
       case Some(Null) => p == []
       case Some(Obj(members)) => p == members
       case _ => false
  }

  /** Parameters that start the handshake. */
  predicate Introduces(p: seq<Member>, version: string) {
    && Lookup(p, "protocolVersion") == Some(Str(version))
    && (Lookup(p, "capabilities") == None || Lookup(p, "capabilities").value.Obj?)
    && (Lookup(p, "clientInfo") == None || Lookup(p, "clientInfo").value.Obj?)
  }

  /** Parameters that name a tool and hold nothing but its arguments and metadata. */
  predicate Names(p: seq<Member>, tool: string) {
    && (forall x <- p :: x.key == "name" || x.key == "arguments" || x.key == "_meta")
    && Lookup(p, "name") == Some(Str(tool))
    && (Lookup(p, "arguments") == None || Lookup(p, "arguments") == Some(Null) || Lookup(p, "arguments").value.Obj?)
    && (Lookup(p, "_meta") == None || Lookup(p, "_meta").value.Obj?)
  }

  lemma RequestsMeans(msg: Option<Json>)
    ensures msg.Some? && IsRequest(msg.value) <==> exists id, method_, p :: Requests(msg, id, method_, p)
  {
    if msg.Some? && IsRequest(msg.value) {
      var m := msg.value.members;
      assert Requests(msg, Lookup(m, "id").value, Lookup(m, "method").value.s, ParamsOf(Lookup(m, "params")));
    }
  }

  /** The one answer to a well-formed request, by its method, its parameters and the phase. */
  lemma RequestAnswered(s: State, msg: Option<Json>, id: Json, method_: string, p: seq<Member>)
    requires Requests(msg, id, method_, p)
    ensures var (t, r) := HandleMessage(s, msg);
      && |r| == 1
      && (method_ == "ping" ==> r == [Pong(id)] && t == s)
      && (method_ == "initialize" && s.phase != New ==> r == [Failed(id, -32600, InvalidRequest)] && t == s)
      && (method_ == "initialize" && s.phase == New && (forall v :: !Introduces(p, v)) ==>
            r == [Failed(id, -32602, InvalidParams)] && t == s)
      && (forall v :: method_ == "initialize" && s.phase == New && Introduces(p, v) ==>
            var chosen := if v in {"2025-06-18", "2025-03-26", "2024-11-05"} then v else "2025-06-18";
            r == [Initialized(id, chosen)] && t == State(Initializing, Some(chosen), true))
      && (method_ !in {"ping", "initialize"} && s.phase != Ready ==> r == [Failed(id, -32600, NotInitialized)] && t == s)
      && (s.phase == Ready && method_ == "tools/list" ==> r == [Tools(id)] && t == s)
      && (forall n :: s.phase == Ready && method_ == "tools/call" && Names(p, n) ==> r == [ToolResult(id, n)] && t == s)
      && (s.phase == Ready && method_ == "tools/call" && (forall n :: !Names(p, n)) ==>
            r == [Failed(id, -32602, InvalidParams)] && t == s)
      && (s.phase == Ready && method_ !in {"ping", "initialize", "tools/list", "tools/call"} ==>
            r == [Failed(id, -32601, MethodNotFound)] && t == s)
  {
    var m := msg.value.members;
    assert IsRequest(msg.value) && ParamsOf(Lookup(m, "params")) == p;
    assert InitializeParamsOk(p) ==> Introduces(p, Lookup(p, "protocolVersion").value.s);
    assert CallParamsOk(p) ==> Names(p, Lookup(p, "name").value.s);
  }

  /** The fields every message needs. */
  predicate Framed(m: seq<Member>) {
    && Lookup(m, "jsonrpc") == Some(Str("2.0"))
    && Lookup(m, "method").Some? && Lookup(m, "method").value.Str?
    && forall x <- m :: x.key == "jsonrpc" || x.key == "id" || x.key == "method" || x.key == "params"
  }

  /** What any other line gets, and that it leaves the state alone unless it is the initialized notification. */
  lemma OthersAnswered(s: State, msg: Option<Json>)
    requires !(msg.Some? && IsRequest(msg.value))
    ensures var (t, r) := HandleMessage(s, msg);
      && (msg == None ==> t == s && r == [Failed(Null, -32700, ParseError)])
      && (msg.Some? && !msg.value.Obj? ==> t == s && r == [Failed(Null, -32600, InvalidRequest)])
      && (msg.Some? && msg.value.Obj? ==>
            var m := msg.value.members;
            var id, params := Lookup(m, "id"), Lookup(m, "params");
            && (!Framed(m) ==>
                  (t == s && r == [Failed(if id.Some? && (id.value.Int? || id.value.Str?) then id.value else Null, -32600, InvalidRequest)]))
            && (Framed(m) && id.Some? && !(id.value.Int? || (id.value.Str? && |id.value.s| <= 64)) ==>
                  (t == s && r == [Failed(Null, -32600, InvalidRequest)]))
            && (Framed(m) && (id == None || id.value.Int? || (id.value.Str? && |id.value.s| <= 64)) ==>
                  if params.Some? && params.value != Null && !params.value.Obj? then
                    t == s && r == [Failed(if id.Some? then id.value else Null, -32602, InvalidParams)]
                  else
                    r == [] && t == if s.phase == Initializing && Lookup(m, "method") == Some(Str("notifications/initialized"))
                                    then State(Ready, s.protocol, s.session) else s))
  {
    if msg.Some? && msg.value.Obj? {
      assert Framed(msg.value.members) <==> Envelope(msg.value.members);
    }
  }

  lemma OthersFail(s: State, msg: Option<Json>)
    requires !(msg.Some? && IsRequest(msg.value))
    ensures forall r <- HandleMessage(s, msg).1 :: r.Failed?
  {
  }

  /** Who gets the tool list: well-formed `tools/list` requests in Ready, and no other message in any phase. */
  lemma ToolsExactly(s: State, msg: Option<Json>, id: Json)
    ensures Tools(id) in HandleMessage(s, msg).1 <==>
      s.phase == Ready && exists p :: Requests(msg, id, "tools/list", p)
  {
    hide HandleMessage, IsRequest;
    RequestsMeans(msg);
    if msg.Some? && IsRequest(msg.value) {
      var i, method_, p :| Requests(msg, i, method_, p);
      RequestAnswered(s, msg, i, method_, p);
      RequestIsOne(msg, i, method_, p);
    } else {
      OthersFail(s, msg);
    }
  }

  /** Whose tool call is made: well-formed `tools/call` requests in Ready that name the tool, and no others. */
  lemma ToolResultExactly(s: State, msg: Option<Json>, id: Json, tool: string)
    ensures ToolResult(id, tool) in HandleMessage(s, msg).1 <==>
      s.phase == Ready && exists p :: Requests(msg, id, "tools/call", p) && Names(p, tool)
  {
    hide HandleMessage, IsRequest, Names;
    RequestsMeans(msg);
    if msg.Some? && IsRequest(msg.value) {
      var i, method_, p :| Requests(msg, i, method_, p);
      RequestAnswered(s, msg, i, method_, p);
      RequestIsOne(msg, i, method_, p);
      if n :| Names(p, n) {
        OneName(p, n, tool);
      }
    } else {
      OthersFail(s, msg);
    }
  }

  lemma RequestIsOne(msg: Option<Json>, id: Json, method_: string, p: seq<Member>)
    requires Requests(msg, id, method_, p)
    ensures forall i, n, q :: Requests(msg, i, n, q) ==> i == id && n == method_ && q == p
  {
  }

  lemma OneName(p: seq<Member>, n: string, tool: string)
    requires Names(p, n)
    ensures Names(p, tool) <==> tool == n
  {
  }

  // ---- whole conversations ----

  function After(s: State, msgs: seq<Option<Json>>): State {
    if msgs == [] then s else HandleMessage(After(s, msgs[..|msgs| - 1]), msgs[|msgs| - 1]).0
  }

  function Replies(s: State, msgs: seq<Option<Json>>): seq<Reply> {
    if msgs == [] then []
    else Replies(s, msgs[..|msgs| - 1]) + HandleMessage(After(s, msgs[..|msgs| - 1]), msgs[|msgs| - 1]).1
  }

  function CountAnswered(msgs: seq<Option<Json>>): nat {
    if msgs == [] then 0
    else
      var last := msgs[|msgs| - 1];
      CountAnswered(msgs[..|msgs| - 1]) + (if last.Some? && IsNotification(last.value) then 0 else 1)
  }

  lemma {:induction false} ConversationIsCoherent(msgs: seq<Option<Json>>)
    ensures Coherent(After(START, msgs))
    ensures |Replies(START, msgs)| == CountAnswered(msgs)
  {
    hide HandleMessage, Coherent, IsNotification;
    if msgs == [] {
      StartIsCoherent();
    } else {
      ConversationIsCoherent(msgs[..|msgs| - 1]);
      PhaseStep(After(START, msgs[..|msgs| - 1]), msgs[|msgs| - 1]);
      OneReplyEach(After(START, msgs[..|msgs| - 1]), msgs[|msgs| - 1]);
    }
  }

  lemma StartIsCoherent()
    ensures Coherent(START)
  {
  }

  /** Once past a phase, the conversation went through the message that enters it. */
  lemma {:induction false} HandshakeBehind(msgs: seq<Option<Json>>) returns (i: int, j: int)
    ensures After(START, msgs).phase != New ==>
      0 <= i < |msgs| && msgs[i].Some? && IsInitialize(msgs[i].value)
      && InitializeParamsOk(ParamsOf(Lookup(msgs[i].value.members, "params")))
    ensures After(START, msgs).phase == Ready ==>
      i < j < |msgs| && msgs[j].Some? && IsInitializedNotice(msgs[j].value)
  {
    hide HandleMessage, IsInitialize, IsInitializedNotice, InitializeParamsOk, Coherent;
    i, j := -1, -1;
    if msgs != [] {
      var init, last := msgs[..|msgs| - 1], msgs[|msgs| - 1];
      i, j := HandshakeBehind(init);
      ConversationIsCoherent(init);
      PhaseStep(After(START, init), last);
      if After(START, init).phase == New {
        i := |init|;
      } else if After(START, init).phase == Initializing {
        j := |init|;
      }
    }
  }

  /** Over every conversation from the start: a tool is listed or called only after an accepted
      `initialize` and then the initialized notification, in that order. */
  lemma ToolsOnlyAfterHandshake(msgs: seq<Option<Json>>, k: nat, r: Reply) returns (i: int, j: int)
    requires k < |msgs| && r in HandleMessage(After(START, msgs[..k]), msgs[k]).1 && IsToolReply(r)
    ensures 0 <= i < j < k
    ensures msgs[i].Some? && IsInitialize(msgs[i].value) && msgs[j].Some? && IsInitializedNotice(msgs[j].value)
  {
    hide IsInitialize, IsInitializedNotice, InitializeParamsOk;
    ConversationIsCoherent(msgs[..k]);
    ToolsNeedReady(After(START, msgs[..k]), msgs[k], r);
    i, j := HandshakeBehind(msgs[..k]);
  }
}
