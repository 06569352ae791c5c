/** Multiplexing of many downstream connections over one upstream connection: request IDs become stream IDs on the way
    up and are restored on the way down (pkg/stream/sofarpc/stream.go, pkg/protocol/util.go).

    Every handler runs as one step, and steps of different connections and goroutines interleave in any order.  Request
    frames, responses and write events carry the identity of the request they belong to, which the code does not have. */
module Correlation {
  import opened Bytes
  import opened Decimals
  import opened MapSerializer
  import BoltCodec
  import Forwarding

  type ConnId = nat
  type StreamId = ByteString
  type Servers = map<ConnId, map<StreamId, ServerStream>>

  // The generator's counter is a uint32.
  const ID_SPACE: nat := 0x1_0000_0000

  // A request frame and the user headers that were read from its header map.
  datatype Asked = Asked(cmd: BoltCodec.Command, user: Headers)

  // The serial-th request overall, read on conn.
  datatype Origin = Origin(conn: ConnId, serial: nat, asked: Asked)

  // A response frame written to a downstream connection; own ones are built by the proxy itself.
  datatype Written = Written(conn: ConnId, reqId: nat, answers: Origin, own: bool)

  /** What becomes of the headers of a response: the frame of the upstream goes on, the proxy's own frame goes out instead,
      or there is nothing to write, and then the stream ends only if data follows. */
  datatype Answer = Forwarded | Own | Unencoded(data: bool)

  // A stream of a downstream connection: the request ID is kept as the string found in the header map.
  datatype ServerStream = ServerStream(requestId: ByteString, origin: Origin)

  // A stream of the upstream connection: its decoder belongs to one downstream stream.
  datatype ClientStream = ClientStream(conn: ConnId, streamId: StreamId)

  datatype State = State(
    origins: seq<Origin>,                                       // the request each ID was issued for, in order
    servers: Servers,                                           // activeStreams of each downstream connection
    senders: map<(ConnId, StreamId), ServerStream>,             // response senders held by the proxy
    spent: set<(ConnId, StreamId)>,                             // streams whose request headers were taken apart for sending
    clients: map<StreamId, ClientStream>,                       // activeStreams of the upstream connection
    inFlight: multiset<(nat, Origin)>,                          // request frames at the upstream, by request ID
    responses: multiset<((ConnId, StreamId), Origin)>,          // responses on their way to a downstream stream
    written: seq<Written>)

  datatype Step =
    | Open(conn: ConnId)
    | Close(conn: ConnId)
    | Receive(conn: ConnId, asked: Asked)
    | Send(conn: ConnId, streamId: StreamId)
    | Reply(frame: (nat, Origin), again: bool, hasContent: bool)
    | Respond(target: (ConnId, StreamId), answers: Origin, how: Answer)
    | LocalReply(conn: ConnId, streamId: StreamId)
    | Reconnect

  function Init(): State {
    State([], map[], map[], {}, map[], multiset{}, multiset{}, [])
  }

  // GenerateIDString: the string of the i-th ID, counting from 0.
  function IdOf(i: nat): StreamId {
    Decimal((i + 1) % ID_SPACE)
  }

  // GenerateIDString for the next ID.
  function NextId(s: State): StreamId {
    IdOf(|s.origins|)
  }

  // A two-way RPC request, as it comes off the wire.
  predicate Readable(a: Asked) {
    && a.cmd.Request? && BoltCodec.OnWire(a.cmd)
    && a.cmd.cmdType == BoltCodec.REQUEST && a.cmd.cmdCode == BoltCodec.RPC_REQUEST
  }

  // The header map handed to the stream layer: the fields of the frame, with the user headers written over them.
  function HeaderMap(a: Asked): Headers {
    var fields := Forwarding.AllFields(a.cmd, a.user, 0);
    if a.cmd.content == [] then fields[Forwarding.STREAM_END := Forwarding.YES] else fields
  }

  // The stream layer takes the map for a request and opens a stream for it.
  predicate Recognised(a: Asked) {
    Forwarding.IsSofaRequest(HeaderMap(a))
  }

  // The request ID that stream keeps.
  function KeptId(a: Asked): ByteString {
    Forwarding.Value(HeaderMap(a), Forwarding.REQ_ID)
  }

  /** The number a response goes out under: mapToCmd parses the string as an unsigned 32-bit number, but a frame of the
      proxy's own parses it as a signed integer and cuts that to 32 bits. */
  function Number(requestId: ByteString, own: bool): nat {
    if own then ParseInt(requestId, 64) % ID_SPACE else ParseUint(requestId, 32)
  }

  // What is kept still stands for the ID in the frame, for either kind of response.
  predicate KeepsId(a: Asked, own: bool) {
    Number(KeptId(a), own) == a.cmd.reqId
  }

  // What sending the request upstream comes to; which stream ID it gets makes no difference.
  function Fate(a: Asked): Forwarding.Relay {
    Forwarding.Forward(a.cmd, a.user, 0, Decimal(0))
  }

  // It reaches the upstream as an RPC request.
  predicate Relays(a: Asked) {
    Fate(a).Relayed? && Fate(a).cmd.Request?
  }

  // Its own header map, as long as it is whole, makes a Bolt V1 response of the proxy's own.
  predicate Replies(a: Asked) {
    ParseInt(Forwarding.Value(HeaderMap(a), Forwarding.PROTOCOL), 64) % 256 == 1
  }

  predicate Enabled(s: State, step: Step) {
    match step
    case Open(conn) => conn !in s.servers
    case Close(conn) => conn in s.servers
    case Receive(conn, asked) => conn in s.servers && Readable(asked)
    case Send(conn, id) => (conn, id) in s.senders
    case Reply(frame, _, _) => frame in s.inFlight
    case Respond(target, answers, _) => (target, answers) in s.responses && target in s.senders
    case LocalReply(conn, id) => (conn, id) in s.senders
    case Reconnect => true
  }

  /** AppendHeaders, AppendData and endStream of a server stream: encodeSterilize has put the stream's own request ID back,
      the frame is written if there is one and the stream is still active, and the stream is removed. */
  function EndStream(s: State, conn: ConnId, id: StreamId, answers: Origin, how: Answer): State
    requires (conn, id) in s.senders
  {
    if conn !in s.servers then s
    else
      var reqId := Number(s.senders[(conn, id)].requestId, how.Own?);
      var out := if !how.Unencoded? && id in s.servers[conn] then [Written(conn, reqId, answers, how.Own?)] else [];
      var left := if how == Unencoded(false) then s.servers[conn] else s.servers[conn] - {id};
      s.(servers := s.servers[conn := left], written := s.written + out)
  }

  // A reply of the proxy's own is built from the request headers, which are gone once the request has been sent.
  function LocalAnswer(s: State, conn: ConnId, id: StreamId): Answer
    requires (conn, id) in s.senders
  {
    if Replies(s.senders[(conn, id)].origin.asked) && (conn, id) !in s.spent then Own else Unencoded(false)
  }

  function Apply(s: State, step: Step): State
    requires Enabled(s, step)
  {
    match step
    case Open(conn) => s.(servers := s.servers[conn := map[]])
    case Close(conn) => s.(servers := s.servers - {conn}, senders := map k | k in s.senders && k.0 != conn :: s.senders[k])
    case Receive(conn, asked) =>
      // OnDecodeHeader and onNewStreamDetected: a stream that already exists is left alone.
      var id := NextId(s);
      var origin := Origin(conn, |s.origins|, asked);
      var s0 := s.(origins := s.origins + [origin]);
      if !Recognised(asked) || id in s.servers[conn] then s0
      else
        var stream := ServerStream(KeptId(asked), origin);
        s0.(servers := s.servers[conn := s.servers[conn][id := stream]],
           senders := s.senders[(conn, id) := stream], spent := s.spent - {(conn, id)})
    case Send(conn, id) =>
      // NewStream on the upstream connection, then the request frame with the stream ID as its request ID.
      var origin := s.senders[(conn, id)].origin;
      s.(clients := s.clients[id := ClientStream(conn, id)],
         inFlight := s.inFlight + if Relays(origin.asked) then multiset{(ParseUint(id, 32), origin)} else multiset{},
         spent := s.spent + if Fate(origin.asked).Hijacked? then {} else {(conn, id)})
    case Reply(frame, again, hasContent) =>
      // OnDecodeHeader and OnDecodeData; only a response with content removes the client stream.
      var id := Decimal(frame.0);
      var s0 := if again then s else s.(inFlight := s.inFlight - multiset{frame});
      if id !in s.clients then s0
      else
        s0.(responses := s.responses + multiset{((s.clients[id].conn, s.clients[id].streamId), frame.1)},
            clients := if hasContent then s.clients - {id} else s.clients)
    case Respond(target, answers, how) =>
      EndStream(s.(responses := s.responses - multiset{(target, answers)}), target.0, target.1, answers, how)
    case LocalReply(conn, id) => EndStream(s, conn, id, s.senders[(conn, id)].origin, LocalAnswer(s, conn, id))
    case Reconnect => s.(clients := map[], inFlight := multiset{})
  }

  ghost predicate IsRun(states: seq<State>, steps: seq<Step>) {
    && |states| == |steps| + 1 && states[0] == Init()
    && forall i :: 0 <= i < |steps| ==> Enabled(states[i], steps[i]) && states[i + 1] == Apply(states[i], steps[i])
  }

  // Every response carries the request ID of the request it answers, on the connection that request came from.
  ghost predicate Correlated(s: State) {
    forall i :: 0 <= i < |s.written| ==> s.written[i].conn == s.written[i].answers.conn && s.written[i].reqId == s.written[i].answers.asked.cmd.reqId
  }

  // No request is answered twice.
  ghost predicate AnsweredOnce(s: State) {
    forall i, j :: 0 <= i < j < |s.written| ==> s.written[i].answers != s.written[j].answers
  }

  /** While no ID has been issued twice, everything that travels under a stream ID belongs to the one request that got it,
      and an answered request is no longer active.  Each part looks only at the fields it is given. */
  ghost predicate Consistent(s: State) {
    && Serials(s.origins) && StreamsHaveSenders(s.servers, s.senders) && Senders(s.origins, s.senders)
    && Clients(s.origins, s.clients) && Frames(s.origins, s.inFlight) && Responses(s.origins, s.responses)
    && Answered(s.origins, s.servers, s.written)
  }

  ghost predicate Serials(os: seq<Origin>) {
    forall i :: 0 <= i < |os| ==> os[i].serial == i && Readable(os[i].asked)
  }

  ghost predicate StreamsHaveSenders(servers: Servers, senders: map<(ConnId, StreamId), ServerStream>) {
    forall c, id :: c in servers && id in servers[c] ==> (c, id) in senders && senders[(c, id)] == servers[c][id]
  }

  ghost predicate Senders(os: seq<Origin>, senders: map<(ConnId, StreamId), ServerStream>) {
    forall k :: k in senders ==> Sender(os, k, senders[k])
  }

  ghost predicate Clients(os: seq<Origin>, clients: map<StreamId, ClientStream>) {
    forall id :: id in clients ==> clients[id].streamId == id && OwnedBy(os, id, clients[id].conn)
  }

  ghost predicate Frames(os: seq<Origin>, inFlight: multiset<(nat, Origin)>) {
    forall f :: f in inFlight ==> Has(os, f.1, Decimal(f.0)) && Relays(f.1.asked)
  }

  ghost predicate Responses(os: seq<Origin>, responses: multiset<((ConnId, StreamId), Origin)>) {
    forall r :: r in responses ==> Has(os, r.1, r.0.1) && r.1.conn == r.0.0 && Relays(r.1.asked)
  }

  ghost predicate Answered(os: seq<Origin>, servers: Servers, written: seq<Written>) {
    forall i :: 0 <= i < |written| ==> Done(os, servers, written[i])
  }

  // The request o got this ID.
  predicate Has(os: seq<Origin>, o: Origin, id: StreamId) {
    o.serial < |os| && os[o.serial] == o && IdOf(o.serial) == id
  }

  predicate Sender(os: seq<Origin>, k: (ConnId, StreamId), st: ServerStream) {
    Has(os, st.origin, k.1) && st.origin.conn == k.0 && Recognised(st.origin.asked) && st.requestId == KeptId(st.origin.asked)
  }

  ghost predicate OwnedBy(os: seq<Origin>, id: StreamId, conn: ConnId) {
    exists o :: Has(os, o, id) && o.conn == conn
  }

  predicate Done(os: seq<Origin>, servers: Servers, w: Written) {
    && Has(os, w.answers, IdOf(w.answers.serial)) && w.conn == w.answers.conn
    && Recognised(w.answers.asked) && w.reqId == Number(KeptId(w.answers.asked), w.own)
    && (Relays(w.answers.asked) || (w.own && Replies(w.answers.asked)))
    && (w.conn in servers ==> IdOf(w.answers.serial) !in servers[w.conn])
  }

  // IDs are distinct as long as the counter has not come round.
  lemma IdsDistinct(i: nat, j: nat)
    requires i < ID_SPACE && j < ID_SPACE && IdOf(i) == IdOf(j)
    ensures i == j
  {
    DecimalInjective((i + 1) % ID_SPACE, (j + 1) % ID_SPACE);
  }

  lemma SameRequest(os: seq<Origin>, o: Origin, o': Origin, id: StreamId)
    requires |os| <= ID_SPACE && Has(os, o, id) && Has(os, o', id)
    ensures o == o'
  {
    IdsDistinct(o.serial, o'.serial);
  }

  // A request ID survives being carried as a header string.
  lemma IdSurvives(n: nat)
    requires n < ID_SPACE
    ensures ParseUint(Decimal(n), 32) == n
  {
    hide Decimal, ParseUint, MaxUint;
    ParsePrinted(n, 32);
    Widths();
  }

  // What was true of the requests so far stays true when another one arrives.
  lemma OriginsGrow(s: State, o: Origin)
    requires Consistent(s)
    ensures Senders(s.origins + [o], s.senders) && Frames(s.origins + [o], s.inFlight)
    ensures Responses(s.origins + [o], s.responses) && Answered(s.origins + [o], s.servers, s.written)
  {
    hide IdOf, Decimal, Clients, Serials, StreamsHaveSenders, Relays, Replies, Number, Recognised, KeptId;
  }

  lemma ClientsGrow(os: seq<Origin>, o: Origin, clients: map<StreamId, ClientStream>)
    requires Clients(os, clients)
    ensures Clients(os + [o], clients)
  {
    hide IdOf;
    forall x | x in clients ensures OwnedBy(os + [o], x, clients[x].conn) {
      var p :| Has(os, p, x) && p.conn == clients[x].conn;
      assert Has(os + [o], p, x);
    }
  }

  // The request can be answered in this way.
  predicate CanAnswer(answers: Origin, how: Answer) {
    how.Unencoded? || Relays(answers.asked) || (how.Own? && Replies(answers.asked))
  }

  // A request is answered under the request ID its stream kept, and its stream is gone then.
  lemma EndStreamAnswers(s: State, conn: ConnId, id: StreamId, answers: Origin, how: Answer)
    requires Consistent(s) && |s.origins| <= ID_SPACE
    requires (conn, id) in s.senders && Has(s.origins, answers, id) && answers.conn == conn && CanAnswer(answers, how)
    ensures var t := EndStream(s, conn, id, answers, how); Answered(t.origins, t.servers, t.written)
  {
    hide Recognised, KeptId, Readable, Decimal, Number, Relays, Replies;
    assert Sender(s.origins, (conn, id), s.senders[(conn, id)]);
    SameRequest(s.origins, answers, s.senders[(conn, id)].origin, id);
    hide IdOf, Serials, StreamsHaveSenders, Senders, Clients, Frames, Responses;
    if conn in s.servers {
      FewerStreams(s.origins, s.servers, s.written, conn, id);
      var servers := s.servers[conn := s.servers[conn] - {id}];
      assert s.servers[conn := s.servers[conn]] == s.servers;
      if !how.Unencoded? {
        assert Done(s.origins, servers, Written(conn, Number(KeptId(answers.asked), how.Own?), answers, how.Own?));
      }
      hide Done;
    }
  }

  lemma FewerStreams(os: seq<Origin>, servers: Servers, written: seq<Written>, conn: ConnId, id: StreamId)
    requires Answered(os, servers, written) && conn in servers
    ensures Answered(os, servers[conn := servers[conn] - {id}], written)
  {
    hide Has, IdOf, Recognised, KeptId, Number, Relays, Replies;
    forall i | 0 <= i < |written| ensures Done(os, servers[conn := servers[conn] - {id}], written[i]) {
      assert Done(os, servers, written[i]);
    }
  }

  lemma EndStreamOnce(s: State, conn: ConnId, id: StreamId, answers: Origin, how: Answer)
    requires Consistent(s) && AnsweredOnce(s)
    requires (conn, id) in s.senders && Has(s.origins, answers, id) && answers.conn == conn
    ensures AnsweredOnce(EndStream(s, conn, id, answers, how))
  {
    hide Decimal, Number, Relays, Replies, IdOf, Serials, StreamsHaveSenders, Senders, Clients, Frames, Responses;
    var t := EndStream(s, conn, id, answers, how);
    forall i, j | 0 <= i < j < |t.written| ensures t.written[i].answers != t.written[j].answers {
      if j == |s.written| { assert Done(s.origins, s.servers, s.written[i]); }
    }
  }

  lemma EndStreamConsistent(s: State, conn: ConnId, id: StreamId, answers: Origin, how: Answer)
    requires Consistent(s) && AnsweredOnce(s) && |s.origins| <= ID_SPACE
    requires (conn, id) in s.senders && Has(s.origins, answers, id) && answers.conn == conn && CanAnswer(answers, how)
    ensures Consistent(EndStream(s, conn, id, answers, how)) && AnsweredOnce(EndStream(s, conn, id, answers, how))
  {
    EndStreamAnswers(s, conn, id, answers, how);
    EndStreamOnce(s, conn, id, answers, how);
    hide Decimal, Number, IdOf, Has, Serials, Senders, Clients, Frames, Responses, Answered, AnsweredOnce, CanAnswer;
  }

  lemma ReceiveConsistent(s: State, conn: ConnId, asked: Asked)
    requires Consistent(s) && |s.origins| < ID_SPACE && Enabled(s, Receive(conn, asked))
    ensures Consistent(Apply(s, Receive(conn, asked))) && Apply(s, Receive(conn, asked)).written == s.written
  {
    hide Recognised, KeptId, Readable, Relays, Replies, Number;
    var t := Apply(s, Receive(conn, asked));
    var id, o := NextId(s), Origin(conn, |s.origins|, asked);
    OriginsGrow(s, o);
    ClientsGrow(s.origins, o, s.clients);
    NewIdUnused(s, conn);
    var stream := ServerStream(KeptId(asked), o);
    if Recognised(asked) { NewSender(s.origins + [o], s.senders, (conn, id), stream); }
    NewStream(s.servers, s.senders, conn, id, stream);
    NewStreamUnanswered(s.origins + [o], s.servers, s.written, conn, id, stream);
    SerialsGrow(s.origins, o);
    hide Decimal, IdOf, Serials, StreamsHaveSenders, Senders, Clients, Frames, Responses, Answered;
  }

  lemma SerialsGrow(os: seq<Origin>, o: Origin)
    requires Serials(os) && o.serial == |os| && Readable(o.asked)
    ensures Serials(os + [o])
  {
  }

  lemma NewSender(os: seq<Origin>, senders: map<(ConnId, StreamId), ServerStream>, k: (ConnId, StreamId), st: ServerStream)
    requires Senders(os, senders) && Sender(os, k, st)
    ensures Senders(os, senders[k := st])
  {
    hide Sender;
  }

  lemma NewStream(servers: Servers, senders: map<(ConnId, StreamId), ServerStream>, conn: ConnId, id: StreamId, st: ServerStream)
    requires StreamsHaveSenders(servers, senders) && conn in servers
    ensures StreamsHaveSenders(servers[conn := servers[conn][id := st]], senders[(conn, id) := st])
  {
  }

  lemma NewStreamUnanswered(os: seq<Origin>, servers: Servers, written: seq<Written>, conn: ConnId, id: StreamId, st: ServerStream)
    requires Answered(os, servers, written) && conn in servers
    requires forall i :: 0 <= i < |written| ==> IdOf(written[i].answers.serial) != id
    ensures Answered(os, servers[conn := servers[conn][id := st]], written)
  {
    hide IdOf, Has, Relays, Replies, Number, Recognised, KeptId;
    forall i | 0 <= i < |written| ensures Done(os, servers[conn := servers[conn][id := st]], written[i]) {
      assert Done(os, servers, written[i]);
    }
  }

  lemma NewIdUnused(s: State, conn: ConnId)
    requires Consistent(s) && |s.origins| < ID_SPACE && conn in s.servers
    ensures NextId(s) !in s.servers[conn]
    ensures forall i :: 0 <= i < |s.written| ==> IdOf(s.written[i].answers.serial) != NextId(s)
  {
    hide Decimal, Clients, Frames, Responses, Relays, Replies, Number, Recognised, KeptId;
    if NextId(s) in s.servers[conn] {
      assert Sender(s.origins, (conn, NextId(s)), s.senders[(conn, NextId(s))]);
      IdsDistinct(s.senders[(conn, NextId(s))].origin.serial, |s.origins|);
    }
    forall i | 0 <= i < |s.written| ensures IdOf(s.written[i].answers.serial) != NextId(s) {
      assert Done(s.origins, s.servers, s.written[i]);
      if IdOf(s.written[i].answers.serial) == NextId(s) { IdsDistinct(s.written[i].answers.serial, |s.origins|); }
    }
  }

  lemma SendConsistent(s: State, conn: ConnId, id: StreamId)
    requires Consistent(s) && Enabled(s, Send(conn, id)) && |s.origins| <= ID_SPACE
    ensures Consistent(Apply(s, Send(conn, id))) && Apply(s, Send(conn, id)).written == s.written
  {
    hide Recognised, KeptId, Relays, Fate;
    var t := Apply(s, Send(conn, id));
    var o := s.senders[(conn, id)].origin;
    assert Sender(s.origins, (conn, id), s.senders[(conn, id)]);
    IdSurvives((o.serial + 1) % ID_SPACE);
    assert Decimal(ParseUint(id, 32)) == id;
    NewClient(s.origins, s.clients, id, conn, o);
    if Relays(o.asked) { NewFrame(s.origins, s.inFlight, (ParseUint(id, 32), o)); }
    assert s.inFlight + multiset{} == s.inFlight;
    hide Decimal, ParseUint, IdOf, Has, Serials, StreamsHaveSenders, Senders, Clients, Frames, Responses, Answered;
  }

  lemma NewClient(os: seq<Origin>, clients: map<StreamId, ClientStream>, id: StreamId, conn: ConnId, o: Origin)
    requires Clients(os, clients) && Has(os, o, id) && o.conn == conn
    ensures Clients(os, clients[id := ClientStream(conn, id)])
  {
    assert OwnedBy(os, id, conn);
    hide OwnedBy;
  }

  lemma NewFrame(os: seq<Origin>, inFlight: multiset<(nat, Origin)>, frame: (nat, Origin))
    requires Frames(os, inFlight) && Has(os, frame.1, Decimal(frame.0)) && Relays(frame.1.asked)
    ensures Frames(os, inFlight + multiset{frame})
  {
    hide Has, Decimal, Relays;
    forall f | f in inFlight + multiset{frame} ensures Has(os, f.1, Decimal(f.0)) && Relays(f.1.asked) {
      assert f in inFlight || f == frame;
    }
  }

  lemma ReplyConsistent(s: State, frame: (nat, Origin), again: bool, hasContent: bool)
    requires Consistent(s) && Enabled(s, Reply(frame, again, hasContent)) && |s.origins| <= ID_SPACE
    ensures Consistent(Apply(s, Reply(frame, again, hasContent))) && Apply(s, Reply(frame, again, hasContent)).written == s.written
  {
    hide Relays, Replies, Number, Recognised, KeptId;
    var id := Decimal(frame.0);
    assert Has(s.origins, frame.1, id);
    if id in s.clients { AnswerReachesOwner(s, id, frame.1); }
    FewerFrames(s.origins, s.inFlight, frame);
    FewerClients(s.origins, s.clients, id);
    if id in s.clients { NewResponse(s.origins, s.responses, ((s.clients[id].conn, s.clients[id].streamId), frame.1)); }
    hide IdOf, Decimal, Serials, StreamsHaveSenders, Senders, Clients, Frames, Responses, Answered;
  }

  lemma FewerFrames(os: seq<Origin>, inFlight: multiset<(nat, Origin)>, frame: (nat, Origin))
    requires Frames(os, inFlight)
    ensures Frames(os, inFlight - multiset{frame})
  {
    hide Has, Decimal, Relays;
    forall f | f in inFlight - multiset{frame} ensures Has(os, f.1, Decimal(f.0)) && Relays(f.1.asked) { assert f in inFlight; }
  }

  lemma FewerClients(os: seq<Origin>, clients: map<StreamId, ClientStream>, id: StreamId)
    requires Clients(os, clients)
    ensures Clients(os, clients - {id})
  {
    hide OwnedBy;
  }

  lemma NewResponse(os: seq<Origin>, responses: multiset<((ConnId, StreamId), Origin)>, r: ((ConnId, StreamId), Origin))
    requires Responses(os, responses) && Has(os, r.1, r.0.1) && r.1.conn == r.0.0 && Relays(r.1.asked)
    ensures Responses(os, responses + multiset{r})
  {
    hide Has, Relays;
    forall x | x in responses + multiset{r} ensures Has(os, x.1, x.0.1) && x.1.conn == x.0.0 && Relays(x.1.asked) {
      assert x in responses || x == r;
    }
  }

  // The client stream under an ID leads to the connection of the request that has the ID.
  lemma AnswerReachesOwner(s: State, id: StreamId, o: Origin)
    requires Clients(s.origins, s.clients) && id in s.clients && Has(s.origins, o, id) && |s.origins| <= ID_SPACE
    ensures s.clients[id].conn == o.conn && s.clients[id].streamId == id
  {
    var p :| Has(s.origins, p, id) && p.conn == s.clients[id].conn;
    SameRequest(s.origins, p, o, id);
  }

  lemma OpenCloseConsistent(s: State, step: Step)
    requires Consistent(s) && Enabled(s, step) && (step.Open? || step.Close?)
    ensures Consistent(Apply(s, step)) && Apply(s, step).written == s.written
  {
    hide Recognised, KeptId, Readable, Number, Relays, Replies, Decimal, IdOf, Has, Sender, Serials, Clients, Frames, Responses;
    var t := Apply(s, step);
    forall i | 0 <= i < |t.written| ensures Done(t.origins, t.servers, t.written[i]) {
      assert Done(s.origins, s.servers, s.written[i]);
    }
  }

  lemma ReconnectConsistent(s: State)
    requires Consistent(s)
    ensures Consistent(Apply(s, Reconnect)) && Apply(s, Reconnect).written == s.written
  {
    hide Decimal, IdOf, Has, Relays, Serials, StreamsHaveSenders, Senders, Responses, Answered;
  }

  lemma RespondConsistent(s: State, target: (ConnId, StreamId), answers: Origin, how: Answer)
    requires Consistent(s) && AnsweredOnce(s) && Enabled(s, Respond(target, answers, how)) && |s.origins| <= ID_SPACE
    ensures Consistent(Apply(s, Respond(target, answers, how))) && AnsweredOnce(Apply(s, Respond(target, answers, how)))
  {
    hide Decimal, Number, Relays, Replies, IdOf, Has, Serials, StreamsHaveSenders, Senders, Clients, Frames, Answered;
    var s0 := s.(responses := s.responses - multiset{(target, answers)});
    assert (target, answers) in s.responses;
    assert CanAnswer(answers, how);
    EndStreamConsistent(s0, target.0, target.1, answers, how);
  }

  lemma LocalReplyConsistent(s: State, conn: ConnId, id: StreamId)
    requires Consistent(s) && AnsweredOnce(s) && Enabled(s, LocalReply(conn, id)) && |s.origins| <= ID_SPACE
    ensures Consistent(Apply(s, LocalReply(conn, id))) && AnsweredOnce(Apply(s, LocalReply(conn, id)))
  {
    hide Replies, Relays;
    assert Sender(s.origins, (conn, id), s.senders[(conn, id)]);
    assert CanAnswer(s.senders[(conn, id)].origin, LocalAnswer(s, conn, id));
    hide Consistent, LocalAnswer, CanAnswer;
    EndStreamConsistent(s, conn, id, s.senders[(conn, id)].origin, LocalAnswer(s, conn, id));
  }

  lemma OriginsAfter(s: State, step: Step)
    requires Enabled(s, step)
    ensures |Apply(s, step).origins| == |s.origins| + if step.Receive? then 1 else 0
  {
  }

  lemma StepConsistent(s: State, step: Step)
    requires Consistent(s) && AnsweredOnce(s) && Enabled(s, step) && |Apply(s, step).origins| <= ID_SPACE
    ensures Consistent(Apply(s, step)) && AnsweredOnce(Apply(s, step))
  {
    OriginsAfter(s, step);
    hide Decimal, ParseUint, IdOf, Consistent, Apply, Enabled;
    match step {
      case Receive(conn, asked) => ReceiveConsistent(s, conn, asked);
      case Send(conn, id) => SendConsistent(s, conn, id);
      case Reply(frame, again, hasContent) => ReplyConsistent(s, frame, again, hasContent);
      case Respond(target, answers, how) => RespondConsistent(s, target, answers, how);
      case LocalReply(conn, id) => LocalReplyConsistent(s, conn, id);
      case Open(_) => OpenCloseConsistent(s, step);
      case Close(_) => OpenCloseConsistent(s, step);
      case Reconnect => ReconnectConsistent(s);
    }
  }

  lemma {:induction false} RunConsistent(states: seq<State>, steps: seq<Step>)
    requires IsRun(states, steps) && |states[|steps|].origins| <= ID_SPACE
    ensures Consistent(states[|steps|]) && AnsweredOnce(states[|steps|])
    decreases |steps|
  {
    if steps != [] {
      var last := |steps| - 1;
      var s := states[last];
      assert states[last + 1] == Apply(s, steps[last]);
      assert |s.origins| <= |Apply(s, steps[last]).origins|;
      RunConsistent(states[..last + 1], steps[..last]);
      StepConsistent(s, steps[last]);
    }
  }

  /** In every interleaving of any number of connections, with replies in any order, repeated or missing, and as long as
      the 32-bit counter has not come round: every response written answers a request of that connection under the ID that
      request's stream kept, read in the way of that kind of response, and no request is answered twice.  So the responses
      carry the IDs of their requests exactly when every request answered had kept its ID for the answer it got. */
  lemma ResponsesAreCorrelated(states: seq<State>, steps: seq<Step>)
    requires IsRun(states, steps) && |states[|steps|].origins| <= ID_SPACE
    ensures var s := states[|steps|];
            && AnsweredOnce(s)
            && (forall i :: 0 <= i < |s.written| ==>
                  && s.written[i].answers in s.origins && s.written[i].conn == s.written[i].answers.conn
                  && Recognised(s.written[i].answers.asked)
                  && s.written[i].reqId == Number(KeptId(s.written[i].answers.asked), s.written[i].own))
            && (Correlated(s) <==> forall i :: 0 <= i < |s.written| ==> KeepsId(s.written[i].answers.asked, s.written[i].own))
  {
    hide Decimal, Number, IdOf, KeptId, Recognised, Relays, Replies;
    RunConsistent(states, steps);
    var s := states[|steps|];
    forall i | 0 <= i < |s.written|
      ensures s.written[i].answers in s.origins && s.written[i].conn == s.written[i].answers.conn
      ensures Recognised(s.written[i].answers.asked)
      ensures s.written[i].reqId == Number(KeptId(s.written[i].answers.asked), s.written[i].own)
    {
      assert Done(s.origins, s.servers, s.written[i]);
      assert s.origins[s.written[i].answers.serial] == s.written[i].answers;
    }
  }

  // The ID is kept unless a user header of that name says something else, as that kind of response reads it.
  lemma KeepsIdIff(a: Asked, own: bool)
    requires Readable(a)
    ensures KeepsId(a, own) <==> "requestid" !in a.user || Number(a.user["requestid"], own) == a.cmd.reqId
  {
    OwnIdSurvives(a.cmd.reqId);
    IdSurvives(a.cmd.reqId);
    FrameId(a);
    hide ParseUint, ParseInt, Decimal, KeptId, BoltCodec.OnWire;
  }

  lemma OwnIdSurvives(n: nat)
    requires n < ID_SPACE
    ensures ParseInt(Decimal(n), 64) % ID_SPACE == n
  {
    hide Decimal, ParseInt, MaxUint;
    ParsePrinted(n, 64);
    WideWidths();
  }

  /** Which number a header stands for.  Forwarded responses clamp at 32 bits and know no sign; the proxy's own clamp at 63
      bits, take a sign and keep the low 32 bits. */
  lemma NumberIs(n: nat)
    ensures Number(Decimal(n), false) == if n < 0x1_0000_0000 then n else 0xFFFF_FFFF
    ensures Number(Decimal(n), true) == (if n < 0x8000_0000_0000_0000 then n else 0x7FFF_FFFF_FFFF_FFFF) % 0x1_0000_0000
    ensures Number(['+'] + Decimal(n), true) == Number(Decimal(n), true) && Number(['+'] + Decimal(n), false) == 0
    ensures Number(['-'] + Decimal(n), true) == (if n < 0x8000_0000_0000_0000 then 0 - n else 0) % 0x1_0000_0000
    ensures Number(['-'] + Decimal(n), false) == 0
  {
    hide Decimal, ParseInt, MaxUint;
    Widths();
    WideWidths();
    ParsePrinted(n, 32);
    ParsePrinted(n, 64);
    ParseSigned(n, 64);
  }

  lemma FrameId(a: Asked)
    requires a.cmd.Request?
    ensures KeptId(a) == if Forwarding.REQ_ID in a.user then a.user[Forwarding.REQ_ID] else Decimal(a.cmd.reqId)
  {
    assert Forwarding.CommonFields(a.cmd)[Forwarding.REQ_ID] == Decimal(a.cmd.reqId);
    assert Forwarding.REQ_ID != Forwarding.STREAM_END && Forwarding.REQ_ID !in Forwarding.REQUEST_ONLY;
    hide Decimal, Forwarding.CommonFields, Forwarding.OwnFields, Forwarding.REQUEST_ONLY, Forwarding.STREAM_END;
    assert Forwarding.REQ_ID in Forwarding.COMMON;
    hide Forwarding.COMMON, Forwarding.REQ_ID;
  }

  // Runs that break correlation, with nothing but requests that ask for a.  Every other connection is left alone while
  // connection 2 uses up IDs.
  ghost function Last(states: seq<State>, steps: seq<Step>): State
    requires IsRun(states, steps)
  {
    states[|steps|]
  }

  lemma Extend(states: seq<State>, steps: seq<Step>, step: Step) returns (states': seq<State>, steps': seq<Step>)
    requires IsRun(states, steps) && Enabled(Last(states, steps), step)
    ensures IsRun(states', steps') && Last(states', steps') == Apply(Last(states, steps), step)
  {
    hide Enabled, Apply;
    states', steps' := states + [Apply(states[|steps|], step)], steps + [step];
    forall i | 0 <= i < |steps'| ensures Enabled(states'[i], steps'[i]) && states'[i + 1] == Apply(states'[i], steps'[i]) {
      if i < |steps| { assert Enabled(states[i], steps[i]) && states[i + 1] == Apply(states[i], steps[i]); }
    }
  }

  // All requests so far are among these.
  ghost predicate AllFrom(s: State, allowed: iset<Asked>) {
    forall i :: 0 <= i < |s.origins| ==> s.origins[i].asked in allowed
  }

  ghost predicate Undisturbed(s: State, t: State) {
    && t.written == s.written && t.inFlight == s.inFlight && 2 in t.servers
    && (1 in s.servers ==> 1 in t.servers && t.servers[1] == s.servers[1])
  }

  lemma {:induction false} UseUp(states: seq<State>, steps: seq<Step>, a: Asked, n: nat, allowed: iset<Asked>)
    returns (states': seq<State>, steps': seq<Step>)
    requires IsRun(states, steps) && 2 in Last(states, steps).servers && Readable(a)
    requires a in allowed && AllFrom(Last(states, steps), allowed)
    ensures IsRun(states', steps') && Undisturbed(Last(states, steps), Last(states', steps'))
    ensures |Last(states', steps').origins| == |Last(states, steps).origins| + n && AllFrom(Last(states', steps'), allowed)
    decreases n
  {
    hide IsRun, Last, IdOf, Decimal, Readable, Recognised, KeptId, Relays, Replies, Fate;
    if n == 0 {
      states', steps' := states, steps;
    } else {
      states', steps' := UseUp(states, steps, a, n - 1, allowed);
      states', steps' := Extend(states', steps', Receive(2, a));
    }
  }

  // The request of connection 0 that is answered wrongly, and its ID.
  function First(a: Asked): Origin {
    Origin(0, 0, a)
  }

  const FIRST_ID: StreamId := Decimal(1)

  function Opened(): State {
    Init().(servers := map[0 := map[], 1 := map[], 2 := map[]])
  }

  lemma OpenThree() returns (states: seq<State>, steps: seq<Step>)
    ensures IsRun(states, steps) && Last(states, steps) == Opened()
  {
    states, steps := [Init()], [];
    assert IsRun(states, steps) && Last(states, steps) == Init();
    hide IsRun, Last;
    states, steps := Extend(states, steps, Open(0));
    states, steps := Extend(states, steps, Open(1));
    states, steps := Extend(states, steps, Open(2));
  }

  lemma FirstRequest(a: Asked) returns (states: seq<State>, steps: seq<Step>)
    requires Readable(a) && Recognised(a)
    ensures IsRun(states, steps)
    ensures var s := Last(states, steps);
            && s.origins == [First(a)] && s.written == [] && s.inFlight == multiset{} && s.spent == {}
            && 0 in s.servers && 1 in s.servers && 2 in s.servers && s.servers[1] == map[] && FIRST_ID in s.servers[0]
            && (0, FIRST_ID) in s.senders && s.senders[(0, FIRST_ID)] == ServerStream(KeptId(a), First(a))
  {
    hide IsRun, Last, Apply, Readable, Recognised, KeptId, FIRST_ID, Opened;
    ReceiveFirst(a);
    states, steps := OpenThree();
    states, steps := Extend(states, steps, Receive(0, a));
  }

  // A recognised request under an ID that is free on its connection opens a stream.
  lemma ReceiveOpens(s: State, conn: ConnId, a: Asked)
    requires Enabled(s, Receive(conn, a)) && Recognised(a) && NextId(s) !in s.servers[conn]
    ensures var origin := Origin(conn, |s.origins|, a); var stream := ServerStream(KeptId(a), origin);
            Apply(s, Receive(conn, a)) == s.(origins := s.origins + [origin],
                                             servers := s.servers[conn := s.servers[conn][NextId(s) := stream]],
                                             senders := s.senders[(conn, NextId(s)) := stream],
                                             spent := s.spent - {(conn, NextId(s))})
  {
    hide IdOf, Readable, Recognised, KeptId;
  }

  lemma ReceiveFirst(a: Asked)
    requires Readable(a) && Recognised(a)
    ensures Enabled(Opened(), Receive(0, a))
    ensures var s := Apply(Opened(), Receive(0, a));
            && s.origins == [First(a)] && s.written == [] && s.inFlight == multiset{} && s.spent == {}
            && 0 in s.servers && 1 in s.servers && 2 in s.servers && s.servers[1] == map[] && FIRST_ID in s.servers[0]
            && (0, FIRST_ID) in s.senders && s.senders[(0, FIRST_ID)] == ServerStream(KeptId(a), First(a))
  {
    assert IdOf(0) == FIRST_ID;
    var s := Opened();
    assert s.servers[0] == map[] && s.servers[1] == map[] && 2 in s.servers && s.origins == [] && s.written == [] && s.inFlight == multiset{} && s.spent == {};
    hide Apply, Decimal, IdOf, Readable, Recognised, KeptId, FIRST_ID, Opened;
    ReceiveOpens(s, 0, a);
  }

  // A user header in the way: the proxy's own reply to the only request goes out under another ID.
  lemma WrongReply(a: Asked, n: nat, allowed: iset<Asked>) returns (states: seq<State>, steps: seq<Step>)
    requires Readable(a) && Recognised(a) && Replies(a) && !KeepsId(a, true) && a in allowed && n > 0
    ensures IsRun(states, steps) && |Last(states, steps).origins| == n && AllFrom(Last(states, steps), allowed)
    ensures Last(states, steps).written == [Written(0, Number(KeptId(a), true), First(a), true)]
    ensures !Correlated(Last(states, steps))
  {
    hide IsRun, Last, Decimal, Number, Readable, Recognised, KeptId, FIRST_ID, Replies, Relays, Fate;
    states, steps := FirstRequest(a);
    states, steps := Extend(states, steps, LocalReply(0, FIRST_ID));
    states, steps := UseUp(states, steps, a, n - 1, allowed);
    assert Last(states, steps).written[0].answers == First(a);
  }

  lemma SendFirst(a: Asked) returns (states: seq<State>, steps: seq<Step>)
    requires Readable(a) && Recognised(a) && Relays(a)
    ensures IsRun(states, steps) && Last(states, steps).inFlight == multiset{(1, First(a))}
    ensures var s := Last(states, steps);
            && s.origins == [First(a)] && s.written == [] && 0 in s.servers && 1 in s.servers && 2 in s.servers
            && s.servers[1] == map[] && FIRST_ID in s.servers[0] && FIRST_ID in s.clients && s.clients[FIRST_ID] == ClientStream(0, FIRST_ID)
            && (0, FIRST_ID) in s.senders && s.senders[(0, FIRST_ID)] == ServerStream(KeptId(a), First(a))
  {
    IdSurvives(1);
    assert ParseUint(FIRST_ID, 32) == 1;
    hide IsRun, Last, Decimal, ParseUint, Readable, Recognised, KeptId, FIRST_ID, Relays, Fate;
    states, steps := FirstRequest(a);
    states, steps := Extend(states, steps, Send(0, FIRST_ID));
  }

  // The same for a response of the upstream, which may be forwarded or replaced by the proxy's own.
  lemma WrongResponse(a: Asked, own: bool, n: nat, allowed: iset<Asked>) returns (states: seq<State>, steps: seq<Step>)
    requires Readable(a) && Recognised(a) && Relays(a) && !KeepsId(a, own) && a in allowed && n > 0
    ensures IsRun(states, steps) && |Last(states, steps).origins| == n && AllFrom(Last(states, steps), allowed)
    ensures Last(states, steps).written == [Written(0, Number(KeptId(a), own), First(a), own)]
    ensures !Correlated(Last(states, steps))
  {
    hide IsRun, Last, Apply, Enabled, Decimal, Number, Readable, Recognised, KeptId, FIRST_ID, Replies, Relays, Fate;
    states, steps := SendFirst(a);
    AnswerFirst(Last(states, steps), a, if own then Own else Forwarded);
    states, steps := Extend(states, steps, Reply((1, First(a)), false, false));
    states, steps := Extend(states, steps, Respond((0, FIRST_ID), First(a), if own then Own else Forwarded));
    states, steps := UseUp(states, steps, a, n - 1, allowed);
    assert Last(states, steps).written[0].answers == First(a);
  }

  lemma AnswerFirst(s: State, a: Asked, how: Answer)
    requires s.inFlight == multiset{(1, First(a))} && s.written == [] && 0 in s.servers && 2 in s.servers && !how.Unencoded?
    requires FIRST_ID in s.servers[0] && FIRST_ID in s.clients && s.clients[FIRST_ID] == ClientStream(0, FIRST_ID)
    requires (0, FIRST_ID) in s.senders && s.senders[(0, FIRST_ID)] == ServerStream(KeptId(a), First(a))
    ensures var reply := Reply((1, First(a)), false, false); var respond := Respond((0, FIRST_ID), First(a), how);
            && Enabled(s, reply) && Enabled(Apply(s, reply), respond)
            && var t := Apply(Apply(s, reply), respond);
               && t.origins == s.origins && 2 in t.servers
               && t.written == [Written(0, Number(KeptId(a), how.Own?), First(a), how.Own?)]
  {
    hide Apply, Number, KeptId, FIRST_ID;
    ReplyFirst(s, a);
    RespondFirst(Apply(s, Reply((1, First(a)), false, false)), a, how);
  }

  lemma ReplyFirst(s: State, a: Asked)
    requires (1, First(a)) in s.inFlight && FIRST_ID in s.clients && s.clients[FIRST_ID] == ClientStream(0, FIRST_ID)
    ensures var t := Apply(s, Reply((1, First(a)), false, false));
            && t.origins == s.origins && t.servers == s.servers && t.senders == s.senders && t.written == s.written
            && ((0, FIRST_ID), First(a)) in t.responses
  {
    assert Decimal(1) == FIRST_ID;
    hide Decimal, FIRST_ID, Relays, Replies, Fate;
  }

  lemma RespondFirst(s: State, a: Asked, how: Answer)
    requires ((0, FIRST_ID), First(a)) in s.responses && s.written == [] && 0 in s.servers && 2 in s.servers && !how.Unencoded?
    requires FIRST_ID in s.servers[0] && (0, FIRST_ID) in s.senders && s.senders[(0, FIRST_ID)] == ServerStream(KeptId(a), First(a))
    ensures Enabled(s, Respond((0, FIRST_ID), First(a), how))
    ensures var t := Apply(s, Respond((0, FIRST_ID), First(a), how));
            && t.origins == s.origins && 2 in t.servers
            && t.written == [Written(0, Number(KeptId(a), how.Own?), First(a), how.Own?)]
  {
    hide Decimal, Number, KeptId, FIRST_ID, Relays, Replies, Fate;
  }

  // Both requests are at the upstream, and the client stream leads to the second.
  ghost predicate Collided(s: State, a: Asked) {
    && 2 in s.servers && 1 in s.servers && FIRST_ID in s.servers[1] && FIRST_ID in s.clients && (1, First(a)) in s.inFlight
    && s.clients[FIRST_ID] == ClientStream(1, FIRST_ID) && (1, FIRST_ID) in s.senders
  }

  lemma SecondRequest(states: seq<State>, steps: seq<Step>, a: Asked, allowed: iset<Asked>)
    returns (states': seq<State>, steps': seq<Step>)
    requires IsRun(states, steps) && Last(states, steps).inFlight == multiset{(1, First(a))}
    requires Readable(a) && Recognised(a) && a in allowed && AllFrom(Last(states, steps), allowed)
    requires var s := Last(states, steps); |s.origins| == ID_SPACE && 2 in s.servers && 1 in s.servers && s.servers[1] == map[]
    ensures IsRun(states', steps') && AllFrom(Last(states', steps'), allowed)
    ensures var s := Last(states', steps');
            && |s.origins| == ID_SPACE + 1 && s.inFlight == multiset{(1, First(a))} && 2 in s.servers && 1 in s.servers
            && FIRST_ID in s.servers[1] && (1, FIRST_ID) in s.senders
  {
    ReceiveAgain(Last(states, steps), a, allowed);
    hide IsRun, Last, Apply, Readable, Recognised, FIRST_ID, AllFrom;
    states', steps' := Extend(states, steps, Receive(1, a));
  }

  lemma ReceiveAgain(s: State, a: Asked, allowed: iset<Asked>)
    requires Readable(a) && Recognised(a) && a in allowed && AllFrom(s, allowed)
    requires |s.origins| == ID_SPACE && 2 in s.servers && 1 in s.servers && s.servers[1] == map[]
    ensures Enabled(s, Receive(1, a))
    ensures var t := Apply(s, Receive(1, a));
            && |t.origins| == ID_SPACE + 1 && t.inFlight == s.inFlight && 2 in t.servers && 1 in t.servers
            && FIRST_ID in t.servers[1] && (1, FIRST_ID) in t.senders && AllFrom(t, allowed)
  {
    assert IdOf(ID_SPACE) == FIRST_ID;
    hide Apply, Decimal, IdOf, Readable, Recognised, KeptId, FIRST_ID;
    ReceiveOpens(s, 1, a);
  }

  lemma SendSecond(states: seq<State>, steps: seq<Step>, a: Asked) returns (states': seq<State>, steps': seq<Step>)
    requires IsRun(states, steps)
    requires var s := Last(states, steps);
             && s.inFlight == multiset{(1, First(a))} && 2 in s.servers && 1 in s.servers
             && FIRST_ID in s.servers[1] && (1, FIRST_ID) in s.senders
    ensures IsRun(states', steps') && Collided(Last(states', steps'), a)
    ensures Last(states', steps').origins == Last(states, steps).origins
  {
    hide IsRun, Last, Decimal, ParseUint, FIRST_ID, Relays, Fate;
    states', steps' := Extend(states, steps, Send(1, FIRST_ID));
  }

  lemma Misdeliver(states: seq<State>, steps: seq<Step>, a: Asked) returns (states': seq<State>, steps': seq<Step>)
    requires IsRun(states, steps) && Collided(Last(states, steps), a)
    ensures IsRun(states', steps') && !Correlated(Last(states', steps')) && 2 in Last(states', steps').servers
    ensures Last(states', steps').origins == Last(states, steps).origins
  {
    assert Decimal(1) == FIRST_ID;
    hide IsRun, Last, Decimal, Number, FIRST_ID, Relays, Replies, Fate;
    states', steps' := Extend(states, steps, Reply((1, First(a)), false, false));
    states', steps' := Extend(states', steps', Respond((1, FIRST_ID), First(a), Forwarded));
    var s := Last(states', steps');
    assert s.written[|s.written| - 1].conn == 1 && s.written[|s.written| - 1].answers == First(a);
  }

  // The counter has come round: the next request, on connection 1, gets the ID of the first and takes its answer.
  lemma WrongAnswer(a: Asked, n: nat, allowed: iset<Asked>) returns (states: seq<State>, steps: seq<Step>)
    requires Readable(a) && Recognised(a) && Relays(a) && a in allowed && n > ID_SPACE
    ensures IsRun(states, steps) && |Last(states, steps).origins| == n && AllFrom(Last(states, steps), allowed)
    ensures !Correlated(Last(states, steps))
  {
    hide IsRun, Last, Collided, Readable, Recognised, KeptId, FIRST_ID, Relays;
    states, steps := SendFirst(a);
    states, steps := UseUp(states, steps, a, ID_SPACE - 1, allowed);
    states, steps := SecondRequest(states, steps, a, allowed);
    states, steps := SendSecond(states, steps, a);
    states, steps := Misdeliver(states, steps, a);
    states, steps := UseUp(states, steps, a, n - ID_SPACE - 1, allowed);
  }

  /** While no request has reached the upstream, whatever the number of IDs, every response is the proxy's own reply to a
      request of that connection; requests that are not recognised get none. */
  ghost predicate OnlyLocal(s: State) {
    && s.inFlight == multiset{} && s.responses == multiset{}
    && (forall k :: k in s.senders ==> LocalSender(s.origins, k, s.senders[k]))
    && forall i :: 0 <= i < |s.written| ==> LocalWrite(s.origins, s.written[i])
  }

  predicate LocalSender(os: seq<Origin>, k: (ConnId, StreamId), st: ServerStream) {
    st.origin in os && st.origin.conn == k.0 && Recognised(st.origin.asked) && st.requestId == KeptId(st.origin.asked)
  }

  predicate LocalWrite(os: seq<Origin>, w: Written) {
    && w.answers in os && w.own && w.conn == w.answers.conn && Recognised(w.answers.asked) && Replies(w.answers.asked)
    && w.reqId == Number(KeptId(w.answers.asked), true)
  }

  ghost predicate NoneRelays(s: State) {
    forall o :: o in s.origins && Recognised(o.asked) ==> !Relays(o.asked)
  }

  lemma LocalStep(s: State, step: Step)
    requires OnlyLocal(s) && Enabled(s, step) && NoneRelays(Apply(s, step))
    ensures OnlyLocal(Apply(s, step))
  {
    hide Recognised, KeptId, Readable, Decimal, Number, ParseUint, IdOf, Relays, Replies, Fate;
    var t := Apply(s, step);
    forall o | o in s.origins ensures o in t.origins {}
    forall k | k in t.senders ensures LocalSender(t.origins, k, t.senders[k]) {
      if k in s.senders { assert LocalSender(s.origins, k, s.senders[k]); }
    }
    forall i | 0 <= i < |t.written| ensures LocalWrite(t.origins, t.written[i]) {
      if i < |s.written| { assert LocalWrite(s.origins, s.written[i]); }
    }
    if step.Send? { assert LocalSender(s.origins, (step.conn, step.streamId), s.senders[(step.conn, step.streamId)]); }
  }

  lemma {:induction false} LocalRun(states: seq<State>, steps: seq<Step>)
    requires IsRun(states, steps) && NoneRelays(states[|steps|])
    ensures OnlyLocal(states[|steps|])
    decreases |steps|
  {
    hide Recognised, Relays, Enabled, Apply, LocalSender, LocalWrite;
    if steps != [] {
      var last := |steps| - 1;
      assert Enabled(states[last], steps[last]) && states[last + 1] == Apply(states[last], steps[last]);
      OriginsKept(states[last], steps[last]);
      LocalRun(states[..last + 1], steps[..last]);
      LocalStep(states[last], steps[last]);
    }
  }

  lemma OriginsKept(s: State, step: Step)
    requires Enabled(s, step)
    ensures forall o :: o in s.origins ==> o in Apply(s, step).origins
  {
    hide Recognised, KeptId, Readable, Decimal, Number, ParseUint, IdOf, Relays, Replies, Fate;
  }

  /** Every answer a recognised request can get is numbered as it should be, and if it can get one from the upstream, no ID
      is issued twice. */
  ghost predicate Harmless(a: Asked, n: nat) {
    && (Replies(a) || Relays(a) ==> KeepsId(a, true))
    && (Relays(a) ==> KeepsId(a, false) && n <= ID_SPACE)
  }

  /** The exact condition, for every set of requests and every number n of IDs issued: all runs with n requests from the
      set keep responses with their requests if and only if there are none, or every request of the set that opens a stream
      is harmless. */
  lemma CorrelatedIff(allowed: iset<Asked>, n: nat)
    ensures (forall states, steps :: IsRun(states, steps) && |Last(states, steps).origins| == n && AllFrom(Last(states, steps), allowed)
                                     ==> Correlated(Last(states, steps)))
       <==> (n == 0 || forall a :: a in allowed && Readable(a) && Recognised(a) ==> Harmless(a, n))
  {
    hide Recognised, KeepsId, Readable, Replies, Relays;
    if n == 0 || forall a :: a in allowed && Readable(a) && Recognised(a) ==> Harmless(a, n) {
      forall states, steps | IsRun(states, steps) && |Last(states, steps).origins| == n && AllFrom(Last(states, steps), allowed)
        ensures Correlated(Last(states, steps))
      {
        AllCorrelated(states, steps, allowed);
      }
    } else {
      var a :| a in allowed && Readable(a) && Recognised(a) && !Harmless(a, n);
      var states, steps := Harmful(a, n, allowed);
    }
  }

  lemma Harmful(a: Asked, n: nat, allowed: iset<Asked>) returns (states: seq<State>, steps: seq<Step>)
    requires Readable(a) && Recognised(a) && !Harmless(a, n) && a in allowed && n > 0
    ensures IsRun(states, steps) && |Last(states, steps).origins| == n && AllFrom(Last(states, steps), allowed)
    ensures !Correlated(Last(states, steps))
  {
    hide Recognised, KeepsId, Readable, Replies, Relays, IsRun, Last, Correlated, AllFrom;
    if Relays(a) && n > ID_SPACE {
      states, steps := WrongAnswer(a, n, allowed);
    } else if Relays(a) {
      states, steps := WrongResponse(a, KeepsId(a, false), n, allowed);
    } else {
      states, steps := WrongReply(a, n, allowed);
    }
  }

  lemma AllCorrelated(states: seq<State>, steps: seq<Step>, allowed: iset<Asked>)
    requires IsRun(states, steps) && AllFrom(Last(states, steps), allowed)
    requires var n := |Last(states, steps).origins|;
             n == 0 || forall a :: a in allowed && Readable(a) && Recognised(a) ==> Harmless(a, n)
    ensures Correlated(Last(states, steps))
  {
    hide Recognised, KeepsId, Readable, KeptId, Number, Decimal, IdOf, Replies, Relays;
    var s := Last(states, steps);
    if |s.origins| <= ID_SPACE {
      ResponsesAreCorrelated(states, steps);
      RunConsistent(states, steps);
      forall i | 0 <= i < |s.written| ensures KeepsId(s.written[i].answers.asked, s.written[i].own) {
        assert Done(s.origins, s.servers, s.written[i]);
        var k := s.written[i].answers.serial;
        assert s.origins[k].asked in allowed && Readable(s.origins[k].asked);
      }
    } else {
      RunReadable(states, steps);
      LocalCorrelated(states, steps, allowed);
    }
  }

  lemma LocalCorrelated(states: seq<State>, steps: seq<Step>, allowed: iset<Asked>)
    requires IsRun(states, steps) && AllFrom(Last(states, steps), allowed) && |Last(states, steps).origins| > ID_SPACE
    requires forall a :: a in allowed && Readable(a) && Recognised(a) ==> Harmless(a, |Last(states, steps).origins|)
    requires forall i :: 0 <= i < |Last(states, steps).origins| ==> Readable(Last(states, steps).origins[i].asked)
    ensures Correlated(Last(states, steps))
  {
    var s := Last(states, steps);
    hide Recognised, Readable, KeptId, Number, Replies, Relays;
    forall o | o in s.origins && Recognised(o.asked) ensures !Relays(o.asked) {
      var i :| 0 <= i < |s.origins| && s.origins[i] == o;
      assert s.origins[i].asked in allowed && Readable(s.origins[i].asked);
    }
    LocalRun(states, steps);
    forall i | 0 <= i < |s.written|
      ensures s.written[i].conn == s.written[i].answers.conn && s.written[i].reqId == s.written[i].answers.asked.cmd.reqId
    {
      assert LocalWrite(s.origins, s.written[i]);
      var k :| 0 <= k < |s.origins| && s.origins[k] == s.written[i].answers;
      assert s.origins[k].asked in allowed && Readable(s.origins[k].asked);
    }
  }

  lemma {:induction false} RunReadable(states: seq<State>, steps: seq<Step>)
    requires IsRun(states, steps)
    ensures forall i :: 0 <= i < |states[|steps|].origins| ==> Readable(states[|steps|].origins[i].asked)
    decreases |steps|
  {
    hide Recognised, KeptId, Readable, Decimal, Number, ParseUint, IdOf, Relays, Replies, Fate;
    if steps != [] {
      var last := |steps| - 1;
      assert states[last + 1] == Apply(states[last], steps[last]);
      RunReadable(states[..last + 1], steps[..last]);
    }
  }

  // Which stream ID a request gets does not decide what becomes of it.
  lemma FateAnyId(a: Asked, id: StreamId)
    requires a.cmd.Request?
    ensures var r := Forwarding.Forward(a.cmd, a.user, 0, id);
            && (r.Relayed? <==> Fate(a).Relayed?) && (r.Hijacked? <==> Fate(a).Hijacked?)
            && (r.Relayed? ==> (r.cmd.Request? <==> Fate(a).cmd.Request?))
  {
    hide Decimal, Forwarding.AllFields, Forwarding.Received, Forwarding.Sent;
    var f, noContent := Forwarding.AllFields(a.cmd, a.user, 0), a.cmd.content == [];
    Forwarding.ReceivedAlike(f, id, Decimal(0), noContent);
    Forwarding.SentAlike(Forwarding.Received(f, id, noContent), Forwarding.Received(f, Decimal(0), noContent));
  }

  /** What decides the fate of a request that was read, from its frame and its user headers alone, with the names and numbers
      of the protocol.  Any header that is not there counts as what the frame says: protocol 1, type 1, code 1. */
  lemma RecognisedIff(a: Asked)
    requires Readable(a)
    ensures Recognised(a) <==> && ("protocol" in a.user ==> ParseUint(a.user["protocol"], 8) in {1, 2})
                               && ("cmdtype" in a.user ==> ParseUint(a.user["cmdtype"], 8) == 1)
  {
    SeenField(a, Forwarding.PROTOCOL);
    SeenField(a, Forwarding.CMD_TYPE);
    Forwarding.PrintedByte(1 as char);
    hide HeaderMap, ParseUint, Decimal, Forwarding.CommonFields;
  }

  lemma RepliesIff(a: Asked)
    requires Readable(a)
    ensures Replies(a) <==> ("protocol" in a.user ==> ParseInt(a.user["protocol"], 64) % 256 == 1)
  {
    hide HeaderMap, ParseInt, Decimal, Readable;
    SeenField(a, Forwarding.PROTOCOL);
    OneSurvives();
  }

  lemma RelaysIff(a: Asked)
    requires Readable(a)
    ensures Relays(a) <==> && ("protocol" in a.user ==> ParseUint(a.user["protocol"], 8) == 1)
                           && ("cmdcode" in a.user ==> ParseInt(a.user["cmdcode"], 16) == 1)
                           && !Fate(a).Hijacked?
    ensures Fate(a).Hijacked? <==> && "x-mosn-status" in a.user && ParseInt(a.user["x-mosn-status"], 64) != 200
                                   && ("protocol" in a.user ==> ParseInt(a.user["protocol"], 64) % 256 in {1, 2})
  {
    hide ParseInt, ParseUint, Decimal, Forwarding.Forward, Readable, Forwarding.Seen, Forwarding.COMMON;
    Forwarding.FateIs(a.cmd, a.user, 0, Decimal(0));
    SeenOnes(a);
    OneParses();
    assert a.cmd.Request? by { RequestOnly(a); }
  }

  lemma RequestOnly(a: Asked)
    requires Readable(a)
    ensures a.cmd.Request?
  {
  }

  lemma OneParses()
    ensures ParseUint(Decimal(1), 8) == 1 && ParseInt(Decimal(1), 16) == 1 && ParseInt(Decimal(1), 64) == 1
  {
    hide ParseInt, ParseUint, Decimal;
    Forwarding.PrintedNumbers(1);
    OneSurvives();
  }

  lemma SeenOnes(a: Asked)
    requires Readable(a)
    ensures Forwarding.PROTOCOL in Forwarding.COMMON && Forwarding.CMD_CODE in Forwarding.COMMON
    ensures Forwarding.Seen(a.cmd, a.user, Forwarding.PROTOCOL) == if "protocol" in a.user then a.user["protocol"] else Decimal(1)
    ensures Forwarding.Seen(a.cmd, a.user, Forwarding.CMD_CODE) == if "cmdcode" in a.user then a.user["cmdcode"] else Decimal(1)
  {
    assert Forwarding.Low64(1) == 1;
    hide Decimal, Forwarding.Low64;
  }

  lemma SeenField(a: Asked, k: ByteString)
    requires Readable(a) && (k == Forwarding.PROTOCOL || k == Forwarding.CMD_TYPE)
    ensures Forwarding.Value(HeaderMap(a), k) == if k in a.user then a.user[k] else Decimal(1)
  {
    hide HeaderMap, Decimal, BoltCodec.OnWire, Forwarding.Value;
    if k in a.user {
      UserField(a, k);
    } else {
      FrameSays(a, k);
      FrameField(a, k);
    }
  }

  lemma FrameSays(a: Asked, k: ByteString)
    requires Readable(a) && (k == Forwarding.PROTOCOL || k == Forwarding.CMD_TYPE)
    ensures k in Forwarding.COMMON && Forwarding.CommonFields(a.cmd)[k] == Decimal(1)
  {
    assert Forwarding.PROTOCOL != Forwarding.CMD_TYPE;
    hide Decimal;
  }

  lemma UserField(a: Asked, k: ByteString)
    requires k in a.user && k != Forwarding.STREAM_END
    ensures Forwarding.Value(HeaderMap(a), k) == a.user[k]
  {
    hide Forwarding.AllFields, Forwarding.STREAM_END, Forwarding.YES;
    Forwarding.UserOnTop(a.cmd, a.user, 0, k);
  }

  // A request whose user headers avoid the reserved names reaches the upstream and is harmless until the counter comes round.
  lemma CleanIsHarmless(a: Asked, n: nat)
    requires Readable(a) && a.user.Keys !! Forwarding.Reserved(true)
    ensures Recognised(a) && Relays(a) && (Harmless(a, n) <==> n <= ID_SPACE)
  {
    CleanRelays(a);
    CleanKeepsId(a, true);
    CleanKeepsId(a, false);
    hide Recognised, Relays, Replies, KeepsId, Readable, Forwarding.Reserved;
  }

  lemma CleanRelays(a: Asked)
    requires Readable(a) && a.user.Keys !! Forwarding.Reserved(true)
    ensures Recognised(a) && Relays(a)
  {
    hide Forwarding.Forward, Forwarding.AllFields, Forwarding.IsSofaRequest, Forwarding.Reserved, Decimal, BoltCodec.OnWire,
      Forwarding.STREAM_END;
    Forwarding.RequestRecognised(a.cmd, a.user, 0, a.cmd.content == []);
    Forwarding.GoodForward(a.cmd, a.user, 0, 0);
  }

  lemma CleanKeepsId(a: Asked, own: bool)
    requires Readable(a) && a.user.Keys !! Forwarding.Reserved(true)
    ensures KeepsId(a, own)
  {
    Forwarding.NamesListed();
    assert Forwarding.REQ_ID !in a.user;
    hide KeepsId, Readable, Number, Forwarding.Reserved, Forwarding.REQ_ID;
    KeepsIdIff(a, own);
  }

  // A request with these two parts and nothing else.
  function Named(reqId: nat, name: ByteString): Asked {
    Asked(BoltCodec.Request(BoltCodec.PROTOCOL_CODE_V1, BoltCodec.REQUEST, BoltCodec.RPC_REQUEST, BoltCodec.PROTOCOL_CODE_V1, reqId,
                            BoltCodec.PROTOCOL_CODE_V1, 0, 0, 17 + |name|, 0, [], EncodeEntry((Forwarding.REQ_ID, name)), []),
          map[Forwarding.REQ_ID := name])
  }

  lemma NamedFacts(reqId: nat, name: ByteString)
    requires reqId < ID_SPACE && |name| < 100
    ensures Readable(Named(reqId, name)) && Recognised(Named(reqId, name)) && Replies(Named(reqId, name))
    ensures MapSerializer.Decode(Named(reqId, name).cmd.headerMap) == Ok(Named(reqId, name).user)
    ensures KeptId(Named(reqId, name)) == name
  {
    NamedReadable(reqId, name);
    NamedRecognised(reqId, name);
    FrameId(Named(reqId, name));
    hide KeptId, Recognised, Readable, Replies, MapSerializer.Decode;
  }

  lemma NamedReadable(reqId: nat, name: ByteString)
    requires reqId < ID_SPACE && |name| < 100
    ensures Readable(Named(reqId, name)) && MapSerializer.Decode(Named(reqId, name).cmd.headerMap) == Ok(Named(reqId, name).user)
  {
    var e := (Forwarding.REQ_ID, name);
    RoundTrip([e], map[Forwarding.REQ_ID := name]);
    assert EncodeEntries([e]) == EncodeEntry(e);
  }

  lemma NamedRecognised(reqId: nat, name: ByteString)
    ensures Recognised(Named(reqId, name)) && Replies(Named(reqId, name))
  {
    hide ParseUint, ParseInt, Decimal, HeaderMap, Named, Forwarding.Value;
    NamedFields(reqId, name);
    Forwarding.PrintedByte(BoltCodec.PROTOCOL_CODE_V1);
    OneSurvives();
  }

  lemma NamedFields(reqId: nat, name: ByteString)
    ensures var h := HeaderMap(Named(reqId, name));
            Forwarding.Value(h, Forwarding.PROTOCOL) == Decimal(1) && Forwarding.Value(h, Forwarding.CMD_TYPE) == Decimal(1)
  {
    var a := Named(reqId, name);
    assert Forwarding.PROTOCOL != Forwarding.REQ_ID && Forwarding.CMD_TYPE != Forwarding.REQ_ID;
    Forwarding.CommonValues(a.cmd);
    hide Decimal, HeaderMap, Forwarding.Value, Forwarding.CommonFields, Forwarding.REQ_ID;
    FrameField(a, Forwarding.PROTOCOL);
    FrameField(a, Forwarding.CMD_TYPE);
  }

  lemma OneSurvives()
    ensures ParseInt(Decimal(1), 64) == 1
  {
    hide Decimal, ParseInt, MaxUint;
    ParsePrinted(1, 64);
    WideWidths();
  }

  // Without a user header of that name, the map holds what the frame said.
  lemma FrameField(a: Asked, k: ByteString)
    requires a.cmd.Request? && k in Forwarding.COMMON && k !in a.user
    ensures Forwarding.Value(HeaderMap(a), k) == Forwarding.CommonFields(a.cmd)[k]
  {
    assert Forwarding.STREAM_END !in Forwarding.COMMON && Forwarding.REQUEST_ONLY !! Forwarding.COMMON by { Forwarding.NamesDisjoint(); }
    hide Decimal, Forwarding.CommonFields, Forwarding.OwnFields, Forwarding.REQUEST_ONLY, Forwarding.STREAM_END, Forwarding.COMMON;
  }

  // Frame ID 7 and a user header that says 5, and frame ID 0 and one that says +5.
  const RENAMED := Named(7, "5")
  const SIGNED := Named(0, "+5")

  /** Two failing inputs, each the only request and decoded from its own header bytes: a reply of the proxy's own to either
      goes out under 5.  A forwarded response would carry the right ID in the second case. */
  lemma AnsweredUnderFive(a: Asked) returns (states: seq<State>, steps: seq<Step>)
    requires a == RENAMED || a == SIGNED
    ensures Readable(a) && MapSerializer.Decode(a.cmd.headerMap) == Ok(a.user) && (a == SIGNED ==> KeepsId(a, false))
    ensures IsRun(states, steps) && Last(states, steps).written == [Written(0, 5, First(a), true)] && !Correlated(Last(states, steps))
  {
    NamedFacts(7, "5");
    NamedFacts(0, "+5");
    Fives();
    assert !KeepsId(a, true) && (a == SIGNED ==> KeepsId(a, false));
    assert Number(KeptId(a), true) == 5;
    hide IsRun, Last, Readable, Recognised, Replies, KeepsId, RENAMED, SIGNED, Correlated, Number;
    states, steps := WrongReply(a, 1, iset{a});
  }

  lemma Fives()
    ensures Number("5", true) == 5 && Number("+5", true) == 5 && Number("+5", false) == 0
  {
    hide MaxUint;
    WideWidths();
    ScanFive(MaxUint(64));
    assert "+5"[1..] == "5" && Scan("+5", 0, MaxUint(32)) == 0;
    hide Scan;
  }

  lemma ScanFive(max: nat)
    requires max > 9
    ensures Scan("5", 0, max) == 5
  {
    assert "5"[1..] == [];
  }
}
