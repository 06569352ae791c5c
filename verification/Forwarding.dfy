/** Forwarding a Bolt V1 command: from the decoded command to a header map (pkg/protocol/sofarpc/handler), through the
    stream layer (pkg/stream/sofarpc), and back to a command that is encoded for the other side
    (pkg/protocol/sofarpc/codec/boltv1codec.go, pkg/protocol/sofarpc/adapter.go). */
module Forwarding {
  import opened Options
  import opened Bytes
  import opened Decimals
  import opened MapSerializer
  import opened BoltCodec

  const PROTOCOL: ByteString := "protocol"
  const CMD_TYPE: ByteString := "cmdtype"
  const CMD_CODE: ByteString := "cmdcode"
  const VERSION: ByteString := "version"
  const REQ_ID: ByteString := "requestid"
  const CODEC: ByteString := "codec"
  const TIMEOUT: ByteString := "timeout"
  const CLASS_LEN: ByteString := "classlen"
  const HEADER_LEN: ByteString := "headerlen"
  const CONTENT_LEN: ByteString := "contentlen"
  const CLASS_NAME: ByteString := "classname"
  const RESP_STATUS: ByteString := "respstatus"
  const RESP_TIME: ByteString := "resptimemills"

  const STREAM_ID: ByteString := "x-mosn-streamid"
  const GLOBAL_TIMEOUT: ByteString := "x-mosn-global-timeout"
  const TRY_TIMEOUT: ByteString := "x-mosn-try-timeout"
  const STREAM_END: ByteString := "x-mosn-endstream"
  const STATUS: ByteString := "x-mosn-status"

  const YES: ByteString := "yes"
  const SUCCESS_CODE := 200

  const COMMON: set<ByteString> :=
    {PROTOCOL, CMD_TYPE, CMD_CODE, VERSION, REQ_ID, CODEC, CLASS_LEN, HEADER_LEN, CONTENT_LEN, CLASS_NAME}
  const REQUEST_ONLY: set<ByteString> := {TIMEOUT}
  const RESPONSE_ONLY: set<ByteString> := {RESP_STATUS, RESP_TIME}
  const PROXY: set<ByteString> := {STREAM_ID, GLOBAL_TIMEOUT, TRY_TIMEOUT, STREAM_END, STATUS}

  function OwnNames(isRequest: bool): set<ByteString> {
    if isRequest then REQUEST_ONLY else RESPONSE_ONLY
  }

  // The names a user header must avoid.
  function Reserved(isRequest: bool): set<ByteString> {
    COMMON + OwnNames(isRequest) + PROXY
  }

  // uint64(i).
  function Low64(i: int): nat {
    i % 0x1_0000_0000_0000_0000
  }

  // deserializeRequestAllFields and deserializeResponseAllFields, before the user headers are put on top.
  function CommonFields(cmd: Command): (r: Headers)
    ensures r.Keys == COMMON
  {
    map[PROTOCOL := Decimal(cmd.protocol as int), CMD_TYPE := Decimal(cmd.cmdType as int), CMD_CODE := Decimal(Low64(cmd.cmdCode)),
        VERSION := Decimal(cmd.version as int), REQ_ID := Decimal(cmd.reqId), CODEC := Decimal(cmd.codec as int),
        CLASS_LEN := Decimal(Low64(cmd.classLen)), HEADER_LEN := Decimal(Low64(cmd.headerLen)),
        CONTENT_LEN := Decimal(Low64(cmd.contentLen)), CLASS_NAME := cmd.className]
  }

  function OwnFields(cmd: Command, now: nat): (r: Headers)
    ensures r.Keys == OwnNames(cmd.Request?)
  {
    if cmd.Request? then map[TIMEOUT := Decimal(Low64(cmd.timeout))]
    else map[RESP_STATUS := Decimal(Low64(cmd.status)), RESP_TIME := Decimal(now)]
  }

  function AllFields(cmd: Command, user: Headers, now: nat): Headers {
    CommonFields(cmd) + OwnFields(cmd, now) + user
  }

  function Value(h: Headers, k: ByteString): ByteString {
    if k in h then h[k] else []
  }

  predicate IsSofaRequest(h: Headers) {
    var proto := ParseUint(Value(h, PROTOCOL), 8);
    (proto == 1 || proto == 2) && ParseUint(Value(h, CMD_TYPE), 8) == 1
  }

  /** Process and OnDecodeHeader: a request of a new stream gets the stream ID as its request ID; the stream ID, the
      timeout for a try and the end-of-stream mark are added for the proxy. */
  function Received(h: Headers, streamId: ByteString, noContent: bool): Headers {
    var h0 := if noContent then h[STREAM_END := YES] else h;
    var h1 := if IsSofaRequest(h0) then h0[REQ_ID := streamId] else h0;
    var h2 := h1[STREAM_ID := streamId];
    if TIMEOUT in h2 then h2[TRY_TIMEOUT := h2[TIMEOUT]] else h2
  }

  datatype Relay = Relayed(cmd: Command, headers: Headers) | Hijacked | Refused | Panicked

  /** encodeSterilize and EncodeHeaders: a server stream restores the request ID, the proxy's own headers go, an error
      status turns into a response of the proxy's own, and the rest becomes a command. */
  function Sent(h: Headers, restore: Option<ByteString>): Relay {
    var h0 := if restore.Some? then h[REQ_ID := restore.value] else h;
    Encoded(h0 - {STREAM_ID, GLOBAL_TIMEOUT, TRY_TIMEOUT, STREAM_END})
  }

  function Encoded(h1: Headers): Relay {
    var h2 := h1 - {STATUS};
    if STATUS in h1 && ParseInt(h1[STATUS], 64) != SUCCESS_CODE && BuildsResponse(h2) then Hijacked
    else if PROTOCOL !in h2 || ParseUint(h2[PROTOCOL], 8) != 1 then Refused
    else MapToCmd(h2)
  }

  // BuildSofaRespMsg succeeds.
  predicate BuildsResponse(h: Headers) {
    REQ_ID in h && var pro := ParseInt(Value(h, PROTOCOL), 64) % 256; pro == 1 || pro == 2
  }

  function ParseByte(s: ByteString): Byte {
    ToByte(ParseUint(s, 8))
  }

  /** mapToCmd: every property is parsed and taken out of the map, and what is left is the user headers.  A missing
      property is nil, and converting nil panics, but for the class name, which then serializes to a zero byte. */
  function MapToCmd(h: Headers): Relay {
    if |h| < 10 || CMD_CODE !in h then Refused
    else
      var code := ParseInt(h[CMD_CODE], 16);
      var isRequest := code == RPC_REQUEST;
      if !isRequest && code != RPC_RESPONSE && code != HEARTBEAT then Refused
      else if !(COMMON - {CLASS_NAME} + OwnNames(isRequest) <= h.Keys) then Panicked
      else
        Relayed(Build(h, isRequest), h - COMMON - OwnNames(isRequest))
  }

  function Build(h: Headers, isRequest: bool): (r: Command)
    requires COMMON - {CLASS_NAME} + OwnNames(isRequest) <= h.Keys
    ensures r.Request? == isRequest
  {
    var className := if CLASS_NAME in h then h[CLASS_NAME] else [ZERO];
    if isRequest then
      Request(ParseByte(h[PROTOCOL]), ParseByte(h[CMD_TYPE]), ParseInt(h[CMD_CODE], 16), ParseByte(h[VERSION]),
              ParseUint(h[REQ_ID], 32), ParseByte(h[CODEC]), ParseInt(h[TIMEOUT], 32), ParseInt(h[CLASS_LEN], 16),
              ParseInt(h[HEADER_LEN], 16), ParseInt(h[CONTENT_LEN], 32), className, [], [])
    else
      Response(ParseByte(h[PROTOCOL]), ParseByte(h[CMD_TYPE]), ParseInt(h[CMD_CODE], 16), ParseByte(h[VERSION]),
               ParseUint(h[REQ_ID], 32), ParseByte(h[CODEC]), ParseInt(h[RESP_STATUS], 16), ParseInt(h[CLASS_LEN], 16),
               ParseInt(h[HEADER_LEN], 16), ParseInt(h[CONTENT_LEN], 32), className, [], [])
  }

  /** The whole way of one command through the proxy.  id is the request ID the other side sees: the stream ID for a
      request on its way up, the downstream's own request ID for a response on its way down. */
  function Forward(cmd: Command, user: Headers, now: nat, id: ByteString): Relay {
    if cmd.Request? then Sent(Received(AllFields(cmd, user, now), id, cmd.content == []), None)
    else Sent(Received(AllFields(cmd, user, now), Decimal(cmd.reqId), cmd.content == []), Some(id))
  }

  // Maps that differ in the two IDs only.
  ghost predicate Alike(h: Headers, h': Headers) {
    h.Keys == h'.Keys && forall k :: k in h && k != REQ_ID && k != STREAM_ID ==> h[k] == h'[k]
  }

  lemma ReceivedAlike(h: Headers, id: ByteString, id': ByteString, noContent: bool)
    ensures Alike(Received(h, id, noContent), Received(h, id', noContent))
  {
    assert TIMEOUT != REQ_ID && TIMEOUT != STREAM_ID && TRY_TIMEOUT != REQ_ID && TRY_TIMEOUT != STREAM_ID;
    hide IsSofaRequest, TIMEOUT, REQ_ID, STREAM_ID, TRY_TIMEOUT, STREAM_END;
  }

  // The IDs do not decide what becomes of a map.
  lemma SentAlike(h: Headers, h': Headers)
    requires Alike(h, h')
    ensures var r, r' := Sent(h, None), Sent(h', None);
            && (r.Relayed? <==> r'.Relayed?) && (r.Hijacked? <==> r'.Hijacked?)
            && (r.Relayed? ==> (r.cmd.Request? <==> r'.cmd.Request?))
  {
    hide Encoded, Alike;
    var drop := {STREAM_ID, GLOBAL_TIMEOUT, TRY_TIMEOUT, STREAM_END};
    MinusAlike(h, h', drop);
    EncodedAlike(h - drop, h' - drop);
  }

  lemma IdsApart()
    ensures REQ_ID != STATUS && REQ_ID != PROTOCOL && STREAM_ID != STATUS && STREAM_ID != PROTOCOL
  {
  }

  lemma EncodedAlike(h: Headers, h': Headers)
    requires Alike(h, h')
    ensures var r, r' := Encoded(h), Encoded(h');
            && (r.Relayed? <==> r'.Relayed?) && (r.Hijacked? <==> r'.Hijacked?)
            && (r.Relayed? ==> (r.cmd.Request? <==> r'.cmd.Request?))
  {
    hide MapToCmd, Alike, BuildsResponse, ParseUint, ParseInt, REQ_ID, STREAM_ID, STATUS, PROTOCOL;
    IdsApart();
    var h2, h2' := h - {STATUS}, h' - {STATUS};
    MinusAlike(h, h', {STATUS});
    MapToCmdAlike(h2, h2');
    BuildsAlike(h2, h2');
    SameAt(h, h', STATUS);
    SameAt(h2, h2', PROTOCOL);
  }

  lemma BuildsAlike(h: Headers, h': Headers)
    requires Alike(h, h')
    ensures BuildsResponse(h) <==> BuildsResponse(h')
  {
    assert REQ_ID != PROTOCOL && STREAM_ID != PROTOCOL;
    hide ParseInt, REQ_ID, STREAM_ID, PROTOCOL;
  }

  lemma SameAt(h: Headers, h': Headers, k: ByteString)
    requires Alike(h, h')
    ensures (k in h <==> k in h') && (k in h && k != REQ_ID && k != STREAM_ID ==> h[k] == h'[k])
  {
  }

  lemma MinusAlike(h: Headers, h': Headers, drop: set<ByteString>)
    requires Alike(h, h')
    ensures Alike(h - drop, h' - drop)
  {
  }

  lemma MapToCmdAlike(h: Headers, h': Headers)
    requires Alike(h, h')
    ensures var r, r' := MapToCmd(h), MapToCmd(h');
            && (r.Relayed? <==> r'.Relayed?) && !r.Hijacked? && !r'.Hijacked?
            && (r.Relayed? ==> (r.cmd.Request? <==> r'.cmd.Request?))
  {
    assert REQ_ID != CMD_CODE && STREAM_ID != CMD_CODE;
    hide Build, ParseInt, COMMON, OwnNames, REQ_ID, STREAM_ID, CMD_CODE, CLASS_NAME;
    assert |h| == |h.Keys| && |h'| == |h'.Keys|;
    SameAt(h, h', CMD_CODE);
  }

  // The map that reaches mapToCmd when no error status diverts it.
  function Merged(cmd: Command, user: Headers, now: nat, id: ByteString): Headers {
    var h := if cmd.Request? then Received(AllFields(cmd, user, now), id, cmd.content == [])
             else Received(AllFields(cmd, user, now), Decimal(cmd.reqId), cmd.content == [])[REQ_ID := id];
    h - PROXY
  }

  lemma ForwardMerged(cmd: Command, user: Headers, now: nat, id: ByteString)
    ensures Forward(cmd, user, now, id) == Hijacked || Forward(cmd, user, now, id) == Refused
            || Forward(cmd, user, now, id) == MapToCmd(Merged(cmd, user, now, id))
    ensures Merged(cmd, user, now, id).Keys == COMMON + OwnNames(cmd.Request?) + user.Keys - PROXY
    ensures forall k :: k in Merged(cmd, user, now, id) && k != REQ_ID ==> Merged(cmd, user, now, id)[k] == AllFields(cmd, user, now)[k]
  {
    hide CommonFields, OwnFields, MapToCmd, Decimal, ParseUint, ParseInt;
    var h := if cmd.Request? then Received(AllFields(cmd, user, now), id, cmd.content == [])
             else Received(AllFields(cmd, user, now), Decimal(cmd.reqId), cmd.content == [])[REQ_ID := id];
    assert h - {STREAM_ID, GLOBAL_TIMEOUT, TRY_TIMEOUT, STREAM_END} - {STATUS} == h - PROXY;
  }

  // A property as the receiver of the map sees it: user headers are written over the fields of the frame.
  ghost function Seen(cmd: Command, user: Headers, k: ByteString): ByteString {
    if k in user then user[k] else Value(CommonFields(cmd), k)
  }

  lemma StatusIsTheUsers(cmd: Command, user: Headers, now: nat, id: ByteString, noContent: bool)
    ensures var h := Received(AllFields(cmd, user, now), id, noContent);
            (STATUS in h <==> STATUS in user) && (STATUS in h ==> h[STATUS] == user[STATUS])
  {
    hide CommonFields, OwnFields, IsSofaRequest, COMMON, REQUEST_ONLY, RESPONSE_ONLY, STATUS, STREAM_END, REQ_ID, STREAM_ID,
      TRY_TIMEOUT, TIMEOUT, YES;
    StatusApart();
  }

  lemma StatusApart()
    ensures STATUS !in COMMON && STATUS !in REQUEST_ONLY && STATUS !in RESPONSE_ONLY
    ensures STATUS != STREAM_END && STATUS != REQ_ID && STATUS != STREAM_ID && STATUS != TRY_TIMEOUT
    ensures STATUS !in {STREAM_ID, GLOBAL_TIMEOUT, TRY_TIMEOUT, STREAM_END}
    ensures PROXY == {STREAM_ID, GLOBAL_TIMEOUT, TRY_TIMEOUT, STREAM_END} + {STATUS}
  {
  }

  lemma ForwardIs(cmd: Command, user: Headers, now: nat, id: ByteString)
    ensures var m := Merged(cmd, user, now, id);
            Forward(cmd, user, now, id) == if STATUS in user && ParseInt(user[STATUS], 64) != 200 && BuildsResponse(m) then Hijacked
                                           else if PROTOCOL !in m || ParseUint(m[PROTOCOL], 8) != 1 then Refused
                                           else MapToCmd(m)
  {
    hide AllFields, Received, MapToCmd, BuildsResponse, ParseInt, ParseUint, Decimal, PROTOCOL, STATUS, REQ_ID,
      STREAM_ID, GLOBAL_TIMEOUT, TRY_TIMEOUT, STREAM_END, PROXY;
    StatusApart();
    var noContent := cmd.content == [];
    var h := if cmd.Request? then Received(AllFields(cmd, user, now), id, noContent)
             else Received(AllFields(cmd, user, now), Decimal(cmd.reqId), noContent)[REQ_ID := id];
    StatusIsTheUsers(cmd, user, now, if cmd.Request? then id else Decimal(cmd.reqId), noContent);
    var drop := {STREAM_ID, GLOBAL_TIMEOUT, TRY_TIMEOUT, STREAM_END};
    assert h - drop - {STATUS} == h - PROXY;
    assert STATUS in h - drop <==> STATUS in user;
  }

  lemma MergedSees(cmd: Command, user: Headers, now: nat, id: ByteString, k: ByteString)
    requires k in COMMON && k != REQ_ID
    ensures k in Merged(cmd, user, now, id) && Merged(cmd, user, now, id)[k] == Seen(cmd, user, k)
  {
    NamesDisjoint();
    ForwardMerged(cmd, user, now, id);
    hide Merged, CommonFields, OwnFields, COMMON, REQUEST_ONLY, RESPONSE_ONLY, PROXY, REQ_ID, Forward, MapToCmd;
  }

  /** What becomes of a command, from its code and protocol and the user headers: a status other than 200 among the user
      headers makes the proxy answer itself if the protocol is 1 or 2; a protocol other than 1 or an unknown code is
      refused; a code of the other kind panics unless the user headers supply what that kind needs; and the rest is relayed,
      as a request exactly for code 1. */
  lemma FateIs(cmd: Command, user: Headers, now: nat, id: ByteString)
    ensures var r, pro, code := Forward(cmd, user, now, id), Seen(cmd, user, PROTOCOL), ParseInt(Seen(cmd, user, CMD_CODE), 16);
            var hijacked := STATUS in user && ParseInt(user[STATUS], 64) != 200 && ParseInt(pro, 64) % 256 in {1, 2};
            var refused := ParseUint(pro, 8) != 1 || code !in {0, 1, 2};
            var whole := if code == 1 then cmd.Request? || TIMEOUT in user
                         else cmd.Response? || (RESP_STATUS in user && RESP_TIME in user);
            && (r == Hijacked <==> hijacked) && (r == Refused <==> !hijacked && refused)
            && (r == Panicked <==> !hijacked && !refused && !whole)
            && (r.Relayed? ==> (r.cmd.Request? <==> code == 1))
  {
    NamesListed();
    assert REQ_ID != PROTOCOL && REQ_ID != CMD_CODE && PROTOCOL in COMMON && CMD_CODE in COMMON;
    ForwardIs(cmd, user, now, id);
    MergedSees(cmd, user, now, id, PROTOCOL);
    MergedSees(cmd, user, now, id, CMD_CODE);
    MapToCmdIs(cmd, user, now, id);
    hide Merged, MapToCmd, Forward, Seen, COMMON, REQUEST_ONLY, RESPONSE_ONLY, PROXY, ParseInt, ParseUint,
      PROTOCOL, CMD_CODE, STATUS, REQ_ID, TIMEOUT, RESP_STATUS, RESP_TIME;
    ForwardMerged(cmd, user, now, id);
  }

  lemma MapToCmdIs(cmd: Command, user: Headers, now: nat, id: ByteString)
    ensures var m := Merged(cmd, user, now, id); var code := if CMD_CODE in m then ParseInt(m[CMD_CODE], 16) else -1;
            var r := MapToCmd(m);
            var whole := if code == 1 then cmd.Request? || TIMEOUT in user
                         else cmd.Response? || (RESP_STATUS in user && RESP_TIME in user);
            && REQ_ID in m && CMD_CODE in m && !r.Hijacked? && (r == Refused <==> code !in {0, 1, 2})
            && (r == Panicked <==> code in {0, 1, 2} && !whole)
            && (r.Relayed? ==> (r.cmd.Request? <==> code == 1))
  {
    hide Merged, Build, ParseInt, COMMON, REQUEST_ONLY, RESPONSE_ONLY, PROXY, CMD_CODE, CLASS_NAME, TIMEOUT, RESP_STATUS, RESP_TIME, REQ_ID,
      Forward, MapToCmd, AllFields;
    ForwardMerged(cmd, user, now, id);
    CodeIsCommon();
    NamesDisjoint();
    NamesCount();
    var m := Merged(cmd, user, now, id);
    assert COMMON <= m.Keys;
    SubsetNotLarger(COMMON, m.Keys);
    OwnNamesApart();
    MapOutcome(m);
  }

  lemma CodeIsCommon()
    ensures CMD_CODE in COMMON && REQ_ID in COMMON
  {
  }

  lemma OwnNamesApart()
    ensures REQUEST_ONLY == {TIMEOUT} && RESPONSE_ONLY == {RESP_STATUS, RESP_TIME} && REQUEST_ONLY !! RESPONSE_ONLY
  {
  }

  // mapToCmd on a map that has all that both kinds need.
  lemma MapOutcome(m: Headers)
    requires COMMON <= m.Keys && |m| >= 10 && CMD_CODE in m
    ensures var code, r := ParseInt(m[CMD_CODE], 16), MapToCmd(m);
            && !r.Hijacked? && (r == Refused <==> code !in {0, 1, 2})
            && (r == Panicked <==> code in {0, 1, 2} && !(OwnNames(code == 1) <= m.Keys))
            && (r.Relayed? ==> (r.cmd.Request? <==> code == 1))
  {
    hide Build, ParseInt, COMMON, REQUEST_ONLY, RESPONSE_ONLY, CMD_CODE, CLASS_NAME, OwnNames;
  }

  // With the command code intact, what is left for the header is the user's map without the reserved names.
  lemma LeftForHeader(cmd: Command, user: Headers, now: nat, id: ByteString)
    requires Forward(cmd, user, now, id).Relayed?
    requires Forward(cmd, user, now, id).cmd.Request? == cmd.Request?
    ensures Forward(cmd, user, now, id).headers == user - Reserved(cmd.Request?)
  {
    hide Merged, AllFields, Forward, MapToCmd, OwnNames;
    ForwardMerged(cmd, user, now, id);
    var m := Merged(cmd, user, now, id);
    assert REQ_ID in COMMON;
    RelayedHeaders(m);
    forall k | k in user ensures k in AllFields(cmd, user, now) && AllFields(cmd, user, now)[k] == user[k] { UserOnTop(cmd, user, now, k); }
    var left, expected := m - COMMON - OwnNames(cmd.Request?), user - Reserved(cmd.Request?);
    assert left.Keys == expected.Keys;
    assert left == expected;
  }

  lemma UserOnTop(cmd: Command, user: Headers, now: nat, k: ByteString)
    requires k in user
    ensures k in AllFields(cmd, user, now) && AllFields(cmd, user, now)[k] == user[k]
  {
    hide CommonFields, OwnFields;
  }

  lemma RelayedHeaders(h: Headers)
    requires MapToCmd(h).Relayed?
    ensures MapToCmd(h).headers == h - COMMON - OwnNames(MapToCmd(h).cmd.Request?)
  {
    hide Build, ParseInt, OwnNames;
  }

  // A two-way RPC request or its response, as it comes off the wire.
  predicate Relayable(cmd: Command, now: nat) {
    && OnWire(cmd) && now < 0x8000_0000_0000_0000
    && if cmd.Request? then cmd.cmdType == REQUEST && cmd.cmdCode == RPC_REQUEST
       else cmd.cmdType == RESPONSE && cmd.cmdCode == RPC_RESPONSE
  }

  function Clamp(n: nat, max: nat): nat {
    if n <= max then n else max
  }

  // The command after printing and parsing its numbers; header and content are added by the encoder.
  function Rebuilt(cmd: Command, n: nat): Command {
    var classLen, headerLen := Clamp(Low64(cmd.classLen), 0x7FFF), Clamp(Low64(cmd.headerLen), 0x7FFF);
    var contentLen := Clamp(Low64(cmd.contentLen), 0x7FFF_FFFF);
    if cmd.Request? then
      Request(cmd.protocol, cmd.cmdType, cmd.cmdCode, cmd.version, n, cmd.codec, Clamp(Low64(cmd.timeout), 0x7FFF_FFFF),
              classLen, headerLen, contentLen, cmd.className, [], [])
    else
      Response(cmd.protocol, cmd.cmdType, cmd.cmdCode, cmd.version, n, cmd.codec, Clamp(Low64(cmd.status), 0x7FFF),
               classLen, headerLen, contentLen, cmd.className, [], [])
  }

  // A negative number is printed as a huge unsigned one and comes back as the largest of its width.
  lemma NegativeIsLargest(cmd: Command, n: nat)
    requires OnWire(cmd)
    ensures cmd.Response? && cmd.status < 0 ==> Rebuilt(cmd, n).status == 32767
    ensures |cmd.className| >= 32768 ==> Rebuilt(cmd, n).classLen == 32767
    ensures |cmd.headerMap| >= 32768 ==> Rebuilt(cmd, n).headerLen == 32767
  {
  }

  lemma PrintedNumbers(n: nat)
    ensures ParseUint(Decimal(n), 8) == Clamp(n, 0xFF) && ParseUint(Decimal(n), 32) == Clamp(n, 0xFFFF_FFFF)
    ensures ParseInt(Decimal(n), 16) == Clamp(n, 0x7FFF) && ParseInt(Decimal(n), 32) == Clamp(n, 0x7FFF_FFFF)
  {
    hide ParseUint, ParseInt, Decimal;
    Widths();
    ParsePrinted(n, 8);
    ParsePrinted(n, 16);
    ParsePrinted(n, 32);
  }

  lemma PrintedByte(b: Byte)
    ensures ParseUint(Decimal(b as int), 8) == b as int && ParseByte(Decimal(b as int)) == b
  {
    hide ParseUint, Decimal;
    PrintedNumbers(b as int);
  }

  lemma NamesDisjoint()
    ensures COMMON !! REQUEST_ONLY !! PROXY && COMMON !! RESPONSE_ONLY !! PROXY
    ensures PROTOCOL in COMMON && CMD_TYPE in COMMON && REQ_ID in COMMON && TIMEOUT != REQ_ID
  {
  }

  // Without reserved names among the user headers, every property is what the command said.
  lemma FieldsUnderneath(cmd: Command, user: Headers, now: nat)
    requires user.Keys !! Reserved(cmd.Request?)
    ensures var f := AllFields(cmd, user, now);
            && f.Keys == COMMON + OwnNames(cmd.Request?) + user.Keys
            && (forall k :: k in COMMON ==> f[k] == CommonFields(cmd)[k])
            && (forall k :: k in OwnNames(cmd.Request?) ==> f[k] == OwnFields(cmd, now)[k])
  {
    NamesDisjoint();
    hide CommonFields, OwnFields, COMMON, REQUEST_ONLY, RESPONSE_ONLY, PROXY;
  }

  // A request is recognised, so its request ID is replaced on receipt.
  lemma RequestRecognised(cmd: Command, user: Headers, now: nat, noContent: bool)
    requires Relayable(cmd, now) && cmd.Request? && user.Keys !! Reserved(true)
    ensures var f := AllFields(cmd, user, now); IsSofaRequest(if noContent then f[STREAM_END := YES] else f)
  {
    FieldsUnderneath(cmd, user, now);
    NamesDisjoint();
    PrintedByte(cmd.protocol);
    PrintedByte(cmd.cmdType);
    var f := AllFields(cmd, user, now);
    assert f[PROTOCOL] == Decimal(cmd.protocol as int) && f[CMD_TYPE] == Decimal(cmd.cmdType as int);
    assert STREAM_END != PROTOCOL && STREAM_END != CMD_TYPE;
    hide COMMON, REQUEST_ONLY, RESPONSE_ONLY, PROXY, AllFields, ParseUint, Decimal;
  }

  // The properties in the merged map when the user headers avoid the reserved names.
  lemma MergedFields(cmd: Command, user: Headers, now: nat, n: nat)
    requires Relayable(cmd, now) && user.Keys !! Reserved(cmd.Request?)
    ensures var m := Merged(cmd, user, now, Decimal(n));
            && m.Keys == COMMON + OwnNames(cmd.Request?) + user.Keys
            && (forall k :: k in COMMON && k != REQ_ID ==> m[k] == CommonFields(cmd)[k])
            && (forall k :: k in OwnNames(cmd.Request?) ==> m[k] == OwnFields(cmd, now)[k])
            && m[REQ_ID] == Decimal(n)
  {
    hide COMMON, REQUEST_ONLY, RESPONSE_ONLY, PROXY, AllFields, Decimal, CommonFields, OwnFields, Merged;
    NamesDisjoint();
    FieldsUnderneath(cmd, user, now);
    ForwardMerged(cmd, user, now, Decimal(n));
    MergedId(cmd, user, now, n);
  }

  lemma MergedId(cmd: Command, user: Headers, now: nat, n: nat)
    requires Relayable(cmd, now) && user.Keys !! Reserved(cmd.Request?)
    ensures REQ_ID in Merged(cmd, user, now, Decimal(n)) && Merged(cmd, user, now, Decimal(n))[REQ_ID] == Decimal(n)
  {
    if cmd.Request? { RequestRecognised(cmd, user, now, cmd.content == []); }
    NamesDisjoint();
    assert STREAM_ID != REQ_ID && TRY_TIMEOUT != REQ_ID && REQ_ID !in PROXY;
    hide COMMON, REQUEST_ONLY, RESPONSE_ONLY, PROXY, AllFields, Decimal, IsSofaRequest;
  }

  lemma {:induction false} SubsetNotLarger<T>(a: set<T>, b: set<T>)
    requires a <= b
    ensures |a| <= |b|
  {
    if x :| x in a {
      SubsetNotLarger(a - {x}, b - {x});
    }
  }

  lemma NamesCount()
    ensures |COMMON| == 10
  {
  }

  // The names a user header must avoid, as they are spelled.
  lemma ReservedNames()
    ensures Reserved(true) == {"protocol", "cmdtype", "cmdcode", "version", "requestid", "codec", "classlen", "headerlen", "contentlen",
                               "classname", "timeout", "x-mosn-streamid", "x-mosn-global-timeout", "x-mosn-try-timeout",
                               "x-mosn-endstream", "x-mosn-status"}
    ensures Reserved(false) == Reserved(true) - {"timeout"} + {"respstatus", "resptimemills"}
  {
  }

  // The names as far as lookups need them.
  lemma NamesListed()
    ensures {PROTOCOL, CMD_TYPE, CMD_CODE, VERSION, CODEC, CLASS_LEN, HEADER_LEN, CONTENT_LEN, CLASS_NAME} == COMMON - {REQ_ID}
    ensures REQ_ID in COMMON && TIMEOUT in REQUEST_ONLY && RESP_STATUS in RESPONSE_ONLY && RESP_TIME in RESPONSE_ONLY
    ensures {STREAM_ID, GLOBAL_TIMEOUT, TRY_TIMEOUT, STREAM_END, STATUS} == PROXY
    ensures STATUS !in {STREAM_ID, GLOBAL_TIMEOUT, TRY_TIMEOUT, STREAM_END}
  {
  }

  lemma CommonValues(cmd: Command)
    ensures var f := CommonFields(cmd);
            && f[PROTOCOL] == Decimal(cmd.protocol as int) && f[CMD_TYPE] == Decimal(cmd.cmdType as int)
            && f[CMD_CODE] == Decimal(Low64(cmd.cmdCode)) && f[VERSION] == Decimal(cmd.version as int)
            && f[CODEC] == Decimal(cmd.codec as int) && f[CLASS_LEN] == Decimal(Low64(cmd.classLen))
            && f[HEADER_LEN] == Decimal(Low64(cmd.headerLen)) && f[CONTENT_LEN] == Decimal(Low64(cmd.contentLen))
            && f[CLASS_NAME] == cmd.className
  {
    hide Decimal, Low64;
  }

  lemma OwnValues(cmd: Command, now: nat)
    ensures cmd.Request? ==> OwnFields(cmd, now)[TIMEOUT] == Decimal(Low64(cmd.timeout))
    ensures cmd.Response? ==> OwnFields(cmd, now)[RESP_STATUS] == Decimal(Low64(cmd.status)) && OwnFields(cmd, now)[RESP_TIME] == Decimal(now)
  {
    hide Decimal, Low64;
  }

  // A response carries the time it was received at, as a number that is read back whole.
  lemma TimeComesBack(cmd: Command, user: Headers, now: nat)
    requires Relayable(cmd, now) && cmd.Response? && RESP_TIME !in user
    ensures RESP_TIME in AllFields(cmd, user, now) && ParseInt(AllFields(cmd, user, now)[RESP_TIME], 64) == now
  {
    assert RESP_TIME in OwnNames(false);
    OwnValues(cmd, now);
    ParsePrinted(now, 64);
    WideWidths();
    hide Decimal, ParseInt, Low64, OnWire, CommonFields, OwnFields, OwnNames, MaxUint, RESP_TIME, RESP_STATUS, TIMEOUT, COMMON;
  }

  // What the proxy's own error status would need is not there.
  lemma NoStatus(cmd: Command, user: Headers, now: nat, id: ByteString, noContent: bool)
    requires user.Keys !! Reserved(cmd.Request?)
    ensures STATUS !in Received(AllFields(cmd, user, now), id, noContent)
  {
    hide AllFields, IsSofaRequest, PROTOCOL, CMD_TYPE;
    FieldsUnderneath(cmd, user, now);
    assert STATUS in PROXY && STATUS != STREAM_END && STATUS != REQ_ID && STATUS != STREAM_ID && STATUS != TRY_TIMEOUT;
    NamesDisjoint();
    hide COMMON, REQUEST_ONLY, RESPONSE_ONLY, PROXY, STATUS, STREAM_END, REQ_ID, STREAM_ID, TRY_TIMEOUT, TIMEOUT;
  }

  // Nothing diverts a command whose user headers avoid the reserved names.
  lemma NotDiverted(cmd: Command, user: Headers, now: nat, n: nat)
    requires Relayable(cmd, now) && user.Keys !! Reserved(cmd.Request?)
    ensures Forward(cmd, user, now, Decimal(n)) == MapToCmd(Merged(cmd, user, now, Decimal(n)))
  {
    hide COMMON, REQUEST_ONLY, RESPONSE_ONLY, PROXY, AllFields, CommonFields, OwnFields, Received, MapToCmd, BuildsResponse,
      PROTOCOL, CMD_TYPE, CMD_CODE, VERSION, REQ_ID, CODEC, TIMEOUT, CLASS_LEN, HEADER_LEN, CONTENT_LEN, CLASS_NAME, RESP_STATUS, RESP_TIME,
      STREAM_ID, GLOBAL_TIMEOUT, TRY_TIMEOUT, STREAM_END, STATUS, Decimal, ParseUint, ParseInt;
    NamesListed();
    NamesDisjoint();
    MergedFields(cmd, user, now, n);
    CommonValues(cmd);
    PrintedByte(cmd.protocol);
    NoStatus(cmd, user, now, Decimal(n), cmd.content == []);
    NoStatus(cmd, user, now, Decimal(cmd.reqId), cmd.content == []);
    var h := if cmd.Request? then Received(AllFields(cmd, user, now), Decimal(n), cmd.content == [])
             else Received(AllFields(cmd, user, now), Decimal(cmd.reqId), cmd.content == [])[REQ_ID := Decimal(n)];
    assert h - {STREAM_ID, GLOBAL_TIMEOUT, TRY_TIMEOUT, STREAM_END} - {STATUS} == h - PROXY;
  }

  lemma BuiltFromMerged(cmd: Command, user: Headers, now: nat, n: nat)
    requires Relayable(cmd, now) && user.Keys !! Reserved(cmd.Request?) && n < 0x1_0000_0000
    ensures var m := Merged(cmd, user, now, Decimal(n));
            COMMON + OwnNames(cmd.Request?) <= m.Keys && Build(m, cmd.Request?) == Rebuilt(cmd, n)
  {
    hide COMMON, REQUEST_ONLY, RESPONSE_ONLY, PROXY, Merged, CommonFields, OwnFields, Decimal, ParseUint, ParseInt, ParseByte, Low64,
      PROTOCOL, CMD_TYPE, CMD_CODE, VERSION, REQ_ID, CODEC, TIMEOUT, CLASS_LEN, HEADER_LEN, CONTENT_LEN, CLASS_NAME, RESP_STATUS, RESP_TIME;
    NamesListed();
    MergedFields(cmd, user, now, n);
    CommonValues(cmd);
    OwnValues(cmd, now);
    PrintedByte(cmd.protocol);
    PrintedByte(cmd.cmdType);
    PrintedByte(cmd.version);
    PrintedByte(cmd.codec);
    PrintedNumbers(Low64(cmd.cmdCode));
    PrintedNumbers(n);
    PrintedNumbers(Low64(cmd.classLen));
    PrintedNumbers(Low64(cmd.headerLen));
    PrintedNumbers(Low64(cmd.contentLen));
    if cmd.Request? { PrintedNumbers(Low64(cmd.timeout)); } else { PrintedNumbers(Low64(cmd.status)); }
    SmallLow64(cmd.cmdCode);
  }

  lemma SmallLow64(i: int)
    requires 0 <= i < 0x1_0000_0000
    ensures Low64(i) == i
  {
  }

  // The map conversion undoes itself up to the clamping of numbers.
  lemma GoodForward(cmd: Command, user: Headers, now: nat, n: nat)
    requires Relayable(cmd, now) && user.Keys !! Reserved(cmd.Request?) && n < 0x1_0000_0000
    ensures Forward(cmd, user, now, Decimal(n)) == Relayed(Rebuilt(cmd, n), user)
  {
    hide COMMON, REQUEST_ONLY, RESPONSE_ONLY, PROXY, Merged, Forward, ParseInt, Decimal,
      PROTOCOL, CMD_TYPE, CMD_CODE, VERSION, REQ_ID, CODEC, TIMEOUT, CLASS_LEN, HEADER_LEN, CONTENT_LEN, CLASS_NAME, RESP_STATUS, RESP_TIME;
    var m := Merged(cmd, user, now, Decimal(n));
    NamesListed();
    NotDiverted(cmd, user, now, n);
    BuiltFromMerged(cmd, user, now, n);
    NamesCount();
    SubsetNotLarger(COMMON, m.Keys);
    assert ParseInt(m[CMD_CODE], 16) == Build(m, cmd.Request?).cmdCode;
    LeftForHeader(cmd, user, now, Decimal(n));
    assert user - Reserved(cmd.Request?) == user;
  }

  predicate SameExceptId(r: Command, cmd: Command, n: nat) {
    && r.Request? == cmd.Request? && r.protocol == cmd.protocol && r.cmdType == cmd.cmdType && r.cmdCode == cmd.cmdCode
    && r.version == cmd.version && r.codec == cmd.codec && r.reqId == n
    && (cmd.Request? ==> r.timeout == cmd.timeout) && (cmd.Response? ==> r.status == cmd.status)
    && r.classLen == cmd.classLen && r.className == cmd.className && r.contentLen == cmd.contentLen && r.content == cmd.content
  }

  /** The other side decodes the relayed header and the content to one whole frame with the fields of cmd, request ID n
      and the user headers.  es is the order in which the header map was written. */
  ghost predicate Arrives(relay: Relay, es: seq<Entry>, cmd: Command, user: Headers, n: nat) {
    && relay.Relayed?
    && var bytes := Encode(relay.cmd.(headerMap := EncodeEntries(es))) + cmd.content;
       && DecodeFrame(bytes).Frame? && DecodeFrame(bytes).size == |bytes|
       && SameExceptId(DecodeFrame(bytes).cmd, cmd, n)
       && MapSerializer.Decode(DecodeFrame(bytes).cmd.headerMap) == Ok(user)
  }

  // What a caller can check beforehand.
  predicate Forwardable(cmd: Command, user: Headers) {
    && user.Keys !! Reserved(cmd.Request?)
    && |cmd.className| < 0x8000 && cmd.contentLen < 0x8000_0000
    && (cmd.Request? ==> cmd.timeout < 0x8000_0000) && (cmd.Response? ==> cmd.status >= 0)
  }

  // Writing a decoded map again takes no more bytes than it came in.
  lemma HeaderNotLonger(headerMap: ByteString, user: Headers, es: seq<Entry>)
    requires MapSerializer.Decode(headerMap) == Ok(user)
    requires forall i, j :: 0 <= i < j < |es| ==> es[i].0 != es[j].0
    requires forall i :: 0 <= i < |es| ==> es[i].0 in user && user[es[i].0] == es[i].1
    ensures |EncodeEntries(es)| <= |headerMap|
  {
    var es0 := DecodedEntries(headerMap, map[]);
    assert map[] + AsMap(es0) == AsMap(es0);
    EncodingNotLonger(es0, es);
  }

  lemma ShortEntriesFit(es: seq<Entry>)
    requires |EncodeEntries(es)| < 65536
    ensures AllFit(es)
  {
    forall i | 0 <= i < |es| ensures Fits(es[i].0) && Fits(es[i].1) {
      RemoveEntry(es, i);
    }
  }

  lemma ForwardableArrives(cmd: Command, user: Headers, now: nat, n: nat, es: seq<Entry>)
    requires Relayable(cmd, now) && n < 0x1_0000_0000 && MapSerializer.Decode(cmd.headerMap) == Ok(user)
    requires Forwardable(cmd, user) && Lists(es, user)
    ensures Arrives(Forward(cmd, user, now, Decimal(n)), es, cmd, user, n)
  {
    hide Forward, DecodeFrame, Fixed, Reserved, EncodeEntries, MapSerializer.Decode, Decimal, Low64;
    GoodForward(cmd, user, now, n);
    HeaderNotLonger(cmd.headerMap, user, es);
    ShortEntriesFit(es);
    RoundTrip(es, user);
    var header := EncodeEntries(es);
    var sent := Rebuilt(cmd, n).(headerMap := header);
    var final := cmd.(reqId := n, headerMap := header, headerLen := Int16(|header|));
    RebuiltExactly(cmd, n);
    SameFixed(sent, final);
    assert Encode(sent) + cmd.content == Wire(final);
    DecodeWire(final, []);
    assert Wire(final) + [] == Wire(final);
  }

  lemma RebuiltExactly(cmd: Command, n: nat)
    requires OnWire(cmd) && |cmd.className| < 0x8000 && cmd.contentLen < 0x8000_0000
    requires (cmd.Request? ==> cmd.timeout < 0x8000_0000) && (cmd.Response? ==> cmd.status >= 0)
    ensures var r := Rebuilt(cmd, n);
            && r.classLen == cmd.classLen == |cmd.className| && r.contentLen == cmd.contentLen
            && (cmd.Request? ==> r.timeout == cmd.timeout) && (cmd.Response? ==> r.status == cmd.status)
  {
    SmallLow64(cmd.classLen);
    SmallLow64(cmd.contentLen);
    SmallLow64(if cmd.Request? then cmd.timeout else cmd.status);
  }

  // The fixed header depends only on these fields.
  lemma SameFixed(a: Command, b: Command)
    requires a.Request? == b.Request? && a.protocol == b.protocol && a.cmdType == b.cmdType && a.cmdCode == b.cmdCode
    requires a.version == b.version && a.reqId == b.reqId && a.codec == b.codec
    requires (a.Request? ==> a.timeout == b.timeout) && (a.Response? ==> a.status == b.status)
    requires a.classLen == b.classLen && |a.headerMap| == |b.headerMap| && a.contentLen == b.contentLen
    ensures Fixed(a) == Fixed(b)
  {
  }

  lemma EncodeSplit(cmd: Command, content: ByteString) returns (tail: ByteString)
    ensures Encode(cmd) + content == Fixed(cmd) + tail
  {
    hide Fixed;
    tail := (if cmd.classLen > 0 then cmd.className else []) + cmd.headerMap + content;
  }

  lemma RelayedCode(h: Headers)
    requires MapToCmd(h).Relayed?
    ensures var c := MapToCmd(h).cmd; 0 <= c.cmdCode <= 2 && (c.Request? <==> c.cmdCode == RPC_REQUEST)
  {
    hide COMMON, REQUEST_ONLY, RESPONSE_ONLY, ParseInt, ParseUint, CMD_CODE;
  }

  // A command that arrives kept its kind, and its user headers avoided the reserved names.
  lemma ArrivedAvoidsReserved(cmd: Command, user: Headers, now: nat, n: nat, es: seq<Entry>)
    requires Relayable(cmd, now)
    requires Arrives(Forward(cmd, user, now, Decimal(n)), es, cmd, user, n) && Lists(es, Forward(cmd, user, now, Decimal(n)).headers)
    ensures user.Keys !! Reserved(cmd.Request?)
  {
    hide Forward, Merged, MapToCmd, DecodeFrame, Fixed, Reserved, EncodeEntries, MapSerializer.Decode, Decimal, OwnNames, COMMON, PROXY;
    var relay := Forward(cmd, user, now, Decimal(n));
    var sent := relay.cmd.(headerMap := EncodeEntries(es));
    var tail := EncodeSplit(sent, cmd.content);
    DecodedNumbers(sent, tail);
    ForwardMerged(cmd, user, now, Decimal(n));
    RelayedCode(Merged(cmd, user, now, Decimal(n)));
    LeftForHeader(cmd, user, now, Decimal(n));
    var r := DecodeFrame(Encode(sent) + cmd.content).cmd;
    if k :| k in user && k in Reserved(cmd.Request?) {
      var more := es + [(k, user[k])];
      EncodeSnoc(es, (k, user[k]));
      HeaderNotLonger(r.headerMap, user, more);
      assert false;
    }
  }

  lemma ArrivedIsForwardable(cmd: Command, user: Headers, now: nat, n: nat, es: seq<Entry>)
    requires Relayable(cmd, now) && n < 0x1_0000_0000
    requires Arrives(Forward(cmd, user, now, Decimal(n)), es, cmd, user, n) && Lists(es, Forward(cmd, user, now, Decimal(n)).headers)
    ensures Forwardable(cmd, user)
  {
    hide Forward, DecodeFrame, Fixed, Reserved, EncodeEntries, MapSerializer.Decode, Decimal, Low64;
    ArrivedAvoidsReserved(cmd, user, now, n, es);
    GoodForward(cmd, user, now, n);
    var sent := Rebuilt(cmd, n).(headerMap := EncodeEntries(es));
    var tail := EncodeSplit(sent, cmd.content);
    DecodedNumbers(sent, tail);
  }

  /** Forwarding preserves a command exactly when its user headers avoid the reserved names and its numbers survive being
      parsed as signed values of their widths: a class name below 2^15 bytes, a content and a timeout below 2^31, and a
      status that is not negative.  This holds for every two-way RPC request and every RPC response off the wire whose
      header decodes, and for every order in which the header map is written. */
  lemma ForwardingPreservesIff(cmd: Command, user: Headers, now: nat, n: nat, es: seq<Entry>)
    requires Relayable(cmd, now) && n < 0x1_0000_0000 && MapSerializer.Decode(cmd.headerMap) == Ok(user)
    requires var relay := Forward(cmd, user, now, Decimal(n)); relay.Relayed? ==> Lists(es, relay.headers)
    ensures Arrives(Forward(cmd, user, now, Decimal(n)), es, cmd, user, n) <==> Forwardable(cmd, user)
  {
    hide Forward, DecodeFrame, Fixed, Reserved, EncodeEntries, MapSerializer.Decode, Decimal;
    if Forwardable(cmd, user) {
      GoodForward(cmd, user, now, n);
      ForwardableArrives(cmd, user, now, n, es);
    }
    if Arrives(Forward(cmd, user, now, Decimal(n)), es, cmd, user, n) {
      ArrivedIsForwardable(cmd, user, now, n, es);
    }
  }

  const NO_HEADERS: Headers := map[]

  // A request with nothing but a timeout.
  function Bare(timeout: nat): Command {
    Request(PROTOCOL_CODE_V1, REQUEST, RPC_REQUEST, PROTOCOL_CODE_V1, 0, PROTOCOL_CODE_V1, timeout, 0, 0, 0, [], [], [])
  }

  lemma BareFacts(timeout: nat, now: nat)
    requires timeout < 0x1_0000_0000 && now < 0x8000_0000_0000_0000
    ensures Relayable(Bare(timeout), now) && MapSerializer.Decode(Bare(timeout).headerMap) == Ok(NO_HEADERS)
    ensures NO_HEADERS.Keys !! Reserved(Bare(timeout).Request?) && Lists([], NO_HEADERS)
    ensures Forwardable(Bare(timeout), NO_HEADERS) <==> timeout < 0x8000_0000
  {
    hide Reserved, COMMON;
  }

  // Both sides of the condition are met: of two requests that differ in the timeout only, one arrives and one does not.
  lemma BareArrives(timeout: nat, now: nat, n: nat)
    requires timeout < 0x1_0000_0000 && now < 0x8000_0000_0000_0000 && n < 0x1_0000_0000
    ensures Arrives(Forward(Bare(timeout), NO_HEADERS, now, Decimal(n)), [], Bare(timeout), NO_HEADERS, n) <==> timeout < 0x8000_0000
  {
    hide Forward, Arrives, Forwardable, Relayable, Bare, Reserved, Rebuilt, MapSerializer.Decode, Decimal, Lists, NO_HEADERS;
    BareFacts(timeout, now);
    GoodForward(Bare(timeout), NO_HEADERS, now, n);
    ForwardingPreservesIff(Bare(timeout), NO_HEADERS, now, n, []);
  }

  // The value of a name in a map.
  function Property(headers: Headers, name: ByteString): Option<ByteString> {
    if name in headers then Some(headers[name]) else None
  }

  /** GetPropertyValue before conversion: the value is taken out of the caller's map, which has already lost the names
      taken before. */
  method GetPropertyValue(rest: Headers, name: ByteString, ghost headers: Headers, ghost taken: set<ByteString>)
    returns (value: Option<ByteString>, left: Headers)
    requires rest == headers - taken && name !in taken
    ensures value == Property(headers, name)
    ensures left == headers - (taken + {name})
  {
    if name in rest {
      return Some(rest[name]), rest - {name};
    }
    return None, rest;
  }

  datatype Properties = Properties(protocolCode: Option<ByteString>, cmdType: Option<ByteString>, cmdCode: Option<ByteString>,
                                   version: Option<ByteString>, requestId: Option<ByteString>, codec: Option<ByteString>,
                                   classLen: Option<ByteString>, headerLen: Option<ByteString>, contentLen: Option<ByteString>,
                                   className: Option<ByteString>)
  {
    predicate Complete() {
      protocolCode.Some? && cmdType.Some? && cmdCode.Some? && version.Some? && requestId.Some? && codec.Some? && classLen.Some?
      && headerLen.Some? && contentLen.Some?
    }
  }

  function CommonProperties(h: Headers): Properties {
    Properties(Property(h, PROTOCOL), Property(h, CMD_TYPE), Property(h, CMD_CODE), Property(h, VERSION), Property(h, REQ_ID),
               Property(h, CODEC), Property(h, CLASS_LEN), Property(h, HEADER_LEN), Property(h, CONTENT_LEN), Property(h, CLASS_NAME))
  }

  const FIRST: set<ByteString> := {PROTOCOL, CMD_TYPE, CMD_CODE, VERSION, REQ_ID}

  lemma NamesInOrder()
    ensures CMD_TYPE !in {PROTOCOL} && CMD_CODE !in {PROTOCOL} + {CMD_TYPE} && VERSION !in {PROTOCOL} + {CMD_TYPE} + {CMD_CODE}
    ensures REQ_ID !in {PROTOCOL} + {CMD_TYPE} + {CMD_CODE} + {VERSION} && FIRST == {PROTOCOL} + {CMD_TYPE} + {CMD_CODE} + {VERSION} + {REQ_ID}
    ensures CODEC !in FIRST && CLASS_LEN !in FIRST + {CODEC} && HEADER_LEN !in FIRST + {CODEC} + {CLASS_LEN}
    ensures CONTENT_LEN !in FIRST + {CODEC} + {CLASS_LEN} + {HEADER_LEN}
    ensures CLASS_NAME !in FIRST + {CODEC} + {CLASS_LEN} + {HEADER_LEN} + {CONTENT_LEN}
    ensures COMMON == FIRST + {CODEC} + {CLASS_LEN} + {HEADER_LEN} + {CONTENT_LEN} + {CLASS_NAME}
  {
  }

  lemma OwnNamesInOrder()
    ensures TIMEOUT !in COMMON && RESP_STATUS !in COMMON && RESP_TIME !in COMMON + {RESP_STATUS}
    ensures REQUEST_ONLY == {TIMEOUT} && RESPONSE_ONLY == {RESP_STATUS} + {RESP_TIME}
  {
  }

  // The first half of mapToCmd: the properties both kinds share.
  method TakeCommon(headers: Headers) returns (p: Properties, rest: Headers)
    ensures p == CommonProperties(headers) && rest == headers - COMMON
  {
    hide Property, COMMON, FIRST, PROTOCOL, CMD_TYPE, CMD_CODE, VERSION, REQ_ID, CODEC, CLASS_LEN, HEADER_LEN, CONTENT_LEN, CLASS_NAME;
    NamesInOrder();
    var protocolCode, cmdType, cmdCode, version, requestId;
    protocolCode, rest := GetPropertyValue(headers, PROTOCOL, headers, {});
    ghost var taken := {PROTOCOL};
    cmdType, rest := GetPropertyValue(rest, CMD_TYPE, headers, taken);
    taken := taken + {CMD_TYPE};
    cmdCode, rest := GetPropertyValue(rest, CMD_CODE, headers, taken);
    taken := taken + {CMD_CODE};
    version, rest := GetPropertyValue(rest, VERSION, headers, taken);
    taken := taken + {VERSION};
    requestId, rest := GetPropertyValue(rest, REQ_ID, headers, taken);
    taken := taken + {REQ_ID};
    var codec, classLen, headerLen, contentLen, className;
    codec, classLen, headerLen, contentLen, className, rest := TakeLengths(rest, headers);
    p := Properties(protocolCode, cmdType, cmdCode, version, requestId, codec, classLen, headerLen, contentLen, className);
  }

  method TakeLengths(first: Headers, ghost headers: Headers)
    returns (codec: Option<ByteString>, classLen: Option<ByteString>, headerLen: Option<ByteString>, contentLen: Option<ByteString>,
             className: Option<ByteString>, rest: Headers)
    requires first == headers - FIRST
    ensures codec == Property(headers, CODEC) && classLen == Property(headers, CLASS_LEN)
    ensures headerLen == Property(headers, HEADER_LEN) && contentLen == Property(headers, CONTENT_LEN)
    ensures className == Property(headers, CLASS_NAME) && rest == headers - COMMON
  {
    hide Property, COMMON, FIRST, PROTOCOL, CMD_TYPE, CMD_CODE, VERSION, REQ_ID, CODEC, CLASS_LEN, HEADER_LEN, CONTENT_LEN, CLASS_NAME;
    NamesInOrder();
    ghost var taken := FIRST;
    codec, rest := GetPropertyValue(first, CODEC, headers, taken);
    taken := taken + {CODEC};
    classLen, rest := GetPropertyValue(rest, CLASS_LEN, headers, taken);
    taken := taken + {CLASS_LEN};
    headerLen, rest := GetPropertyValue(rest, HEADER_LEN, headers, taken);
    taken := taken + {HEADER_LEN};
    contentLen, rest := GetPropertyValue(rest, CONTENT_LEN, headers, taken);
    taken := taken + {CONTENT_LEN};
    className, rest := GetPropertyValue(rest, CLASS_NAME, headers, taken);
  }

  lemma CompleteIff(h: Headers)
    ensures CommonProperties(h).Complete() <==> COMMON - {CLASS_NAME} <= h.Keys
  {
    NamesInOrder();
    hide PROTOCOL, CMD_TYPE, CMD_CODE, VERSION, REQ_ID, CODEC, CLASS_LEN, HEADER_LEN, CONTENT_LEN, CLASS_NAME;
  }

  /** mapToCmd, property by property. */
  method ConvertMap(headers: Headers) returns (r: Relay)
    ensures r == MapToCmd(headers)
  {
    hide COMMON, REQUEST_ONLY, RESPONSE_ONLY, OwnNames, Build, ParseInt, CMD_CODE;
    if |headers| < 10 {
      return Refused;
    }
    var p, rest := TakeCommon(headers);
    if p.cmdCode.None? {
      return Refused;
    }
    var code := ParseInt(p.cmdCode.value, 16);
    if code == RPC_REQUEST {
      r := ConvertRequest(p, rest, headers);
    } else if code == RPC_RESPONSE || code == HEARTBEAT {
      r := ConvertResponse(p, rest, headers);
    } else {
      return Refused;
    }
  }

  method ConvertRequest(p: Properties, rest: Headers, ghost headers: Headers) returns (r: Relay)
    requires |headers| >= 10 && p == CommonProperties(headers) && rest == headers - COMMON
    requires p.cmdCode.Some? && ParseInt(p.cmdCode.value, 16) == RPC_REQUEST
    ensures r == MapToCmd(headers)
  {
    hide COMMON, REQUEST_ONLY, RESPONSE_ONLY, ParseInt, ParseUint, ParseByte,
      PROTOCOL, CMD_TYPE, CMD_CODE, VERSION, REQ_ID, CODEC, TIMEOUT, CLASS_LEN, HEADER_LEN, CONTENT_LEN, CLASS_NAME, RESP_STATUS, RESP_TIME;
    OwnNamesInOrder();
    CompleteIff(headers);
    var timeout, left := GetPropertyValue(rest, TIMEOUT, headers, COMMON);
    if !p.Complete() || timeout.None? {
      return Panicked;
    }
    assert left == headers - COMMON - REQUEST_ONLY;
    var className := if p.className.Some? then p.className.value else [ZERO];
    r := Relayed(Request(ParseByte(p.protocolCode.value), ParseByte(p.cmdType.value), ParseInt(p.cmdCode.value, 16),
                         ParseByte(p.version.value), ParseUint(p.requestId.value, 32), ParseByte(p.codec.value),
                         ParseInt(timeout.value, 32), ParseInt(p.classLen.value, 16), ParseInt(p.headerLen.value, 16),
                         ParseInt(p.contentLen.value, 32), className, [], []), left);
  }

  method ConvertResponse(p: Properties, rest: Headers, ghost headers: Headers) returns (r: Relay)
    requires |headers| >= 10 && p == CommonProperties(headers) && rest == headers - COMMON
    requires p.cmdCode.Some? && (ParseInt(p.cmdCode.value, 16) == RPC_RESPONSE || ParseInt(p.cmdCode.value, 16) == HEARTBEAT)
    ensures r == MapToCmd(headers)
  {
    hide COMMON, REQUEST_ONLY, RESPONSE_ONLY, ParseInt, ParseUint, ParseByte,
      PROTOCOL, CMD_TYPE, CMD_CODE, VERSION, REQ_ID, CODEC, TIMEOUT, CLASS_LEN, HEADER_LEN, CONTENT_LEN, CLASS_NAME, RESP_STATUS, RESP_TIME;
    OwnNamesInOrder();
    CompleteIff(headers);
    var status, h := GetPropertyValue(rest, RESP_STATUS, headers, COMMON);
    var time, left := GetPropertyValue(h, RESP_TIME, headers, COMMON + {RESP_STATUS});
    if !p.Complete() || status.None? || time.None? {
      return Panicked;
    }
    assert left == headers - COMMON - RESPONSE_ONLY;
    var className := if p.className.Some? then p.className.value else [ZERO];
    r := Relayed(Response(ParseByte(p.protocolCode.value), ParseByte(p.cmdType.value), ParseInt(p.cmdCode.value, 16),
                          ParseByte(p.version.value), ParseUint(p.requestId.value, 32), ParseByte(p.codec.value),
                          ParseInt(status.value, 16), ParseInt(p.classLen.value, 16), ParseInt(p.headerLen.value, 16),
                          ParseInt(p.contentLen.value, 32), className, [], []), left);
  }

  /** deserializeRequestAllFields and deserializeResponseAllFields.  The error of a short header is ignored and what was
      read before it is kept; a length that runs over the end, and for a last value over the spare bytes of the slice,
      panics. */
  method DeserializeAllFields(cmd: Command, spare: ByteString, now: nat) returns (r: Option<Headers>)
    ensures r == match DecodeWithin(cmd.headerMap, spare, map[])
                 case Ok(user) => Some(AllFields(cmd, user, now))
                 case Short(user) => Some(AllFields(cmd, user, now))
                 case OutOfRange => None
  {
    hide CommonFields, OwnFields, Decimal, DecodeWithin;
    var decoded := DecodeMap(cmd.headerMap, spare, map[]);
    if decoded.OutOfRange? {
      return None;
    }
    var allField := CommonFields(cmd) + OwnFields(cmd, now);
    ghost var base := allField;
    var rest := decoded.headers.Keys;
    while rest != {}
      invariant rest <= decoded.headers.Keys
      invariant allField == base + (decoded.headers - rest)
      decreases rest
    {
      var k :| k in rest;
      allField := allField[k := decoded.headers[k]];
      rest := rest - {k};
    }
    assert decoded.headers - {} == decoded.headers;
    return Some(allField);
  }
}
