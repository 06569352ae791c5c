/** Bolt V1 frames: the header encoder and the incremental decoder
    (pkg/protocol/sofarpc/codec/boltv1codec.go). */
module BoltCodec {
  import opened Bytes
  import opened IoBuffers

  const PROTOCOL_CODE_V1: Byte := 1 as char
  const RESPONSE: Byte := 0 as char
  const REQUEST: Byte := 1 as char
  const REQUEST_ONEWAY: Byte := 2 as char

  const HEARTBEAT := 0
  const RPC_REQUEST := 1
  const RPC_RESPONSE := 2

  const REQUEST_HEADER_LEN: nat := 22
  const RESPONSE_HEADER_LEN: nat := 20
  const LESS_LEN: nat := RESPONSE_HEADER_LEN

  /** BoltRequestCommand and BoltResponseCommand.  cmdCode, status, classLen and headerLen are int16 in the source; the
      receive time of a response is not part of the frame. */
  datatype Command =
    | Request(protocol: Byte, cmdType: Byte, cmdCode: int, version: Byte, reqId: nat, codec: Byte,
              timeout: int, classLen: int, headerLen: int, contentLen: int,
              className: ByteString, headerMap: ByteString, content: ByteString)
    | Response(protocol: Byte, cmdType: Byte, cmdCode: int, version: Byte, reqId: nat, codec: Byte,
               status: int, classLen: int, headerLen: int, contentLen: int,
               className: ByteString, headerMap: ByteString, content: ByteString)

  // The conversions int16(u), uint16(i) and uint32(i) of Go.
  function Int16(u: nat): (i: int)
    requires u < 65536
    ensures -32768 <= i < 32768 && i % 65536 == u
  {
    if u < 32768 then u else u - 65536
  }

  function Low16(i: int): (u: nat)
    ensures u < 65536
  {
    i % 65536
  }

  function Low32(i: int): (u: nat)
    ensures u < 0x1_0000_0000
  {
    i % 0x1_0000_0000
  }

  // The fixed part: ten bytes shared by both kinds, then the timeout or the status, then the three lengths.
  function Start(cmd: Command): (r: ByteString)
    ensures |r| == 10
  {
    [cmd.protocol, cmd.cmdType] + PutUint16(Low16(cmd.cmdCode)) + [cmd.version] + PutUint32(cmd.reqId) + [cmd.codec]
  }

  function Own(cmd: Command): (r: ByteString)
    ensures |r| == if cmd.Request? then 4 else 2
  {
    if cmd.Request? then PutUint32(Low32(cmd.timeout)) else PutUint16(Low16(cmd.status))
  }

  function Lengths(cmd: Command): (r: ByteString)
    ensures |r| == 8
  {
    PutUint16(Low16(cmd.classLen)) + PutUint16(|cmd.headerMap|) + PutUint32(Low32(cmd.contentLen))
  }

  function Fixed(cmd: Command): (r: ByteString)
    ensures |r| == HeaderLen(cmd)
  {
    Start(cmd) + Own(cmd) + Lengths(cmd)
  }

  function HeaderLen(cmd: Command): nat {
    if cmd.Request? then REQUEST_HEADER_LEN else RESPONSE_HEADER_LEN
  }

  // What the encoder writes; the content follows in a separate buffer.
  function Encode(cmd: Command): ByteString {
    Fixed(cmd) + (if cmd.classLen > 0 then cmd.className else []) + cmd.headerMap
  }

  datatype Outcome = Incomplete | UnknownType | Frame(cmd: Command, size: nat)

  function DecodeRequest(b: ByteString): (r: Outcome)
    requires |b| >= REQUEST_HEADER_LEN
    ensures !r.UnknownType? && (r.Frame? ==> REQUEST_HEADER_LEN <= r.size <= |b|)
  {
    var classLen, headerLen, contentLen := Uint16(b[14..16]), Uint16(b[16..18]), Uint32(b[18..22]);
    var i := REQUEST_HEADER_LEN;
    var j := i + classLen;
    var k := j + headerLen;
    if |b| < k + contentLen then Incomplete
    else Frame(Request(PROTOCOL_CODE_V1, b[1], Int16(Uint16(b[2..4])), b[4], Uint32(b[5..9]), b[9],
                       Uint32(b[10..14]), Int16(classLen), Int16(headerLen), contentLen,
                       b[i..j], b[j..k], b[k..k + contentLen]), k + contentLen)
  }

  function DecodeResponse(b: ByteString): (r: Outcome)
    requires |b| >= RESPONSE_HEADER_LEN
    ensures !r.UnknownType? && (r.Frame? ==> RESPONSE_HEADER_LEN <= r.size <= |b|)
  {
    var classLen, headerLen, contentLen := Uint16(b[12..14]), Uint16(b[14..16]), Uint32(b[16..20]);
    var i := RESPONSE_HEADER_LEN;
    var j := i + classLen;
    var k := j + headerLen;
    if |b| < k + contentLen then Incomplete
    else Frame(Response(PROTOCOL_CODE_V1, b[1], Int16(Uint16(b[2..4])), b[4], Uint32(b[5..9]), b[9],
                        Int16(Uint16(b[10..12])), Int16(classLen), Int16(headerLen), contentLen,
                        b[i..j], b[j..k], b[k..k + contentLen]), k + contentLen)
  }

  // The decoder on the readable bytes.
  function DecodeFrame(b: ByteString): (r: Outcome)
    ensures r.Frame? ==> LESS_LEN <= r.size <= |b|
  {
    if |b| < LESS_LEN then Incomplete
    else if b[1] == REQUEST || b[1] == REQUEST_ONEWAY then
      if |b| < REQUEST_HEADER_LEN then Incomplete else DecodeRequest(b)
    else if b[1] == RESPONSE then DecodeResponse(b)
    else UnknownType
  }

  // A command whose length fields match its parts and whose fields are in the range of the wire format.
  predicate OnWire(cmd: Command) {
    && cmd.protocol == PROTOCOL_CODE_V1
    && (if cmd.Request? then cmd.cmdType == REQUEST || cmd.cmdType == REQUEST_ONEWAY else cmd.cmdType == RESPONSE)
    && -32768 <= cmd.cmdCode < 32768 && cmd.reqId < 0x1_0000_0000
    && (cmd.Request? ==> 0 <= cmd.timeout < 0x1_0000_0000)
    && (cmd.Response? ==> -32768 <= cmd.status < 32768)
    && |cmd.className| < 65536 && cmd.classLen == Int16(|cmd.className|)
    && |cmd.headerMap| < 65536 && cmd.headerLen == Int16(|cmd.headerMap|)
    && |cmd.content| < 0x1_0000_0000 && cmd.contentLen == |cmd.content|
  }

  // A frame as a peer sends it: all three parts follow the fixed header.
  function Wire(cmd: Command): ByteString {
    Fixed(cmd) + cmd.className + cmd.headerMap + cmd.content
  }

  lemma StartSlices(cmd: Command, tail: ByteString)
    ensures var b := Start(cmd) + tail;
            && b[0] == cmd.protocol && b[1] == cmd.cmdType && b[4] == cmd.version && b[9] == cmd.codec
            && b[2..4] == PutUint16(Low16(cmd.cmdCode)) && b[5..9] == PutUint32(cmd.reqId)
  {
    hide PutUint16, PutUint32;
    var b := Start(cmd) + tail;
    assert b[..10] == Start(cmd);
    assert b[2..4] == Start(cmd)[2..4] && b[5..9] == Start(cmd)[5..9];
  }

  lemma LengthSlices(front: ByteString, cmd: Command, tail: ByteString)
    ensures var b, n := front + Lengths(cmd) + tail, |front|;
            && b[n..n + 2] == PutUint16(Low16(cmd.classLen)) && b[n + 2..n + 4] == PutUint16(|cmd.headerMap|)
            && b[n + 4..n + 8] == PutUint32(Low32(cmd.contentLen))
  {
    hide PutUint16, PutUint32;
    var b, n := front + Lengths(cmd) + tail, |front|;
    assert b[n..n + 8] == Lengths(cmd);
    assert b[n..n + 2] == b[n..n + 8][..2] && b[n + 2..n + 4] == b[n..n + 8][2..4] && b[n + 4..n + 8] == b[n..n + 8][4..];
  }

  // The three parts behind a fixed header, taken apart again.
  lemma BodySlices(fixed: ByteString, x: ByteString, y: ByteString, z: ByteString, rest: ByteString)
    ensures var b := fixed + x + y + z + rest; var i := |fixed|; var j := i + |x|; var k := j + |y|;
            b[i..j] == x && b[j..k] == y && b[k..k + |z|] == z
  {
  }

  lemma FixedSlices(cmd: Command, tail: ByteString)
    ensures var b, n := Fixed(cmd) + tail, 10 + |Own(cmd)|;
            && b[0] == cmd.protocol && b[1] == cmd.cmdType && b[4] == cmd.version && b[9] == cmd.codec
            && b[2..4] == PutUint16(Low16(cmd.cmdCode)) && b[5..9] == PutUint32(cmd.reqId) && b[10..n] == Own(cmd)
            && b[n..n + 2] == PutUint16(Low16(cmd.classLen)) && b[n + 2..n + 4] == PutUint16(|cmd.headerMap|)
            && b[n + 4..n + 8] == PutUint32(Low32(cmd.contentLen))
  {
    hide Start, Own, Lengths, PutUint16, PutUint32;
    var b := Fixed(cmd) + tail;
    assert b == Start(cmd) + (Own(cmd) + Lengths(cmd) + tail);
    StartSlices(cmd, Own(cmd) + Lengths(cmd) + tail);
    assert b == (Start(cmd) + Own(cmd)) + Lengths(cmd) + tail;
    LengthSlices(Start(cmd) + Own(cmd), cmd, tail);
  }

  /** The wire format, byte by byte, with numbers most significant byte first: a frame starts with its protocol, type, code,
      version, ID and codec, then has the timeout of a request or the status of a response, then the three lengths, and then
      the three parts. */
  lemma WireLayout(cmd: Command)
    requires OnWire(cmd)
    ensures var w := Wire(cmd); var n := if cmd.Request? then 14 else 12;
            && |w| == n + 8 + |cmd.className| + |cmd.headerMap| + |cmd.content|
            && w[0] as int == 1 && w[1] == cmd.cmdType
            && (w[1] as int == 0 <==> cmd.Response?) && w[1] as int <= 2
            && BigEndian(w[2..4]) == cmd.cmdCode % 65536 && w[4] == cmd.version
            && BigEndian(w[5..9]) == cmd.reqId && w[9] == cmd.codec
            && (cmd.Request? ==> BigEndian(w[10..14]) == cmd.timeout)
            && (cmd.Response? ==> BigEndian(w[10..12]) == cmd.status % 65536)
            && BigEndian(w[n..n + 2]) == |cmd.className| && BigEndian(w[n + 2..n + 4]) == |cmd.headerMap|
            && BigEndian(w[n + 4..n + 8]) == |cmd.content|
            && w[n + 8..] == cmd.className + cmd.headerMap + cmd.content
  {
    hide Fixed, PutUint16, PutUint32, Uint16, Uint32, Int16, BigEndian;
    var tail := cmd.className + cmd.headerMap + cmd.content;
    var w := Wire(cmd);
    assert w == Fixed(cmd) + tail;
    FixedSlices(cmd, tail);
    NumbersReturn(cmd);
    Uint16Put(Low16(cmd.cmdCode));
    if cmd.Response? { Uint16Put(Low16(cmd.status)); }
    forall x: ByteString | |x| == 2 ensures Uint16(x) == BigEndian(x) { Uint16IsBigEndian(x); }
    forall x: ByteString | |x| == 4 ensures Uint32(x) == BigEndian(x) { Uint32IsBigEndian(x); }
  }

  // How many bytes the frame at the front of b has, as far as its fixed header is there.
  ghost function Announced(b: ByteString): nat
    requires |b| >= 22 || (|b| >= 20 && b[1] as int == 0)
  {
    if b[1] as int == 0 then 20 + BigEndian(b[12..14]) + BigEndian(b[14..16]) + BigEndian(b[16..20])
    else 22 + BigEndian(b[14..16]) + BigEndian(b[16..18]) + BigEndian(b[18..22])
  }

  /** What the decoder makes of any bytes: the type is looked at once twenty bytes are there, types above 2 are unknown, and
      otherwise there is a frame exactly when as many bytes are there as the fixed header announces. */
  lemma DecodeIff(b: ByteString)
    ensures DecodeFrame(b).UnknownType? <==> |b| >= 20 && b[1] as int > 2
    ensures DecodeFrame(b).Frame? <==> |b| >= 20 && b[1] as int <= 2 && (b[1] as int == 0 || |b| >= 22) && |b| >= Announced(b)
    ensures DecodeFrame(b).Frame? ==> DecodeFrame(b).size == Announced(b) && (DecodeFrame(b).cmd.Response? <==> b[1] as int == 0)
  {
    hide Uint16, Uint32, BigEndian, Int16;
    forall x: ByteString | |x| == 2 ensures Uint16(x) == BigEndian(x) { Uint16IsBigEndian(x); }
    forall x: ByteString | |x| == 4 ensures Uint32(x) == BigEndian(x) { Uint32IsBigEndian(x); }
  }

  // Numbers in range come back from the wire.
  lemma NumbersReturn(cmd: Command)
    requires OnWire(cmd)
    ensures Int16(Uint16(PutUint16(Low16(cmd.cmdCode)))) == cmd.cmdCode && Uint32(PutUint32(cmd.reqId)) == cmd.reqId
    ensures cmd.Request? ==> Uint32(PutUint32(Low32(cmd.timeout))) == cmd.timeout
    ensures cmd.Response? ==> Int16(Uint16(PutUint16(Low16(cmd.status)))) == cmd.status
    ensures Uint16(PutUint16(Low16(cmd.classLen))) == |cmd.className|
    ensures Uint16(PutUint16(|cmd.headerMap|)) == |cmd.headerMap|
    ensures Uint32(PutUint32(Low32(cmd.contentLen))) == |cmd.content|
  {
    hide PutUint16, PutUint32, Uint16, Uint32;
    Uint16Put(Low16(cmd.cmdCode));
    Uint32Put(cmd.reqId);
    if cmd.Request? { Uint32Put(Low32(cmd.timeout)); } else { Uint16Put(Low16(cmd.status)); }
    Uint16Put(Low16(cmd.classLen));
    Uint16Put(|cmd.headerMap|);
    Uint32Put(Low32(cmd.contentLen));
  }

  /** Round trip: a frame decodes to its command and leaves exactly what follows it. */
  lemma DecodeWire(cmd: Command, rest: ByteString)
    requires OnWire(cmd)
    ensures DecodeFrame(Wire(cmd) + rest) == Frame(cmd, |Wire(cmd)|)
  {
    hide DecodeRequest, DecodeResponse, Fixed, HasBody, PutUint16, PutUint32, Uint16, Uint32, Low16, Low32, Int16;
    var b := Wire(cmd) + rest;
    WireFields(cmd, rest);
    if cmd.Request? { RequestFromFields(b, cmd); } else { ResponseFromFields(b, cmd); }
  }

  // The decoder's view of the bytes: every field of cmd where the decoder looks for it, the lengths n bytes in.
  ghost predicate HasFixed(b: ByteString, cmd: Command, n: nat)
    requires |b| >= n + 8 >= 18
  {
    && b[1] == cmd.cmdType && Int16(Uint16(b[2..4])) == cmd.cmdCode && b[4] == cmd.version
    && Uint32(b[5..9]) == cmd.reqId && b[9] == cmd.codec
    && Uint16(b[n..n + 2]) == |cmd.className| && Uint16(b[n + 2..n + 4]) == |cmd.headerMap|
    && Uint32(b[n + 4..n + 8]) == |cmd.content|
    && (cmd.Request? && n == 14 ==> Uint32(b[10..14]) == cmd.timeout)
    && (cmd.Response? && n == 12 ==> Int16(Uint16(b[10..12])) == cmd.status)
  }

  ghost predicate HasBody(b: ByteString, cmd: Command, i: nat) {
    var j := i + |cmd.className|; var k := j + |cmd.headerMap|;
    |b| >= k + |cmd.content| && b[i..j] == cmd.className && b[j..k] == cmd.headerMap && b[k..k + |cmd.content|] == cmd.content
  }

  lemma RequestFromFields(b: ByteString, cmd: Command)
    requires OnWire(cmd) && cmd.Request? && |b| >= 22 && HasFixed(b, cmd, 14) && HasBody(b, cmd, 22)
    ensures DecodeRequest(b) == Frame(cmd, |Wire(cmd)|)
  {
    hide Uint16, Uint32, Int16;
  }

  lemma ResponseFromFields(b: ByteString, cmd: Command)
    requires OnWire(cmd) && cmd.Response? && |b| >= 20 && HasFixed(b, cmd, 12) && HasBody(b, cmd, 20)
    ensures DecodeResponse(b) == Frame(cmd, |Wire(cmd)|)
  {
    hide Uint16, Uint32, Int16;
  }

  lemma FixedFields(cmd: Command, tail: ByteString)
    requires OnWire(cmd)
    ensures HasFixed(Fixed(cmd) + tail, cmd, HeaderLen(cmd) - 8)
  {
    hide Fixed, PutUint16, PutUint32, Uint16, Uint32, Low16, Low32, Int16;
    FixedSlices(cmd, tail);
    NumbersReturn(cmd);
  }

  lemma WireFields(cmd: Command, rest: ByteString)
    requires OnWire(cmd)
    ensures HasFixed(Wire(cmd) + rest, cmd, HeaderLen(cmd) - 8) && HasBody(Wire(cmd) + rest, cmd, HeaderLen(cmd))
  {
    hide Fixed, HasFixed, HasBody, Wire;
    WireSplit(cmd, rest);
    FixedFields(cmd, cmd.className + cmd.headerMap + cmd.content + rest);
    WireBody(cmd, rest);
  }

  lemma WireSplit(cmd: Command, rest: ByteString)
    ensures Wire(cmd) + rest == Fixed(cmd) + (cmd.className + cmd.headerMap + cmd.content + rest)
  {
    hide Fixed;
  }

  lemma WireBody(cmd: Command, rest: ByteString)
    ensures HasBody(Wire(cmd) + rest, cmd, HeaderLen(cmd))
  {
    hide Fixed;
    BodySlices(Fixed(cmd), cmd.className, cmd.headerMap, cmd.content, rest);
  }

  lemma RequestPrefix(a: ByteString, b: ByteString)
    requires REQUEST_HEADER_LEN <= |a| && a <= b
    ensures var r := DecodeRequest(b); DecodeRequest(a) == if r.Frame? && |a| >= r.size then r else Incomplete
  {
    hide Uint16, Uint32, Int16;
    assert a == b[..|a|];
    SameSlices(a, b);
  }

  lemma ResponsePrefix(a: ByteString, b: ByteString)
    requires RESPONSE_HEADER_LEN <= |a| && a <= b
    ensures var r := DecodeResponse(b); DecodeResponse(a) == if r.Frame? && |a| >= r.size then r else Incomplete
  {
    hide Uint16, Uint32, Int16;
    assert a == b[..|a|];
    SameSlices(a, b);
  }

  lemma SameSlices(a: ByteString, b: ByteString)
    requires a <= b
    ensures forall i, j {:trigger a[i..j]} {:trigger b[i..j]} :: 0 <= i <= j <= |a| ==> a[i..j] == b[i..j]
  {
  }

  /** Incremental decoding: a prefix of the readable bytes decodes to the same command once the whole frame is there,
      and to nothing before that.  An unknown type is reported as soon as LESS_LEN bytes are there. */
  lemma DecodePrefix(a: ByteString, b: ByteString)
    requires a <= b
    ensures DecodeFrame(a) == match DecodeFrame(b)
                              case Incomplete => Incomplete
                              case UnknownType => if |a| >= LESS_LEN then UnknownType else Incomplete
                              case Frame(_, size) => if |a| >= size then DecodeFrame(b) else Incomplete
  {
    hide DecodeRequest, DecodeResponse;
    assert |a| >= 2 ==> a[1] == b[1];
    if |a| >= REQUEST_HEADER_LEN { RequestPrefix(a, b); }
    if |a| >= RESPONSE_HEADER_LEN { ResponsePrefix(a, b); }
  }

  // Every proper prefix of a frame decodes to nothing.
  lemma ProperPrefixIncomplete(cmd: Command, n: nat)
    requires OnWire(cmd) && n < |Wire(cmd)|
    ensures DecodeFrame(Wire(cmd)[..n]) == Incomplete
  {
    hide DecodeFrame, Fixed;
    DecodeWire(cmd, []);
    assert Wire(cmd) + [] == Wire(cmd);
    DecodePrefix(Wire(cmd)[..n], Wire(cmd));
  }

  // The other direction: whatever decodes is the wire form of what it decodes to, but for the protocol byte.
  lemma WireOfDecoded(b: ByteString)
    requires DecodeFrame(b).Frame?
    ensures var cmd := DecodeFrame(b).cmd;
            && OnWire(cmd) && Wire(cmd)[0] == PROTOCOL_CODE_V1 && Wire(cmd)[1..] == b[1..DecodeFrame(b).size]
  {
    hide DecodeFrame, Fixed, Start, Own, Lengths, OnWire;
    var cmd, size := DecodeFrame(b).cmd, DecodeFrame(b).size;
    DecodedParts(b);
    FixedOf(b, cmd);
    var n, j, k := HeaderLen(cmd), HeaderLen(cmd) + |cmd.className|, size - |cmd.content|;
    Split(b, 1, n, j);
    Split(b, 1, j, k);
    Split(b, 1, k, size);
    assert Wire(cmd)[1..] == Fixed(cmd)[1..] + cmd.className + cmd.headerMap + cmd.content;
  }

  lemma Split(b: ByteString, i: nat, j: nat, k: nat)
    requires i <= j <= k <= |b|
    ensures b[i..k] == b[i..j] + b[j..k]
  {
  }

  lemma DecodedParts(b: ByteString)
    requires DecodeFrame(b).Frame?
    ensures var cmd, size := DecodeFrame(b).cmd, DecodeFrame(b).size;
            var n := HeaderLen(cmd); var j := n + |cmd.className|; var k := j + |cmd.headerMap|;
            && OnWire(cmd) && size == k + |cmd.content|
            && Start(cmd)[0] == PROTOCOL_CODE_V1 && Start(cmd)[1..] == b[1..10]
            && Own(cmd) == b[10..10 + |Own(cmd)|] && Lengths(cmd) == b[10 + |Own(cmd)|..n]
            && cmd.className == b[n..j] && cmd.headerMap == b[j..k] && cmd.content == b[k..size]
  {
    hide PutUint16, PutUint32, Uint16, Uint32, Int16, Start, Own, Lengths;
    var cmd := DecodeFrame(b).cmd;
    StartOf(b, cmd);
    OwnOf(b, cmd);
    LengthsOf(b, cmd, HeaderLen(cmd) - 8);
  }

  lemma StartOf(b: ByteString, cmd: Command)
    requires |b| >= 20 && cmd.protocol == PROTOCOL_CODE_V1 && cmd.cmdType == b[1] && cmd.version == b[4] && cmd.codec == b[9]
    requires cmd.cmdCode == Int16(Uint16(b[2..4])) && cmd.reqId == Uint32(b[5..9])
    ensures Start(cmd)[0] == PROTOCOL_CODE_V1 && Start(cmd)[1..] == b[1..10]
  {
    hide PutUint16, PutUint32, Uint16, Uint32, Int16;
    PutUint16Of(b[2..4]);
    PutUint32Of(b[5..9]);
    assert b[1..10] == [b[1]] + b[2..4] + [b[4]] + b[5..9] + [b[9]];
    assert Start(cmd)[1..] == [cmd.cmdType] + PutUint16(Low16(cmd.cmdCode)) + [cmd.version] + PutUint32(cmd.reqId) + [cmd.codec];
  }

  lemma OwnOf(b: ByteString, cmd: Command)
    requires |b| >= 20
    requires if cmd.Request? then cmd.timeout == Uint32(b[10..14]) else cmd.status == Int16(Uint16(b[10..12]))
    ensures Own(cmd) == b[10..10 + |Own(cmd)|]
  {
    hide PutUint16, PutUint32, Uint16, Uint32, Int16;
    PutUint32Of(b[10..14]);
    PutUint16Of(b[10..12]);
  }

  lemma LengthsOf(b: ByteString, cmd: Command, n: nat)
    requires |b| >= n + 8
    requires cmd.classLen == Int16(Uint16(b[n..n + 2])) && |cmd.headerMap| == Uint16(b[n + 2..n + 4])
    requires cmd.contentLen == Uint32(b[n + 4..n + 8])
    ensures Lengths(cmd) == b[n..n + 8]
  {
    hide PutUint16, PutUint32, Uint16, Uint32, Int16;
    PutUint16Of(b[n..n + 2]);
    PutUint16Of(b[n + 2..n + 4]);
    PutUint32Of(b[n + 4..n + 8]);
    assert b[n..n + 8] == b[n..n + 2] + b[n + 2..n + 4] + b[n + 4..n + 8];
  }

  lemma FixedOf(b: ByteString, cmd: Command)
    requires |b| >= HeaderLen(cmd)
    requires Start(cmd)[0] == PROTOCOL_CODE_V1 && Start(cmd)[1..] == b[1..10]
    requires Own(cmd) == b[10..10 + |Own(cmd)|] && Lengths(cmd) == b[10 + |Own(cmd)|..HeaderLen(cmd)]
    ensures Fixed(cmd)[0] == PROTOCOL_CODE_V1 && Fixed(cmd)[1..] == b[1..HeaderLen(cmd)]
  {
    hide Start, Own, Lengths;
    var n, m := HeaderLen(cmd), 10 + |Own(cmd)|;
    assert Fixed(cmd)[1..] == Start(cmd)[1..] + Own(cmd) + Lengths(cmd);
    Split(b, 1, 10, m);
    Split(b, 1, m, n);
  }

  /** Encoding a decoded command reproduces the frame exactly when the frame said protocol 1 and its class name is shorter
      than 2^15 bytes: a longer one has a negative ClassLen, and the encoder then leaves the class name out, if it gets a
      buffer at all. */
  lemma ReencodeIff(b: ByteString)
    requires DecodeFrame(b).Frame?
    ensures var cmd := DecodeFrame(b).cmd;
            Encode(cmd) + cmd.content == b[..DecodeFrame(b).size] <==> b[0] == PROTOCOL_CODE_V1 && |cmd.className| < 32768
  {
    hide DecodeFrame, Fixed;
    WireOfDecoded(b);
    var cmd, size := DecodeFrame(b).cmd, DecodeFrame(b).size;
    assert b[..size] == [b[0]] + b[1..size];
    assert Wire(cmd) == [Wire(cmd)[0]] + Wire(cmd)[1..];
    if |cmd.className| < 32768 {
      assert Encode(cmd) + cmd.content == Wire(cmd);
    } else {
      assert |Encode(cmd) + cmd.content| < |Wire(cmd)|;
    }
  }

  // buf.Write, as far as the encoder is concerned.
  method Put(buf: IoBuffer, p: ByteString)
    requires buf.Valid()
    modifies buf, buf.buf
    ensures buf.Valid() && buf.Contents() == old(buf.Contents()) + p && (buf.buf == old(buf.buf) || fresh(buf.buf))
  {
    var n := buf.Write(p);
  }

  // What the decoder reads from a fixed header, for any command and whatever follows.
  lemma DecodedNumbers(cmd: Command, tail: ByteString)
    requires DecodeFrame(Fixed(cmd) + tail).Frame?
    ensures var r := DecodeFrame(Fixed(cmd) + tail).cmd;
            && r.cmdCode == Int16(cmd.cmdCode % 65536)
            && (r.Request? == cmd.Request? ==>
                  && |r.className| == cmd.classLen % 65536 && |r.headerMap| == |cmd.headerMap| % 65536
                  && r.contentLen == cmd.contentLen % 0x1_0000_0000
                  && (cmd.Request? ==> r.timeout == cmd.timeout % 0x1_0000_0000)
                  && (cmd.Response? ==> r.status == Int16(cmd.status % 65536)))
  {
    hide DecodeFrame, Fixed, Int16;
    DecodedFields(cmd, tail);
  }

  lemma DecodedFields(cmd: Command, tail: ByteString)
    requires DecodeFrame(Fixed(cmd) + tail).Frame?
    ensures var r := DecodeFrame(Fixed(cmd) + tail).cmd;
            && r.cmdCode == Int16(Low16(cmd.cmdCode))
            && (r.Request? == cmd.Request? ==>
                  && |r.className| == Low16(cmd.classLen) && |r.headerMap| == |cmd.headerMap| % 65536
                  && r.contentLen == Low32(cmd.contentLen)
                  && (cmd.Request? ==> r.timeout == Low32(cmd.timeout))
                  && (cmd.Response? ==> r.status == Int16(Low16(cmd.status))))
  {
    hide Fixed, PutUint16, PutUint32, Uint16, Uint32, Int16, Low16, Low32;
    FixedSlices(cmd, tail);
    Uint16Put(Low16(cmd.cmdCode));
    Uint16Put(Low16(cmd.classLen));
    Uint16Put(|cmd.headerMap|);
    Uint32Put(Low32(cmd.contentLen));
    if cmd.Request? { Uint32Put(Low32(cmd.timeout)); } else { Uint16Put(Low16(cmd.status)); }
  }

  // The capacity the encoder asks for; make panics when it is negative.
  function BufferSize(cmd: Command): int {
    HeaderLen(cmd) + cmd.classLen + |cmd.headerMap|
  }

  /** A decoded command asks for a negative capacity exactly when its class name has 2^15 bytes or more and the fixed header,
      class name and header map together fewer than 2^16; every command that encodes to its own frame gets its buffer. */
  lemma BufferIff(b: ByteString)
    requires DecodeFrame(b).Frame?
    ensures var cmd := DecodeFrame(b).cmd;
            && (BufferSize(cmd) < 0 <==> |cmd.className| >= 32768 && HeaderLen(cmd) + |cmd.className| + |cmd.headerMap| < 65536)
            && (Encode(cmd) + cmd.content == b[..DecodeFrame(b).size] ==> BufferSize(cmd) >= 0)
  {
    assert DecodeFrame(b).cmd.classLen == Int16(|DecodeFrame(b).cmd.className|);
    hide DecodeFrame, Encode;
    ReencodeIff(b);
  }

  /** doEncodeRequestCommand and doEncodeResponseCommand: the fields written one by one into a buffer sized for them; null
      for the panic when there is no such size. */
  method EncodeHeaders(cmd: Command) returns (buf: IoBuffer?)
    ensures buf == null <==> BufferSize(cmd) < 0
    ensures buf != null ==> fresh(buf) && buf.Valid() && buf.Contents() == Encode(cmd)
  {
    hide IoBuffer.Contents, Start, Own, Lengths;
    var size := BufferSize(cmd);
    if size < 0 {
      return null;
    }
    buf := new IoBuffer.WithCapacity(size);
    WriteStart(buf, cmd);
    Put(buf, Own(cmd));
    WriteLengths(buf, cmd);
    assert buf.Contents() == Fixed(cmd);
    if cmd.classLen > 0 {
      Put(buf, cmd.className);
    }
    if |cmd.headerMap| > 0 {
      Put(buf, cmd.headerMap);
    }
  }

  method WriteStart(buf: IoBuffer, cmd: Command)
    requires buf.Valid()
    modifies buf, buf.buf
    ensures buf.Valid() && buf.Contents() == old(buf.Contents()) + Start(cmd) && (buf.buf == old(buf.buf) || fresh(buf.buf))
  {
    hide IoBuffer.Contents, IoBuffer.Valid, PutUint16, PutUint32, Low16, Start;
    ghost var c := buf.Contents();
    Put(buf, [cmd.protocol]);
    Put(buf, [cmd.cmdType]);
    Put(buf, PutUint16(Low16(cmd.cmdCode)));
    Put(buf, [cmd.version]);
    Put(buf, PutUint32(cmd.reqId));
    Put(buf, [cmd.codec]);
    StartJoined(c, cmd);
  }

  lemma StartJoined(c: ByteString, cmd: Command)
    ensures c + [cmd.protocol] + [cmd.cmdType] + PutUint16(Low16(cmd.cmdCode)) + [cmd.version] + PutUint32(cmd.reqId) + [cmd.codec]
         == c + Start(cmd)
  {
    hide PutUint16, PutUint32, Low16;
  }

  method WriteLengths(buf: IoBuffer, cmd: Command)
    requires buf.Valid()
    modifies buf, buf.buf
    ensures buf.Valid() && buf.Contents() == old(buf.Contents()) + Lengths(cmd) && (buf.buf == old(buf.buf) || fresh(buf.buf))
  {
    hide IoBuffer.Contents, IoBuffer.Valid, PutUint16, PutUint32, Low16, Low32;
    ghost var c := buf.Contents();
    Put(buf, PutUint16(Low16(cmd.classLen)));
    Put(buf, PutUint16(|cmd.headerMap|));
    Put(buf, PutUint32(Low32(cmd.contentLen)));
    assert buf.Contents() == c + Lengths(cmd);
  }

  /** Decode on a shared buffer: a complete frame is drained, and nothing else is touched. */
  method Decode(data: IoBuffer) returns (r: Outcome)
    requires data.Valid()
    modifies data`off
    ensures data.Valid() && r == DecodeFrame(old(data.Contents()))
    ensures data.Contents() == if r.Frame? then old(data.Contents())[r.size..] else old(data.Contents())
  {
    hide DecodeRequest, DecodeResponse, IoBuffer.Contents;
    var bytes := data.Bytes();
    r := Incomplete;
    if |bytes| >= LESS_LEN {
      var dataType := bytes[1];
      if dataType == REQUEST || dataType == REQUEST_ONEWAY {
        if |bytes| >= REQUEST_HEADER_LEN {
          r := TakeRequest(bytes);
        }
      } else if dataType == RESPONSE {
        r := TakeResponse(bytes);
      } else {
        return UnknownType;
      }
    }
    if r.Frame? {
      data.Drain(r.size);
    }
  }

  method TakeRequest(bytes: ByteString) returns (r: Outcome)
    requires |bytes| >= REQUEST_HEADER_LEN
    ensures r == DecodeRequest(bytes)
  {
    hide Uint16, Uint32;
    var className, header, content, read := TakeBody(bytes, REQUEST_HEADER_LEN);
    if read == 0 {
      return Incomplete;
    }
    return Frame(Request(PROTOCOL_CODE_V1, bytes[1], Int16(Uint16(bytes[2..4])), bytes[4], Uint32(bytes[5..9]), bytes[9],
                         Uint32(bytes[10..14]), Int16(|className|), Int16(|header|), |content|, className, header, content), read);
  }

  method TakeResponse(bytes: ByteString) returns (r: Outcome)
    requires |bytes| >= RESPONSE_HEADER_LEN
    ensures r == DecodeResponse(bytes)
  {
    hide Uint16, Uint32;
    var className, header, content, read := TakeBody(bytes, RESPONSE_HEADER_LEN);
    if read == 0 {
      return Incomplete;
    }
    return Frame(Response(PROTOCOL_CODE_V1, bytes[1], Int16(Uint16(bytes[2..4])), bytes[4], Uint32(bytes[5..9]), bytes[9],
                          Int16(Uint16(bytes[10..12])), Int16(|className|), Int16(|header|), |content|, className, header, content), read);
  }

  // The part both branches share: slice out the three parts behind n bytes of header, or report 0 when bytes are missing.
  method TakeBody(bytes: ByteString, n: nat) returns (className: ByteString, header: ByteString, content: ByteString, read: nat)
    requires 10 <= n - 8 && n <= |bytes|
    ensures var x, y, z := Uint16(bytes[n - 8..n - 6]), Uint16(bytes[n - 6..n - 4]), Uint32(bytes[n - 4..n]);
            if |bytes| < n + x + y + z then read == 0
            else read == n + x + y + z && className == bytes[n..n + x] && header == bytes[n + x..n + x + y] && content == bytes[n + x + y..read]
  {
    var classLen, headerLen, contentLen := Uint16(bytes[n - 8..n - 6]), Uint16(bytes[n - 6..n - 4]), Uint32(bytes[n - 4..n]);
    className, header, content, read := [], [], [], n;
    if |bytes| < read + classLen + headerLen + contentLen {
      return [], [], [], 0;
    }
    if classLen > 0 {
      className := bytes[read..read + classLen];
      read := read + classLen;
    }
    if headerLen > 0 {
      header := bytes[read..read + headerLen];
      read := read + headerLen;
    }
    if contentLen > 0 {
      content := bytes[read..read + contentLen];
      read := read + contentLen;
    }
  }
}
