/** The dispatch loop that turns the bytes of a connection into commands (pkg/protocol/sofarpc/protocols.go), with
    Bolt V1 as the registered protocol. */
module BoltDispatch {
  import opened Options
  import opened Bytes
  import opened IoBuffers
  import opened BoltCodec

  datatype DispatchError = UnsupportedProtocol | UnknownRequestType | UnknownCmdCode

  // The commands handed on, the bytes left in the buffer, and the error that ended the loop, if any.
  datatype Dispatched = Dispatched(cmds: seq<Command>, rest: ByteString, err: Option<DispatchError>)

  // The command handler has a processor for these codes.
  predicate Handled(cmd: Command) {
    cmd.cmdCode == HEARTBEAT || cmd.cmdCode == RPC_REQUEST || cmd.cmdCode == RPC_RESPONSE
  }

  function Dispatch(b: ByteString): Dispatched
    decreases |b|
  {
    if |b| <= 1 then Dispatched([], b, None)
    else if b[0] != PROTOCOL_CODE_V1 then Dispatched([], b, Some(UnsupportedProtocol))
    else
      match DecodeFrame(b)
      case Incomplete => Dispatched([], b, None)
      case UnknownType => Dispatched([], b, Some(UnknownRequestType))
      case Frame(cmd, size) =>
        if !Handled(cmd) then Dispatched([], b[size..], Some(UnknownCmdCode))
        else
          var d := Dispatch(b[size..]);
          d.(cmds := [cmd] + d.cmds)
  }

  // What a whole connection yields: the commands, the bytes left in the buffer, and every error reported.
  datatype Session = Session(cmds: seq<Command>, rest: ByteString, errs: seq<DispatchError>)

  /** OnDecodeError closes the connection for these errors.  For an unknown request type it means to, but the text it is
      given is longer than the one it compares with, so the connection stays open and the frame stays in the buffer. */
  predicate Closes(err: DispatchError) {
    err != UnknownRequestType
  }

  // The loop after each read: new bytes behind what was left, until an error closes the connection.
  function DispatchReads(b: ByteString, chunks: seq<ByteString>): Session
    decreases |chunks|
  {
    if chunks == [] then Session([], b, [])
    else
      var d := Dispatch(b + chunks[0]);
      var errs := if d.err.Some? then [d.err.value] else [];
      if d.err.Some? && Closes(d.err.value) then Session(d.cmds, d.rest, errs)
      else
        var e := DispatchReads(d.rest, chunks[1..]);
        Session(d.cmds + e.cmds, e.rest, errs + e.errs)
  }

  function Joined(chunks: seq<ByteString>): ByteString {
    if chunks == [] then [] else chunks[0] + Joined(chunks[1..])
  }

  // More bytes do not change what the loop did with the bytes before them.
  lemma {:induction false} DispatchExtends(a: ByteString, x: ByteString)
    ensures var d := Dispatch(a);
            if d.err.Some? then Dispatch(a + x) == d.(rest := d.rest + x)
            else var e := Dispatch(d.rest + x); Dispatch(a + x) == e.(cmds := d.cmds + e.cmds)
    decreases |a|
  {
    hide DecodeFrame;
    DecodePrefix(a, a + x);
    if |a| > 1 && a[0] == PROTOCOL_CODE_V1 && DecodeFrame(a).Frame? {
      var cmd, size := DecodeFrame(a).cmd, DecodeFrame(a).size;
      assert (a + x)[size..] == a[size..] + x;
      if Handled(cmd) {
        DispatchExtends(a[size..], x);
        var d := Dispatch(a[size..]);
        RegroupCommands([cmd], d.cmds, Dispatch(d.rest + x).cmds);
      }
    } else {
      assert Dispatch(a).cmds == [] && Dispatch(a).rest == a;
    }
  }

  lemma RegroupCommands(a: seq<Command>, b: seq<Command>, c: seq<Command>)
    ensures (a + b) + c == a + (b + c)
  {
  }

  lemma {:induction false} RestIsSettled(b: ByteString)
    requires Dispatch(b).err.None?
    ensures Dispatch(Dispatch(b).rest) == Dispatched([], Dispatch(b).rest, None)
    decreases |b|
  {
    hide DecodeFrame;
    if |b| > 1 && DecodeFrame(b).Frame? { RestIsSettled(b[DecodeFrame(b).size..]); }
  }

  // A frame of unknown type is met again after every read, and nothing behind it ever comes out.
  lemma {:induction false} StuckReads(b: ByteString, chunks: seq<ByteString>)
    requires Dispatch(b) == Dispatched([], b, Some(UnknownRequestType))
    ensures DispatchReads(b, chunks) == Session([], b + Joined(chunks), seq(|chunks|, _ => UnknownRequestType))
    decreases |chunks|
  {
    hide Dispatch;
    if chunks == [] {
      assert b + Joined(chunks) == b;
    } else {
      DispatchExtends(b, chunks[0]);
      StuckReads(b + chunks[0], chunks[1..]);
      Regroup(b, chunks[0], Joined(chunks[1..]));
      assert [UnknownRequestType] + seq(|chunks| - 1, _ => UnknownRequestType) == seq(|chunks|, _ => UnknownRequestType);
    }
  }

  lemma {:induction false} StopsAtUnknownType(b: ByteString)
    requires Dispatch(b).err == Some(UnknownRequestType)
    ensures Dispatch(Dispatch(b).rest) == Dispatched([], Dispatch(b).rest, Some(UnknownRequestType))
    decreases |b|
  {
    hide DecodeFrame;
    if |b| > 1 && DecodeFrame(b).Frame? { StopsAtUnknownType(b[DecodeFrame(b).size..]); }
  }

  /** Independence from how the bytes were cut into reads: running the loop after every read gives the same commands as
      running it once on all bytes, and reports an error, always the same one, exactly when that does.  The same bytes are
      left over, but for those that arrive after the connection was closed.  An error that closes is reported once. */
  lemma {:induction false} ReadsDoNotMatter(b: ByteString, chunks: seq<ByteString>)
    requires Dispatch(b) == Dispatched([], b, None)
    ensures var d, e := DispatchReads(b, chunks), Dispatch(b + Joined(chunks));
            && d.cmds == e.cmds && d.rest <= e.rest
            && (d.errs == [] <==> e.err.None?) && (forall i :: 0 <= i < |d.errs| ==> e.err == Some(d.errs[i]))
            && (e.err == Some(UnsupportedProtocol) || e.err == Some(UnknownCmdCode) ==> |d.errs| == 1)
            && (e.err.None? || e.err == Some(UnknownRequestType) ==> d.rest == e.rest)
    decreases |chunks|
  {
    hide Dispatch;
    if chunks == [] {
      assert b + Joined(chunks) == b;
    } else {
      var a, x := b + chunks[0], Joined(chunks[1..]);
      assert b + Joined(chunks) == a + x;
      DispatchExtends(a, x);
      var d := Dispatch(a);
      if d.err.None? {
        RestIsSettled(a);
        ReadsDoNotMatter(d.rest, chunks[1..]);
        assert [] + DispatchReads(d.rest, chunks[1..]).errs == DispatchReads(d.rest, chunks[1..]).errs;
      } else if !Closes(d.err.value) {
        StopsAtUnknownType(a);
        StuckReads(d.rest, chunks[1..]);
        assert d.cmds + [] == d.cmds;
      }
    }
  }

  // A sequence of frames with the codes of a heartbeat, a request or a response comes out as it went in, whatever follows.
  lemma {:induction false} FramesComeOut(cmds: seq<Command>, rest: ByteString)
    requires forall i :: 0 <= i < |cmds| ==> OnWire(cmds[i]) && 0 <= cmds[i].cmdCode <= 2
    ensures var d := Dispatch(rest); Dispatch(Frames(cmds) + rest) == d.(cmds := cmds + d.cmds)
    decreases |cmds|
  {
    hide Dispatch, Wire, OnWire;
    if cmds == [] {
      assert Frames(cmds) + rest == rest;
    } else {
      FirstComesOut(cmds[0], Frames(cmds[1..]) + rest);
      Regroup(Wire(cmds[0]), Frames(cmds[1..]), rest);
      FramesComeOut(cmds[1..], rest);
      assert cmds == [cmds[0]] + cmds[1..];
    }
  }

  lemma FirstComesOut(cmd: Command, more: ByteString)
    requires OnWire(cmd) && 0 <= cmd.cmdCode <= 2
    ensures var d := Dispatch(more); Dispatch(Wire(cmd) + more) == d.(cmds := [cmd] + d.cmds)
  {
    hide DecodeFrame, Wire, OnWire;
    DecodeWire(cmd, more);
    WireStarts(cmd);
    assert (Wire(cmd) + more)[|Wire(cmd)|..] == more;
  }

  // A frame with any other code ends the loop with an error: what came before it comes out and what is behind it stays.
  lemma UnknownCodeStops(cmds: seq<Command>, cmd: Command, more: ByteString)
    requires forall i :: 0 <= i < |cmds| ==> OnWire(cmds[i]) && 0 <= cmds[i].cmdCode <= 2
    requires OnWire(cmd) && !(0 <= cmd.cmdCode <= 2)
    ensures Dispatch(Frames(cmds) + (Wire(cmd) + more)) == Dispatched(cmds, more, Some(UnknownCmdCode))
  {
    hide DecodeFrame, Wire, OnWire;
    DecodeWire(cmd, more);
    WireStarts(cmd);
    assert (Wire(cmd) + more)[|Wire(cmd)|..] == more;
    FramesComeOut(cmds, Wire(cmd) + more);
    assert cmds + [] == cmds;
  }

  // What else ends the loop, after frames that come out: nothing is taken off the buffer in these cases.
  lemma FaultsStop(cmds: seq<Command>, b: ByteString)
    requires forall i :: 0 <= i < |cmds| ==> OnWire(cmds[i]) && 0 <= cmds[i].cmdCode <= 2
    ensures |b| <= 1 ==> Dispatch(Frames(cmds) + b) == Dispatched(cmds, b, None)
    ensures |b| > 1 && b[0] as int != 1 ==> Dispatch(Frames(cmds) + b) == Dispatched(cmds, b, Some(UnsupportedProtocol))
    ensures |b| >= 20 && b[0] as int == 1 && b[1] as int > 2 ==> Dispatch(Frames(cmds) + b) == Dispatched(cmds, b, Some(UnknownRequestType))
  {
    hide DecodeFrame, Wire, OnWire;
    DecodeIff(b);
    FramesComeOut(cmds, b);
    assert cmds + [] == cmds;
  }

  function Frames(cmds: seq<Command>): ByteString {
    if cmds == [] then [] else Wire(cmds[0]) + Frames(cmds[1..])
  }

  lemma WireStarts(cmd: Command)
    requires OnWire(cmd)
    ensures |Wire(cmd)| > 1 && Wire(cmd)[0] == PROTOCOL_CODE_V1
  {
  }

  /** protocols.Decode.  It terminates because every decoded frame drains at least LESS_LEN bytes. */
  method DispatchBuffer(data: IoBuffer) returns (cmds: seq<Command>, err: Option<DispatchError>)
    requires data.Valid()
    modifies data`off
    ensures data.Valid() && Dispatched(cmds, data.Contents(), err) == Dispatch(old(data.Contents()))
  {
    hide IoBuffer.Contents, DecodeFrame;
    cmds, err := [], None;
    while data.len - data.off > 1
      invariant data.Valid()
      invariant var d := Dispatch(data.Contents()); Dispatch(old(data.Contents())) == d.(cmds := cmds + d.cmds)
      decreases data.len - data.off
    {
      ghost var b := data.Contents();
      var bytes := data.Bytes();
      if bytes[0] != PROTOCOL_CODE_V1 {
        return cmds, Some(UnsupportedProtocol);
      }
      var r := Decode(data);
      match r {
        case Incomplete =>
          break;
        case UnknownType =>
          return cmds, Some(UnknownRequestType);
        case Frame(cmd, size) =>
          if !Handled(cmd) {
            return cmds, Some(UnknownCmdCode);
          }
          RegroupCommands(cmds, [cmd], Dispatch(data.Contents()).cmds);
          cmds := cmds + [cmd];
      }
    }
  }
}
