/** The growable byte buffer under every connection (pkg/network/buffer/iobuffer.go). */
module IoBuffers {
  import opened Bytes
  import opened Options

  const MIN_READ: nat := 1024
  const MAX_READ: nat := 131072
  const BOOTSTRAP: nat := 64

  /** What decides the buffer's moves: the read offset, the length and capacity of the slice, and whether the
      slice is nil (a zero buffer, which may still use its inline bootstrap array). */
  datatype Shape = Shape(off: nat, len: nat, cap: nat, isNil: bool) {
    predicate Valid() {
      off <= len <= cap && (isNil ==> cap == 0)
    }

    function Unread(): nat
      requires Valid()
    {
      len - off
    }
  }

  // A new shape and the number of bytes that were copied to get there.
  datatype Moved = Moved(shape: Shape, copied: nat)

  function ResetShape(s: Shape): Shape {
    s.(off := 0, len := 0)
  }

  function Drained(s: Shape): (r: Shape)
    requires s.Valid()
    ensures r.Valid() && r.Unread() == s.Unread()
  {
    if s.off >= s.len then ResetShape(s) else s
  }

  // grow: room for n more bytes; called when they do not fit after the current end.
  function Grown(s: Shape, n: nat): (r: Moved)
    requires s.Valid()
    ensures r.shape.Valid() && r.shape.len >= n && r.shape.Unread() == s.Unread() + n
  {
    var m := s.Unread();
    var t := if m == 0 && s.off != 0 then ResetShape(s) else s;
    if t.len + n <= t.cap then Moved(t.(len := t.len + n), 0)
    else if s.isNil && n <= BOOTSTRAP then Moved(Shape(0, n, BOOTSTRAP, false), 0)
    else SpaceShape(t, n)
  }

  // Slide the unread bytes down when they and n more fill at most half of the slice, and reallocate otherwise.
  function SpaceShape(s: Shape, n: nat): (r: Moved)
    requires s.Valid()
    ensures r.shape.Valid() && r.shape.off == 0 && r.shape.len == s.Unread() + n && r.copied == s.Unread()
  {
    Moved(Shape(0, s.Unread() + n, if 2 * (s.Unread() + n) <= s.cap then s.cap else 2 * s.cap + n, false), s.Unread())
  }

  function WriteShape(s: Shape, n: nat): (r: Moved)
    requires s.Valid()
    ensures r.shape.Valid() && r.shape.len >= n && r.shape.Unread() == s.Unread() + n
  {
    if s.len + n <= s.cap then Moved(s.(len := s.len + n), n)
    else
      var g := Grown(s, n);
      Moved(g.shape, g.copied + n)
  }

  // The part that Append, ReadFrom and ReadOnce share: room for need bytes after the end, sliding when that is enough.
  function RoomShape(s: Shape, need: nat): (r: Moved)
    requires s.Valid()
    ensures r.shape.Valid() && r.shape.Unread() == s.Unread() && r.shape.cap - r.shape.len >= need
  {
    var free := s.cap - s.len;
    if free >= need then Moved(s, 0)
    else if s.off + free < need then Moved(Shape(0, s.Unread(), 2 * s.cap + need, false), s.Unread())
    else Moved(Shape(0, s.Unread(), s.cap, s.isNil), s.Unread())
  }

  function AppendShape(s: Shape, n: nat): (r: Moved)
    requires s.Valid()
    ensures r.shape.Valid() && r.shape.Unread() == s.Unread() + n
  {
    var room := RoomShape(Drained(s), n);
    Moved(room.shape.(len := room.shape.len + n), room.copied + n)
  }

  function ReadShape(s: Shape, n: nat): (r: Shape)
    requires s.Valid()
    ensures r.Valid()
  {
    if s.off >= s.len then ResetShape(s)
    else s.(off := s.off + if n <= s.Unread() then n else s.Unread())
  }

  // Drain, Cut and WriteTo all move the offset, and never past the end.
  function DrainShape(s: Shape, n: nat): (r: Shape)
    requires s.Valid()
    ensures r.Valid()
  {
    if s.off + n > s.len then s else s.(off := s.off + n)
  }

  // The first bytes of a zero buffer go into its inline array of 64 bytes if they fit, and otherwise into a slice of their size.
  lemma FirstBytes(n: nat)
    requires n > 0
    ensures WriteShape(Shape(0, 0, 0, true), n) == Moved(Shape(0, n, if n <= 64 then 64 else n, false), n)
  {
  }

  datatype Op = Write(n: nat) | Append(n: nat) | Read(n: nat) | Drain(n: nat) | Reset

  function Apply(s: Shape, op: Op): (r: Moved)
    requires s.Valid()
    ensures r.shape.Valid()
  {
    match op
    case Write(n) => WriteShape(s, n)
    case Append(n) => AppendShape(s, n)
    case Read(n) => Moved(ReadShape(s, n), 0)
    case Drain(n) => Moved(DrainShape(s, n), 0)
    case Reset => Moved(ResetShape(s), 0)
  }

  function Run(s: Shape, ops: seq<Op>): (r: Moved)
    requires s.Valid()
    ensures r.shape.Valid()
    decreases |ops|
  {
    if ops == [] then Moved(s, 0)
    else
      var front := Run(s, ops[..|ops| - 1]);
      var last := Apply(front.shape, ops[|ops| - 1]);
      Moved(last.shape, front.copied + last.copied)
  }

  function Amount(op: Op): nat {
    match op
    case Write(n) => n
    case Append(n) => n
    case _ => 0
  }

  function Written(ops: seq<Op>): nat {
    if ops == [] then 0 else Written(ops[..|ops| - 1]) + Amount(ops[|ops| - 1])
  }

  // How far the slice is filled beyond half of its capacity, twice over.
  function Potential(s: Shape): nat {
    if 2 * s.len > s.cap then 2 * s.len - s.cap else 0
  }

  // An Append that slides a buffer which stays more than half full, with more to move than has been saved up for it.
  predicate Churns(s: Shape, op: Op)
    requires s.Valid()
  {
    && op.Append? && s.off < s.len
    && s.cap - s.len < op.n <= s.cap - s.Unread()
    && 2 * (s.Unread() + op.n) > s.cap
    && 3 * s.Unread() > s.cap + Potential(s)
  }

  // Exactly the other steps pay for their copying with three units a byte written, or from the potential.
  lemma StepPays(s: Shape, op: Op)
    requires s.Valid()
    ensures Apply(s, op).copied + Potential(Apply(s, op).shape) <= Potential(s) + 3 * Amount(op) <==> !Churns(s, op)
  {
    match op {
      case Write(n) => WritePays(s, n);
      case Append(n) => AppendPays(s, n);
      case _ => hide WriteShape, AppendShape;
    }
  }

  lemma WritePays(s: Shape, n: nat)
    requires s.Valid()
    ensures WriteShape(s, n).copied + Potential(WriteShape(s, n).shape) <= Potential(s) + 3 * n
  {
  }

  lemma AppendPays(s: Shape, n: nat)
    requires s.Valid()
    ensures AppendShape(s, n).copied + Potential(AppendShape(s, n).shape) <= Potential(s) + 3 * n <==> !Churns(s, Append(n))
  {
  }

  ghost predicate NeverChurns(s: Shape, ops: seq<Op>)
    requires s.Valid()
  {
    forall i :: 0 <= i < |ops| ==> !Churns(Run(s, ops[..i]).shape, ops[i])
  }

  /** The copying of a whole run from an empty buffer is at most three bytes for each byte written, whatever is read
      in between, as long as every step pays, which only a sliding Append may fail to do.  Write never does: it slides
      only when the result fills at most half of the capacity. */
  lemma {:induction false} CopyingIsAmortized(s: Shape, ops: seq<Op>)
    requires s.Valid() && s.len == 0 && NeverChurns(s, ops)
    ensures Run(s, ops).copied + Potential(Run(s, ops).shape) <= 3 * Written(ops)
  {
    hide Apply, Churns;
    if ops != [] {
      var last := |ops| - 1;
      var front := ops[..last];
      assert front == ops[..last] && !Churns(Run(s, ops[..last]).shape, ops[last]);
      forall i | 0 <= i < |front| ensures !Churns(Run(s, front[..i]).shape, front[i]) {
        assert front[..i] == ops[..i];
      }
      CopyingIsAmortized(s, front);
      StepPays(Run(s, front).shape, ops[last]);
    }
  }

  lemma WritingIsAmortized(s: Shape, ops: seq<Op>)
    requires s.Valid() && s.len == 0 && forall i :: 0 <= i < |ops| ==> !ops[i].Append?
    ensures Run(s, ops).copied <= 3 * Written(ops)
  {
    CopyingIsAmortized(s, ops);
  }

  lemma RunSnoc(s: Shape, ops: seq<Op>, op: Op)
    requires s.Valid()
    ensures Run(s, ops + [op]).shape == Apply(Run(s, ops).shape, op).shape
    ensures Run(s, ops + [op]).copied == Run(s, ops).copied + Apply(Run(s, ops).shape, op).copied
    ensures Written(ops + [op]) == Written(ops) + Amount(op)
  {
    assert (ops + [op])[..|ops|] == ops;
  }

  // Fill the buffer, free one byte, and then append and drain a single byte k times.
  function ChurnRun(cap: nat, k: nat): seq<Op> {
    if k == 0 then [] + [Append(cap)] + [Drain(1)] else ChurnRun(cap, k - 1) + [Append(1)] + [Drain(1)]
  }

  lemma {:induction false} ChurnCost(cap: nat, k: nat)
    requires cap >= 2
    ensures var s := Shape(0, 0, cap, false);
            && Run(s, ChurnRun(cap, k)).shape == Shape(1, cap, cap, false)
            && Run(s, ChurnRun(cap, k)).copied == cap + k * cap
            && Written(ChurnRun(cap, k)) == cap + k
  {
    hide Run, Written, Apply;
    var s := Shape(0, 0, cap, false);
    ChurnStep(cap);
    if k == 0 {
      NoRun(s);
      RunSnoc(s, [], Append(cap));
      RunSnoc(s, [] + [Append(cap)], Drain(1));
    } else {
      ChurnCost(cap, k - 1);
      RunSnoc(s, ChurnRun(cap, k - 1), Append(1));
      RunSnoc(s, ChurnRun(cap, k - 1) + [Append(1)], Drain(1));
      assert k * cap == (k - 1) * cap + cap;
    }
  }

  lemma NoRun(s: Shape)
    requires s.Valid()
    ensures Run(s, []) == Moved(s, 0) && Written([]) == 0
  {
  }

  lemma ChurnStep(cap: nat)
    requires cap >= 2
    ensures Apply(Shape(0, 0, cap, false), Append(cap)) == Moved(Shape(0, cap, cap, false), cap)
    ensures Apply(Shape(0, cap, cap, false), Drain(1)) == Moved(Shape(1, cap, cap, false), 0)
    ensures Apply(Shape(1, cap, cap, false), Append(1)) == Moved(Shape(0, cap, cap, false), cap)
  {
  }

  /** The side condition is needed: with Append there is no bound at all.  For every ratio some run of Append and Drain
      copies more than ratio bytes for each byte written. */
  lemma AppendingHasNoBound(ratio: nat)
    ensures exists cap: nat, ops :: Run(Shape(0, 0, cap, false), ops).copied > ratio * Written(ops)
  {
    hide Run, Written, ChurnRun;
    var cap := 2 * ratio + 2;
    ChurnCost(cap, cap);
    Outgrows(ratio, cap);
    assert Run(Shape(0, 0, cap, false), ChurnRun(cap, cap)).copied > ratio * Written(ChurnRun(cap, cap));
  }

  lemma Outgrows(ratio: nat, cap: nat)
    requires cap == 2 * ratio + 2
    ensures cap + cap * cap > ratio * (cap + cap)
  {
    assert ratio * (cap + cap) == (cap - 2) * cap;
    assert (cap - 2) * cap == cap * cap - 2 * cap;
  }

  function Pow2(k: nat): (r: nat)
    ensures r >= 1
  {
    if k == 0 then 1 else 2 * Pow2(k - 1)
  }

  // Overfill by one byte, fill up, and so on, through k reallocations.
  function FillRun(k: nat): seq<Op> {
    if k == 0 then [] + [Write(1)] else FillRun(k - 1) + [Write(1)] + [Write(Pow2(k) - 1)]
  }

  lemma {:induction false} FillCost(k: nat)
    ensures var s := Shape(0, 0, 1, false); var full := 2 * Pow2(k) - 1;
            && Run(s, FillRun(k)).shape == Shape(0, full, full, false)
            && Written(FillRun(k)) == full && Run(s, FillRun(k)).copied == 2 * full - 1 - k
  {
    hide Run, Written, Apply;
    var s := Shape(0, 0, 1, false);
    if k == 0 {
      NoRun(s);
      FillStep(s, 1);
      RunSnoc(s, [], Write(1));
    } else {
      var full := Pow2(k) - 1;
      FillCost(k - 1);
      OverfillStep(full);
      FillStep(Shape(0, full + 1, 2 * full + 1, false), full);
      RunSnoc(s, FillRun(k - 1), Write(1));
      RunSnoc(s, FillRun(k - 1) + [Write(1)], Write(Pow2(k) - 1));
    }
  }

  lemma FillStep(s: Shape, n: nat)
    requires s.Valid() && s.len + n <= s.cap
    ensures Apply(s, Write(n)) == Moved(s.(len := s.len + n), n)
  {
  }

  lemma OverfillStep(full: nat)
    requires full >= 1
    ensures Apply(Shape(0, full, full, false), Write(1)) == Moved(Shape(0, full + 1, 2 * full + 1, false), full + 1)
  {
  }

  /** Three is the best constant: some run writes Pow2(k + 1) bytes and copies three times as much, short of k + 3. */
  lemma ThreeIsTight(k: nat)
    ensures exists ops: seq<Op> :: Written(ops) == Pow2(k + 1)
                          && Run(Shape(0, 0, 1, false), ops).copied == 3 * Written(ops) - (k + 3)
                          && forall i :: 0 <= i < |ops| ==> ops[i].Write?
  {
    hide Run, Written, Apply;
    FillCost(k);
    RunSnoc(Shape(0, 0, 1, false), FillRun(k), Write(1));
    OverfillStep(2 * Pow2(k) - 1);
    FillWrites(k);
    var ops := FillRun(k) + [Write(1)];
    assert Written(ops) == Pow2(k + 1);
  }

  lemma {:induction false} FillWrites(k: nat)
    ensures forall i :: 0 <= i < |FillRun(k)| ==> FillRun(k)[i].Write?
  {
    if k > 0 { FillWrites(k - 1); }
  }

  // copy(dst[at:], src): Go's copy moves the bytes as they were before the call, also when the two overlap.
  method CopyInto(dst: array<Byte>, at: nat, src: ByteString)
    requires at + |src| <= dst.Length
    modifies dst
    ensures dst[..at] == old(dst[..at])
    ensures dst[at..at + |src|] == src
    ensures dst[at + |src|..] == old(dst[at + |src|..])
  {
    for i := 0 to |src|
      invariant dst[..at] == old(dst[..at])
      invariant dst[at..at + i] == src[..i]
      invariant forall m :: at + i <= m < dst.Length ==> dst[m] == old(dst[m])
    {
      dst[at + i] := src[i];
    }
  }

  method MakeSlice(n: nat) returns (a: array<Byte>)
    ensures fresh(a) && a.Length == n
  {
    a := new Byte[n](_ => ZERO);
  }

  /** A reader, as the sequence of its future reads: each delivers its bytes over as many calls as the space given
      needs, and its error with the last of them. */
  datatype ReadError = EndOfFile | Timeout | Failed
  datatype Delivery = Delivery(data: ByteString, err: Option<ReadError>)

  class Reader {
    var script: seq<Delivery>

    constructor (script: seq<Delivery>)
      ensures this.script == script
    {
      this.script := script;
    }

    method Read(space: nat) returns (data: ByteString, err: Option<ReadError>)
      modifies this
      ensures |data| <= space
      ensures (data, err, script) == ReadResult(old(script), space)
    {
      if script == [] {
        data, err := [], Some(EndOfFile);
      } else if |script[0].data| <= space {
        data, err := script[0].data, script[0].err;
        script := script[1..];
      } else {
        data, err := script[0].data[..space], None;
        script := [script[0].(data := script[0].data[space..])] + script[1..];
      }
    }
  }

  function ReadResult(script: seq<Delivery>, space: nat): (ByteString, Option<ReadError>, seq<Delivery>) {
    if script == [] then ([], Some(EndOfFile), [])
    else if |script[0].data| <= space then (script[0].data, script[0].err, script[1..])
    else (script[0].data[..space], None, [script[0].(data := script[0].data[space..])] + script[1..])
  }

  // Every byte a reader will still deliver.
  function Pending(script: seq<Delivery>): ByteString {
    if script == [] then [] else script[0].data + Pending(script[1..])
  }

  lemma {:induction false} ReadConserves(script: seq<Delivery>, space: nat)
    ensures var (data, err, rest) := ReadResult(script, space); Pending(script) == data + Pending(rest)
  {
    if script != [] && |script[0].data| > space {
      var d := script[0].data;
      var rest := ReadResult(script, space).2;
      assert rest[1..] == script[1..];
      assert d == d[..space] + d[space..];
    }
  }

  /** What reading to the end takes, however the deliveries are cut up by the space offered: all data up to and with the
      first end of file, error or empty delivery.  An empty delivery ends the reading without an error, whatever it says. */
  datatype Taken = Taken(data: ByteString, err: Option<ReadError>, script: seq<Delivery>)

  function TakeAll(script: seq<Delivery>): Taken {
    if script == [] then Taken([], None, [])
    else if script[0].err == Some(EndOfFile) || script[0].data == [] then Taken(script[0].data, None, script[1..])
    else if script[0].err.Some? then Taken(script[0].data, script[0].err, script[1..])
    else var t := TakeAll(script[1..]); t.(data := script[0].data + t.data)
  }

  // One read is the first part of it.
  lemma TakeMore(script: seq<Delivery>, space: nat)
    requires space > 0
    ensures var (data, err, rest) := ReadResult(script, space);
            TakeAll(script) == if err == Some(EndOfFile) || data == [] then Taken(data, None, rest)
                               else if err.Some? then Taken(data, err, rest)
                               else TakeAll(rest).(data := data + TakeAll(rest).data)
  {
    if script != [] && |script[0].data| > space {
      var d := script[0].data;
      var rest := ReadResult(script, space).2;
      assert rest[1..] == script[1..] && rest[0].data == d[space..];
      assert d == d[..space] + d[space..];
      if script[0].err.None? { Regroup(d[..space], d[space..], TakeAll(script[1..]).data); }
    }
  }

  // After read the rest of what is to be taken from script0 is what there is to take from script.
  ghost predicate Taking(read: ByteString, script0: seq<Delivery>, script: seq<Delivery>) {
    var t := TakeAll(script); TakeAll(script0) == t.(data := read + t.data)
  }

  lemma StartTaking(script: seq<Delivery>)
    ensures Taking([], script, script)
  {
    assert [] + TakeAll(script).data == TakeAll(script).data;
  }

  lemma TakeNext(read: ByteString, script0: seq<Delivery>, script: seq<Delivery>, space: nat)
    requires Taking(read, script0, script) && space > 0
    ensures var (data, err, rest) := ReadResult(script, space);
            if err == Some(EndOfFile) || data == [] then Taken(read + data, None, rest) == TakeAll(script0)
            else if err.Some? then Taken(read + data, err, rest) == TakeAll(script0)
            else Taking(read + data, script0, rest)
  {
    hide TakeAll, ReadResult;
    TakeMore(script, space);
    var (data, err, rest) := ReadResult(script, space);
    Regroup(read, data, TakeAll(rest).data);
  }

  // A run of deliveries without an error is taken as a whole, and then the reading goes on.
  lemma {:induction false} TakesDeliveries(script: seq<Delivery>, k: nat)
    requires k <= |script| && forall i :: 0 <= i < k ==> script[i].err.None? && script[i].data != []
    ensures var t := TakeAll(script[k..]); TakeAll(script) == t.(data := Pending(script[..k]) + t.data)
  {
    if k == 0 {
      assert script[..0] == [] && script[0..] == script;
    } else {
      TakesDeliveries(script[1..], k - 1);
      assert script[1..][..k - 1] == script[..k][1..] && script[1..][k - 1..] == script[k..];
      Regroup(script[0].data, Pending(script[..k][1..]), TakeAll(script[k..]).data);
    }
  }

  /** What ReadOnce takes from a script with a slice of this shape: it offers all free space in each round and stops at an
      error, whose data is lost, at a read that leaves free space, or when more than MAX_READ bytes have come; n came
      before. */
  datatype Once = Once(data: ByteString, lost: ByteString, err: Option<ReadError>, script: seq<Delivery>, shape: Shape)

  function OnceStart(s: Shape): (r: Shape)
    requires s.Valid()
    ensures r.Valid()
  {
    var d := Drained(s);
    if d.off > 0 && d.Unread() < 4 * MIN_READ then Shape(0, d.Unread(), d.cap, false) else d
  }

  // Fewer than 4096 unread bytes are moved to the front first, and more stay where they are.
  lemma SlidesFirst(s: Shape)
    requires s.Valid() && s.off < s.len
    ensures OnceStart(s) == if s.off > 0 && s.len - s.off < 4096 then Shape(0, s.len - s.off, s.cap, false) else s
  {
  }

  function Rounds(s: Shape, script: seq<Delivery>, n: nat): (o: Once)
    requires s.Valid()
    ensures o.shape.Valid()
    decreases |Pending(script)|
  {
    var room := RoomShape(s, MIN_READ).shape;
    var l := room.cap - room.len;
    var (data, err, rest) := ReadResult(script, l);
    ReadConserves(script, l);
    if err.Some? then Once([], data, err, rest, room)
    else
      var after := room.(len := room.len + |data|);
      if |data| != l || n + |data| > MAX_READ then Once(data, [], None, rest, after)
      else
        var o := Rounds(after, rest, n + |data|);
        o.(data := data + o.data)
  }

  lemma RoundsOne(s: Shape, script: seq<Delivery>, n: nat)
    requires s.Valid()
    ensures var room := RoomShape(s, MIN_READ).shape; var l := room.cap - room.len;
            var (data, err, rest) := ReadResult(script, l); var after := room.(len := room.len + |data|);
            && |data| <= l
            && Rounds(s, script, n) == if err.Some? then Once([], data, err, rest, room)
                                       else if |data| != l || n + |data| > MAX_READ then Once(data, [], None, rest, after)
                                       else var o := Rounds(after, rest, n + |data|); o.(data := data + o.data)
  {
    hide RoomShape;
  }

  // What is left of a script after whole deliveries, at least one if there was one.
  ghost predicate Behind(rest: seq<Delivery>, script: seq<Delivery>) {
    (script == [] && rest == []) || exists k :: 0 < k <= |script| && rest == script[k..]
  }

  // A read takes part of the first delivery and fills the space, or takes what is left of it.
  lemma ReadPart(script: seq<Delivery>, space: nat)
    ensures var (data, err, rest) := ReadResult(script, space);
            && |data| <= space && (err.Some? || |data| != space ==> Behind(rest, script))
            && forall x :: Behind(x, rest) ==> Behind(x, script)
  {
    var (data, err, rest) := ReadResult(script, space);
    if script != [] && |script[0].data| <= space { assert rest == script[1..]; }
    forall x | Behind(x, rest) ensures Behind(x, script) {
      if script != [] {
        if rest == [] {
          assert x == script[1..];
        } else {
          var k :| 0 < k <= |rest| && x == rest[k..];
          assert x == script[if |script[0].data| <= space then k + 1 else k..];
        }
      }
    }
  }

  /** Why ReadOnce stops, without mention of the space: it has more than MAX_READ bytes, or it has whole deliveries, at
      least one, the last of them lost if it carried an error. */
  lemma {:induction false} RoundsStop(s: Shape, script: seq<Delivery>, n: nat)
    requires s.Valid()
    ensures var o := Rounds(s, script, n); n + |o.data| > 131072 || Behind(o.script, script)
    decreases |Pending(script)|
  {
    hide ReadResult, RoomShape, Pending, Behind, Rounds;
    var room := RoomShape(s, MIN_READ).shape;
    var l := room.cap - room.len;
    var (data, err, rest) := ReadResult(script, l);
    RoundsOne(s, script, n);
    ReadConserves(script, l);
    ReadPart(script, l);
    if err.None? && |data| == l && n + |data| <= MAX_READ {
      RoundsStop(room.(len := room.len + |data|), rest, n + |data|);
    }
  }

  // read moved from what was pending, p0, to the end of the contents, c0.
  ghost predicate Transferred(read: ByteString, c0: ByteString, p0: ByteString, c: ByteString, p: ByteString) {
    c == c0 + read && p0 == read + p
  }

  lemma StartTransfer(c0: ByteString, p0: ByteString)
    ensures Transferred([], c0, p0, c0, p0)
  {
  }

  lemma TransferMore(read: ByteString, c0: ByteString, p0: ByteString, c: ByteString, p: ByteString, data: ByteString, p': ByteString)
    requires Transferred(read, c0, p0, c, p) && p == data + p'
    ensures Transferred(read + data, c0, p0, c + data, p')
  {
  }

  // Whether errors come without data, as a TCP connection delivers them.
  predicate ErrorsCarryNoData(script: seq<Delivery>) {
    forall i :: 0 <= i < |script| && script[i].err.Some? ==> script[i].data == []
  }

  /** A writer: each call takes the given number of bytes and may fail.  A writer without further instructions takes
      everything. */
  class Writer {
    var script: seq<(nat, bool)>
    ghost var received: ByteString

    constructor (script: seq<(nat, bool)>)
      ensures this.script == script && received == []
    {
      this.script, received := script, [];
    }

    method Write(p: ByteString) returns (m: nat, failed: bool)
      modifies this
      ensures (m, failed, script) == if old(script) == [] then (|p|, false, []) else (old(script)[0].0, old(script)[0].1, old(script)[1..])
      ensures m <= |p| ==> received == old(received) + p[..m]
      ensures m > |p| ==> received == old(received)
    {
      m, failed := |p|, false;
      if script != [] {
        m, failed := script[0].0, script[0].1;
        script := script[1..];
      }
      if m <= |p| {
        received := received + p[..m];
      }
    }
  }

  datatype WriteResult = Sent(n: nat, failed: bool) | InvalidWriteCount(n: nat)

  /** What WriteTo does with left bytes to write: it goes on until they are gone, the writer fails, takes nothing or claims
      more than it was given. */
  function WriteCalls(script: seq<(nat, bool)>, left: nat): (WriteResult, seq<(nat, bool)>)
    decreases |script|
  {
    if left == 0 then (Sent(0, false), script)
    else if script == [] then (Sent(left, false), [])
    else
      var (m, failed) := script[0];
      if m > left then (InvalidWriteCount(0), script[1..])
      else if failed then (Sent(m, true), script[1..])
      else if m == 0 then (Sent(0, false), script[1..])
      else
        var (r, rest) := WriteCalls(script[1..], left - m);
        (r.(n := m + r.n), rest)
  }

  /** It never writes more than there is, and it stops short without an error only when the writer took nothing. */
  lemma {:induction false} WriteStops(script: seq<(nat, bool)>, left: nat)
    ensures var r := WriteCalls(script, left).0;
            && r.n <= left && (r.InvalidWriteCount? ==> r.n < left)
            && (r.Sent? && !r.failed && r.n < left ==> exists i :: 0 <= i < |script| && script[i].0 == 0)
    decreases |script|
  {
    if left > 0 && script != [] {
      if 0 < script[0].0 <= left {
        WriteStops(script[1..], left - script[0].0);
        assert forall i :: 0 <= i < |script[1..]| ==> script[1..][i] == script[i + 1];
      }
    }
  }

  /** The first call that fails is the last one made and is reported: every call before the last one took some bytes and did
      not fail, and the result says failed exactly when the last call failed and did not claim too much. */
  lemma {:induction false} FailureEndsWriting(script: seq<(nat, bool)>, left: nat)
    ensures var (r, rest) := WriteCalls(script, left); var made := |script| - |rest|;
            && 0 <= made <= |script| && rest == script[made..]
            && (forall i :: 0 <= i < made - 1 ==> !script[i].1 && script[i].0 > 0)
            && (r.Sent? && r.failed ==> made > 0 && script[made - 1].1)
            && (made > 0 && script[made - 1].1 ==> r.InvalidWriteCount? || r.failed)
            && (r.InvalidWriteCount? ==> made > 0 && r.n + script[made - 1].0 > left)
            && (r.Sent? && !r.failed && (made == 0 || script[made - 1].0 > 0) ==> r.n == left)
    decreases |script|
  {
    if left > 0 && script != [] && 0 < script[0].0 <= left && !script[0].1 {
      FailureEndsWriting(script[1..], left - script[0].0);
      assert forall i :: 0 <= i < |script| - 1 ==> script[1..][i] == script[i + 1];
    }
  }

  class IoBuffer {
    var buf: array<Byte>
    var len: nat
    var off: nat
    var isNil: bool
    ghost var copied: nat

    ghost function State(): Shape
      reads this`buf, this`len, this`off, this`isNil
    {
      Shape(off, len, buf.Length, isNil)
    }

    ghost predicate Valid()
      reads this`buf, this`len, this`off, this`isNil
    {
      State().Valid()
    }

    // The abstract value: a queue of bytes.
    ghost function Contents(): (r: ByteString)
      requires Valid()
      reads this`buf, this`len, this`off, this`isNil, buf
      ensures |r| == len - off
    {
      buf[off..len]
    }

    constructor WithCapacity(capacity: nat)
      ensures Valid() && Contents() == [] && State() == Shape(0, 0, capacity, false) && fresh(buf) && copied == 0
    {
      buf := new Byte[capacity](_ => ZERO);
      len, off, isNil, copied := 0, 0, false, 0;
    }

    constructor FromBytes(bytes: ByteString)
      ensures Valid() && Contents() == bytes && State() == Shape(0, |bytes|, |bytes|, false) && fresh(buf) && copied == 0
    {
      buf := new Byte[|bytes|](i requires 0 <= i < |bytes| => bytes[i]);
      len, off, isNil, copied := |bytes|, 0, false, 0;
    }

    method Reset()
      requires Valid()
      modifies this`len, this`off
      ensures Valid() && State() == ResetShape(old(State())) && Contents() == []
    {
      len, off := 0, 0;
    }

    method ResetIfDrained()
      requires Valid()
      modifies this`len, this`off
      ensures Valid() && State() == Drained(old(State())) && Contents() == old(Contents())
    {
      if off >= len {
        Reset();
      }
    }

    method TryGrowByReslice(n: nat) returns (m: nat, ok: bool)
      requires Valid()
      modifies this`len
      ensures ok <==> old(len) + n <= buf.Length
      ensures ok ==> m == old(len) && State() == old(State()).(len := old(len) + n)
      ensures !ok ==> State() == old(State())
    {
      if len + n <= buf.Length {
        m := len;
        len := len + n;
        return m, true;
      }
      return 0, false;
    }

    /** grow: afterwards the unread bytes are followed by n bytes of room that start at m. */
    method Grow(n: nat) returns (m: nat)
      requires Valid()
      modifies this, buf
      ensures Valid() && State() == Grown(old(State()), n).shape
      ensures m + n == len && off <= m && buf[off..m] == old(Contents())
      ensures copied == old(copied) + Grown(old(State()), n).copied
      ensures buf == old(buf) || fresh(buf)
    {
      hide SpaceShape;
      m := len - off;
      if m == 0 && off != 0 {
        Reset();
      }
      var i, ok := TryGrowByReslice(n);
      if ok {
        return i;
      }
      if isNil && n <= BOOTSTRAP {
        buf := MakeSlice(BOOTSTRAP);
        isNil, len := false, n;
        return 0;
      }
      MakeSpace(n);
    }

    method MakeSpace(n: nat)
      requires Valid() && len + n > buf.Length
      modifies this, buf
      ensures Valid() && State() == SpaceShape(old(State()), n).shape
      ensures buf[..old(State()).Unread()] == old(Contents())
      ensures copied == old(copied) + SpaceShape(old(State()), n).copied && (buf == old(buf) || fresh(buf))
    {
      hide IoBuffer.Contents;
      var m := len - off;
      var a := buf;
      if m + n > buf.Length / 2 {
        a := MakeSlice(2 * buf.Length + n);
      }
      MoveTo(a);
      len := m + n;
    }

    // Copy the unread bytes to the front of a, which is the old slice or a new one, and go on with a.
    method MoveTo(a: array<Byte>)
      requires Valid() && len - off <= a.Length && (isNil ==> a != buf)
      modifies this, a
      ensures Valid() && State() == Shape(0, old(State()).Unread(), a.Length, false) && buf == a
      ensures Contents() == old(Contents()) == buf[..old(State()).Unread()] && copied == old(copied) + old(State()).Unread()
    {
      var unread := buf[off..len];
      CopyInto(a, 0, unread);
      copied := copied + |unread|;
      buf, off, len, isNil := a, 0, |unread|, false;
    }

    method Write(p: ByteString) returns (n: nat)
      requires Valid()
      modifies this, buf
      ensures Valid() && n == |p| && Contents() == old(Contents()) + p
      ensures State() == WriteShape(old(State()), |p|).shape
      ensures copied == old(copied) + WriteShape(old(State()), |p|).copied
      ensures buf == old(buf) || fresh(buf)
    {
      var m, ok := TryGrowByReslice(|p|);
      if !ok {
        m := Grow(|p|);
      }
      FillFrom(m, p);
      copied := copied + |p|;
      return |p|;
    }

    method FillFrom(m: nat, p: ByteString)
      requires Valid() && off <= m && m + |p| == len
      modifies buf
      ensures Contents() == old(buf[off..m]) + p
    {
      CopyInto(buf, m, p);
      assert buf[off..m] == buf[..m][off..] == old(buf[..m])[off..];
      assert buf[off..len] == buf[off..m] + buf[m..len];
    }

    // Room for need bytes after the end: keep the slice, slide it, or reallocate.
    method MakeRoom(need: nat)
      requires Valid()
      modifies this, buf
      ensures Valid() && State() == RoomShape(old(State()), need).shape && Contents() == old(Contents())
      ensures copied == old(copied) + RoomShape(old(State()), need).copied
      ensures buf == old(buf) || fresh(buf)
    {
      var free := buf.Length - len;
      if free < need {
        var a := buf;
        if off + free < need {
          a := MakeSlice(2 * buf.Length + need);
        }
        MoveTo(a);
      }
    }

    // Extend the slice over bytes that were put after its end.
    method ExtendWith(data: ByteString)
      requires Valid() && len + |data| <= buf.Length
      modifies this`len, buf
      ensures Valid() && State() == old(State()).(len := old(len) + |data|) && Contents() == old(Contents()) + data
    {
      len := len + |data|;
      FillFrom(len - |data|, data);
    }

    method Append(data: ByteString)
      requires Valid()
      modifies this, buf
      ensures Valid() && Contents() == old(Contents()) + data
      ensures State() == AppendShape(old(State()), |data|).shape
      ensures copied == old(copied) + AppendShape(old(State()), |data|).copied
      ensures buf == old(buf) || fresh(buf)
    {
      hide RoomShape, Drained, IoBuffer.Contents;
      ResetIfDrained();
      MakeRoom(|data|);
      ExtendWith(data);
      copied := copied + |data|;
    }

    /** ReadFrom: everything the reader delivers until it ends, fails or delivers nothing, also together with its last
        error, ends up at the end of the buffer. */
    method ReadFrom(r: Reader) returns (n: nat, err: Option<ReadError>, ghost read: ByteString)
      requires Valid()
      modifies this, buf, r
      ensures Valid() && n == |read|
      ensures Taken(read, err, r.script) == TakeAll(old(r.script))
      ensures Transferred(read, old(Contents()), old(Pending(r.script)), Contents(), Pending(r.script))
      ensures buf == old(buf) || fresh(buf)
      ensures err != Some(EndOfFile)
    {
      hide Pending, Drained, Transferred, Taking, IoBuffer.Contents, TakeAll, ReadResult, RoomShape;
      StartTransfer(Contents(), Pending(r.script));
      StartTaking(r.script);
      n, err, read := 0, None, [];
      ResetIfDrained();
      while true
        invariant Valid() && n == |read|
        invariant Taking(read, old(r.script), r.script)
        invariant Transferred(read, old(Contents()), old(Pending(r.script)), Contents(), Pending(r.script))
        invariant buf == old(buf) || fresh(buf)
        decreases |Pending(r.script)|
      {
        MakeRoom(MIN_READ);
        ghost var c, p := Contents(), Pending(r.script);
        TakeNext(read, old(r.script), r.script, buf.Length - len);
        var data, e := ReadInto(r);
        TransferMore(read, old(Contents()), old(Pending(r.script)), c, p, data, Pending(r.script));
        read := read + data;
        n := n + |data|;
        if e == Some(EndOfFile) {
          break;
        }
        if |data| == 0 {
          break;
        }
        if e.Some? {
          return n, e, read;
        }
      }
    }

    /** ReadOnce: read until a read does not fill the free space, more than MAX_READ bytes have come, or an error
        occurs; a timeout is no error.  What a read returns together with an error is not kept, so nothing is lost
        exactly as far as errors come without data. */
    method ReadOnce(r: Reader) returns (n: nat, err: Option<ReadError>, ghost read: ByteString, ghost lost: ByteString)
      requires Valid()
      modifies this, buf, r
      ensures Valid() && n == |read|
      ensures var o := Rounds(OnceStart(old(State())), old(r.script), 0);
              && (read, lost, r.script, State()) == (o.data, o.lost, o.script, o.shape)
              && err == if o.err == Some(Timeout) then None else o.err
      ensures Transferred(read, old(Contents()), old(Pending(r.script)), Contents(), lost + Pending(r.script))
      ensures old(ErrorsCarryNoData(r.script)) ==> lost == []
      ensures buf == old(buf) || fresh(buf)
    {
      hide Pending, ErrorsCarryNoData, Transferred, IoBuffer.Contents, Rounds;
      ResetIfDrained();
      if off > 0 && len - off < 4 * MIN_READ {
        MoveTo(buf);
      }
      n, err, read, lost := ReadRounds(r);
      if err == Some(Timeout) {
        err := None;
      }
    }

    // The loop of ReadOnce.
    method ReadRounds(r: Reader) returns (n: nat, err: Option<ReadError>, ghost read: ByteString, ghost lost: ByteString)
      requires Valid()
      modifies this, buf, r
      ensures Valid() && n == |read|
      ensures Once(read, lost, err, r.script, State()) == Rounds(old(State()), old(r.script), 0)
      ensures Transferred(read, old(Contents()), old(Pending(r.script)), Contents(), lost + Pending(r.script))
      ensures old(ErrorsCarryNoData(r.script)) ==> lost == []
      ensures buf == old(buf) || fresh(buf)
    {
      hide Pending, ErrorsCarryNoData, Transferred, IoBuffer.Contents, ReadResult, RoomShape, Rounds;
      StartTransfer(Contents(), Pending(r.script));
      n, err, read, lost := 0, None, [], [];
      ghost var all := Rounds(State(), r.script, 0);
      assert all == all.(data := [] + all.data);
      while true
        invariant Valid() && n == |read|
        invariant var o := Rounds(State(), r.script, n); all == o.(data := read + o.data)
        invariant Transferred(read, old(Contents()), old(Pending(r.script)), Contents(), Pending(r.script))
        invariant old(ErrorsCarryNoData(r.script)) ==> ErrorsCarryNoData(r.script)
        invariant buf == old(buf) || fresh(buf)
        decreases |Pending(r.script)|
      {
        ghost var c, p := Contents(), Pending(r.script);
        RoundsOne(State(), r.script, n);
        var l, data, e := ReadChunk(r);
        if e.Some? {
          lost := data;
          assert read + [] == read;
          return n, e, read, lost;
        }
        Regroup(read, data, Rounds(State(), r.script, n + |data|).data);
        TransferMore(read, old(Contents()), old(Pending(r.script)), c, p, data, Pending(r.script));
        read := read + data;
        n := n + |data|;
        if l != |data| {
          break;
        }
        if n > MAX_READ {
          break;
        }
      }
      assert [] + Pending(r.script) == Pending(r.script);
    }

    // One round of ReadOnce: l is the free space offered, and an error leaves the slice as it was.
    method ReadChunk(r: Reader) returns (l: nat, data: ByteString, e: Option<ReadError>)
      requires Valid()
      modifies this, buf, r
      ensures Valid() && |data| <= l && l >= 1024
      ensures var room := RoomShape(old(State()), MIN_READ).shape;
              && l == room.cap - room.len && (data, e, r.script) == ReadResult(old(r.script), l)
              && State() == if e.Some? then room else room.(len := room.len + |data|)
      ensures Contents() == if e.Some? then old(Contents()) else old(Contents()) + data
      ensures old(Pending(r.script)) == data + Pending(r.script)
      ensures old(ErrorsCarryNoData(r.script)) ==> ErrorsCarryNoData(r.script) && (e.Some? ==> data == [])
      ensures buf == old(buf) || fresh(buf)
    {
      hide Pending, RoomShape, IoBuffer.Contents;
      MakeRoom(MIN_READ);
      l := buf.Length - len;
      ReadConserves(r.script, l);
      data, e := r.Read(l);
      if e.None? {
        ExtendWith(data);
      }
    }

    // One read into the free part of the slice, which then covers what was read.
    method ReadInto(r: Reader) returns (data: ByteString, e: Option<ReadError>)
      requires Valid()
      modifies this`len, buf, r
      ensures Valid() && Contents() == old(Contents()) + data
      ensures (data, e, r.script) == ReadResult(old(r.script), old(buf.Length - len))
      ensures old(Pending(r.script)) == data + Pending(r.script)
    {
      ReadConserves(r.script, buf.Length - len);
      data, e := r.Read(buf.Length - len);
      ExtendWith(data);
    }

    method Read(n: nat) returns (p: ByteString, eof: bool)
      requires Valid()
      modifies this`off, this`len
      ensures Valid() && State() == ReadShape(old(State()), n)
      ensures old(Contents()) == p + Contents() && |p| == if n <= |old(Contents())| then n else |old(Contents())|
      ensures eof <==> old(Contents()) == [] && n > 0
    {
      if off >= len {
        Reset();
        return [], n > 0;
      }
      var m := if n <= len - off then n else len - off;
      p := buf[off..off + m];
      off := off + m;
      return p, false;
    }

    /** WriteTo: the writer receives a prefix of the contents and the buffer keeps exactly the rest. */
    method WriteTo(w: Writer) returns (r: WriteResult, ghost sent: ByteString)
      requires Valid()
      modifies this`off, w
      ensures Valid() && State() == DrainShape(old(State()), r.n)
      ensures (r, w.script) == WriteCalls(old(w.script), |old(Contents())|)
      ensures r.n == |sent| && old(Contents()) == sent + Contents()
      ensures w.received == old(w.received) + sent
    {
      hide IoBuffer.Contents;
      var n := 0;
      sent := [];
      while off < len
        invariant Valid() && n == |sent| && off == old(off) + n && |Contents()| == len - off
        invariant var (x, rest) := WriteCalls(w.script, |Contents()|);
                  WriteCalls(old(w.script), |old(Contents())|) == (x.(n := n + x.n), rest)
        invariant old(Contents()) == sent + Contents()
        invariant w.received == old(w.received) + sent
        decreases len - off
      {
        var nBytes := len - off;
        var m, failed, taken := WriteOnce(w);
        if m > nBytes {
          return InvalidWriteCount(n), sent;
        }
        Regroup(sent, taken, Contents());
        Regroup(old(w.received), sent, taken);
        sent := sent + taken;
        n := n + m;
        if failed {
          return Sent(n, true), sent;
        }
        if m == 0 || m == nBytes {
          return Sent(n, false), sent;
        }
      }
      return Sent(n, false), sent;
    }

    // One call of the writer, and the offset moved over what it took.
    method WriteOnce(w: Writer) returns (m: nat, failed: bool, ghost taken: ByteString)
      requires Valid()
      modifies this`off, w
      ensures (m, failed, w.script) == if old(w.script) == [] then (|old(Contents())|, false, [])
                                       else (old(w.script)[0].0, old(w.script)[0].1, old(w.script)[1..])
      ensures Valid() && off == old(off) + |taken| && |taken| == if m <= |old(Contents())| then m else 0
      ensures old(Contents()) == taken + Contents() && w.received == old(w.received) + taken
    {
      taken := [];
      var p := buf[off..len];
      m, failed := w.Write(p);
      if m <= len - off {
        taken := p[..m];
        off := off + m;
        assert buf[off..len] == p[m..];
      }
    }

    method Peek(n: nat) returns (p: Option<ByteString>)
      requires Valid()
      ensures p == if n <= |Contents()| then Some(Contents()[..n]) else None
    {
      if len - off < n {
        return None;
      }
      assert buf[off..len][..n] == buf[off..off + n];
      return Some(buf[off..off + n]);
    }

    method Bytes() returns (p: ByteString)
      requires Valid()
      ensures p == Contents()
    {
      return buf[off..len];
    }

    method Cut(offset: nat) returns (b: IoBuffer?)
      requires Valid()
      modifies this`off
      ensures Valid() && State() == DrainShape(old(State()), offset)
      ensures b == null <==> offset > |old(Contents())|
      ensures b != null ==> b.Valid() && fresh(b) && fresh(b.buf) && old(Contents()) == b.Contents() + Contents() && |b.Contents()| == offset
      ensures b == null ==> Contents() == old(Contents())
    {
      if off + offset > len {
        return null;
      }
      b := new IoBuffer.FromBytes(buf[off..off + offset]);
      off := off + offset;
    }

    method Drain(offset: nat)
      requires Valid()
      modifies this`off
      ensures Valid() && State() == DrainShape(old(State()), offset)
      ensures Contents() == if offset <= |old(Contents())| then old(Contents())[offset..] else old(Contents())
    {
      if off + offset > len {
        return;
      }
      off := off + offset;
    }
  }

  // The calls whose copying is counted, with their bytes.
  datatype Call = WriteCall(data: ByteString) | AppendCall(data: ByteString) | ReadCall(n: nat) | DrainCall(n: nat) | ResetCall

  function OpOf(call: Call): Op {
    match call
    case WriteCall(data) => Write(|data|)
    case AppendCall(data) => Append(|data|)
    case ReadCall(n) => Read(n)
    case DrainCall(n) => Drain(n)
    case ResetCall => Reset
  }

  function Ops(calls: seq<Call>): seq<Op> {
    seq(|calls|, i requires 0 <= i < |calls| => OpOf(calls[i]))
  }

  /** The byte queue, as a reference: each call adds bytes at the end or takes bytes from the front. */
  function Put(call: Call): ByteString {
    match call
    case WriteCall(data) => data
    case AppendCall(data) => data
    case _ => []
  }

  function Leaving(q: ByteString, call: Call): (r: nat)
    ensures r <= |q|
  {
    match call
    case ReadCall(n) => if n <= |q| then n else |q|
    case DrainCall(n) => if n <= |q| then n else 0
    case ResetCall => |q|
    case _ => 0
  }

  function Queued(q: ByteString, calls: seq<Call>): ByteString {
    if calls == [] then q
    else
      var front, last := Queued(q, calls[..|calls| - 1]), calls[|calls| - 1];
      front[Leaving(front, last)..] + Put(last)
  }

  function Gone(q: ByteString, calls: seq<Call>): ByteString {
    if calls == [] then []
    else
      var front, last := Queued(q, calls[..|calls| - 1]), calls[|calls| - 1];
      Gone(q, calls[..|calls| - 1]) + front[..Leaving(front, last)]
  }

  function AllPut(calls: seq<Call>): ByteString {
    if calls == [] then [] else AllPut(calls[..|calls| - 1]) + Put(calls[|calls| - 1])
  }

  // Bytes leave in the order in which they came, and none is lost or made up.
  lemma {:induction false} FirstInFirstOut(q: ByteString, calls: seq<Call>)
    ensures q + AllPut(calls) == Gone(q, calls) + Queued(q, calls)
  {
    hide Leaving, Put;
    if calls != [] {
      var init, last := calls[..|calls| - 1], calls[|calls| - 1];
      FirstInFirstOut(q, init);
      PassOn(q + AllPut(init), Gone(q, init), Queued(q, init), Leaving(Queued(q, init), last), Put(last));
      Regroup(q, AllPut(init), Put(last));
    }
  }

  lemma PassOn(all: ByteString, gone: ByteString, front: ByteString, k: nat, data: ByteString)
    requires all == gone + front && k <= |front|
    ensures all + data == (gone + front[..k]) + (front[k..] + data)
  {
    assert front == front[..k] + front[k..];
  }

  method Perform(b: IoBuffer, call: Call)
    requires b.Valid()
    modifies b, b.buf
    ensures b.Valid() && b.Contents() == old(b.Contents())[Leaving(old(b.Contents()), call)..] + Put(call)
    ensures b.State() == Apply(old(b.State()), OpOf(call)).shape
    ensures b.copied == old(b.copied) + Apply(old(b.State()), OpOf(call)).copied
    ensures b.buf == old(b.buf) || fresh(b.buf)
  {
    hide WriteShape, AppendShape, ReadShape, DrainShape, ResetShape, IoBuffer.Contents;
    ghost var c := b.Contents();
    match call {
      case WriteCall(data) =>
        Keeps(c, data);
        var n := b.Write(data);
      case AppendCall(data) =>
        Keeps(c, data);
        b.Append(data);
      case ReadCall(n) =>
        var p, eof := b.Read(n);
        TakesOff(c, p, b.Contents());
      case DrainCall(n) =>
        Keeps(c, []);
        b.Drain(n);
        assert c + [] == c && (n <= |c| ==> c[n..] + [] == c[n..]);
      case ResetCall =>
        b.Reset();
        assert c[|c|..] + [] == [];
    }
  }

  lemma Keeps(c: ByteString, data: ByteString)
    ensures c[0..] + data == c + data
  {
  }

  lemma TakesOff(c: ByteString, p: ByteString, rest: ByteString)
    requires c == p + rest
    ensures c[|p|..] + [] == rest
  {
  }

  /** Any run of calls on a new buffer, with what it holds and what it cost: the contents are those of the byte queue, and
      unless some step churns at most three bytes are copied for each byte written. */
  method PerformAll(capacity: nat, calls: seq<Call>) returns (b: IoBuffer)
    ensures fresh(b) && b.Valid() && b.Contents() == Queued([], calls)
    ensures AllPut(calls) == Gone([], calls) + b.Contents()
    ensures b.copied == Run(Shape(0, 0, capacity, false), Ops(calls)).copied
    ensures NeverChurns(Shape(0, 0, capacity, false), Ops(calls)) ==> b.copied <= 3 * Written(Ops(calls))
  {
    hide Apply, Run, Written, NeverChurns, IoBuffer.Contents, Leaving, Put;
    b := new IoBuffer.WithCapacity(capacity);
    ghost var s := b.State();
    NoRun(s);
    assert Ops(calls[..0]) == [];
    for i := 0 to |calls|
      invariant b.Valid() && fresh(b) && fresh(b.buf)
      invariant b.Contents() == Queued([], calls[..i])
      invariant Run(s, Ops(calls[..i])) == Moved(b.State(), b.copied)
    {
      assert calls[..i + 1][..i] == calls[..i];
      RunSnoc(s, Ops(calls[..i]), OpOf(calls[i]));
      assert Ops(calls[..i + 1]) == Ops(calls[..i]) + [OpOf(calls[i])];
      Perform(b, calls[i]);
    }
    assert calls[..|calls|] == calls;
    FirstInFirstOut([], calls);
    assert [] + AllPut(calls) == AllPut(calls);
    if NeverChurns(s, Ops(calls)) { CopyingIsAmortized(s, Ops(calls)); }
  }
}
