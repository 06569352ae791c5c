/** The write side of a connection: any number of writers append to a buffer under a mutex and wake a loop through a
    one-slot channel; the loop moves the buffer to the socket (Write, startWriteLoop, doWriteIo and writeBufLen in
    pkg/network/connection.go).  Every lock, channel and socket operation is a step, and steps interleave in any order. */
module WriteLoop {
  import opened Options
  import opened Bytes

  // One argument of Write; nil buffers are skipped.
  type Buffers = seq<Option<ByteString>>

  /** Who holds the mutex and how far they are.  A writer has buffers left to append, is about to send on the channel, or
      is about to unlock. */
  datatype Holder = Free | Appending(left: Buffers) | Sending | Unlocking | ByLoop

  // The loop waits for a signal, is about to look at the buffer, to lock, to write, or has stopped on an error.
  datatype Loop = Waiting | Checking | Locking | Flushing | Stopped

  datatype State = State(
    calls: seq<Buffers>, // the arguments of every Write, in the order in which the mutex was taken
    socket: ByteString,
    buffer: ByteString,
    signals: nat,        // messages in the channel
    holder: Holder,
    loop: Loop)

  datatype Result = Written | TimedOut | Failed

  datatype Step =
    | Lock(buffers: Buffers)
    | Append
    | Test
    | Send
    | Unlock
    | Receive
    | Check
    | LoopLock
    | Flush(n: nat, result: Result)

  const CAPACITY: nat := 1

  function Init(): State {
    State([], [], [], 0, Free, Waiting)
  }

  predicate Enabled(s: State, step: Step) {
    match step
    case Lock(_) => s.holder.Free?
    case Append => s.holder.Appending? && s.holder.left != []
    case Test => s.holder == Appending([])
    case Send => s.holder.Sending? && s.signals < CAPACITY
    case Unlock => s.holder.Unlocking?
    case Receive => s.loop.Waiting? && s.signals > 0
    case Check => s.loop.Checking? && s.holder.Free? // a read lock
    case LoopLock => s.loop.Locking? && s.holder.Free?
    case Flush(n, _) => s.loop.Flushing? && s.holder.ByLoop? && n <= |s.buffer|
  }

  function Apply(s: State, step: Step): State
    requires Enabled(s, step)
  {
    match step
    case Lock(buffers) => s.(calls := s.calls + [buffers], holder := Appending(buffers))
    case Append =>
      // A nil buffer is skipped.
      s.(buffer := if s.holder.left[0].Some? then s.buffer + s.holder.left[0].value else s.buffer,
         holder := Appending(s.holder.left[1..]))
    case Test => s.(holder := if s.signals == 0 then Sending else Unlocking)
    case Send => s.(signals := s.signals + 1, holder := Unlocking)
    case Unlock => s.(holder := Free)
    case Receive => s.(signals := s.signals - 1, loop := Checking)
    case Check => s.(loop := if s.buffer == [] then Waiting else Locking)
    case LoopLock => s.(loop := Flushing, holder := ByLoop)
    case Flush(n, result) =>
      // A timeout goes back to the length test like a success.
      s.(socket := s.socket + s.buffer[..n], buffer := s.buffer[n..], holder := Free,
         loop := if result.Failed? then Stopped else Checking)
  }

  ghost predicate IsRun(states: seq<State>, steps: seq<Step>) {
    && |states| == |steps| + 1 && states[0] == Init()
    && forall i :: 0 <= i < |steps| ==> Enabled(states[i], steps[i]) && states[i + 1] == Apply(states[i], steps[i])
  }

  function Flatten(buffers: Buffers): ByteString {
    if buffers == [] then []
    else
      match buffers[0]
      case Some(data) => data + Flatten(buffers[1..])
      case None => Flatten(buffers[1..])
  }

  // Everything handed to Write, in the order of the lock.
  function AllBytes(calls: seq<Buffers>): ByteString {
    if calls == [] then [] else AllBytes(calls[..|calls| - 1]) + Flatten(calls[|calls| - 1])
  }

  // The arguments of every Write in a run, in the order in which the mutex was taken.
  function CallsOf(steps: seq<Step>): seq<Buffers> {
    if steps == [] then []
    else CallsOf(steps[..|steps| - 1]) + if steps[|steps| - 1].Lock? then [steps[|steps| - 1].buffers] else []
  }

  lemma {:induction false} CallsAreSteps(states: seq<State>, steps: seq<Step>)
    requires IsRun(states, steps)
    ensures states[|steps|].calls == CallsOf(steps)
    decreases |steps|
  {
    if steps != [] {
      var last := |steps| - 1;
      CallsAreSteps(states[..last + 1], steps[..last]);
      assert Enabled(states[last], steps[last]) && states[last + 1] == Apply(states[last], steps[last]);
    }
  }

  // What the writer inside still has to append.
  function Pending(h: Holder): ByteString {
    if h.Appending? then Flatten(h.left) else []
  }

  // The loop has been woken and has not seen the buffer empty since.
  predicate Awake(l: Loop) {
    l.Checking? || l.Locking? || l.Flushing?
  }

  ghost predicate Inv(s: State) {
    && s.socket + s.buffer + Pending(s.holder) == AllBytes(s.calls)
    && (s.holder.ByLoop? <==> s.loop.Flushing?)
    && s.signals <= CAPACITY && (s.holder.Sending? ==> s.signals == 0)
    && (s.loop.Locking? || s.loop.Flushing? ==> s.buffer != [])
    && (s.holder.Unlocking? && !s.loop.Stopped? ==> s.signals == 1 || Awake(s.loop))
    && (s.holder.Free? && s.buffer != [] && !s.loop.Stopped? ==> s.signals == 1 || Awake(s.loop))
  }

  lemma StepInv(s: State, step: Step)
    requires Inv(s) && Enabled(s, step)
    ensures Inv(Apply(s, step))
  {
    var t := Apply(s, step);
    match step {
      case Lock(buffers) => assert t.calls[..|s.calls|] == s.calls;
      case Append =>
        if s.holder.left[0].Some? {
          var data := s.holder.left[0].value;
          Regroup(s.socket, s.buffer, data);
          Regroup(s.socket + s.buffer, data, Flatten(s.holder.left[1..]));
        }
      case Flush(n, _) => Regroup(s.socket, s.buffer[..n], s.buffer[n..]);
        assert s.buffer[..n] + s.buffer[n..] == s.buffer;
      case _ =>
    }
  }

  lemma {:induction false} RunInv(states: seq<State>, steps: seq<Step>)
    requires IsRun(states, steps)
    ensures Inv(states[|steps|])
    decreases |steps|
  {
    if steps != [] {
      var last := |steps| - 1;
      RunInv(states[..last + 1], steps[..last]);
      StepInv(states[last], steps[last]);
    }
  }

  /** A writer that is about to send on the channel is never blocked, although it holds the mutex. */
  lemma SendNeverBlocks(states: seq<State>, steps: seq<Step>)
    requires IsRun(states, steps) && states[|steps|].holder.Sending?
    ensures Enabled(states[|steps|], Send)
  {
    RunInv(states, steps);
  }

  /** No lost wake-up: bytes in the buffer mean that a signal is pending, that the loop has not yet seen the buffer empty,
      or that the writer inside the mutex has still to signal. */
  lemma NoLostWakeUp(states: seq<State>, steps: seq<Step>)
    requires IsRun(states, steps)
    ensures var s := states[|steps|];
            s.buffer != [] && !s.loop.Stopped? ==> s.signals > 0 || Awake(s.loop) || s.holder.Appending? || s.holder.Sending?
  {
    RunInv(states, steps);
  }

  /** What has reached the socket is a prefix of everything written, call by call in the order of the mutex; the rest is in
      the buffer or with the writer inside.  This also holds after an error. */
  lemma SocketIsPrefix(states: seq<State>, steps: seq<Step>)
    requires IsRun(states, steps)
    ensures var s := states[|steps|];
            s.socket <= AllBytes(CallsOf(steps)) && s.socket + s.buffer + Pending(s.holder) == AllBytes(CallsOf(steps))
  {
    RunInv(states, steps);
    CallsAreSteps(states, steps);
    hide CallsOf;
  }

  // A step other than a new Write, with a socket that takes at least one byte.
  predicate Working(step: Step) {
    match step
    case Lock(_) => false
    case Flush(n, result) => n > 0 && !result.Failed?
    case _ => true
  }

  function HolderRank(h: Holder): nat {
    match h
    case Appending(left) => 7 + |left|
    case Sending => 6
    case Unlocking => 1
    case _ => 0
  }

  function LoopRank(l: Loop): nat {
    match l
    case Checking => 3
    case Locking => 2
    case Flushing => 1
    case _ => 0
  }

  function Rank(s: State): nat {
    4 * (|s.buffer| + |Pending(s.holder)|) + 4 * s.signals + HolderRank(s.holder) + LoopRank(s.loop)
  }

  lemma WorkingRanks(s: State, step: Step)
    requires Enabled(s, step) && Working(step)
    ensures Rank(Apply(s, step)) < Rank(s) && Apply(s, step).calls == s.calls
  {
  }

  /** The loop always finishes: without new calls, any continuation of a run in which the socket keeps taking bytes has a
      bounded number of steps. */
  lemma {:induction false} WorkIsBounded(states: seq<State>, steps: seq<Step>, from: nat)
    requires IsRun(states, steps) && from <= |steps| && forall i :: from <= i < |steps| ==> Working(steps[i])
    ensures |steps| - from <= Rank(states[from]) - Rank(states[|steps|]) && states[|steps|].calls == states[from].calls
    decreases |steps|
  {
    if from < |steps| {
      var last := |steps| - 1;
      WorkIsBounded(states[..last + 1], steps[..last], from);
      WorkingRanks(states[last], steps[last]);
    }
  }

  /** And when it can only stop, everything has been delivered. */
  lemma StuckMeansDelivered(states: seq<State>, steps: seq<Step>)
    requires IsRun(states, steps) && !states[|steps|].loop.Stopped?
    requires forall step :: Working(step) ==> !Enabled(states[|steps|], step)
    ensures states[|steps|].socket == AllBytes(CallsOf(steps))
  {
    RunInv(states, steps);
    CallsAreSteps(states, steps);
    hide AllBytes, CallsOf, Enabled, Working, Inv;
    StuckEmpties(states[|steps|]);
  }

  lemma StuckEmpties(s: State)
    requires Inv(s) && !s.loop.Stopped? && forall step :: Working(step) ==> !Enabled(s, step)
    ensures s.socket == AllBytes(s.calls)
  {
    hide AllBytes, Flatten;
    assert !Enabled(s, Append) && !Enabled(s, Test) && !Enabled(s, Send) && !Enabled(s, Unlock);
    assert !Enabled(s, Receive) && !Enabled(s, Check) && !Enabled(s, LoopLock) && !Enabled(s, Flush(1, Written));
  }

  /** The loop has stopped exactly when some write to the socket has failed; a timeout does not stop it.  From the failure on
      nothing more reaches the socket. */
  lemma {:induction false} StoppedIff(states: seq<State>, steps: seq<Step>)
    requires IsRun(states, steps)
    ensures states[|steps|].loop.Stopped? <==> exists i :: 0 <= i < |steps| && steps[i].Flush? && steps[i].result == Failed
    ensures forall i :: 0 <= i < |steps| && steps[i].Flush? && steps[i].result == Failed ==> states[|steps|].socket == states[i + 1].socket
    decreases |steps|
  {
    if steps != [] {
      var last := |steps| - 1;
      StoppedIff(states[..last + 1], steps[..last]);
      assert Enabled(states[last], steps[last]) && states[last + 1] == Apply(states[last], steps[last]);
    }
  }

  // Calls that pass one buffer each, with nil buffers anywhere around it.
  ghost predicate Passes(call: Buffers, data: ByteString) {
    exists k :: 0 <= k < |call| && call[k] == Some(data) && forall i :: 0 <= i < |call| && i != k ==> call[i].None?
  }

  function Concatenated(parts: seq<ByteString>): ByteString {
    if parts == [] then [] else Concatenated(parts[..|parts| - 1]) + parts[|parts| - 1]
  }

  lemma {:induction false} NilsAreSkipped(buffers: Buffers)
    requires forall i :: 0 <= i < |buffers| ==> buffers[i].None?
    ensures Flatten(buffers) == []
  {
    if buffers != [] { NilsAreSkipped(buffers[1..]); }
  }

  lemma {:induction false} PassedOn(call: Buffers, data: ByteString)
    requires Passes(call, data)
    ensures Flatten(call) == data
  {
    var k :| 0 <= k < |call| && call[k] == Some(data) && forall i :: 0 <= i < |call| && i != k ==> call[i].None?;
    if k == 0 {
      NilsAreSkipped(call[1..]);
      assert data + [] == data;
    } else {
      assert call[1..][k - 1] == Some(data);
      PassedOn(call[1..], data);
    }
  }

  lemma {:induction false} AllPassedOn(calls: seq<Buffers>, parts: seq<ByteString>)
    requires |calls| == |parts| && forall i :: 0 <= i < |calls| ==> Passes(calls[i], parts[i])
    ensures AllBytes(calls) == Concatenated(parts)
  {
    hide Passes, Flatten;
    if calls != [] {
      var last := |calls| - 1;
      AllPassedOn(calls[..last], parts[..last]);
      PassedOn(calls[last], parts[last]);
    }
  }

  /** In terms of the callers: when each Write passes one piece of data, the socket has a prefix of the pieces in the order of
      the mutex at all times, and all of them when the loop can only stop. */
  lemma PiecesArrive(states: seq<State>, steps: seq<Step>, parts: seq<ByteString>)
    requires IsRun(states, steps) && |CallsOf(steps)| == |parts|
    requires forall i :: 0 <= i < |parts| ==> Passes(CallsOf(steps)[i], parts[i])
    ensures var s := states[|steps|];
            && s.socket <= Concatenated(parts)
            && (!s.loop.Stopped? && (forall step :: Working(step) ==> !Enabled(s, step)) ==> s.socket == Concatenated(parts))
  {
    hide Passes, AllBytes, Flatten, Working, Enabled;
    AllPassedOn(CallsOf(steps), parts);
    SocketIsPrefix(states, steps);
    if !states[|steps|].loop.Stopped? && (forall step :: Working(step) ==> !Enabled(states[|steps|], step)) {
      StuckMeansDelivered(states, steps);
    }
  }
}
