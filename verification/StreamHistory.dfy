/** The runs of Correlation read off their steps: when the proxy may still answer a request itself, which streams are active
    and whose they are, and what became of every frame and response. */
module StreamHistory {
  import opened Bytes
  import opened Decimals
  import opened Correlation

  // Every Send before step n of the stream k that belonged to request o found the request hijacked.
  ghost predicate Unsent(states: seq<State>, steps: seq<Step>, n: nat, k: (ConnId, StreamId), o: Origin)
    requires n <= |steps| <= |states|
  {
    forall i :: 0 <= i < n && steps[i] == Send(k.0, k.1) && k in states[i].senders && states[i].senders[k].origin == o
      ==> Fate(o.asked).Hijacked?
  }

  // A stream is marked exactly when it was sent, and a request that was sent is an earlier one.
  ghost predicate Marked(states: seq<State>, steps: seq<Step>, n: nat)
    requires n <= |steps| < |states|
  {
    var s := states[n];
    && (forall k :: k in s.senders ==> s.senders[k].origin.serial < |s.origins|)
    && (forall i, k :: 0 <= i < n && steps[i].Send? && k in states[i].senders ==> states[i].senders[k].origin.serial < |s.origins|)
    && forall k :: k in s.senders ==> (k !in s.spent <==> Unsent(states, steps, n, k, s.senders[k].origin))
  }

  lemma {:induction false} AlwaysMarked(states: seq<State>, steps: seq<Step>, n: nat)
    requires IsRun(states, steps) && n <= |steps|
    ensures Marked(states, steps, n)
    decreases n
  {
    if n > 0 {
      AlwaysMarked(states, steps, n - 1);
      assert Enabled(states[n - 1], steps[n - 1]) && states[n] == Apply(states[n - 1], steps[n - 1]);
      MarkedNext(states, steps, n - 1);
    }
  }

  lemma MarkedNext(states: seq<State>, steps: seq<Step>, n: nat)
    requires n < |steps| < |states| && Marked(states, steps, n)
    requires Enabled(states[n], steps[n]) && states[n + 1] == Apply(states[n], steps[n])
    ensures Marked(states, steps, n + 1)
  {
    hide Apply, Unsent, Fate, Enabled;
    OriginsAfter(states[n], steps[n]);
    var t := states[n + 1];
    forall k | k in t.senders
      ensures t.senders[k].origin.serial < |t.origins| && (k !in t.spent <==> Unsent(states, steps, n + 1, k, t.senders[k].origin))
    {
      MarkedKey(states, steps, n, k);
    }
  }

  lemma MarkedKey(states: seq<State>, steps: seq<Step>, n: nat, k: (ConnId, StreamId))
    requires n < |steps| < |states| && Marked(states, steps, n)
    requires Enabled(states[n], steps[n]) && states[n + 1] == Apply(states[n], steps[n]) && k in states[n + 1].senders
    ensures var t := states[n + 1];
            t.senders[k].origin.serial < |t.origins| && (k !in t.spent <==> Unsent(states, steps, n + 1, k, t.senders[k].origin))
  {
    hide Apply, Enabled, Fate;
    OriginsAfter(states[n], steps[n]);
    StepSenders(states[n], steps[n], k);
  }

  // A sender is new and not marked, or it is the old one and marked by a Send of its stream only.
  lemma StepSenders(s: State, step: Step, k: (ConnId, StreamId))
    requires Enabled(s, step) && k in Apply(s, step).senders && (k in s.senders ==> s.senders[k].origin.serial < |s.origins|)
    ensures var t := Apply(s, step);
            if t.senders[k].origin.serial < |s.origins| then
              && k in s.senders && t.senders[k] == s.senders[k]
              && (k in t.spent <==> k in s.spent || (step == Send(k.0, k.1) && !Fate(s.senders[k].origin.asked).Hijacked?))
            else
              step.Receive? && t.senders[k].origin.serial == |s.origins| && k !in t.spent
  {
    hide Decimal, Number, KeptId, Recognised, Relays, Replies, Readable, Fate, IdOf, LocalAnswer, ParseUint, EndStream;
    if step.LocalReply? || step.Respond? {
      EndingKeeps(s, step);
      hide Apply;
    }
  }

  /** A reply of the proxy's own goes out exactly when the stream is active, its request has protocol 1, and the request was
      never sent or was hijacked when it was: sending takes the header map apart that the reply is built from.  In every other
      case the reply changes nothing, so that the stream stays active. */
  lemma LocalReplyIff(states: seq<State>, steps: seq<Step>, j: nat)
    requires IsRun(states, steps) && j < |steps| && steps[j].LocalReply?
    ensures var s, k := states[j], (steps[j].conn, steps[j].streamId);
            && k in s.senders
            && var st := s.senders[k];
               var goesOut := && k.0 in s.servers && k.1 in s.servers[k.0] && Replies(st.origin.asked)
                              && forall i :: 0 <= i < j && steps[i] == Send(k.0, k.1) && k in states[i].senders && states[i].senders[k].origin == st.origin
                                   ==> Fate(st.origin.asked).Hijacked?;
               states[j + 1] == if goesOut then
                                  s.(servers := s.servers[k.0 := s.servers[k.0] - {k.1}],
                                     written := s.written + [Written(k.0, Number(st.requestId, true), st.origin, true)])
                                else s
  {
    AlwaysMarked(states, steps, j);
    assert Enabled(states[j], steps[j]) && states[j + 1] == Apply(states[j], steps[j]);
    LocalReplyEffect(states[j], steps[j].conn, steps[j].streamId);
    hide Apply, Number, Replies, Fate;
  }

  lemma LocalReplyEffect(s: State, conn: ConnId, id: StreamId)
    requires Enabled(s, LocalReply(conn, id))
    ensures var st := s.senders[(conn, id)];
            Apply(s, LocalReply(conn, id)) ==
              if conn in s.servers && id in s.servers[conn] && Replies(st.origin.asked) && (conn, id) !in s.spent then
                s.(servers := s.servers[conn := s.servers[conn] - {id}],
                   written := s.written + [Written(conn, Number(st.requestId, true), st.origin, true)])
              else s
  {
    hide Decimal, Number, KeptId, Recognised, Relays, Replies, Readable, Fate, IdOf;
    if conn in s.servers {
      assert id !in s.servers[conn] ==> s.servers[conn] - {id} == s.servers[conn];
      assert s.servers[conn := s.servers[conn]] == s.servers;
    }
  }

  // Once a request was sent and not hijacked, a reply of the proxy's own, say for a reset or a timeout, changes nothing.
  lemma SentGetsNoReply(states: seq<State>, steps: seq<Step>, i: nat, j: nat, k: (ConnId, StreamId))
    requires IsRun(states, steps) && i < j < |steps| && steps[i] == Send(k.0, k.1) && steps[j] == LocalReply(k.0, k.1)
    requires k in states[i].senders && k in states[j].senders && states[i].senders[k].origin == states[j].senders[k].origin
    requires !Fate(states[i].senders[k].origin.asked).Hijacked?
    ensures states[j + 1] == states[j]
  {
    hide IsRun, Fate, Replies, Number;
    LocalReplyIff(states, steps, j);
  }

  // Step j writes w, as a response of the upstream to that request or as a reply to a request that was not sent before.
  ghost predicate WrittenAt(states: seq<State>, steps: seq<Step>, j: nat, w: Written)
    requires j < |steps| < |states|
  {
    && states[j + 1].written == states[j].written + [w]
    && match steps[j]
       case Respond(_, answers, _) => w.answers == answers
       case LocalReply(conn, id) => w.own && w.conn == conn && Unsent(states, steps, j, (conn, id), w.answers)
       case _ => false
  }

  // Every response in a run was written by one step.
  lemma {:induction false} EveryResponseHasItsStep(states: seq<State>, steps: seq<Step>, n: nat, m: nat) returns (j: nat)
    requires IsRun(states, steps) && n <= |steps| && m < |states[n].written|
    ensures j < n && |states[j].written| == m && WrittenAt(states, steps, j, states[n].written[m])
    decreases n
  {
    hide WrittenAt;
    StepWrites(states, steps, n - 1);
    if m < |states[n - 1].written| {
      j := EveryResponseHasItsStep(states, steps, n - 1, m);
    } else {
      j := n - 1;
    }
  }

  // Without responses of the upstream, each answers a request that had not been sent yet, or was hijacked.
  lemma OnlyUnsentAnswered(states: seq<State>, steps: seq<Step>, m: nat) returns (j: nat)
    requires IsRun(states, steps) && m < |Last(states, steps).written| && forall i :: 0 <= i < |steps| ==> !steps[i].Respond?
    ensures j < |steps| && steps[j].LocalReply? && states[j + 1].written == states[j].written + [Last(states, steps).written[m]]
    ensures forall i :: 0 <= i < j && steps[i] == Send(steps[j].conn, steps[j].streamId) && (steps[j].conn, steps[j].streamId) in states[i].senders
                && states[i].senders[(steps[j].conn, steps[j].streamId)].origin == Last(states, steps).written[m].answers
              ==> Fate(Last(states, steps).written[m].answers.asked).Hijacked?
  {
    hide Fate;
    j := EveryResponseHasItsStep(states, steps, |steps|, m);
    hide IsRun;
  }

  lemma StepWrites(states: seq<State>, steps: seq<Step>, n: nat)
    requires IsRun(states, steps) && n < |steps|
    ensures var a, b := states[n].written, states[n + 1].written;
            b == a || (|b| == |a| + 1 && b[..|a|] == a && WrittenAt(states, steps, n, b[|a|]))
  {
    assert Enabled(states[n], steps[n]) && states[n + 1] == Apply(states[n], steps[n]);
    if steps[n].LocalReply? { LocalReplyIff(states, steps, n); }
    hide Decimal, Number, KeptId, Recognised, Relays, Replies, Readable, Fate, IdOf;
  }

  // The state without its definition: what every run leaves, read off the steps.

  predicate Active(s: State, conn: ConnId, id: StreamId) {
    conn in s.servers && id in s.servers[conn]
  }

  // The step is a request that opens stream (conn, id).
  predicate Opens(s: State, step: Step, conn: ConnId, id: StreamId) {
    step.Receive? && step.conn == conn && IdOf(|s.origins|) == id && Recognised(step.asked) && !Active(s, conn, id)
  }

  function OpenedBy(s: State, step: Step): ServerStream
    requires step.Receive?
  {
    ServerStream(KeptId(step.asked), Origin(step.conn, |s.origins|, step.asked))
  }

  // The step from s to t ends it: the connection closes, or a response is written or dropped together with its data.
  predicate Ends(s: State, step: Step, t: State, conn: ConnId, id: StreamId) {
    || step == Close(conn)
    || (step.Respond? && step.target == (conn, id) && step.how != Unencoded(false))
    || (step == LocalReply(conn, id) && t.written != s.written)
  }

  lemma RunStep(states: seq<State>, steps: seq<Step>, i: nat)
    requires IsRun(states, steps) && i < |steps|
    ensures Enabled(states[i], steps[i]) && states[i + 1] == Apply(states[i], steps[i])
  {
  }

  // What a step does to the stream.
  ghost predicate StepsTo(s: State, step: Step, t: State, conn: ConnId, id: StreamId) {
    && (Active(t, conn, id) <==> Opens(s, step, conn, id) || (Active(s, conn, id) && !Ends(s, step, t, conn, id)))
    && (Active(s, conn, id) && Active(t, conn, id) ==> t.servers[conn][id] == s.servers[conn][id])
    && (Opens(s, step, conn, id) ==> !Active(s, conn, id) && t.servers[conn][id] == OpenedBy(s, step))
  }

  lemma StepActive(s: State, step: Step, conn: ConnId, id: StreamId)
    requires Enabled(s, step)
    ensures StepsTo(s, step, Apply(s, step), conn, id)
  {
    hide Apply, Enabled, StepsTo;
    match step {
      case Open(c) => OpenCloseActive(s, step, conn, id);
      case Close(c) => OpenCloseActive(s, step, conn, id);
      case Receive(c, asked) => ReceiveActive(s, step, conn, id);
      case LocalReply(c, x) => LocalActive(s, c, x, conn, id);
      case Respond(target, answers, how) => RespondActive(s, target, answers, how, conn, id);
      case _ => SameActive(s, step, conn, id);
    }
  }

  lemma SameActive(s: State, step: Step, conn: ConnId, id: StreamId)
    requires Enabled(s, step) && (step.Send? || step.Reply? || step.Reconnect?)
    ensures StepsTo(s, step, Apply(s, step), conn, id)
  {
    hide Apply, Enabled, IdOf, Recognised;
    ServersKept(s, step);
  }

  lemma ServersKept(s: State, step: Step)
    requires Enabled(s, step) && (step.Send? || step.Reply? || step.Reconnect?)
    ensures Apply(s, step).servers == s.servers
  {
    match step {
      case Send(conn, id) => SendKeeps(s, conn, id);
      case Reply(frame, again, hasContent) => ReplyKeeps(s, frame, again, hasContent);
      case _ => hide EndStream, LocalAnswer, Relays, Fate, ParseUint, Decimal, Readable;
    }
  }

  lemma SendKeeps(s: State, conn: ConnId, id: StreamId)
    requires Enabled(s, Send(conn, id))
    ensures Apply(s, Send(conn, id)).servers == s.servers
  {
    hide EndStream, LocalAnswer, Relays, Fate, ParseUint, Decimal;
  }

  lemma ReplyKeeps(s: State, frame: (nat, Origin), again: bool, hasContent: bool)
    requires Enabled(s, Reply(frame, again, hasContent))
    ensures Apply(s, Reply(frame, again, hasContent)).servers == s.servers
  {
    hide EndStream, LocalAnswer, Relays, Fate, ParseUint, Decimal;
  }

  lemma OpenCloseActive(s: State, step: Step, conn: ConnId, id: StreamId)
    requires Enabled(s, step) && (step.Open? || step.Close?)
    ensures StepsTo(s, step, Apply(s, step), conn, id)
  {
    hide IdOf, Recognised, KeptId, EndStream, LocalAnswer, Relays, Fate, ParseUint, Decimal;
  }

  lemma ReceiveActive(s: State, step: Step, conn: ConnId, id: StreamId)
    requires Enabled(s, step) && step.Receive?
    ensures StepsTo(s, step, Apply(s, step), conn, id)
  {
    hide IdOf, Recognised, KeptId, EndStream, LocalAnswer, Relays, Fate, ParseUint, Decimal, Readable;
  }

  lemma LocalActive(s: State, c: ConnId, x: StreamId, conn: ConnId, id: StreamId)
    requires Enabled(s, LocalReply(c, x))
    ensures StepsTo(s, LocalReply(c, x), Apply(s, LocalReply(c, x)), conn, id)
  {
    hide Apply, IdOf, Recognised, KeptId, Replies, Number;
    LocalReplyEffect(s, c, x);
  }

  lemma RespondActive(s: State, target: (ConnId, StreamId), answers: Origin, how: Answer, conn: ConnId, id: StreamId)
    requires Enabled(s, Respond(target, answers, how))
    ensures StepsTo(s, Respond(target, answers, how), Apply(s, Respond(target, answers, how)), conn, id)
  {
    hide IdOf, Recognised, KeptId, Number, LocalAnswer, Relays, Fate, ParseUint, Decimal;
  }

  // A stream that is active was opened by some request, is that request's, and nothing has ended it since.
  lemma {:induction false} StreamLife(states: seq<State>, steps: seq<Step>, n: nat, conn: ConnId, id: StreamId) returns (i: nat)
    requires IsRun(states, steps) && n <= |steps| && Active(states[n], conn, id)
    ensures i < n && Opens(states[i], steps[i], conn, id) && states[n].servers[conn][id] == OpenedBy(states[i], steps[i])
    ensures forall j :: i < j < n ==> !Ends(states[j], steps[j], states[j + 1], conn, id)
    decreases n
  {
    hide Opens, Ends, OpenedBy, Apply, Enabled;
    RunStep(states, steps, n - 1);
    StepActive(states[n - 1], steps[n - 1], conn, id);
    if Active(states[n - 1], conn, id) {
      i := StreamLife(states, steps, n - 1, conn, id);
    } else {
      i := n - 1;
    }
  }

  // And one that was opened stays active until something ends it.
  lemma {:induction false} StreamLasts(states: seq<State>, steps: seq<Step>, i: nat, n: nat, conn: ConnId, id: StreamId)
    requires IsRun(states, steps) && i < n <= |steps| && Opens(states[i], steps[i], conn, id)
    requires forall j :: i < j < n ==> !Ends(states[j], steps[j], states[j + 1], conn, id)
    ensures Active(states[n], conn, id) && states[n].servers[conn][id] == OpenedBy(states[i], steps[i])
    decreases n
  {
    hide Opens, Ends, OpenedBy, Apply, Enabled;
    RunStep(states, steps, n - 1);
    StepActive(states[n - 1], steps[n - 1], conn, id);
    if i < n - 1 { StreamLasts(states, steps, i, n - 1, conn, id); }
    hide IsRun;
  }

  // Ending a stream touches the stream and what is written, and nothing else.
  lemma EndStreamKeeps(s: State, conn: ConnId, id: StreamId, answers: Origin, how: Answer)
    requires (conn, id) in s.senders
    ensures var t := EndStream(s, conn, id, answers, how);
            && t.senders == s.senders && t.clients == s.clients && t.inFlight == s.inFlight && t.responses == s.responses
            && t.origins == s.origins && t.spent == s.spent
  {
  }

  lemma EndingKeeps(s: State, step: Step)
    requires Enabled(s, step) && (step.LocalReply? || step.Respond?)
    ensures var t := Apply(s, step);
            && t.senders == s.senders && t.clients == s.clients && t.inFlight == s.inFlight && t.origins == s.origins && t.spent == s.spent
            && t.responses == if step.Respond? then s.responses - multiset{(step.target, step.answers)} else s.responses
  {
    hide EndStream, LocalAnswer;
    if step.LocalReply? {
      var k := (step.conn, step.streamId);
      EndStreamKeeps(s, step.conn, step.streamId, s.senders[k].origin, LocalAnswer(s, step.conn, step.streamId));
    } else {
      EndStreamKeeps(s.(responses := s.responses - multiset{(step.target, step.answers)}), step.target.0, step.target.1, step.answers, step.how);
    }
  }

  lemma StepSender(s: State, step: Step, k: (ConnId, StreamId))
    requires Enabled(s, step)
    ensures var t := Apply(s, step);
            && (k in t.senders <==> Opens(s, step, k.0, k.1) || (k in s.senders && step != Close(k.0)))
            && (k in t.senders ==> t.senders[k] == if Opens(s, step, k.0, k.1) then OpenedBy(s, step) else s.senders[k])
  {
    hide Decimal, Number, KeptId, Recognised, Relays, Replies, Readable, Fate, IdOf, LocalAnswer;
    hide EndStream;
    if step.LocalReply? || step.Respond? {
      EndingKeeps(s, step);
      hide Apply;
    }
  }

  // The proxy holds a sender from the last opening of its stream until the connection closes.
  lemma {:induction false} SenderLife(states: seq<State>, steps: seq<Step>, n: nat, k: (ConnId, StreamId)) returns (i: nat)
    requires IsRun(states, steps) && n <= |steps| && k in states[n].senders
    ensures i < n && Opens(states[i], steps[i], k.0, k.1) && states[n].senders[k] == OpenedBy(states[i], steps[i])
    ensures forall j :: i < j < n ==> steps[j] != Close(k.0) && !Opens(states[j], steps[j], k.0, k.1)
    decreases n
  {
    hide Opens, OpenedBy, Apply, Enabled;
    RunStep(states, steps, n - 1);
    StepSender(states[n - 1], steps[n - 1], k);
    if Opens(states[n - 1], steps[n - 1], k.0, k.1) {
      i := n - 1;
    } else {
      i := SenderLife(states, steps, n - 1, k);
    }
  }

  lemma {:induction false} SenderLasts(states: seq<State>, steps: seq<Step>, i: nat, n: nat, k: (ConnId, StreamId))
    requires IsRun(states, steps) && i < n <= |steps| && Opens(states[i], steps[i], k.0, k.1)
    requires forall j :: i < j < n ==> steps[j] != Close(k.0)
    ensures k in states[n].senders
    decreases n
  {
    hide Opens, OpenedBy, Apply, Enabled;
    RunStep(states, steps, n - 1);
    StepSender(states[n - 1], steps[n - 1], k);
    if i < n - 1 { SenderLasts(states, steps, i, n - 1, k); }
  }

  // The step takes the client stream off: a new upstream connection, or a reply with content under that ID.
  predicate Forgets(step: Step, id: StreamId) {
    step.Reconnect? || (step.Reply? && step.hasContent && Decimal(step.frame.0) == id)
  }

  predicate SendsAs(step: Step, id: StreamId) {
    step.Send? && step.streamId == id
  }

  lemma StepClient(s: State, step: Step, id: StreamId)
    requires Enabled(s, step)
    ensures var t := Apply(s, step);
            && (id in t.clients <==> SendsAs(step, id) || (id in s.clients && !Forgets(step, id)))
            && (id in t.clients ==> t.clients[id] == if SendsAs(step, id) then ClientStream(step.conn, id) else s.clients[id])
  {
    hide Decimal, Number, KeptId, Recognised, Relays, Replies, Readable, Fate, IdOf, LocalAnswer;
    hide EndStream;
    if step.LocalReply? || step.Respond? {
      EndingKeeps(s, step);
      hide Apply;
    }
  }

  // A client stream belongs to the last request sent under its ID, and is there until it is forgotten.
  lemma {:induction false} ClientLife(states: seq<State>, steps: seq<Step>, n: nat, id: StreamId) returns (i: nat)
    requires IsRun(states, steps) && n <= |steps| && id in states[n].clients
    ensures i < n && SendsAs(steps[i], id) && states[n].clients[id] == ClientStream(steps[i].conn, id)
    ensures forall j :: i < j < n ==> !Forgets(steps[j], id) && !SendsAs(steps[j], id)
    decreases n
  {
    hide Forgets, Apply, Enabled;
    RunStep(states, steps, n - 1);
    StepClient(states[n - 1], steps[n - 1], id);
    if SendsAs(steps[n - 1], id) {
      i := n - 1;
    } else {
      i := ClientLife(states, steps, n - 1, id);
    }
  }

  lemma {:induction false} ClientLasts(states: seq<State>, steps: seq<Step>, i: nat, n: nat, id: StreamId)
    requires IsRun(states, steps) && i < n <= |steps| && SendsAs(steps[i], id)
    requires forall j :: i < j < n ==> !Forgets(steps[j], id)
    ensures id in states[n].clients
    decreases n
  {
    hide Forgets, Apply, Enabled, SendsAs;
    RunStep(states, steps, n - 1);
    StepClient(states[n - 1], steps[n - 1], id);
    if i < n - 1 { ClientLasts(states, steps, i, n - 1, id); }
  }

  // How often a request frame was sent, and how often it was answered for the first time, in the first n steps.
  // The frame that a Send puts in flight, if the request is one that is relayed.
  ghost predicate Carries(s: State, step: Step, f: (nat, Origin)) {
    && step.Send? && (step.conn, step.streamId) in s.senders && Relays(f.1.asked)
    && f == (ParseUint(step.streamId, 32), s.senders[(step.conn, step.streamId)].origin)
  }

  ghost function TimesSent(states: seq<State>, steps: seq<Step>, n: nat, f: (nat, Origin)): nat
    requires n <= |steps| < |states|
  {
    if n == 0 then 0 else TimesSent(states, steps, n - 1, f) + if Carries(states[n - 1], steps[n - 1], f) then 1 else 0
  }

  ghost function TimesAnswered(steps: seq<Step>, n: nat, f: (nat, Origin)): nat
    requires n <= |steps|
  {
    if n == 0 then 0 else TimesAnswered(steps, n - 1, f) + if Consumes(steps[n - 1], f) then 1 else 0
  }

  predicate Consumes(step: Step, f: (nat, Origin)) {
    step.Reply? && step.frame == f && !step.again
  }

  lemma StepFrames(s: State, step: Step, f: (nat, Origin))
    requires Enabled(s, step)
    ensures var t := Apply(s, step);
            if step.Reconnect? then t.inFlight[f] == 0
            else t.inFlight[f] + (if Consumes(step, f) then 1 else 0) == s.inFlight[f] + if Carries(s, step, f) then 1 else 0
  {
    hide Decimal, Number, KeptId, Recognised, Relays, Replies, Readable, Fate, IdOf, LocalAnswer, ParseUint;
    hide EndStream;
    if step.LocalReply? || step.Respond? {
      EndingKeeps(s, step);
      hide Apply;
    }
  }

  // Every frame at the upstream was sent and not yet answered; without a reconnect the count is exact.
  lemma {:induction false} FramesAreSent(states: seq<State>, steps: seq<Step>, n: nat, f: (nat, Origin))
    requires IsRun(states, steps) && n <= |steps|
    ensures states[n].inFlight[f] + TimesAnswered(steps, n, f) <= TimesSent(states, steps, n, f)
    ensures (forall i :: 0 <= i < n ==> !steps[i].Reconnect?) ==>
              states[n].inFlight[f] + TimesAnswered(steps, n, f) == TimesSent(states, steps, n, f)
    decreases n
  {
    hide Apply, Enabled, Carries, Consumes;
    if n > 0 {
      FramesAreSent(states, steps, n - 1, f);
      RunStep(states, steps, n - 1);
      assert steps[n - 1].Reconnect? ==> !Carries(states[n - 1], steps[n - 1], f) && !Consumes(steps[n - 1], f) by { NoFrame(states[n - 1], f); }
      StepFrames(states[n - 1], steps[n - 1], f);
    }
  }

  lemma NoFrame(s: State, f: (nat, Origin))
    ensures !Carries(s, Reconnect, f) && !Consumes(Reconnect, f)
  {
  }

  // How often a response was handed to a stream, and how often one was taken up by it.
  ghost function TimesHanded(states: seq<State>, steps: seq<Step>, n: nat, r: ((ConnId, StreamId), Origin)): nat
    requires n <= |steps| < |states|
  {
    if n == 0 then 0
    else TimesHanded(states, steps, n - 1, r) + if Hands(states[n - 1], steps[n - 1], r) then 1 else 0
  }

  predicate Hands(s: State, step: Step, r: ((ConnId, StreamId), Origin)) {
    && step.Reply? && step.frame.1 == r.1 && Decimal(step.frame.0) in s.clients
    && r.0 == (s.clients[Decimal(step.frame.0)].conn, s.clients[Decimal(step.frame.0)].streamId)
  }

  predicate Takes(step: Step, r: ((ConnId, StreamId), Origin)) {
    step.Respond? && (step.target, step.answers) == r
  }

  ghost function TimesTaken(steps: seq<Step>, n: nat, r: ((ConnId, StreamId), Origin)): nat
    requires n <= |steps|
  {
    if n == 0 then 0
    else TimesTaken(steps, n - 1, r) + if Takes(steps[n - 1], r) then 1 else 0
  }

  lemma StepResponses(s: State, step: Step, r: ((ConnId, StreamId), Origin))
    requires Enabled(s, step)
    ensures Apply(s, step).responses[r] + (if Takes(step, r) then 1 else 0) == s.responses[r] + if Hands(s, step, r) then 1 else 0
  {
    hide Decimal, Number, KeptId, Recognised, Relays, Replies, Readable, Fate, IdOf, LocalAnswer, ParseUint;
    hide EndStream;
    if step.LocalReply? || step.Respond? {
      EndingKeeps(s, step);
      hide Apply;
    }
  }

  // Each reply of the upstream that finds a client stream is handed on once and taken up at most once.
  lemma {:induction false} ResponsesAreHanded(states: seq<State>, steps: seq<Step>, n: nat, r: ((ConnId, StreamId), Origin))
    requires IsRun(states, steps) && n <= |steps|
    ensures states[n].responses[r] + TimesTaken(steps, n, r) == TimesHanded(states, steps, n, r)
    decreases n
  {
    hide Apply, Enabled, Hands, Takes;
    if n > 0 {
      ResponsesAreHanded(states, steps, n - 1, r);
      RunStep(states, steps, n - 1);
      StepResponses(states[n - 1], steps[n - 1], r);
    }
  }
}
