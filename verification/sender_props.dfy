/**
 * Properties of the buffered sender: the one-shot `start`, no loss and FIFO order
 * of the queue, the callback discipline of `tryConnect` and the send loop, a fresh
 * reader per connection, the reconnect defect of the code as written next to the
 * corrected reconnect, and the call sequences of the sender's tests.
 */
module SenderProperties {
  import opened Wrappers
  import opened Framing
  import opened MessageReader
  import opened Sender

  // ---------------------------------------------------------------------------
  // Runs

  lemma {:induction false} RunAppend(s: Sender, a: seq<Action>, b: seq<Action>)
    requires Valid(s)
    ensures Run(s, a + b) == Run(Run(s, a), b)
    decreases |a|
  {
    if a == [] {
      assert a + b == b;
    } else {
      assert (a + b)[0] == a[0] && (a + b)[1..] == a[1..] + b;
      RunAppend(Apply(s, a[0]), a[1..], b);
    }
  }

  /** `send` for each message in turn. */
  function Sends(msgs: seq<string>): (r: seq<Action>)
    ensures |r| == |msgs|
  {
    if msgs == [] then [] else [SendCall(msgs[0])] + Sends(msgs[1..])
  }

  /** `n` worker steps whose socket operations all succeed, at time `now`. */
  function Steps(n: nat, now: int): (r: seq<Action>)
    ensures |r| == n
  {
    if n == 0 then [] else [Step(true, 0, now)] + Steps(n - 1, now)
  }

  // ---------------------------------------------------------------------------
  // Start is one-shot; nothing accepted is lost or reordered

  lemma ApplyKeepsStarted(s: Sender, a: Action)
    requires Valid(s) && !s.worker.Unstarted?
    ensures !Apply(s, a).worker.Unstarted?
    ensures Apply(s, a).shutdown ==> s.shutdown || a.CloseCall?
    ensures s.shutdown ==> Apply(s, a).shutdown
  {
  }

  /**
   * Once `start` has succeeded, every later `start` fails, whatever happens in
   * between: the thread is either alive or has finished for good.
   */
  lemma {:induction false} StartOnlyOnce(s: Sender, actions: seq<Action>, now: int)
    requires Valid(s) && !s.worker.Unstarted?
    ensures Start(Run(s, actions), now).Failure?
    decreases |actions|
  {
    if actions != [] {
      ApplyKeepsStarted(s, actions[0]);
      StartOnlyOnce(Apply(s, actions[0]), actions[1..], now);
    }
  }

  /** After `close`, no `send` and no `start` ever succeeds again. */
  lemma {:induction false} ClosedStaysClosed(s: Sender, actions: seq<Action>, msg: string, now: int)
    requires Valid(s) && s.shutdown
    ensures Send(Run(s, actions), msg) == Failure(SendAfterShutdown)
    ensures Start(Run(s, actions), now).Failure?
    decreases |actions|
  {
    if actions != [] {
      ClosedStaysClosed(Apply(s, actions[0]), actions[1..], msg, now);
    }
  }

  lemma ApplyKeepsHistory(s: Sender, a: Action)
    requires Valid(s)
    ensures s.accepted <= Apply(s, a).accepted && s.written <= Apply(s, a).written
    ensures s.events <= Apply(s, a).events
  {
  }

  /**
   * Whatever the calls and whatever the socket does, every message `send` accepted
   * is either written or still queued, the written ones first and all in the
   * order they were accepted; nothing written or reported is ever taken back.
   */
  lemma {:induction false} NoLossInOrder(s: Sender, actions: seq<Action>)
    requires Valid(s)
    ensures
      var r := Run(s, actions);
      && r.written + r.queue == r.accepted
      && s.accepted <= r.accepted && s.written <= r.written && s.events <= r.events
      && |r.queue| <= QueueCapacity
    decreases |actions|
  {
    if actions != [] {
      ApplyKeepsHistory(s, actions[0]);
      NoLossInOrder(Apply(s, actions[0]), actions[1..]);
    }
  }

  /** The starts of the connections never decrease, so every written message lies on one of them. */
  lemma WrittenOnSomeConnection(s: Sender, i: nat)
    requires Valid(s) && i < |s.written|
    ensures exists k | 0 <= k < |s.wires| :: s.wires[k].start <= i < End(s.wires, k, |s.written|)
  {
    Covered(s.accepted, |s.written|, s.wires, 0, i);
  }

  lemma {:induction false} Covered(acc: seq<string>, n: nat, wires: seq<Wire>, k: nat, i: nat)
    requires WiresWellFormed(acc, n, wires) && k < |wires| && wires[k].start <= i < n
    ensures exists j | 0 <= j < |wires| :: wires[j].start <= i < End(wires, j, n)
    decreases |wires| - k
  {
    assert WireOk(acc, n, wires, k);
    if End(wires, k, n) <= i {
      Covered(acc, n, wires, k + 1, i);
    }
  }

  /**
   * What a peer frames from the start of what connection `k` carried: never more
   * than the messages written on it and the one whose write failed on it, in order;
   * and, once it has received their framing, at least the messages written on it.
   * A message whose write failed part-way can reach the peer of the old connection
   * whole and be sent again on the next one: delivery is at least once, not exactly
   * once.
   */
  lemma PeerReadsConnection(s: Sender, k: nat, chunks: seq<string>)
    requires Valid(s) && AllSepFree(s.accepted) && k < |s.wires|
    requires Flatten(chunks) <= s.wires[k].text
    ensures WireOk(s.accepted, |s.written|, s.wires, k)
    ensures
      var lo, hi := s.wires[k].start, End(s.wires, k, |s.written|);
      && PullAll([], chunks).0 <= s.accepted[lo..Reach(hi, |s.accepted|)]
      && (Encode(s.written[lo..hi]) <= Flatten(chunks) ==> s.written[lo..hi] <= PullAll([], chunks).0)
  {
    var lo, hi := s.wires[k].start, End(s.wires, k, |s.written|);
    assert WireOk(s.accepted, |s.written|, s.wires, k);
    assert s.written[lo..hi] == s.accepted[lo..hi];
    CarriedFrames(s.accepted, lo, hi, s.wires[k].text, chunks);
  }

  /** The framing half of PeerReadsConnection, for one connection's account. */
  lemma CarriedFrames(acc: seq<string>, lo: nat, hi: nat, text: string, chunks: seq<string>)
    requires AllSepFree(acc) && Carried(acc, lo, hi, text) && Flatten(chunks) <= text
    ensures PullAll([], chunks).0 <= acc[lo..Reach(hi, |acc|)]
    ensures Encode(acc[lo..hi]) <= Flatten(chunks) ==> acc[lo..hi] <= PullAll([], chunks).0
  {
    var xs := acc[lo..Reach(hi, |acc|)];
    forall i | 0 <= i < |xs| ensures SepFree(xs[i]) {
      assert xs[i] == acc[lo + i];
    }
    PullAllIsScan(chunks);
    ScanPrefix(xs, Flatten(chunks));
    assert xs[..hi - lo] == acc[lo..hi];
    if Encode(acc[lo..hi]) <= Flatten(chunks) {
      ScanPrefixCovers(xs, Flatten(chunks), hi - lo);
    }
  }

  /**
   * A peer that received all a connection carried frames at least every message
   * written on it and at most one more, in the order they were accepted.
   */
  lemma PeerReadsAtLeastOnce(s: Sender, k: nat, chunks: seq<string>)
    requires Valid(s) && AllSepFree(s.accepted) && k < |s.wires|
    requires Flatten(chunks) == s.wires[k].text
    ensures WireOk(s.accepted, |s.written|, s.wires, k)
    ensures
      var lo, hi := s.wires[k].start, End(s.wires, k, |s.written|);
      && s.written[lo..hi] <= PullAll([], chunks).0
      && PullAll([], chunks).0 <= s.accepted[lo..Reach(hi, |s.accepted|)]
  {
    assert WireOk(s.accepted, |s.written|, s.wires, k);
    assert s.written[s.wires[k].start..End(s.wires, k, |s.written|)]
        == s.accepted[s.wires[k].start..End(s.wires, k, |s.written|)];
    PeerReadsConnection(s, k, chunks);
  }

  /**
   * On the current connection, while no write on it has failed, the peer frames
   * exactly the messages written on it, in order, however it cuts what it received
   * into reads.
   */
  lemma PeerReadsLiveConnection(s: Sender, chunks: seq<string>)
    requires Valid(s) && AllSepFree(s.accepted) && s.socket.Some? && !s.socket.value.broken
    requires Flatten(chunks) == s.wires[|s.wires| - 1].text
    ensures PullAll([], chunks) == (s.written[s.wires[|s.wires| - 1].start..], [])
  {
    var ms := s.written[s.wires[|s.wires| - 1].start..];
    forall i | 0 <= i < |ms| ensures SepFree(ms[i]) {
      assert ms[i] == s.accepted[s.wires[|s.wires| - 1].start + i];
    }
    FramingRoundTrip(ms, chunks);
  }

  // ---------------------------------------------------------------------------
  // The send loop

  /** A successful write sends the head, framed, on the current connection, and only then removes it. */
  lemma WriteDeliversHead(s: Sender, sent: nat, now: int)
    requires Valid(s) && s.worker.Sending? && !s.shutdown && s.queue != []
    requires !s.socket.value.broken
    ensures
      var r := Tick(s, true, sent, now);
      var last := |s.wires| - 1;
      && r.written == s.written + [s.queue[0]] && r.queue == s.queue[1..]
      && r.wires == s.wires[last := s.wires[last].(text := s.wires[last].text + s.queue[0] + [SEP])]
      && r.events == s.events && r.worker == Sending
  {
    assert Encode([s.queue[0]]) == s.queue[0] + [SEP] + Encode([]);
    var last := |s.wires| - 1;
    assert s.wires[last].text + [] + Encode([s.queue[0]]) == s.wires[last].text + s.queue[0] + [SEP];
  }

  /**
   * A failed write loses nothing: the head stays queued, `onConnectionLost` fires
   * once, and `tryConnect` starts timing from now.
   */
  lemma FailedWriteKeepsHead(s: Sender, ok: bool, sent: nat, now: int)
    requires Valid(s) && s.worker.Sending? && !s.shutdown && s.queue != []
    requires !ok || s.socket.value.broken
    ensures
      var r := Tick(s, ok, sent, now);
      var last := |s.wires| - 1;
      && r.queue == s.queue && r.written == s.written
      && |r.wires| == |s.wires| && r.wires[..last] == s.wires[..last]
      && r.wires[last].start == s.wires[last].start
      && s.wires[last].text <= r.wires[last].text <= s.wires[last].text + s.queue[0] + [SEP]
      && (sent == 0 || s.socket.value.broken ==> r.wires == s.wires)
      && r.events == s.events + [Lost(s.id)] && r.worker == Trying(now)
  {
    assert Encode([s.queue[0]]) == s.queue[0] + [SEP] + Encode([]);
    var last := |s.wires| - 1;
    if sent == 0 || s.socket.value.broken {
      assert s.wires[last := s.wires[last].(text := s.wires[last].text)] == s.wires;
    }
  }

  /**
   * The send loop leaves only by shutdown, firing nothing, or by a lost connection,
   * which fires exactly one `onConnectionLost` before `tryConnect` runs again.
   */
  lemma SendLoopExits(s: Sender, ok: bool, now: int)
    requires Valid(s) && s.worker.Sending?
    ensures
      var r := Tick(s, ok, 0, now);
      && (r.worker.Exited? <==> s.shutdown)
      && (r.worker.Exited? ==> r.events == s.events)
      && (r.worker.Trying? ==> r.events == s.events + [Lost(s.id)] && r.written == s.written)
      && (r.worker.Sending? ==> r.events == s.events)
  {
  }

  // ---------------------------------------------------------------------------
  // tryConnect

  /**
   * One step of `tryConnect`: shut down, it ends firing nothing; otherwise it keeps
   * retrying silently until it either fires `onConnectionEstablished` and enters the
   * send loop, or, once at least `timeout` has elapsed without a usable socket, fires
   * `onConnectionTimedOut` and the thread ends. Exactly one of the two fires.
   */
  lemma ConnectOutcome(s: Sender, ok: bool, now: int)
    requires Valid(s) && s.worker.Trying?
    ensures
      var r := Tick(s, ok, 0, now);
      && (s.shutdown ==> r.worker.Exited? && r.events == s.events)
      && (r.worker.Trying? ==> !s.shutdown && r.events == s.events && r.worker == s.worker)
      && (!s.shutdown && r.worker.Sending? ==> r.events == s.events + [Established(s.id)])
      && (!s.shutdown && r.worker.Exited? ==>
            r.events == s.events + [TimedOut(s.id)] && now - s.worker.startedAt >= s.timeout)
      && (!s.shutdown && !Usable(s.variant, s.socket) && !ok && now - s.worker.startedAt >= s.timeout ==>
            r.worker.Exited?)
  {
  }

  /** A successful attempt builds a new socket and, with it, a reader that carries nothing over. */
  lemma FreshReaderPerConnection(s: Sender, now: int)
    requires Valid(s) && s.worker.Trying? && !s.shutdown && !Usable(s.variant, s.socket)
    requires s.readChunk.Some?
    ensures
      var r := Tick(s, true, 0, now);
      && r.wires == s.wires + [Wire(|s.written|, [])] && r.socket.Some? && r.socket.value.inbound == []
      && r.reader == Some(Framer([], s.readChunk.value))
  {
  }

  // ---------------------------------------------------------------------------
  // Reconnecting after a lost connection

  /** A sequence of worker steps, each with its own oracle and clock. */
  function Ticks(s: Sender, steps: seq<(bool, nat, int)>): (r: Sender)
    requires Valid(s)
    ensures Valid(r)
    decreases |steps|
  {
    if steps == [] then s
    else
      Ticks(Apply(s, Step(steps[0].0, steps[0].1, steps[0].2)), steps[1..])
  }

  /** The as-written sender after a lost connection, still holding the dead socket. */
  predicate DeadLoop(s: Sender) {
    && Valid(s) && s.variant == AsWritten && !s.shutdown
    && (s.worker.Trying? || s.worker.Sending?)
    && s.socket.Some? && s.socket.value.broken
  }

  /**
   * As written, once a write has failed the sender never recovers: `tryConnect`
   * sees `isConnected()` still true, reports the dead socket as established at once,
   * the next write fails again, and so on. Whatever the network and the clock do,
   * no message is written, nothing more leaves on the dead connection, no new socket
   * (and so no new reader) is built, and the timeout never fires; only `close`
   * ends the loop.
   */
  lemma {:induction false} AsWrittenNeverRecovers(s: Sender, steps: seq<(bool, nat, int)>)
    requires DeadLoop(s)
    ensures
      var r := Ticks(s, steps);
      && DeadLoop(r) && r.written == s.written && r.wires == s.wires
      && s.events <= r.events
      && forall i | |s.events| <= i < |r.events| :: !r.events[i].TimedOut?
    decreases |steps|
  {
    if steps != [] {
      var s1 := Apply(s, Step(steps[0].0, steps[0].1, steps[0].2));
      DeadStep(s, steps[0].0, steps[0].1, steps[0].2);
      AsWrittenNeverRecovers(s1, steps[1..]);
    }
  }

  /** One step of the dead loop: still dead, nothing written or sent, no socket built, no timeout. */
  lemma DeadStep(s: Sender, ok: bool, sent: nat, now: int)
    requires DeadLoop(s)
    ensures
      var s1 := Apply(s, Step(ok, sent, now));
      && DeadLoop(s1) && s1.written == s.written && s1.wires == s.wires
      && s.events <= s1.events
      && forall i | |s.events| <= i < |s1.events| :: !s1.events[i].TimedOut?
  {
    if s.worker.Sending? && s.queue != [] {
      var last := |s.wires| - 1;
      assert s.wires[last := s.wires[last].(text := s.wires[last].text)] == s.wires;
    }
  }

  /** As written, a failed write is followed at once by `onConnectionEstablished` on the same dead socket. */
  lemma AsWrittenReportsDeadSocket(s: Sender, now: int, later: int, ok: bool)
    requires Valid(s) && s.variant == AsWritten && s.worker.Sending? && !s.shutdown && s.queue != []
    ensures
      var lost := Tick(s, false, 0, now);
      var again := Tick(lost, ok, 0, later);
      && DeadLoop(lost)
      && again.worker == Sending && |again.wires| == |s.wires|
      && again.events == s.events + [Lost(s.id), Established(s.id)]
  {
    TickSendingValid(s, false, 0, now);
  }

  /**
   * Corrected, a lost socket is closed, so the next successful attempt builds a new
   * socket and reader, the next step reports the connection, and the step after that
   * delivers the message the failed write kept.
   */
  lemma CorrectedReconnects(s: Sender, sent: nat, now: int, later: int)
    requires Valid(s) && s.variant == Corrected && s.worker.Sending? && !s.shutdown && s.queue != []
    ensures
      var lost := Tick(s, false, sent, now);
      var rebuilt := Tick(lost, true, 0, later);
      var back := Tick(rebuilt, true, 0, later);
      var resent := Tick(back, true, 0, later);
      && |rebuilt.wires| == |s.wires| + 1 && rebuilt.wires[|s.wires|] == Wire(|s.written|, [])
      && rebuilt.worker == Trying(now)
      && (s.readChunk.Some? ==> rebuilt.reader == Some(Framer([], s.readChunk.value)))
      && back.worker == Sending && back.events == s.events + [Lost(s.id), Established(s.id)]
      && resent.written == s.written + [s.queue[0]] && resent.queue == s.queue[1..]
  {
    var lost := Tick(s, false, sent, now);
    TickSendingValid(s, false, sent, now);
    assert lost.worker == Trying(now) && lost.socket.value.closed && lost.events == s.events + [Lost(s.id)];
    var rebuilt := Tick(lost, true, 0, later);
    TickTryingValid(lost, true, 0, later);
    assert rebuilt == CreateConnectionObjects(lost);
    var back := Tick(rebuilt, true, 0, later);
    TickTryingValid(rebuilt, true, 0, later);
    assert back == rebuilt.(worker := Sending, events := rebuilt.events + [Established(s.id)]);
    WriteDeliversHead(back, 0, later);
  }

  /** Corrected, a connection that stays down is reported timed out once `timeout` has elapsed. */
  lemma CorrectedTimesOut(s: Sender, now: int, later: int)
    requires Valid(s) && s.variant == Corrected && s.worker.Sending? && !s.shutdown && s.queue != []
    requires later - now >= s.timeout
    ensures
      var lost := Tick(s, false, 0, now);
      var gone := Tick(lost, false, 0, later);
      && gone.worker == Exited && gone.events == s.events + [Lost(s.id), TimedOut(s.id)]
      && gone.queue == s.queue
  {
  }

  // ---------------------------------------------------------------------------
  // The tests' call sequences

  lemma SendStep(s: Sender, m: string)
    requires Valid(s) && Alive(s) && !s.shutdown && |s.queue| < QueueCapacity
    ensures Apply(s, SendCall(m)) == s.(queue := s.queue + [m], accepted := s.accepted + [m])
  {
  }

  lemma RunCons(s: Sender, a: Action, rest: seq<Action>)
    requires Valid(s)
    ensures Run(s, [a] + rest) == Run(Apply(s, a), rest)
  {
    assert ([a] + rest)[0] == a && ([a] + rest)[1..] == rest;
  }

  /** Queueing `m` and then `rest` queues `[m] + rest`. */
  lemma QueueAppend(s: Sender, m: string, rest: seq<string>, r: Sender)
    requires r == s.(queue := s.queue + [m] + rest, accepted := s.accepted + [m] + rest)
    ensures r == s.(queue := s.queue + ([m] + rest), accepted := s.accepted + ([m] + rest))
  {
    assert s.queue + [m] + rest == s.queue + ([m] + rest);
    assert s.accepted + [m] + rest == s.accepted + ([m] + rest);
  }

  lemma {:induction false} SendsQueue(s: Sender, msgs: seq<string>)
    requires Valid(s) && Alive(s) && !s.shutdown && |s.queue| + |msgs| <= QueueCapacity
    ensures
      var r := Run(s, Sends(msgs));
      r == s.(queue := s.queue + msgs, accepted := s.accepted + msgs)
    decreases |msgs|
  {
    if msgs == [] {
      assert s.queue + msgs == s.queue && s.accepted + msgs == s.accepted;
    } else {
      var m, rest := msgs[0], msgs[1..];
      assert msgs == [m] + rest;
      var s1 := Apply(s, SendCall(m));
      SendStep(s, m);
      assert Sends(msgs) == [SendCall(m)] + Sends(rest);
      RunCons(s, SendCall(m), Sends(rest));
      SendsQueue(s1, rest);
      QueueAppend(s, m, rest, Run(s1, Sends(rest)));
    }
  }

  lemma {:induction false} StepsDrain(s: Sender, now: int)
    requires Valid(s) && s.worker.Sending? && !s.shutdown && !s.socket.value.broken
    ensures
      var r := Run(s, Steps(|s.queue|, now));
      r.written == s.written + s.queue && r.queue == [] && r.worker == Sending
      && r.events == s.events && r.socket == s.socket
      && |r.wires| == |s.wires| && r.wires[|r.wires| - 1].start == s.wires[|s.wires| - 1].start
    decreases |s.queue|
  {
    if s.queue != [] {
      WriteDeliversHead(s, 0, now);
      var s1 := Apply(s, Step(true, 0, now));
      assert Steps(|s.queue|, now)[1..] == Steps(|s1.queue|, now);
      StepsDrain(s1, now);
      assert s.written + [s.queue[0]] + s.queue[1..] == s.written + s.queue;
    }
  }

  /** Before the timeout, a failed attempt with no socket changes nothing but the clock. */
  lemma FailedAttemptWaits(s: Sender, now: int)
    requires Valid(s) && s.worker.Trying? && !s.shutdown && s.socket.None?
    requires now - s.worker.startedAt < s.timeout
    ensures Apply(s, Step(false, 0, now)) == s
  {
  }

  /** Started, one failed attempt to reach the peer, then the messages queued. */
  lemma QueuedBeforeConnect(v: Variant, id: int, timeout: int, msgs: seq<string>)
    requires |msgs| <= QueueCapacity && 200 < timeout
    ensures
      var s0 := NewSender(v, id, timeout);
      Run(s0, [StartCall(0), Step(false, 0, 200)] + Sends(msgs))
        == s0.(worker := Trying(0), queue := msgs, accepted := msgs)
  {
    var s0 := NewSender(v, id, timeout);
    NewSenderValid(v, id, timeout, 0);
    StartsWaiting(v, id, timeout);
    RunAppend(s0, [StartCall(0), Step(false, 0, 200)], Sends(msgs));
    SendsQueue(s0.(worker := Trying(0)), msgs);
  }

  /** `start`, then a failed attempt within the timeout: the worker is still trying. */
  lemma StartsWaiting(v: Variant, id: int, timeout: int)
    requires 200 < timeout
    ensures Valid(NewSender(v, id, timeout).(worker := Trying(0)))
    ensures Run(NewSender(v, id, timeout), [StartCall(0), Step(false, 0, 200)])
         == NewSender(v, id, timeout).(worker := Trying(0))
  {
    var s0 := NewSender(v, id, timeout);
    var started := s0.(worker := Trying(0));
    assert Valid(started);
    RunCons(s0, StartCall(0), [Step(false, 0, 200)]);
    assert Apply(s0, StartCall(0)) == started;
    RunCons(started, Step(false, 0, 200), []);
    FailedAttemptWaits(started, 200);
  }

  /** Two successful steps: a socket is built, then the connection is reported. */
  lemma ConnectsAfterQueueing(v: Variant, id: int, timeout: int, msgs: seq<string>)
    requires |msgs| <= QueueCapacity
    ensures
      var queued := NewSender(v, id, timeout).(worker := Trying(0), queue := msgs, accepted := msgs);
      var up := Run(queued, [Step(true, 0, 400), Step(true, 0, 400)]);
      && up.worker == Sending && up.events == [Established(id)] && up.queue == msgs
      && up.written == [] && !up.shutdown && up.socket == Some(Socket(1, false, false, []))
      && up.wires == [Wire(0, [])]
  {
    var queued := NewSender(v, id, timeout).(worker := Trying(0), queue := msgs, accepted := msgs);
    var built := Apply(queued, Step(true, 0, 400));
    assert built == CreateConnectionObjects(queued);
    RunCons(queued, Step(true, 0, 400), [Step(true, 0, 400)]);
    RunCons(built, Step(true, 0, 400), []);
  }

  /**
   * Messages sent after `start` but before the peer is listening are all written,
   * in order, once the connection comes up, and that one connection carried exactly
   * them, framed.
   */
  lemma SentBeforeConnect(v: Variant, id: int, timeout: int, msgs: seq<string>)
    requires |msgs| <= QueueCapacity && 200 < timeout
    ensures
      var queued := Run(NewSender(v, id, timeout), [StartCall(0), Step(false, 0, 200)] + Sends(msgs));
      var up := Run(queued, [Step(true, 0, 400), Step(true, 0, 400)]);
      && queued.queue == msgs && queued.written == [] && queued.events == []
      && up.worker == Sending && up.events == [Established(id)]
      && Run(up, Steps(|msgs|, 400)).written == msgs
      && Run(up, Steps(|msgs|, 400)).wires == [Wire(0, Encode(msgs))]
  {
    QueuedBeforeConnect(v, id, timeout, msgs);
    ConnectsAfterQueueing(v, id, timeout, msgs);
    var queued := Run(NewSender(v, id, timeout), [StartCall(0), Step(false, 0, 200)] + Sends(msgs));
    var up := Run(queued, [Step(true, 0, 400), Step(true, 0, 400)]);
    StepsDrain(up, 400);
    OneConnectionCarried(Run(up, Steps(|msgs|, 400)));
  }

  /** With one unbroken connection, it carried exactly the written messages, framed. */
  lemma OneConnectionCarried(d: Sender)
    requires Valid(d) && d.socket.Some? && !d.socket.value.broken && |d.wires| == 1
    ensures d.wires == [Wire(0, Encode(d.written))]
  {
    assert d.written[0..] == d.written;
  }

  /**
   * A second `start` fails; after `close` the worker closes its socket on its next
   * step, and neither `send` nor `start` is accepted any more.
   */
  lemma CloseShutsDown(v: Variant, id: int, timeout: int, msg: string)
    ensures
      var s0 := NewSender(v, id, timeout);
      var running := Run(s0, [StartCall(0), Step(true, 0, 0), Step(true, 0, 0)]);
      var closed := Run(running, [CloseCall, Step(true, 0, 1000)]);
      && Start(Start(s0, 0).value, 0) == Failure(AlreadyStarted)
      && running.worker == Sending
      && closed.worker == Exited && closed.socket.Some? && closed.socket.value.closed
      && Send(closed, msg) == Failure(SendAfterShutdown)
      && Start(closed, 0).Failure?
  {
    NewSenderValid(v, id, timeout, 0);
    var running := Run(NewSender(v, id, timeout), [StartCall(0), Step(true, 0, 0), Step(true, 0, 0)]);
    assert running.worker == Sending && running.socket.Some?;
    CloseStops(running, msg);
  }

  /** A running worker that sees `close` on its next step closes its socket and ends. */
  lemma CloseStops(running: Sender, msg: string)
    requires Valid(running) && running.worker == Sending && running.socket.Some?
    ensures
      var closed := Run(running, [CloseCall, Step(true, 0, 1000)]);
      && closed.worker == Exited && closed.socket.Some? && closed.socket.value.closed
      && Send(closed, msg) == Failure(SendAfterShutdown)
      && Start(closed, 0).Failure?
  {
    RunCons(running, CloseCall, [Step(true, 0, 1000)]);
    var c := Close(running);
    RunCons(c, Step(true, 0, 1000), []);
    assert Apply(c, Step(true, 0, 1000)) == Finish(c);
  }

  /**
   * Before the first connection the sender-receiver has no reader; once connected,
   * `Hello World¬` from the peer is read back as the single message `Hello World`.
   */
  lemma ReceivesHelloWorld(v: Variant, id: int, timeout: int)
    ensures
      var s0 := NewSenderReceiver(v, id, timeout, 2000);
      var up := Run(s0, [StartCall(0), Step(true, 0, 0), Step(true, 0, 0), Reply("Hello World¬")]);
      && GetLatestMessagesReceived(s0) == Failure(NoReader)
      && up.reader == Some(Framer([], 2000))
      && GetLatestMessagesReceived(up).Success?
      && GetLatestMessagesReceived(up).value.0 == ["Hello World"]
  {
    assert "Hello World¬" == "Hello World" + [SEP];
    ReceivesOneMessage(v, id, timeout, "Hello World");
  }

  /** Starting and two successful steps open the first connection, with a fresh reader. */
  lemma ConnectsFresh(v: Variant, id: int, timeout: int)
    ensures NewSenderReceiver(v, id, timeout, 2000).reader.None?
    ensures Valid(NewSenderReceiver(v, id, timeout, 2000))
    ensures
      var up := Run(NewSenderReceiver(v, id, timeout, 2000), [StartCall(0), Step(true, 0, 0), Step(true, 0, 0)]);
      && up.readChunk == Some(2000) && up.reader == Some(Framer([], 2000))
      && up.socket.Some? && !up.socket.value.closed && up.socket.value.inbound == []
  {
    NewSenderValid(v, id, timeout, 2000);
  }

  /** A connected sender-receiver with an empty reader reads one framed reply back. */
  lemma ReadsReply(up: Sender, m: string)
    requires Valid(up) && up.readChunk == Some(2000) && up.reader == Some(Framer([], 2000))
    requires up.socket.Some? && !up.socket.value.closed && up.socket.value.inbound == []
    requires SepFree(m) && |m| < 2000
    ensures Run(up, [Reply(m + [SEP])]).reader == Some(Framer([], 2000))
    ensures GetLatestMessagesReceived(Run(up, [Reply(m + [SEP])])).Success?
    ensures GetLatestMessagesReceived(Run(up, [Reply(m + [SEP])])).value.0 == [m]
  {
    RunCons(up, Reply(m + [SEP]), []);
    assert [Reply(m + [SEP])] + [] == [Reply(m + [SEP])];
    var up' := Run(up, [Reply(m + [SEP])]);
    assert up' == PeerReplies(up, m + [SEP]);
    assert [] + (m + [SEP]) == m + [SEP];
    PullCompletes([], m);
    assert [] + m == m;
    assert (m + [SEP])[..|m + [SEP]|] == m + [SEP];
    assert ReadChunk(m + [SEP], 2000) == (m + [SEP], []);
  }

  /** The same for any one separator-free message shorter than the chunk size. */
  lemma ReceivesOneMessage(v: Variant, id: int, timeout: int, m: string)
    requires SepFree(m) && |m| < 2000
    ensures
      var s0 := NewSenderReceiver(v, id, timeout, 2000);
      var up := Run(s0, [StartCall(0), Step(true, 0, 0), Step(true, 0, 0), Reply(m + [SEP])]);
      && GetLatestMessagesReceived(s0) == Failure(NoReader)
      && up.reader == Some(Framer([], 2000))
      && GetLatestMessagesReceived(up).Success?
      && GetLatestMessagesReceived(up).value.0 == [m]
  {
    var s0 := NewSenderReceiver(v, id, timeout, 2000);
    var connect := [StartCall(0), Step(true, 0, 0), Step(true, 0, 0)];
    ConnectsFresh(v, id, timeout);
    ReadsReply(Run(s0, connect), m);
    RunAppend(s0, connect, [Reply(m + [SEP])]);
    assert connect + [Reply(m + [SEP])] == [StartCall(0), Step(true, 0, 0), Step(true, 0, 0), Reply(m + [SEP])];
  }
}
