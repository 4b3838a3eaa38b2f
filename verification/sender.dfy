/**
 * `BufferedMessageSender` and `BufferedMessageSenderReceiver`: a bounded FIFO of
 * outgoing messages drained by one worker thread, which connects, writes the head
 * of the queue, removes it only once the write succeeded, and reconnects when the
 * connection is lost.
 *
 * The worker is a state machine advanced one step at a time by `Tick(s, ok, sent, now)`:
 * `ok` says whether the socket operation attempted in that step (building a socket
 * or writing a message) succeeds, `sent` how much of a failed write left before the
 * exception, and `now` is the clock after the step's sleep.
 * Calls made by the application (`start`, `send`, `close`) interleave with the
 * worker's steps.
 *
 * `Variant` selects between the code as written and the corrected reconnect logic;
 * the two differ only in `Usable` and in what a lost connection does to the socket.
 */
module Sender {
  import opened Wrappers
  import opened Framing
  import opened MessageReader
  import opened MessageWriter

  /** `DEFAULT_QUEUE_SIZE`. */
  const QueueCapacity: nat := 1000

  /** The `ConnectionListener` callbacks, each carrying the connection id. */
  datatype Event = Established(id: int) | Lost(id: int) | TimedOut(id: int)

  /**
   * One `Socket` object: `epoch` numbers the sockets built so far, `broken` says the
   * peer connection behind it is gone, `closed` that `close()` was called on it;
   * `inbound` holds the characters the peer has sent on it and not yet read.
   */
  datatype Socket = Socket(epoch: nat, broken: bool, closed: bool, inbound: string)

  /** Where the sending thread is: not started, inside `tryConnect`, in the send loop, or finished. */
  datatype Worker = Unstarted | Trying(startedAt: int) | Sending | Exited

  datatype Variant = AsWritten | Corrected

  /**
   * What one connection carried: `start` is how many messages had been written when
   * its socket was built, and `text` every character written on it that left the
   * sender (which is not to say that it reached the peer).
   */
  datatype Wire = Wire(start: nat, text: string)

  datatype Sender = Sender(
    variant: Variant,
    id: int,
    timeout: int,
    worker: Worker,
    shutdown: bool,
    queue: seq<string>,       // the `ArrayBlockingQueue`, head first
    accepted: seq<string>,    // every message `send` has put in the queue, in order
    written: seq<string>,     // every message whose `doSend` returned normally, in order
    wires: seq<Wire>,         // one per socket built, the current socket's last
    events: seq<Event>,       // the callbacks fired so far
    socket: Option<Socket>,
    readChunk: Option<nat>,   // `inputStreamReadingChunkSize`; None for a plain sender
    reader: Option<Framer>    // the `HoogasMessageReader` of the current socket
  )

  datatype StartError = AlreadyStarted | StartAfterShutdown | ThreadNotRestartable
  datatype SendError = SendAfterShutdown | NotStarted | QueueFull
  datatype ReceiveError = NoReader

  /** `new BufferedMessageSender(host, port, timeout, connectionId, listener)`. */
  function NewSender(v: Variant, id: int, timeout: int): Sender {
    Sender(v, id, timeout, Unstarted, false, [], [], [], [], [], None, None, None)
  }

  /** `new BufferedMessageSenderReceiver(..., inputStreamReadingChunkSize)`. */
  function NewSenderReceiver(v: Variant, id: int, timeout: int, chunkSize: nat): Sender {
    NewSender(v, id, timeout).(readChunk := Some(chunkSize))
  }

  /** `sendingRoutineThread.isAlive()`. */
  predicate Alive(s: Sender) {
    s.worker.Trying? || s.worker.Sending?
  }

  /**
   * `socket != null && socketConnected()`. As written, `Socket.isConnected()` stays
   * true once the socket has connected, even after the peer went away or the socket
   * was closed; the corrected sender treats a closed socket as unusable.
   */
  predicate Usable(v: Variant, socket: Option<Socket>) {
    socket.Some? && (v == AsWritten || !socket.value.closed)
  }

  /**
   * `start()`: refuses a running thread, then a shut-down sender; a thread that has
   * already finished cannot be started again (`IllegalThreadStateException`).
   */
  function Start(s: Sender, now: int): (r: Result<Sender, StartError>)
    ensures Alive(s) <==> r == Failure(AlreadyStarted)
    ensures !Alive(s) && s.shutdown ==> r == Failure(StartAfterShutdown)
    ensures r.Success? <==> s.worker.Unstarted? && !s.shutdown
    ensures r.Success? ==> r.value == s.(worker := Trying(now))
  {
    if Alive(s) then Failure(AlreadyStarted)
    else if s.shutdown then Failure(StartAfterShutdown)
    else if s.worker.Exited? then Failure(ThreadNotRestartable)
    else Success(s.(worker := Trying(now)))
  }

  /**
   * `send(message)`: refuses after shutdown, then before the thread runs; a full
   * queue makes the caller block (`QueueFull` here: the state is unchanged and the
   * message is not dropped, the call simply cannot complete yet).
   */
  function Send(s: Sender, msg: string): (r: Result<Sender, SendError>)
    ensures s.shutdown <==> r == Failure(SendAfterShutdown)
    ensures !s.shutdown && !Alive(s) ==> r == Failure(NotStarted)
    ensures r.Success? <==> !s.shutdown && Alive(s) && |s.queue| < QueueCapacity
    ensures r.Success? ==> r.value.queue == s.queue + [msg] && r.value.accepted == s.accepted + [msg]
    ensures r.Success? ==> r.value.written == s.written && r.value.wires == s.wires
  {
    if s.shutdown then Failure(SendAfterShutdown)
    else if !Alive(s) then Failure(NotStarted)
    else if |s.queue| >= QueueCapacity then Failure(QueueFull)
    else Success(s.(queue := s.queue + [msg], accepted := s.accepted + [msg]))
  }

  /** `close()`: raises the shutdown flag; the worker notices it on its next step. */
  function Close(s: Sender): Sender {
    s.(shutdown := true)
  }

  /**
   * `createConnectionObjects()` when `new Socket(host, port)` succeeds: a new
   * socket with a new writer, so a new, empty wire, and for a sender-receiver a new
   * reader with nothing carried over.
   */
  function CreateConnectionObjects(s: Sender): (r: Sender)
    ensures r.socket == Some(Socket(|s.wires| + 1, false, false, []))
    ensures r.wires == s.wires + [Wire(|s.written|, [])]
    ensures s.readChunk.Some? ==> r.reader == Some(NewFramer(s.readChunk.value))
    ensures s.readChunk.None? ==> r.reader == s.reader
  {
    s.(socket := Some(Socket(|s.wires| + 1, false, false, [])),
       wires := s.wires + [Wire(|s.written|, [])],
       reader := if s.readChunk.Some? then Some(NewFramer(s.readChunk.value)) else s.reader)
  }

  /** The end of `run()`: the socket, if any, is closed and the thread ends. */
  function Finish(s: Sender): Sender {
    s.(worker := Exited,
       socket := if s.socket.Some? then Some(s.socket.value.(closed := true)) else None)
  }

  /**
   * A write failed or the socket was found unusable: `onConnectionLost`, then
   * `tryConnect` starts its clock. The connection behind the socket is gone; the
   * corrected sender also closes the socket so that `tryConnect` builds a new one.
   */
  function LoseConnection(s: Sender, now: int): Sender
    requires s.socket.Some?
  {
    var dead := s.socket.value.(broken := true, closed := s.variant == Corrected || s.socket.value.closed);
    s.(events := s.events + [Lost(s.id)], worker := Trying(now), socket := Some(dead))
  }

  /**
   * One step of the sending thread. `ok` says whether the socket operation of the
   * step succeeds; when a write fails, `sent` characters of it left before the
   * exception. Nothing leaves on a connection that is already gone.
   */
  function Tick(s: Sender, ok: bool, sent: nat, now: int): (r: Sender)
    requires s.worker.Sending? ==> s.socket.Some? && s.wires != []
    ensures s.written <= r.written && r.written + r.queue == s.written + s.queue
    ensures r.accepted == s.accepted
    ensures s.events <= r.events && |r.events| <= |s.events| + 1
  {
    match s.worker
    case Trying(startedAt) =>
      if s.shutdown then Finish(s)
      else if Usable(s.variant, s.socket) then
        s.(worker := Sending, events := s.events + [Established(s.id)])
      else
        var s1 := if ok then CreateConnectionObjects(s) else s;
        if Usable(s1.variant, s1.socket) then s1
        else if now - startedAt >= s.timeout then Finish(s1.(events := s1.events + [TimedOut(s1.id)]))
        else s1
    case Sending =>
      if s.shutdown then Finish(s)
      else if !Usable(s.variant, s.socket) then LoseConnection(s, now)
      else if s.queue == [] then s
      else
        var head := s.queue[0];
        var live := !s.socket.value.broken;
        var last := |s.wires| - 1;
        var w := DoSend(Stream(s.wires[last].text, []), head, ok && live, if live then sent else 0);
        var s1 := s.(wires := s.wires[last := s.wires[last].(text := w.0.flushed)]);
        if w.1.Pass? then
          assert s.queue == [head] + s.queue[1..];
          s1.(written := s.written + [head], queue := s.queue[1..])
        else LoseConnection(s1, now)
    case _ => s
  }

  /** The peer writes `text` back on the current connection. */
  function PeerReplies(s: Sender, text: string): Sender {
    if s.socket.Some? then s.(socket := Some(s.socket.value.(inbound := s.socket.value.inbound + text)))
    else s
  }

  /**
   * `getLatestMessagesReceived()`: the current reader's `getReceivedMessages()` on
   * the current socket. Before the first connection the reader is still null. Once
   * the socket is closed, `ready()` reports nothing to read, so the call returns no
   * message and reads nothing.
   */
  function GetLatestMessagesReceived(s: Sender): (r: Result<(seq<string>, Sender), ReceiveError>)
    requires s.readChunk.Some?
    requires s.reader.Some? ==> s.socket.Some?
    ensures s.reader.None? <==> r == Failure(NoReader)
    ensures r.Success? && s.socket.value.closed ==> r.value == ([], s)
    ensures r.Success? ==>
      var (msgs, s') := r.value;
      && s'.socket.Some? && s'.reader.Some?
      && s.reader.value.partial + s.socket.value.inbound
         == Encode(msgs) + s'.reader.value.partial + s'.socket.value.inbound
      && |s.socket.value.inbound| - |s'.socket.value.inbound| <= s.reader.value.chunkSize
      && s'.reader.value.chunkSize == s.reader.value.chunkSize
      && s'.queue == s.queue && s'.events == s.events && s'.worker == s.worker
  {
    if s.reader.None? then Failure(NoReader)
    else if s.socket.value.closed then
      assert [] + s.reader.value.partial + s.socket.value.inbound == s.reader.value.partial + s.socket.value.inbound;
      Success(([], s))
    else
      var x := Receive(s.reader.value, s.socket.value.inbound);
      ReceiveAccounts(s.reader.value, s.socket.value.inbound);
      ReceiveProperties(s.reader.value, s.socket.value.inbound);
      Success((x.0, s.(reader := Some(x.1), socket := Some(s.socket.value.(inbound := x.2)))))
  }

  // ---------------------------------------------------------------------------
  // The invariant

  /**
   * The callbacks form the sequence `Established (Lost Established)*` possibly ended
   * by one `TimedOut` in place of an `Established`: a `Lost` precedes every
   * reconnection attempt, and each attempt reports exactly one outcome.
   */
  predicate EventsWellFormed(id: int, es: seq<Event>) {
    forall i | 0 <= i < |es| ::
      && es[i].id == id
      && (es[i].Lost? <==> i % 2 == 1)
      && (es[i].TimedOut? ==> i == |es| - 1)
  }

  /** Where the messages written on connection `k` end: where the next connection's begin, or at the `n` written so far. */
  function End(wires: seq<Wire>, k: nat, n: nat): nat
    requires k < |wires|
  {
    if k + 1 < |wires| then wires[k + 1].start else n
  }

  /** One past the last message a connection may have carried: the one after its written ones, if any. */
  function Reach(hi: nat, total: nat): nat {
    if hi < total then hi + 1 else hi
  }

  /**
   * A connection's text holds the messages written on it, framed, followed by at
   * most part of the framed next message: the one whose write failed on it.
   */
  predicate Carried(acc: seq<string>, lo: nat, hi: nat, text: string) {
    && lo <= hi <= |acc|
    && Encode(acc[lo..hi]) <= text
    && text <= Encode(acc[lo..Reach(hi, |acc|)])
  }

  /**
   * The connections share out the `n` written messages in order, the first starting
   * at the first message, and each carried its share and at most part of one more.
   */
  predicate WiresWellFormed(acc: seq<string>, n: nat, wires: seq<Wire>) {
    && n <= |acc|
    && (wires == [] ==> n == 0)
    && (wires != [] ==> wires[0].start == 0)
    && forall k | 0 <= k < |wires| :: WireOk(acc, n, wires, k)
  }

  /** Connection `k` carried its share of the `n` written messages, and at most part of one more. */
  predicate WireOk(acc: seq<string>, n: nat, wires: seq<Wire>, k: nat)
    requires k < |wires|
  {
    wires[k].start <= End(wires, k, n) <= n && Carried(acc, wires[k].start, End(wires, k, n), wires[k].text)
  }

  /** On a connection that is not known to be gone, nothing beyond the written messages has left. */
  predicate LiveWire(written: seq<string>, wires: seq<Wire>) {
    && wires != []
    && wires[|wires| - 1].start <= |written|
    && wires[|wires| - 1].text == Encode(written[wires[|wires| - 1].start..])
  }

  predicate Valid(s: Sender) {
    && s.written + s.queue == s.accepted
    && |s.queue| <= QueueCapacity
    && WiresWellFormed(s.accepted, |s.written|, s.wires)
    && (s.socket.None? <==> s.wires == [])
    && (s.socket.Some? ==> s.socket.value.epoch == |s.wires|)
    && (s.socket.Some? && !s.socket.value.broken ==> LiveWire(s.written, s.wires))
    && EventsWellFormed(s.id, s.events)
    && (s.worker.Unstarted? ==> s.events == [] && s.accepted == [] && s.socket.None? && s.reader.None?)
    && (s.worker.Trying? ==> |s.events| % 2 == 0)
    && (s.worker.Sending? ==>
          |s.events| % 2 == 1 && s.events[|s.events| - 1].Established? && Usable(s.variant, s.socket))
    && (s.worker.Exited? ==>
          (s.shutdown || (s.events != [] && s.events[|s.events| - 1].TimedOut?))
          && (s.socket.Some? ==> s.socket.value.closed))
    && (s.reader.Some? ==> s.socket.Some? && s.readChunk.Some? && s.reader.value.chunkSize == s.readChunk.value)
    && (s.readChunk.Some? && s.socket.Some? ==> s.reader.Some?)
  }

  // ---------------------------------------------------------------------------
  // The invariant holds initially and is kept by every action

  lemma NewSenderValid(v: Variant, id: int, timeout: int, chunkSize: nat)
    ensures Valid(NewSender(v, id, timeout))
    ensures Valid(NewSenderReceiver(v, id, timeout, chunkSize))
  {
  }

  lemma EventsAppend(id: int, es: seq<Event>, e: Event)
    requires EventsWellFormed(id, es)
    requires e.id == id && (e.Lost? <==> |es| % 2 == 1)
    requires es != [] ==> !es[|es| - 1].TimedOut?
    ensures EventsWellFormed(id, es + [e])
  {
  }

  /** Accepting a message keeps every connection's account. */
  lemma WiresAccept(acc: seq<string>, n: nat, wires: seq<Wire>, m: string)
    requires WiresWellFormed(acc, n, wires)
    ensures WiresWellFormed(acc + [m], n, wires)
  {
    var acc' := acc + [m];
    forall k | 0 <= k < |wires|
      ensures WireOk(acc', n, wires, k)
    {
      assert WireOk(acc, n, wires, k);
      var lo, hi := wires[k].start, End(wires, k, n);
      assert acc'[lo..hi] == acc[lo..hi];
      if hi < |acc| {
        assert acc'[lo..hi + 1] == acc[lo..hi + 1];
      } else {
        assert acc'[lo..hi + 1] == acc[lo..hi] + [m];
        EncodeAppend(acc[lo..hi], [m]);
      }
    }
  }

  /** A new connection starts with nothing written on it. */
  lemma WiresConnect(acc: seq<string>, n: nat, wires: seq<Wire>)
    requires WiresWellFormed(acc, n, wires)
    ensures WiresWellFormed(acc, n, wires + [Wire(n, [])])
  {
    var ws := wires + [Wire(n, [])];
    forall k | 0 <= k < |ws|
      ensures WireOk(acc, n, ws, k)
    {
      if k < |wires| {
        assert WireOk(acc, n, wires, k);
        assert End(ws, k, n) == End(wires, k, n);
      }
    }
  }

  /**
   * The current connection's text changes to `text`, which holds what it held and at
   * most part of the next queued message framed; a whole one when `n` grows by it.
   */
  lemma WiresWrite(acc: seq<string>, n: nat, n': nat, wires: seq<Wire>, text: string)
    requires WiresWellFormed(acc, n, wires) && wires != [] && n < |acc|
    requires var last := wires[|wires| - 1];
      last.start <= n && last.text == Encode(acc[last.start..n])
    requires n' == n || (n' == n + 1 && text == wires[|wires| - 1].text + Encode([acc[n]]))
    requires wires[|wires| - 1].text <= text <= wires[|wires| - 1].text + Encode([acc[n]])
    ensures WiresWellFormed(acc, n', wires[|wires| - 1 := wires[|wires| - 1].(text := text)])
  {
    var last := |wires| - 1;
    var ws := wires[last := wires[last].(text := text)];
    CarriedWrite(acc, wires[last].start, n, n', wires[last].text, text);
    forall k | 0 <= k < |ws|
      ensures WireOk(acc, n', ws, k)
    {
      if k < last {
        assert WireOk(acc, n, wires, k);
        assert End(ws, k, n') == End(wires, k, n);
      }
    }
  }

  /** The account of the connection being written to, after the write. */
  lemma CarriedWrite(acc: seq<string>, lo: nat, n: nat, n': nat, before: string, text: string)
    requires lo <= n < |acc| && before == Encode(acc[lo..n])
    requires n' == n || (n' == n + 1 && text == before + Encode([acc[n]]))
    requires before <= text <= before + Encode([acc[n]])
    ensures Carried(acc, lo, n', text)
  {
    assert acc[lo..n + 1] == acc[lo..n] + [acc[n]];
    EncodeAppend(acc[lo..n], [acc[n]]);
    if n' == n + 1 && n + 1 < |acc| {
      assert acc[lo..n + 2] == acc[lo..n + 1] + [acc[n + 1]];
      EncodeAppend(acc[lo..n + 1], [acc[n + 1]]);
    }
  }

  lemma {:induction false} TickTryingValid(s: Sender, ok: bool, sent: nat, now: int)
    requires Valid(s) && s.worker.Trying?
    ensures Valid(Tick(s, ok, sent, now))
  {
    if !s.shutdown {
      if s.events != [] {
        assert !s.events[|s.events| - 1].TimedOut?;
      }
      if Usable(s.variant, s.socket) {
        EventsAppend(s.id, s.events, Established(s.id));
      } else {
        var s1 := if ok then CreateConnectionObjects(s) else s;
        if ok {
          ConnectedValid(s);
        }
        if !Usable(s1.variant, s1.socket) && now - s.worker.startedAt >= s.timeout {
          EventsAppend(s.id, s.events, TimedOut(s.id));
        }
      }
    }
  }

  /** Building a new socket inside `tryConnect` keeps the invariant. */
  lemma ConnectedValid(s: Sender)
    requires Valid(s) && s.worker.Trying?
    ensures Valid(CreateConnectionObjects(s))
  {
    WiresConnect(s.accepted, |s.written|, s.wires);
    assert Encode(s.written[|s.written|..]) == [] by {
      assert s.written[|s.written|..] == [];
    }
  }

  /** A successful write on the current, unbroken connection keeps the invariant. */
  lemma WrittenValid(s: Sender, text: string)
    requires Valid(s) && s.worker.Sending? && s.queue != [] && !s.socket.value.broken
    requires text == s.wires[|s.wires| - 1].text + Encode([s.queue[0]])
    ensures
      var last := |s.wires| - 1;
      Valid(s.(wires := s.wires[last := s.wires[last].(text := text)],
               written := s.written + [s.queue[0]], queue := s.queue[1..]))
  {
    var last := |s.wires| - 1;
    var head := s.queue[0];
    var n := |s.written|;
    var r := s.(wires := s.wires[last := s.wires[last].(text := text)],
                written := s.written + [head], queue := s.queue[1..]);
    assert s.accepted[n] == head && s.accepted[..n] == s.written;
    assert s.accepted[s.wires[last].start..n] == s.written[s.wires[last].start..];
    assert s.wires[last].text <= text;
    WiresWrite(s.accepted, n, n + 1, s.wires, text);
    LiveWireWrite(s.written, s.wires, head, text);
    assert r.written + r.queue == s.written + s.queue;
  }

  /** Writing a message whole on the current connection keeps it carrying exactly the written messages. */
  lemma LiveWireWrite(written: seq<string>, wires: seq<Wire>, head: string, text: string)
    requires LiveWire(written, wires)
    requires text == wires[|wires| - 1].text + Encode([head])
    ensures LiveWire(written + [head], wires[|wires| - 1 := wires[|wires| - 1].(text := text)])
  {
    var lo := wires[|wires| - 1].start;
    assert (written + [head])[lo..] == written[lo..] + [head];
    EncodeAppend(written[lo..], [head]);
  }

  /**
   * A failed write keeps the invariant: on an unbroken connection any start of the
   * framed head may have left, on a broken one nothing.
   */
  lemma FailedValid(s: Sender, text: string, now: int)
    requires Valid(s) && s.worker.Sending? && s.queue != [] && Usable(s.variant, s.socket)
    requires !s.socket.value.broken ==>
      s.wires[|s.wires| - 1].text <= text <= s.wires[|s.wires| - 1].text + Encode([s.queue[0]])
    requires s.socket.value.broken ==> text == s.wires[|s.wires| - 1].text
    ensures
      var last := |s.wires| - 1;
      Valid(LoseConnection(s.(wires := s.wires[last := s.wires[last].(text := text)]), now))
  {
    var last := |s.wires| - 1;
    var n := |s.written|;
    if s.socket.value.broken {
      assert s.wires[last := s.wires[last].(text := text)] == s.wires;
    } else {
      assert s.accepted[..n] == s.written;
      assert s.accepted[s.wires[last].start..n] == s.written[s.wires[last].start..];
      WiresWrite(s.accepted, n, n, s.wires, text);
    }
    EventsAppend(s.id, s.events, Lost(s.id));
  }

  lemma {:induction false} TickSendingValid(s: Sender, ok: bool, sent: nat, now: int)
    requires Valid(s) && s.worker.Sending?
    ensures Valid(Tick(s, ok, sent, now))
  {
    if !s.shutdown && !Usable(s.variant, s.socket) {
      EventsAppend(s.id, s.events, Lost(s.id));
    } else if !s.shutdown && s.queue != [] {
      var head := s.queue[0];
      var live := !s.socket.value.broken;
      var last := |s.wires| - 1;
      var w := DoSend(Stream(s.wires[last].text, []), head, ok && live, if live then sent else 0);
      assert s.wires[last].text + [] == s.wires[last].text;
      if w.1.Pass? {
        WrittenValid(s, w.0.flushed);
      } else {
        FailedValid(s, w.0.flushed, now);
      }
    }
  }

  lemma PollValid(s: Sender)
    requires Valid(s) && s.readChunk.Some? && GetLatestMessagesReceived(s).Success?
    ensures Valid(GetLatestMessagesReceived(s).value.1)
  {
    var s' := GetLatestMessagesReceived(s).value.1;
    assert s'.reader.value.chunkSize == s.readChunk.value;
  }

  /** The application's calls and the worker's steps, as one alphabet. */
  datatype Action =
    | StartCall(now: int)
    | SendCall(msg: string)
    | CloseCall
    | Step(ok: bool, sent: nat, now: int)
    | Reply(text: string)
    | Poll

  /** One action; a call that throws leaves the sender as it was. */
  function Apply(s: Sender, a: Action): (r: Sender)
    requires Valid(s)
    ensures Valid(r)
  {
    match a
    case StartCall(now) => if Start(s, now).Success? then Start(s, now).value else s
    case SendCall(msg) =>
      if Send(s, msg).Success? then WiresAccept(s.accepted, |s.written|, s.wires, msg); Send(s, msg).value
      else s
    case CloseCall => Close(s)
    case Step(ok, sent, now) =>
      if s.worker.Trying? then TickTryingValid(s, ok, sent, now); Tick(s, ok, sent, now)
      else if s.worker.Sending? then TickSendingValid(s, ok, sent, now); Tick(s, ok, sent, now)
      else Tick(s, ok, sent, now)
    case Reply(text) => PeerReplies(s, text)
    case Poll =>
      if s.readChunk.Some? && GetLatestMessagesReceived(s).Success? then
        PollValid(s);
        GetLatestMessagesReceived(s).value.1
      else s
  }

  function Run(s: Sender, actions: seq<Action>): (r: Sender)
    requires Valid(s)
    ensures Valid(r)
    decreases |actions|
  {
    if actions == [] then s
    else
      Run(Apply(s, actions[0]), actions[1..])
  }

}
