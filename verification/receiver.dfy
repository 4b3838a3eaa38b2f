/**
 * `MessageReceiver`: the server side of a point-to-point connection. It blocks in
 * `connect` until one peer attaches, then offers pull-based receiving through the
 * same framing loop as `HoogasMessageReader` and direct, unbuffered replies.
 * The peer is abstracted as the characters it has sent (`inbound`) and the
 * characters written back to it (`outbound`).
 */
module Receiver {
  import opened Wrappers
  import opened Framing
  import opened MessageReader

  /** `DEFAULT_RECEIVED_MSG_BUFFER_SIZE`. */
  const DefaultBufferSize: nat := 1000

  /** A socket field: still null, open, or closed. */
  datatype SocketState = Absent | Open | Closed

  datatype ReceiverError =
    | NotConnected   // the reader or writer is still null: `connect` never completed
    | BindFailed     // `new ServerSocket(port)` could not take the port
    | IoError        // the socket has been closed or could not be used

  datatype Receiver = Receiver(
    port: int,
    serverSocket: SocketState,
    socket: SocketState,
    streamsReady: bool,     // `reader` and `writer` have been built by `connect`
    framer: Framer,
    inbound: string,        // characters the peer sent on the current connection, not yet read
    outbound: string        // characters written to the peer on the current connection
  )

  /** `new MessageReceiver(port, receivedMessageBufferSize)`. */
  function NewReceiverWithSize(port: int, bufferSize: nat): (r: Receiver)
    ensures r.framer.chunkSize == bufferSize && r.framer.partial == []
    ensures r.socket == Absent && r.serverSocket == Absent && !r.streamsReady
  {
    Receiver(port, Absent, Absent, false, NewFramer(bufferSize), [], [])
  }

  /** `new MessageReceiver(port)`: reads in chunks of the default 1000 characters. */
  function NewReceiver(port: int): (r: Receiver)
    ensures r.framer.chunkSize == 1000
    ensures r == NewReceiverWithSize(port, DefaultBufferSize)
  {
    NewReceiverWithSize(port, DefaultBufferSize)
  }

  /**
   * The receiver's own open server socket still holds its port, so binding it again
   * fails; port 0 asks for a fresh ephemeral port each time.
   */
  predicate PortHeld(r: Receiver) {
    r.serverSocket == Open && r.port != 0
  }

  /**
   * `connect`: binds a new server socket, then waits for one peer. `bound` says
   * whether the port was free to bind, `accepted` whether `accept` returned a
   * socket. A failed bind throws before any field changes. An accepted connection
   * comes with a new reader and writer, so nothing unread or written on an earlier
   * connection carries over; the partly read message does, as it is kept by the
   * receiver itself.
   */
  function Connect(r: Receiver, bound: bool, accepted: bool): (res: (Receiver, Outcome<ReceiverError>))
    ensures PortHeld(r) || !bound <==> res == (r, Fail(BindFailed))
    ensures res.1.Pass? <==> !PortHeld(r) && bound && accepted
    ensures !PortHeld(r) && bound ==> res.0.serverSocket == Open && res.0.framer == r.framer
    ensures res.1.Pass? ==>
      && res.0.socket == Open && res.0.streamsReady
      && res.0.inbound == [] && res.0.outbound == []
    ensures res.1 == Fail(IoError) ==> res.0 == r.(serverSocket := Open)
  {
    if PortHeld(r) || !bound then (r, Fail(BindFailed))
    else
      var listening := r.(serverSocket := Open);
      if accepted then (listening.(socket := Open, streamsReady := true, inbound := [], outbound := []), Pass)
      else (listening, Fail(IoError))
  }

  /** The peer writes `text` on the connection. */
  function PeerSends(r: Receiver, text: string): Receiver {
    r.(inbound := r.inbound + text)
  }

  /**
   * `getReceivedMessages`: fails before `connect`. Once the socket is closed the
   * reader reports nothing ready, so the call returns no message and reads nothing.
   * Otherwise one read of at most the buffer size, framed by the loop the
   * reader of the buffered sender-receiver uses.
   */
  function GetReceivedMessages(r: Receiver): (res: Result<(seq<string>, Receiver), ReceiverError>)
    ensures !r.streamsReady <==> res == Failure(NotConnected)
    ensures r.streamsReady && r.socket != Open ==> res == Success(([], r))
    ensures res.Success? ==>
      var (msgs, r') := res.value;
      && |r.inbound| - |r'.inbound| <= r.framer.chunkSize
      && r.framer.partial + r.inbound == Encode(msgs) + r'.framer.partial + r'.inbound
      && r'.outbound == r.outbound && r'.framer.chunkSize == r.framer.chunkSize
  {
    if !r.streamsReady then Failure(NotConnected)
    else if r.socket != Open then
      assert [] + r.framer.partial + r.inbound == r.framer.partial + r.inbound;
      Success(([], r))
    else
      var x := Receive(r.framer, r.inbound);
      ReceiveProperties(r.framer, r.inbound);
      ghost var consumed := r.inbound[..|r.inbound| - |x.2|];
      assert r.framer.partial + r.inbound == (r.framer.partial + consumed) + x.2;
      Success((x.0, r.(framer := x.1, inbound := x.2)))
  }

  /**
   * `sendMessage`: writes the text exactly as given and flushes it; unlike the
   * buffered sender's writer it appends no separator. Once the socket is closed,
   * writing an empty text sends nothing and succeeds; any other text fails on flush.
   */
  function SendMessage(r: Receiver, msg: string): (res: Result<Receiver, ReceiverError>)
    ensures !r.streamsReady <==> res == Failure(NotConnected)
    ensures r.streamsReady && r.socket != Open ==> (res.Success? <==> msg == []) && (res.Success? ==> res.value == r)
    ensures r.streamsReady && r.socket == Open ==>
      res.Success? && res.value.outbound == r.outbound + msg && res.value.inbound == r.inbound
  {
    if !r.streamsReady then Failure(NotConnected)
    else if r.socket != Open then (if msg == [] then Success(r) else Failure(IoError))
    else Success(r.(outbound := r.outbound + msg))
  }

  /** `close`: closes the socket and the server socket, each only if it exists. */
  function Close(r: Receiver): (r': Receiver)
    ensures r'.socket != Open && r'.serverSocket != Open
    ensures r'.socket == Absent <==> r.socket == Absent
    ensures r'.serverSocket == Absent <==> r.serverSocket == Absent
  {
    r.(socket := if r.socket == Open then Closed else r.socket,
       serverSocket := if r.serverSocket == Open then Closed else r.serverSocket)
  }

  // ---------------------------------------------------------------------------
  // Properties

  /** Sending or receiving before `connect` fails; after a successful `connect` both work. */
  lemma ConnectBeforeUse(port: int, size: nat, msg: string)
    ensures GetReceivedMessages(NewReceiverWithSize(port, size)) == Failure(NotConnected)
    ensures SendMessage(NewReceiverWithSize(port, size), msg) == Failure(NotConnected)
    ensures GetReceivedMessages(Connect(NewReceiverWithSize(port, size), true, true).0).Success?
    ensures SendMessage(Connect(NewReceiverWithSize(port, size), true, true).0, msg).Success?
  {
  }

  /**
   * After `close`, a receive returns nothing and changes nothing, and only an empty
   * reply succeeds; before any `connect` both still fail as not connected.
   */
  lemma CloseEndsUse(r: Receiver, msg: string)
    ensures r.streamsReady ==> GetReceivedMessages(Close(r)) == Success(([], Close(r)))
    ensures r.streamsReady ==> (SendMessage(Close(r), msg).Success? <==> msg == [])
    ensures !r.streamsReady ==> GetReceivedMessages(Close(r)) == Failure(NotConnected)
    ensures !r.streamsReady ==> SendMessage(Close(r), msg) == Failure(NotConnected)
  {
  }

  /**
   * A second `connect` without `close` fails to bind the port its own server socket
   * still holds; after `close` it can connect again.
   */
  lemma ConnectOnce(r: Receiver, bound: bool, accepted: bool)
    requires r.port != 0 && Connect(r, true, true).1.Pass?
    ensures
      var up := Connect(r, true, true).0;
      && Connect(up, bound, accepted) == (up, Fail(BindFailed))
      && Connect(Close(up), true, true).1.Pass?
  {
  }

  /**
   * A reconnection drops what the old connection left unread, but a message partly
   * read on it is completed by the new connection's first characters.
   */
  lemma ReconnectJoinsPartial(r: Receiver, x: string)
    requires !PortHeld(r) && SepFree(x) && |x| + 1 <= r.framer.chunkSize
    ensures
      var up := PeerSends(Connect(r, true, true).0, x + [SEP]);
      && GetReceivedMessages(up).Success?
      && GetReceivedMessages(up).value.0 == [r.framer.partial + x]
      && GetReceivedMessages(up).value.1.framer == Framer([], r.framer.chunkSize)
      && GetReceivedMessages(up).value.1.inbound == []
  {
    var up := PeerSends(Connect(r, true, true).0, x + [SEP]);
    assert up.inbound == x + [SEP] + [];
    CompletingRead(r.framer, x, []);
  }

  /** A reply is seen by the peer exactly as written, separator included only if the caller put it there. */
  lemma ReplyVerbatim(port: int, a: string, b: string)
    ensures
      var r := Connect(NewReceiver(port), true, true).0;
      var r1 := SendMessage(r, a).value;
      var r2 := SendMessage(r1, b).value;
      r1.outbound == a && r2.outbound == a + b
  {
    assert [] + a == a;
  }

  // ---------------------------------------------------------------------------
  // The call-by-call trace of the receiver's first test (chunk size 5)

  /** A four-character message read whole with nothing carried over: one call, one message. */
  lemma SegmentShort(x: string, rest: string, n: nat)
    requires SepFree(x) && |x| == 4
    ensures Drain(Framer([], 5), x + [SEP] + rest, n + 1) == [[x]] + Drain(Framer([], 5), rest, n)
  {
    CompletingRead(Framer([], 5), x, rest);
    assert [] + x == x;
    DrainStep(Framer([], 5), x + [SEP] + rest, n, [x], Framer([], 5), rest);
  }

  /** The read `¬y¬` after ten carried-over characters completes them and `y`. */
  lemma CompletesTwo(a: string, y: string, rest: string)
    requires SepFree(a) && SepFree(y)
    requires |y| == 3 || (|y| <= 3 && rest == [])
    ensures Receive(Framer(a, 5), [SEP] + y + [SEP] + rest) == ([a, y], Framer([], 5), rest)
  {
    var chunk := [SEP] + y + [SEP];
    var s := chunk + rest;
    assert s[..|chunk|] == chunk && s[|chunk|..] == rest;
    assert Encode([a, y]) == a + [SEP] + (y + [SEP] + Encode([])) by {
      assert Encode([a, y]) == a + [SEP] + Encode([y]);
      assert [a, y][1..] == [y];
    }
    assert a + chunk == Encode([a, y]) + [];
    assert AllSepFree([a, y]) by {
      assert forall i | 0 <= i < 2 :: [a, y][i] == a || [a, y][i] == y;
    }
    PullUnique(a, chunk, [a, y], []);
  }

  /** `a`, `b`, `¬y¬`: two calls return nothing, the third returns `a b` and `y`. */
  lemma SegmentLong(a: string, b: string, y: string, rest: string, n: nat)
    requires SepFree(a) && SepFree(b) && SepFree(y) && |a| == 5 && |b| == 5
    requires |y| == 3 || (|y| <= 3 && rest == [])
    ensures Drain(Framer([], 5), a + (b + ([SEP] + y + [SEP] + rest)), n + 3)
         == [[], [], [a + b, y]] + Drain(Framer([], 5), rest, n)
  {
    var t2 := [SEP] + y + [SEP] + rest;
    var t1 := b + t2;
    FullChunkNoSep(Framer([], 5), a, t1);
    assert [] + a == a;
    FullChunkNoSep(Framer(a, 5), b, t2);
    CompletesTwo(a + b, y, rest);
    DrainStep(Framer(a + b, 5), t2, n, [a + b, y], Framer([], 5), rest);
    DrainStep(Framer(a, 5), t1, n + 1, [], Framer(a + b, 5), t2);
    DrainStep(Framer([], 5), a + t1, n + 2, [], Framer(a, 5), t1);
    var tail := Drain(Framer([], 5), rest, n);
    var last: seq<string> := [a + b, y];
    assert [[]] + ([[]] + ([last] + tail)) == [[], [], last] + tail;
  }

  /** `a`, `x¬`: one call returns nothing, the next the nine characters `a x`. */
  lemma SegmentNine(a: string, x: string, rest: string, n: nat)
    requires SepFree(a) && SepFree(x) && |a| == 5 && |x| == 4
    ensures Drain(Framer([], 5), a + (x + [SEP] + rest), n + 2)
         == [[], [a + x]] + Drain(Framer([], 5), rest, n)
  {
    var t1 := x + [SEP] + rest;
    FullChunkNoSep(Framer([], 5), a, t1);
    assert [] + a == a;
    CompletingRead(Framer(a, 5), x, rest);
    DrainStep(Framer(a, 5), t1, n, [a + x], Framer([], 5), rest);
    DrainStep(Framer([], 5), a + t1, n + 1, [], Framer(a, 5), t1);
    var tail := Drain(Framer([], 5), rest, n);
    assert [[]] + ([[a + x]] + tail) == [[], [a + x]] + tail;
  }

  /** The first five calls of the chunk-size-5 trace, whatever follows. */
  lemma TraceFront(x: string, a: string, b: string, y: string, rest: string, n: nat)
    requires SepFree(x) && SepFree(a) && SepFree(b) && SepFree(y)
    requires |x| == 4 && |a| == 5 && |b| == 5 && |y| == 3
    ensures Drain(Framer([], 5), x + [SEP] + (x + [SEP] + (a + (b + ([SEP] + y + [SEP] + rest)))), n + 5)
         == [[x], [x], [], [], [a + b, y]] + Drain(Framer([], 5), rest, n)
  {
    var t2 := a + (b + ([SEP] + y + [SEP] + rest));
    var t1 := x + [SEP] + t2;
    var tail := Drain(Framer([], 5), rest, n);
    var long: seq<seq<string>> := [[], [], [a + b, y]];
    SegmentLong(a, b, y, rest, n);
    assert Drain(Framer([], 5), t2, n + 3) == long + tail;
    SegmentShort(x, t2, n + 3);
    assert Drain(Framer([], 5), t1, n + 4) == [[x]] + (long + tail);
    SegmentShort(x, t1, n + 4);
    RegroupCalls([[x]], [[x]], long, tail);
    assert [[x]] + [[x]] + long == [[x], [x], [], [], [a + b, y]];
  }

  /** The last six calls of the chunk-size-5 trace, whatever follows. */
  lemma TraceBack(x: string, a: string, b: string, i: string, k: string, rest: string, n: nat)
    requires SepFree(x) && SepFree(a) && SepFree(b) && SepFree(i) && SepFree(k)
    requires |x| == 4 && |a| == 5 && |b| == 5 && |i| == 4
    requires |k| == 3 || (|k| <= 3 && rest == [])
    ensures Drain(Framer([], 5), a + (i + [SEP] + (x + [SEP] + (a + (b + ([SEP] + k + [SEP] + rest))))), n + 6)
         == [[], [a + i], [x], [], [], [a + b, k]] + Drain(Framer([], 5), rest, n)
  {
    var t8 := a + (b + ([SEP] + k + [SEP] + rest));
    var t7 := x + [SEP] + t8;
    var tail := Drain(Framer([], 5), rest, n);
    var nine: seq<seq<string>> := [[], [a + i]];
    var last: seq<seq<string>> := [[], [], [a + b, k]];
    SegmentLong(a, b, k, rest, n);
    assert Drain(Framer([], 5), t8, n + 3) == last + tail;
    SegmentShort(x, t8, n + 3);
    assert Drain(Framer([], 5), t7, n + 4) == [[x]] + (last + tail);
    SegmentNine(a, i, t7, n + 4);
    RegroupCalls(nine, [[x]], last, tail);
    assert nine + [[x]] + last == [[], [a + i], [x], [], [], [a + b, k]];
  }

  lemma RegroupCalls<T>(a: seq<T>, b: seq<T>, c: seq<T>, d: seq<T>)
    ensures a + (b + (c + d)) == (a + b + c) + d
  {
  }

  /** The last six calls of the chunk-size-5 trace, ending the stream. */
  lemma TraceBackEnds(x: string, a: string, b: string, i: string, k: string, calls: nat)
    requires SepFree(x) && SepFree(a) && SepFree(b) && SepFree(i) && SepFree(k)
    requires |x| == 4 && |a| == 5 && |b| == 5 && |i| == 4 && |k| <= 3 && calls == 6
    ensures Drain(Framer([], 5), a + (i + [SEP] + (x + [SEP] + (a + (b + ([SEP] + k + [SEP] + []))))), calls)
         == [[], [a + i], [x], [], [], [a + b, k]]
  {
    TraceBack(x, a, b, i, k, [], 0);
    assert Drain(Framer([], 5), [], 0) == [];
    var back: seq<seq<string>> := [[], [a + i], [x], [], [], [a + b, k]];
    assert back + [] == back;
  }

  /** The whole chunk-size-5 trace, for any pieces of the right lengths. */
  lemma FiveShape(stream: string, back: string, x: string, a: string, b: string, y: string, i: string, k: string)
    requires SepFree(x) && SepFree(a) && SepFree(b) && SepFree(y) && SepFree(i) && SepFree(k)
    requires |x| == 4 && |a| == 5 && |b| == 5 && |y| == 3 && |i| == 4 && |k| <= 3
    requires back == a + (i + [SEP] + (x + [SEP] + (a + (b + ([SEP] + k + [SEP] + [])))))
    requires stream == x + [SEP] + (x + [SEP] + (a + (b + ([SEP] + y + [SEP] + back))))
    ensures Drain(Framer([], 5), stream, 11)
         == [[x], [x], [], [], [a + b, y]] + [[], [a + i], [x], [], [], [a + b, k]]
  {
    TraceBackEnds(x, a, b, i, k, 6);
    TraceFront(x, a, b, y, back, 6);
  }

  lemma FiveStreamHalves()
    ensures "abcd¬abcd¬abcdefghij¬abc¬abcdefghi¬abcd¬abcdefghij¬k¬"
         == "abcd¬abcd¬abcdefghij¬abc¬" + "abcdefghi¬abcd¬abcdefghij¬k¬"
  {
  }

  lemma FiveStreamFront()
    ensures "abcd" + [SEP] + ("abcd" + [SEP] + ("abcde" + ("fghij" + ([SEP] + "abc" + [SEP]))))
         == "abcd¬abcd¬abcdefghij¬abc¬"
  {
  }

  lemma FiveStreamBack()
    ensures "abcde" + ("fghi" + [SEP] + ("abcd" + [SEP] + ("abcde" + ("fghij" + ([SEP] + "k" + [SEP] + [])))))
         == "abcdefghi¬abcd¬abcdefghij¬k¬"
  {
  }

  lemma FiveStream()
    ensures "abcd¬abcd¬abcdefghij¬abc¬abcdefghi¬abcd¬abcdefghij¬k¬"
         == "abcd" + [SEP] + ("abcd" + [SEP] + ("abcde" + ("fghij" + ([SEP] + "abc" + [SEP]
      + ("abcde" + ("fghi" + [SEP] + ("abcd" + [SEP] + ("abcde" + ("fghij" + ([SEP] + "k" + [SEP] + []))))))))))
  {
    FiveStreamHalves();
    FiveStreamFront();
    FiveStreamBack();
    var f, b := "abcd¬abcd¬abcdefghij¬abc¬", "abcdefghi¬abcd¬abcdefghij¬k¬";
    assert "abcd" + [SEP] + ("abcd" + [SEP] + ("abcde" + ("fghij" + ([SEP] + "abc" + [SEP] + b))))
        == ("abcd" + [SEP] + ("abcd" + [SEP] + ("abcde" + ("fghij" + ([SEP] + "abc" + [SEP]))))) + b;
  }

  lemma FiveTraceMessages()
    ensures [["abcd"], ["abcd"], [], [], ["abcde" + "fghij", "abc"]]
          + [[], ["abcde" + "fghi"], ["abcd"], [], [], ["abcde" + "fghij", "k"]]
         == [["abcd"], ["abcd"], [], [], ["abcdefghij", "abc"], [], ["abcdefghi"], ["abcd"], [], [],
             ["abcdefghij", "k"]]
  {
    assert "abcde" + "fghij" == "abcdefghij";
    assert "abcde" + "fghi" == "abcdefghi";
  }

  /**
   * Chunk size 5 on `abcd¬abcd¬abcdefghij¬abc¬abcdefghi¬abcd¬abcdefghij¬k¬`: the
   * calls return `[abcd]`, `[abcd]`, `[]`, `[]`, `[abcdefghij, abc]`, `[]`,
   * `[abcdefghi]`, `[abcd]`, `[]`, `[]`, `[abcdefghij, k]`.
   */
  lemma ChunkSizeFiveTrace(stream: string)
    requires stream == "abcd¬abcd¬abcdefghij¬abc¬abcdefghi¬abcd¬abcdefghij¬k¬"
    ensures Drain(Framer([], 5), stream, 11)
         == [["abcd"], ["abcd"], [], [], ["abcdefghij", "abc"], [], ["abcdefghi"], ["abcd"], [], [],
             ["abcdefghij", "k"]]
  {
    FiveStream();
    var back := "abcde" + ("fghi" + [SEP] + ("abcd" + [SEP] + ("abcde" + ("fghij" + ([SEP] + "k" + [SEP] + [])))));
    FiveShape(stream, back, "abcd", "abcde", "fghij", "abc", "fghi", "k");
    FiveTraceMessages();
  }

  /**
   * Chunk size 10: `abcd¬` gives `[abcd]`; after the peer then sends `abcd¬ef¬`, one
   * call returns both messages.
   */
  lemma ChunkSizeTenTwoMessages(port: int)
    ensures
      var r0 := PeerSends(Connect(NewReceiverWithSize(port, 10), true, true).0, "abcd¬");
      var first := GetReceivedMessages(r0);
      && first.Success? && first.value.0 == ["abcd"]
      && var r1 := PeerSends(first.value.1, "abcd¬ef¬");
         GetReceivedMessages(r1).Success? && GetReceivedMessages(r1).value.0 == ["abcd", "ef"]
  {
    assert "abcd¬" == "abcd" + [SEP];
    assert "abcd¬ef¬" == "abcd" + [SEP] + "ef" + [SEP] + [];
    OneThenTwo(port, 10, "abcd", "abcd", "ef");
  }

  /**
   * With room for each whole reply in one read, `a¬` gives `[a]` and a later
   * `b¬c¬` gives `[b, c]`.
   */
  lemma OneThenTwo(port: int, n: nat, a: string, b: string, c: string)
    requires SepFree(a) && SepFree(b) && SepFree(c)
    requires |a| + 1 <= n && |b| + |c| + 2 <= n
    ensures
      var r0 := PeerSends(Connect(NewReceiverWithSize(port, n), true, true).0, a + [SEP]);
      var first := GetReceivedMessages(r0);
      && first.Success? && first.value.0 == [a]
      && var r1 := PeerSends(first.value.1, b + [SEP] + c + [SEP] + []);
         GetReceivedMessages(r1).Success? && GetReceivedMessages(r1).value.0 == [b, c]
  {
    var r0 := PeerSends(Connect(NewReceiverWithSize(port, n), true, true).0, a + [SEP]);
    assert r0.framer == Framer([], n) && r0.inbound == a + [SEP] + [];
    CompletingRead(Framer([], n), a, []);
    assert [] + a == a;
    var r1 := PeerSends(GetReceivedMessages(r0).value.1, b + [SEP] + c + [SEP] + []);
    assert r1.framer == Framer([], n) && r1.inbound == b + [SEP] + c + [SEP] + [];
    TwoMessagesRead(n, b, c, [], []);
  }
}
