/**
 * `HoogasMessageWriter`: writes one message followed by the separator, then
 * flushes. The output stream is abstracted as the characters already flushed to the
 * peer (`flushed`) and those accepted but still buffered (`pending`); whether the
 * underlying stream accepts the write is an oracle.
 */
module MessageWriter {
  import opened Wrappers
  import opened Framing

  datatype Stream = Stream(flushed: string, pending: string)

  /** `write` or `flush` threw an `IOException`. */
  datatype WriteError = WriteFailed

  /** `outputStreamWriter.write(text)`: the text is buffered, not yet sent. */
  function Write(st: Stream, text: string): Stream {
    st.(pending := st.pending + text)
  }

  /** `outputStreamWriter.flush()`: everything buffered reaches the peer. */
  function Flush(st: Stream): Stream {
    Stream(st.flushed + st.pending, [])
  }

  /**
   * `doSend(message)`: the message with the separator appended, neither escaped nor
   * checked, written and then flushed. `ok` says whether both calls return normally.
   * When one of them throws, `sent` characters of what was buffered (at most all of
   * it) have already reached the socket: `OutputStreamWriter` hands its buffer on as
   * it fills, and a `flush` can fail after the bytes left. The failure is handed back
   * to the caller; the writer does not retry.
   */
  function DoSend(st: Stream, message: string, ok: bool, sent: nat): (r: (Stream, Outcome<WriteError>))
    ensures r.1.Pass? <==> ok
    ensures r.0.pending == []
    ensures ok ==> r.0.flushed == st.flushed + st.pending + Encode([message])
    ensures !ok ==> st.flushed <= r.0.flushed && r.0.flushed <= st.flushed + st.pending + Encode([message])
    ensures !ok && sent == 0 ==> r.0.flushed == st.flushed
  {
    var out := st.pending + (message + [SEP]);
    assert Encode([message]) == message + [SEP] + Encode([]);
    if ok then (Flush(Write(st, message + [SEP])), Pass)
    else
      var k := if sent < |out| then sent else |out|;
      assert out[..k] <= out;
      (Stream(st.flushed + out[..k], []), Fail(WriteFailed))
  }

  /** Writes every message in turn on a stream that never fails. */
  function SendAll(st: Stream, msgs: seq<string>): Stream
    decreases |msgs|
  {
    if msgs == [] then st
    else SendAll(DoSend(st, msgs[0], true, 0).0, msgs[1..])
  }

  /**
   * Writing a sequence of messages puts exactly their framed concatenation on the
   * wire, with nothing left buffered.
   */
  lemma {:induction false} SendAllEncodes(st: Stream, msgs: seq<string>)
    requires st.pending == []
    ensures SendAll(st, msgs) == Stream(st.flushed + Encode(msgs), [])
    decreases |msgs|
  {
    if msgs != [] {
      var st' := DoSend(st, msgs[0], true, 0).0;
      SendAllEncodes(st', msgs[1..]);
      EncodeAppend([msgs[0]], msgs[1..]);
      assert [msgs[0]] + msgs[1..] == msgs;
    }
  }

  /**
   * What one write puts on the wire, read back by a reader with nothing carried
   * over, is exactly the message, and the reader is left with no partial message.
   */
  lemma WriteThenRead(message: string)
    requires SepFree(message)
    ensures
      var st := DoSend(Stream([], []), message, true, 0).0;
      Pull([], st.flushed) == ([message], [])
  {
    PullCompletes([], message);
    assert [] + message == message;
    assert DoSend(Stream([], []), message, true, 0).0.flushed == message + [SEP];
  }

  /**
   * A message containing the separator is written as it is, so the reader sees one
   * message more than the separators it contains.
   */
  lemma UnescapedMessageSplits(message: string)
    ensures
      var st := DoSend(Stream([], []), message, true, 0).0;
      |Pull([], st.flushed).0| == CountSep(message) + 1
  {
    var st := DoSend(Stream([], []), message, true, 0).0;
    assert st.flushed == message + [SEP];
    PullConcat([], st.flushed);
    CountSepAppend(message, [SEP]);
    assert CountSep([SEP]) == 1 + CountSep([SEP][1..]);
  }

  /**
   * Any sequence of separator-free messages written in turn is read back exactly,
   * in order, however the wire is cut into chunks.
   */
  lemma WriterReaderRoundTrip(msgs: seq<string>, chunks: seq<string>)
    requires AllSepFree(msgs)
    requires Flatten(chunks) == SendAll(Stream([], []), msgs).flushed
    ensures PullAll([], chunks) == (msgs, [])
  {
    SendAllEncodes(Stream([], []), msgs);
    assert [] + Encode(msgs) == Encode(msgs);
    FramingRoundTrip(msgs, chunks);
  }
}
