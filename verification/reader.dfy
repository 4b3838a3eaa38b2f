/**
 * `HoogasMessageReader`: a framer over one socket's input stream. Its state is the
 * partially read message carried between calls and the chunk size fixed at
 * construction. The stream is abstracted as the characters currently available to
 * read; `reader.ready()` is "at least one character is available".
 */
module MessageReader {
  import opened Framing

  datatype Framer = Framer(partial: string, chunkSize: nat)

  /** A freshly built reader: nothing carried over. */
  function NewFramer(chunkSize: nat): Framer {
    Framer([], chunkSize)
  }

  /**
   * `reader.read(receivedMsgBuffer, 0, chunkSize)` when everything available can be
   * read: the chunk read and the characters left unread.
   */
  function ReadChunk(available: string, chunkSize: nat): (r: (string, string))
    ensures r.0 + r.1 == available
    ensures |r.0| <= chunkSize
    ensures |r.0| == chunkSize || r.1 == []
  {
    if |available| <= chunkSize then (available, [])
    else (available[..chunkSize], available[chunkSize..])
  }

  /**
   * One call of `getReceivedMessages`: the messages completed by this read, the
   * reader afterwards, and the characters still unread on the stream.
   */
  function Receive(f: Framer, available: string): (seq<string>, Framer, string)
  {
    if available == [] then ([], f, [])
    else
      var chunk := ReadChunk(available, f.chunkSize);
      var pulled := Pull(f.partial, chunk.0);
      (pulled.0, Framer(pulled.1, f.chunkSize), chunk.1)
  }

  /**
   * What one call promises: nothing happens when no data is ready; at most
   * `chunkSize` characters are consumed; the old partial and the consumed
   * characters are exactly the returned messages, each followed by SEP, then the
   * new partial; one message per separator consumed.
   */
  lemma ReceiveProperties(f: Framer, available: string)
    ensures var r := Receive(f, available);
      && (available == [] ==> r == ([], f, []))
      && r.1.chunkSize == f.chunkSize
      && |r.2| <= |available| && |available| - |r.2| <= f.chunkSize
      && available == available[..|available| - |r.2|] + r.2
      && f.partial + available[..|available| - |r.2|] == Encode(r.0) + r.1.partial
      && |r.0| == CountSep(available[..|available| - |r.2|])
  {
    if available != [] {
      var chunk := ReadChunk(available, f.chunkSize);
      assert available[..|available| - |chunk.1|] == chunk.0;
      PullConcat(f.partial, chunk.0);
    }
  }

  /** Nothing is lost or invented across one call: the carried-over text and the input are the messages, the new carry-over and what is left unread. */
  lemma ReceiveAccounts(f: Framer, available: string)
    ensures var r := Receive(f, available);
      && f.partial + available == Encode(r.0) + r.1.partial + r.2
      && r.1.chunkSize == f.chunkSize
  {
    ReceiveProperties(f, available);
    var r := Receive(f, available);
    var consumed := available[..|available| - |r.2|];
    assert f.partial + available == (f.partial + consumed) + r.2;
  }

  /**
   * `getReceivedMessages` as the Java loop writes it, including its special
   * treatment of the last character of the chunk.
   */
  method GetReceivedMessages(f: Framer, available: string)
    returns (msgs: seq<string>, f': Framer, unread: string)
    ensures (msgs, f', unread) == Receive(f, available)
  {
    msgs := [];
    unread := available;
    var newPartial := f.partial;
    if available != [] {
      var read := ReadChunk(available, f.chunkSize);
      var chunk := read.0;
      unread := read.1;
      var n := |chunk|;
      var builder := f.partial;
      var i := 0;
      while i < n
        invariant 0 <= i <= n
        invariant i < n ==> msgs + Scan(builder, chunk[i..]).0 == Scan(f.partial, chunk).0
        invariant i < n ==> Scan(builder, chunk[i..]).1 == Scan(f.partial, chunk).1
        invariant i == n ==> msgs == Scan(f.partial, chunk).0 && newPartial == Scan(f.partial, chunk).1
      {
        var c := chunk[i];
        assert chunk[i..][0] == c && chunk[i..][1..] == chunk[i + 1..];
        if i == n - 1 {
          assert chunk[i + 1..] == [];
          if c != SEP {
            builder := builder + [c];
            newPartial := builder;
          } else {
            newPartial := [];
            msgs := msgs + [builder];
          }
        } else if c == SEP {
          msgs := msgs + [builder];
          builder := [];
        } else {
          builder := builder + [c];
        }
        i := i + 1;
      }
    }
    f' := Framer(newPartial, f.chunkSize);
  }

  /** The messages returned by `calls` successive calls, one list per call. */
  function Drain(f: Framer, available: string, calls: nat): seq<seq<string>>
    decreases calls
  {
    if calls == 0 then []
    else
      var r := Receive(f, available);
      [r.0] + Drain(r.1, r.2, calls - 1)
  }

  /** One call that reads a full chunk holding no separator. */
  lemma ReceiveNoSep(f: Framer, available: string)
    requires f.chunkSize < |available|
    requires SepFree(available[..f.chunkSize])
    ensures Receive(f, available)
         == ([], Framer(f.partial + available[..f.chunkSize], f.chunkSize), available[f.chunkSize..])
  {
    PullNoSep(f.partial, available[..f.chunkSize]);
  }

  /** One more call: the first call's messages, then what the remaining calls return. */
  lemma DrainStep(f: Framer, available: string, calls: nat, first: seq<string>, f': Framer, rest: string)
    requires Receive(f, available) == (first, f', rest)
    ensures Drain(f, available, calls + 1) == [first] + Drain(f', rest, calls)
  {
  }

  /** A full chunk without a separator: nothing returned, the chunk carried over. */
  lemma FullChunkNoSep(f: Framer, x: string, rest: string)
    requires SepFree(x) && |x| == f.chunkSize && x != []
    ensures Receive(f, x + rest) == ([], Framer(f.partial + x, f.chunkSize), rest)
  {
    var a := x + rest;
    assert a[..|x|] == x && a[|x|..] == rest;
    PullNoSep(f.partial, x);
  }

  /** A read that ends exactly on a separator completes one message and carries nothing over. */
  lemma CompletingRead(f: Framer, x: string, rest: string)
    requires SepFree(x)
    requires |x| + 1 == f.chunkSize || (|x| + 1 <= f.chunkSize && rest == [])
    ensures Receive(f, x + [SEP] + rest) == ([f.partial + x], Framer([], f.chunkSize), rest)
  {
    var a := x + [SEP] + rest;
    assert a[..|x| + 1] == x + [SEP] && a[|x| + 1..] == rest;
    PullCompletes(f.partial, x);
  }

  /** A read of `a¬b¬p` from an empty carry-over: two messages, and `p` carried over. */
  lemma TwoMessagesRead(n: nat, a: string, b: string, p: string, rest: string)
    requires SepFree(a) && SepFree(b) && SepFree(p)
    requires |a| + |b| + |p| + 2 == n || (|a| + |b| + |p| + 2 <= n && rest == [])
    ensures Receive(NewFramer(n), a + [SEP] + b + [SEP] + p + rest) == ([a, b], Framer(p, n), rest)
  {
    var head := a + [SEP] + b + [SEP] + p;
    var s0 := head + rest;
    assert s0[..|head|] == head && s0[|head|..] == rest;
    assert Encode([a, b]) == a + [SEP] + (b + [SEP] + Encode([])) by {
      assert Encode([a, b]) == a + [SEP] + Encode([b]);
      assert [a, b][1..] == [b];
    }
    assert [] + head == Encode([a, b]) + p;
    assert AllSepFree([a, b]) by {
      assert forall i | 0 <= i < 2 :: [a, b][i] == a || [a, b][i] == b;
    }
    PullUnique([], head, [a, b], p);
  }

  /**
   * The shape of the documented trace, for any pieces of the right lengths: with
   * chunk size 8, `a¬b¬p` completes two messages and keeps `p`; two full chunks
   * without a separator return nothing; the last read completes `p q r t`.
   */
  lemma DocumentedShape(stream: string, a: string, b: string, p: string, q: string, r: string, t: string)
    requires SepFree(a) && SepFree(b) && SepFree(p) && SepFree(q) && SepFree(r) && SepFree(t)
    requires |a| + |b| + |p| + 2 == 8 && |q| == 8 && |r| == 8 && |t| + 1 <= 8
    requires stream == a + [SEP] + b + [SEP] + p + (q + (r + (t + [SEP])))
    ensures Drain(NewFramer(8), stream, 4) == [[a, b], [], [], [p + q + r + t]]
  {
    var s3 := t + [SEP];
    var s2 := r + s3;
    var s1 := q + s2;
    TwoMessagesRead(8, a, b, p, s1);
    DrainStep(NewFramer(8), a + [SEP] + b + [SEP] + p + s1, 3, [a, b], Framer(p, 8), s1);
    FullChunkNoSep(Framer(p, 8), q, s2);
    DrainStep(Framer(p, 8), s1, 2, [], Framer(p + q, 8), s2);
    FullChunkNoSep(Framer(p + q, 8), r, s3);
    DrainStep(Framer(p + q, 8), s2, 1, [], Framer(p + q + r, 8), s3);
    CompletingRead(Framer(p + q + r, 8), t, []);
    assert s3 + [] == s3;
    DrainStep(Framer(p + q + r, 8), s3, 0, [p + q + r + t], Framer([], 8), []);
  }

  lemma DocumentedMessages()
    ensures [["ab", "cd"], [], [], ["ef" + "ghijklmn" + "oprstuvw" + "xyz"]]
         == [["ab", "cd"], [], [], ["efghijklmnoprstuvwxyz"]]
  {
    assert "ef" + "ghijklmn" + "oprstuvw" + "xyz" == "efghijklmnoprstuvwxyz";
  }

  /**
   * The trace in the reader's documentation: with chunk size 8 the stream
   * `ab¬cd¬efghijklmnoprstuvwxyz¬` yields two messages, then nothing twice, then
   * the third message.
   */
  lemma DocumentedTrace(stream: string)
    requires stream == "ab¬cd¬efghijklmnoprstuvwxyz¬"
    ensures Drain(NewFramer(8), stream, 4) == [["ab", "cd"], [], [], ["efghijklmnoprstuvwxyz"]]
  {
    var a, b, p, q, r, t := "ab", "cd", "ef", "ghijklmn", "oprstuvw", "xyz";
    assert stream == a + [SEP] + b + [SEP] + p + (q + (r + (t + [SEP])));
    DocumentedShape(stream, a, b, p, q, r, t);
    DocumentedMessages();
  }
}
