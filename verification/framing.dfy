/**
 * The wire format shared by every endpoint: each message is its text followed by
 * one separator character, with no length prefix and no escaping. `Scan` is the
 * character loop of `HoogasMessageReader.getReceivedMessages` (and of its copy in
 * `MessageReceiver`) written as a recursive function.
 */
module Framing {

  /** The message separator character, `Constants.MSG_SEPARATOR_CHAR`. */
  const SEP: char := '¬'

  /** True when `s` holds no separator: the only texts the protocol can carry intact. */
  predicate SepFree(s: string) {
    forall i :: 0 <= i < |s| ==> s[i] != SEP
  }

  predicate AllSepFree(ms: seq<string>) {
    forall i :: 0 <= i < |ms| ==> SepFree(ms[i])
  }

  /** The number of separators in `s`. */
  function CountSep(s: string): nat {
    if s == [] then 0 else (if s[0] == SEP then 1 else 0) + CountSep(s[1..])
  }

  /** The characters a writer puts on the wire for `ms`, each message followed by SEP. */
  function Encode(ms: seq<string>): string {
    if ms == [] then [] else ms[0] + [SEP] + Encode(ms[1..])
  }

  /**
   * Scans `s` left to right with accumulator `acc`: each separator completes the
   * accumulated message; the characters after the last separator are the new
   * partial message. Returns (completed messages, new partial message).
   */
  function Scan(acc: string, s: string): (seq<string>, string)
    decreases |s|
  {
    if s == [] then ([], acc)
    else if s[0] == SEP then
      var r := Scan([], s[1..]);
      ([acc] + r.0, r.1)
    else Scan(acc + [s[0]], s[1..])
  }

  /**
   * One read of the framer: the carried-over partial message and the chunk just
   * read give the completed messages and the partial message to carry over.
   */
  function Pull(partial: string, chunk: string): (seq<string>, string)
  {
    Scan(partial, chunk)
  }

  /** Reads chunk after chunk, carrying the partial message from one read to the next. */
  function PullAll(partial: string, chunks: seq<string>): (seq<string>, string)
    decreases |chunks|
  {
    if chunks == [] then ([], partial)
    else
      var first := Pull(partial, chunks[0]);
      var rest := PullAll(first.1, chunks[1..]);
      (first.0 + rest.0, rest.1)
  }

  function Flatten(chunks: seq<string>): string {
    if chunks == [] then [] else chunks[0] + Flatten(chunks[1..])
  }

  // ---------------------------------------------------------------------------
  // Facts about Encode and Flatten

  lemma {:induction false} EncodeAppend(a: seq<string>, b: seq<string>)
    ensures Encode(a + b) == Encode(a) + Encode(b)
    decreases |a|
  {
    if a == [] {
      assert a + b == b;
    } else {
      assert (a + b)[1..] == a[1..] + b;
      EncodeAppend(a[1..], b);
    }
  }

  lemma {:induction false} FlattenAppend(a: seq<string>, b: seq<string>)
    ensures Flatten(a + b) == Flatten(a) + Flatten(b)
    decreases |a|
  {
    if a == [] {
      assert a + b == b;
    } else {
      assert (a + b)[1..] == a[1..] + b;
      FlattenAppend(a[1..], b);
    }
  }

  lemma {:induction false} CountSepAppend(a: string, b: string)
    ensures CountSep(a + b) == CountSep(a) + CountSep(b)
    decreases |a|
  {
    if a == [] {
      assert a + b == b;
    } else {
      assert (a + b)[1..] == a[1..] + b;
      CountSepAppend(a[1..], b);
    }
  }

  /** CountSep counts exactly the positions holding SEP; zero means SEP-free. */
  lemma {:induction false} CountSepZero(s: string)
    ensures CountSep(s) == 0 <==> SepFree(s)
    decreases |s|
  {
    if s != [] {
      CountSepZero(s[1..]);
      if SepFree(s[1..]) && s[0] != SEP {
        forall i | 0 <= i < |s| ensures s[i] != SEP {
          if i > 0 { assert s[i] == s[1..][i - 1]; }
        }
      }
      if SepFree(s) {
        forall i | 0 <= i < |s[1..]| ensures s[1..][i] != SEP {
          assert s[1..][i] == s[i + 1];
        }
      }
    }
  }

  // ---------------------------------------------------------------------------
  // The framer's invariants

  /** Everything scanned is accounted for: completed messages plus the new partial. */
  lemma {:induction false} ScanConcat(acc: string, s: string)
    ensures acc + s == Encode(Scan(acc, s).0) + Scan(acc, s).1
    decreases |s|
  {
    if s == [] {
      assert acc + s == acc;
    } else if s[0] == SEP {
      ScanConcat([], s[1..]);
      ScanConcatSepStep(acc, s);
    } else {
      ScanConcat(acc + [s[0]], s[1..]);
      assert acc + s == (acc + [s[0]]) + s[1..] by {
        assert s == [s[0]] + s[1..];
      }
    }
  }

  /** The separator step of ScanConcat, given the fact for the rest of the text. */
  lemma ScanConcatSepStep(acc: string, s: string)
    requires s != [] && s[0] == SEP
    requires s[1..] == Encode(Scan([], s[1..]).0) + Scan([], s[1..]).1
    ensures acc + s == Encode(Scan(acc, s).0) + Scan(acc, s).1
  {
    var r := Scan([], s[1..]);
    assert Scan(acc, s) == ([acc] + r.0, r.1);
    EncodeCons(acc, r.0);
    Regroup(acc, s, Encode(r.0), r.1);
  }

  lemma Regroup(acc: string, s: string, e: string, t: string)
    requires s != [] && s[0] == SEP && s[1..] == e + t
    ensures acc + s == (acc + [SEP] + e) + t
  {
    assert s == [SEP] + s[1..];
  }

  lemma EncodeCons(m: string, ms: seq<string>)
    ensures Encode([m] + ms) == m + [SEP] + Encode(ms)
  {
    assert ([m] + ms)[0] == m;
    assert ([m] + ms)[1..] == ms;
  }

  /** One completed message per separator in the scanned text. */
  lemma {:induction false} ScanCount(acc: string, s: string)
    ensures |Scan(acc, s).0| == CountSep(s)
    decreases |s|
  {
    if s != [] {
      if s[0] == SEP {
        ScanCount([], s[1..]);
      } else {
        ScanCount(acc + [s[0]], s[1..]);
      }
    }
  }

  /** Scanning a separator-free prefix only extends the accumulator. */
  lemma {:induction false} ScanShift(acc: string, x: string, s: string)
    requires SepFree(x)
    ensures Scan(acc, x + s) == Scan(acc + x, s)
    decreases |x|
  {
    if x == [] {
      assert x + s == s;
      assert acc + x == acc;
    } else {
      assert (x + s)[0] == x[0];
      assert (x + s)[1..] == x[1..] + s;
      assert SepFree(x[1..]) by {
        forall i | 0 <= i < |x[1..]| ensures x[1..][i] != SEP {
          assert x[1..][i] == x[i + 1];
        }
      }
      ScanShift(acc + [x[0]], x[1..], s);
      assert acc + [x[0]] + x[1..] == acc + x;
    }
  }

  /**
   * The framer inverts the writer: a well-formed stream (SEP-free messages, each
   * terminated, then a SEP-free tail) scans back to exactly those messages and tail.
   */
  lemma {:induction false} ScanEncode(ms: seq<string>, r: string)
    requires AllSepFree(ms) && SepFree(r)
    ensures Scan([], Encode(ms) + r) == (ms, r)
    decreases |ms|
  {
    if ms == [] {
      assert Encode(ms) + r == r + [];
      ScanShift([], r, []);
      assert [] + r == r;
    } else {
      var m := ms[0];
      var tail := Encode(ms[1..]) + r;
      assert Encode(ms) + r == m + ([SEP] + tail);
      ScanShift([], m, [SEP] + tail);
      assert ([SEP] + tail)[1..] == tail;
      assert AllSepFree(ms[1..]) by {
        forall i | 0 <= i < |ms[1..]| ensures SepFree(ms[1..][i]) {
          assert ms[1..][i] == ms[i + 1];
        }
      }
      ScanEncode(ms[1..], r);
      assert [] + m == m;
      assert [m] + ms[1..] == ms;
    }
  }

  /** With a SEP-free accumulator, the scan depends only on the whole text. */
  lemma ScanFromEmpty(acc: string, s: string)
    requires SepFree(acc)
    ensures Scan(acc, s) == Scan([], acc + s)
  {
    ScanShift([], acc, s);
    assert [] + acc == acc;
  }

  /** A SEP-free accumulator yields SEP-free messages and a SEP-free new partial. */
  lemma {:induction false} ScanSepFree(acc: string, s: string)
    requires SepFree(acc)
    ensures AllSepFree(Scan(acc, s).0) && SepFree(Scan(acc, s).1)
    decreases |s|
  {
    if s != [] {
      if s[0] == SEP {
        ScanSepFree([], s[1..]);
        var (ms, rest) := Scan([], s[1..]);
        assert Scan(acc, s).0 == [acc] + ms;
        forall i | 0 <= i < |[acc] + ms| ensures SepFree(([acc] + ms)[i]) {
          if i > 0 { assert ([acc] + ms)[i] == ms[i - 1]; }
        }
      } else {
        assert SepFree(acc + [s[0]]) by {
          forall i | 0 <= i < |acc + [s[0]]| ensures (acc + [s[0]])[i] != SEP {
            if i < |acc| { assert (acc + [s[0]])[i] == acc[i]; }
          }
        }
        ScanSepFree(acc + [s[0]], s[1..]);
      }
    }
  }

  /** A chunk whose last character is SEP leaves no partial message. */
  lemma {:induction false} ScanEndsOnSep(acc: string, s: string)
    requires s != [] && s[|s| - 1] == SEP
    ensures Scan(acc, s).1 == []
    decreases |s|
  {
    if |s| == 1 {
      assert s[0] == SEP;
      assert s[1..] == [];
    } else if s[0] == SEP {
      assert s[1..][|s[1..]| - 1] == SEP;
      ScanEndsOnSep([], s[1..]);
    } else {
      assert s[1..][|s[1..]| - 1] == SEP;
      ScanEndsOnSep(acc + [s[0]], s[1..]);
    }
  }

  // ---------------------------------------------------------------------------
  // Properties of one read

  /**
   * Concatenation and counting: the old partial and the chunk are exactly the
   * returned messages, each followed by SEP, then the new partial; and there is one
   * message per separator in the chunk.
   */
  lemma PullConcat(partial: string, chunk: string)
    ensures partial + chunk == Encode(Pull(partial, chunk).0) + Pull(partial, chunk).1
    ensures |Pull(partial, chunk).0| == CountSep(chunk)
  {
    ScanConcat(partial, chunk);
    ScanCount(partial, chunk);
  }

  /**
   * Uniqueness: with a SEP-free partial message, Pull returns the one decomposition
   * of `partial + chunk` into SEP-free terminated messages and a SEP-free tail.
   */
  lemma PullUnique(partial: string, chunk: string, ms: seq<string>, r: string)
    requires SepFree(partial) && AllSepFree(ms) && SepFree(r)
    requires partial + chunk == Encode(ms) + r
    ensures Pull(partial, chunk) == (ms, r)
  {
    ScanFromEmpty(partial, chunk);
    ScanEncode(ms, r);
  }

  /** No returned message and no carried-over partial contains the separator. */
  lemma PullSepFree(partial: string, chunk: string)
    requires SepFree(partial)
    ensures AllSepFree(Pull(partial, chunk).0) && SepFree(Pull(partial, chunk).1)
  {
    ScanSepFree(partial, chunk);
  }

  /** A chunk ending on the separator leaves the partial buffer empty. */
  lemma PullEndsOnSep(partial: string, chunk: string)
    requires chunk != [] && chunk[|chunk| - 1] == SEP
    ensures Pull(partial, chunk).1 == []
  {
    ScanEndsOnSep(partial, chunk);
  }

  /** A chunk with no separator returns nothing and extends the partial by the whole chunk. */
  lemma PullNoSep(partial: string, chunk: string)
    requires SepFree(chunk)
    ensures Pull(partial, chunk) == ([], partial + chunk)
  {
    ScanShift(partial, chunk, []);
    assert chunk + [] == chunk;
  }

  /** A chunk that completes the partial message with its separator returns it whole. */
  lemma PullCompletes(partial: string, x: string)
    requires SepFree(x)
    ensures Pull(partial, x + [SEP]) == ([partial + x], [])
  {
    ScanShift(partial, x, [SEP]);
    assert [SEP][0] == SEP && [SEP][1..] == [];
    var a := partial + x;
    assert Scan([], []) == ([], []);
    assert [a] + [] == [a];
    assert Scan(a, [SEP]) == ([a] + Scan([], [SEP][1..]).0, Scan([], [SEP][1..]).1);
  }

  /**
   * A message split by a chunk boundary: the first read returns nothing for it and
   * the read that brings its separator returns it whole.
   */
  lemma SplitMessage(m: string, k: nat)
    requires SepFree(m) && k < |m|
    ensures Pull([], m[..k]) == ([], m[..k])
    ensures Pull(m[..k], m[k..] + [SEP]) == ([m], [])
  {
    assert SepFree(m[..k]) by {
      forall i | 0 <= i < k ensures m[..k][i] != SEP {
        assert m[..k][i] == m[i];
      }
    }
    PullNoSep([], m[..k]);
    assert [] + m[..k] == m[..k];
    assert m[..k] + (m[k..] + [SEP]) == Encode([m]) + [];
    assert AllSepFree([m]);
    PullUnique(m[..k], m[k..] + [SEP], [m], []);
  }

  // ---------------------------------------------------------------------------
  // Properties of a sequence of reads

  /** The concatenation and SEP-freedom invariants hold across any number of reads. */
  lemma {:induction false} PullAllConcat(partial: string, chunks: seq<string>)
    requires SepFree(partial)
    ensures partial + Flatten(chunks) == Encode(PullAll(partial, chunks).0) + PullAll(partial, chunks).1
    ensures AllSepFree(PullAll(partial, chunks).0) && SepFree(PullAll(partial, chunks).1)
    decreases |chunks|
  {
    if chunks == [] {
      assert partial + Flatten(chunks) == partial;
    } else {
      var p := Pull(partial, chunks[0]).1;
      PullSepFree(partial, chunks[0]);
      PullAllConcat(p, chunks[1..]);
      PullAllStep(partial, chunks);
    }
  }

  /** The inductive step of PullAllConcat, given the facts for the remaining chunks. */
  lemma PullAllStep(partial: string, chunks: seq<string>)
    requires chunks != []
    requires AllSepFree(Pull(partial, chunks[0]).0)
    requires
      var p := Pull(partial, chunks[0]).1;
      && p + Flatten(chunks[1..]) == Encode(PullAll(p, chunks[1..]).0) + PullAll(p, chunks[1..]).1
      && AllSepFree(PullAll(p, chunks[1..]).0) && SepFree(PullAll(p, chunks[1..]).1)
    ensures partial + Flatten(chunks) == Encode(PullAll(partial, chunks).0) + PullAll(partial, chunks).1
    ensures AllSepFree(PullAll(partial, chunks).0) && SepFree(PullAll(partial, chunks).1)
  {
    var ms := Pull(partial, chunks[0]).0;
    var p := Pull(partial, chunks[0]).1;
    var ms' := PullAll(p, chunks[1..]).0;
    var p' := PullAll(p, chunks[1..]).1;
    assert PullAll(partial, chunks) == (ms + ms', p');
    assert Flatten(chunks) == chunks[0] + Flatten(chunks[1..]);
    PullConcat(partial, chunks[0]);
    ConcatStep(partial, chunks[0], Flatten(chunks[1..]), ms, p, ms', p');
    AllSepFreeAppend(ms, ms');
  }

  lemma ConcatStep(partial: string, chunk: string, later: string,
                   ms: seq<string>, p: string, ms': seq<string>, p': string)
    requires partial + chunk == Encode(ms) + p
    requires p + later == Encode(ms') + p'
    ensures partial + (chunk + later) == Encode(ms + ms') + p'
  {
    EncodeAppend(ms, ms');
    calc {
      partial + (chunk + later);
      (partial + chunk) + later;
      (Encode(ms) + p) + later;
      Encode(ms) + (p + later);
      Encode(ms) + (Encode(ms') + p');
      Encode(ms + ms') + p';
    }
  }

  lemma AllSepFreeAppend(a: seq<string>, b: seq<string>)
    requires AllSepFree(a) && AllSepFree(b)
    ensures AllSepFree(a + b)
  {
    forall i | 0 <= i < |a + b| ensures SepFree((a + b)[i]) {
      if i < |a| { assert (a + b)[i] == a[i]; }
      else { assert (a + b)[i] == b[i - |a|]; }
    }
  }

  /**
   * Round trip: SEP-free messages written one after another and read back in any
   * partition into chunks come back exactly, in order, with nothing left over.
   */
  lemma FramingRoundTrip(msgs: seq<string>, chunks: seq<string>)
    requires AllSepFree(msgs)
    requires Flatten(chunks) == Encode(msgs)
    ensures PullAll([], chunks) == (msgs, [])
  {
    PullAllConcat([], chunks);
    var ms := PullAll([], chunks).0;
    var r := PullAll([], chunks).1;
    assert Encode(ms) + r == Encode(msgs) + [] by {
      assert [] + Flatten(chunks) == Flatten(chunks);
      assert Encode(msgs) + [] == Encode(msgs);
    }
    ScanEncode(ms, r);
    ScanEncode(msgs, []);
  }

  // ---------------------------------------------------------------------------
  // Reading only the start of what was written

  /** Reading chunk after chunk frames exactly what one scan of everything read frames. */
  lemma PullAllIsScan(chunks: seq<string>)
    ensures PullAll([], chunks) == Scan([], Flatten(chunks))
  {
    PullAllConcat([], chunks);
    var r := PullAll([], chunks);
    assert [] + Flatten(chunks) == Flatten(chunks);
    ScanEncode(r.0, r.1);
  }

  lemma AllSepFreeTail(xs: seq<string>)
    requires AllSepFree(xs) && xs != []
    ensures AllSepFree(xs[1..])
  {
    forall i | 0 <= i < |xs[1..]| ensures SepFree(xs[1..][i]) {
      assert xs[1..][i] == xs[i + 1];
    }
  }

  /**
   * A reader that receives only the start of a framed sequence of messages frames a
   * prefix of them, and its partial message is the start of the next one.
   */
  lemma {:induction false} ScanPrefix(xs: seq<string>, p: string)
    requires AllSepFree(xs) && p <= Encode(xs)
    ensures Scan([], p).0 <= xs
    ensures |Scan([], p).0| < |xs| ==> Scan([], p).1 <= xs[|Scan([], p).0|]
    ensures |Scan([], p).0| == |xs| ==> Scan([], p).1 == []
    decreases |xs|
  {
    if xs == [] {
      assert p == [];
    } else {
      var x := xs[0];
      var rest := Encode(xs[1..]);
      assert Encode(xs) == x + ([SEP] + rest);
      assert SepFree(x);
      if |p| <= |x| {
        assert p == x[..|p|];
        assert SepFree(p) by {
          forall i | 0 <= i < |p| ensures p[i] != SEP {
            assert p[i] == x[i];
          }
        }
        ScanShift([], p, []);
        assert p + [] == p;
        assert [] + p == p;
        assert Scan([], p) == ([], p);
      } else {
        assert p[|x|] == SEP;
        var p' := p[|x| + 1..];
        assert p == x + ([SEP] + p');
        assert p' <= rest;
        AllSepFreeTail(xs);
        ScanPrefix(xs[1..], p');
        ScanShift([], x, [SEP] + p');
        assert ([SEP] + p')[1..] == p';
        assert [] + x == x;
        var r' := Scan([], p');
        assert Scan([], p) == ([x] + r'.0, r'.1);
        assert xs == [x] + xs[1..];
        if |r'.0| < |xs[1..]| {
          assert xs[|[x] + r'.0|] == xs[1..][|r'.0|];
        }
      }
    }
  }

  /**
   * Of a framed sequence of messages, a reader that received the framing of the first
   * `j` whole frames at least those `j`.
   */
  lemma ScanPrefixCovers(xs: seq<string>, p: string, j: nat)
    requires AllSepFree(xs) && p <= Encode(xs)
    requires j <= |xs| && Encode(xs[..j]) <= p
    ensures xs[..j] <= Scan([], p).0
  {
    var ms := Scan([], p).0;
    var q := Scan([], p).1;
    ScanPrefix(xs, p);
    ScanConcat([], p);
    assert [] + p == p;
    if j > |ms| {
      var k := |ms|;
      assert ms == xs[..k];
      assert xs[..j] == ms + xs[k..j];
      EncodeAppend(ms, xs[k..j]);
      assert false;
    }
    assert xs[..j] == ms[..j];
  }
}
