/**
 * `HoogasClient`: parsing of the public configuration text, validation of the reply
 * to a configuration request, and the one-shot `init` guard. The message directory
 * is abstracted as the successive results of polling it.
 */
module Client {
  import opened Wrappers

  /** `SharedConstants.NEWLINE`, taken as a single line feed. */
  const NL: char := '\n'
  const EQ: char := '='

  // ---------------------------------------------------------------------------
  // Splitting on one character

  /** The position of the first `c` in `s`. */
  function IndexOf(s: string, c: char): (i: nat)
    requires c in s
    ensures i < |s| && s[i] == c && c !in s[..i]
  {
    if s[0] == c then 0
    else
      assert s == [s[0]] + s[1..];
      var j := IndexOf(s[1..], c);
      assert s[..j + 1] == [s[0]] + s[1..][..j];
      j + 1
  }

  /** All the pieces of `s` between occurrences of `c`, empty pieces included. */
  function Fields(s: string, c: char): (r: seq<string>)
    ensures |r| >= 1
    decreases |s|
  {
    if c !in s then [s]
    else
      var i := IndexOf(s, c);
      [s[..i]] + Fields(s[i + 1..], c)
  }

  /** The pieces put back together with `c` between consecutive ones. */
  function Join(fs: seq<string>, c: char): string
    requires |fs| >= 1
  {
    if |fs| == 1 then fs[0] else fs[0] + [c] + Join(fs[1..], c)
  }

  /** Java's `String.split` with no limit: trailing empty pieces are dropped. */
  function StripTrailingEmpty(fs: seq<string>): (r: seq<string>)
    ensures r <= fs
    ensures r == [] || r[|r| - 1] != []
    ensures forall j | |r| <= j < |fs| :: fs[j] == []
  {
    if fs != [] && fs[|fs| - 1] == [] then StripTrailingEmpty(fs[..|fs| - 1]) else fs
  }

  /**
   * `s.split(c)` for a one-character pattern: the whole string when `c` does not
   * occur, otherwise the pieces without the trailing empty ones.
   */
  function JavaSplit(s: string, c: char): seq<string> {
    if c !in s then [s] else StripTrailingEmpty(Fields(s, c))
  }

  /** Splitting then joining gives the string back, and no piece contains `c`. */
  lemma {:induction false} FieldsJoin(s: string, c: char)
    ensures Join(Fields(s, c), c) == s
    ensures forall k | 0 <= k < |Fields(s, c)| :: c !in Fields(s, c)[k]
    decreases |s|
  {
    if c in s {
      var i := IndexOf(s, c);
      FieldsJoin(s[i + 1..], c);
      assert s == s[..i] + [c] + s[i + 1..];
      var r := Fields(s, c);
      assert r[1..] == Fields(s[i + 1..], c);
    }
  }

  lemma IndexOfPrefix(a: string, c: char, b: string)
    requires c !in a
    ensures IndexOf(a + [c] + b, c) == |a|
  {
    var s := a + [c] + b;
    assert s[|a|] == c;
    assert s[..|a|] == a;
  }

  /** Joining pieces free of `c` and splitting again gives the same pieces. */
  lemma {:induction false} JoinFields(fs: seq<string>, c: char)
    requires |fs| >= 1
    requires forall k | 0 <= k < |fs| :: c !in fs[k]
    ensures Fields(Join(fs, c), c) == fs
    decreases |fs|
  {
    if |fs| > 1 {
      var s := Join(fs, c);
      IndexOfPrefix(fs[0], c, Join(fs[1..], c));
      assert s[..|fs[0]|] == fs[0];
      assert s[|fs[0]| + 1..] == Join(fs[1..], c);
      JoinFields(fs[1..], c);
      assert fs == [fs[0]] + fs[1..];
    }
  }

  /** Two pieces split back into exactly those two when the second is not empty. */
  lemma SplitPair(k: string, v: string, c: char)
    requires c !in k && c !in v && v != []
    ensures JavaSplit(k + [c] + v, c) == [k, v]
  {
    assert Join([k, v], c) == k + [c] + Join([v], c);
    JoinFields([k, v], c);
    assert (k + [c] + v)[|k|] == c;
  }

  // ---------------------------------------------------------------------------
  // The configuration text

  /** One property as the server writes it, `key=value`. */
  function Line(p: (string, string)): string {
    p.0 + [EQ] + p.1
  }

  function Lines(props: seq<(string, string)>): (r: seq<string>)
    ensures |r| == |props|
    ensures forall i | 0 <= i < |props| :: r[i] == Line(props[i])
  {
    if props == [] then [] else [Line(props[0])] + Lines(props[1..])
  }

  /**
   * The public configuration text `PublicConfigService.doCheck` sends: each property
   * as `key=value` followed by NEWLINE.
   */
  function Render(props: seq<(string, string)>): string {
    if props == [] then [] else Line(props[0]) + [NL] + Render(props[1..])
  }

  /** The map the properties describe, a later key replacing an earlier one. */
  function ToMap(props: seq<(string, string)>, m: map<string, string>): map<string, string>
    decreases |props|
  {
    if props == [] then m else ToMap(props[1..], m[props[0].0 := props[0].1])
  }

  /** Keys and values as the text format can carry them. */
  predicate Renderable(props: seq<(string, string)>) {
    forall i | 0 <= i < |props| :: EQ !in props[i].0 && NL !in props[i].0 && NL !in props[i].1
  }

  datatype ConfigError =
    | FieldMissing(line: string)       // `split2[1]` (or `split2[0]`) out of bounds
    | NoSeparator(line: string)        // a non-empty line without `=`

  /** `buildConfigMap` as written: every line must split on `=` into at least two pieces. */
  function BuildConfigMap(text: string): Result<map<string, string>, ConfigError> {
    BuildLines(JavaSplit(text, NL), map[])
  }

  function BuildLines(lines: seq<string>, m: map<string, string>): Result<map<string, string>, ConfigError>
    decreases |lines|
  {
    if lines == [] then Success(m)
    else
      var parts := JavaSplit(lines[0], EQ);
      if |parts| < 2 then Failure(FieldMissing(lines[0]))
      else BuildLines(lines[1..], m[parts[0] := parts[1]])
  }

  /**
   * The corrected parse: lines are cut at NEWLINE, empty lines are skipped, and each
   * other line is cut at its first `=` only.
   */
  function ParseConfig(text: string): Result<map<string, string>, ConfigError> {
    ParseLines(Fields(text, NL), map[])
  }

  function ParseLines(lines: seq<string>, m: map<string, string>): Result<map<string, string>, ConfigError>
    decreases |lines|
  {
    if lines == [] then Success(m)
    else if lines[0] == [] then ParseLines(lines[1..], m)
    else if EQ !in lines[0] then Failure(NoSeparator(lines[0]))
    else
      var i := IndexOf(lines[0], EQ);
      ParseLines(lines[1..], m[lines[0][..i] := lines[0][i + 1..]])
  }

  lemma {:induction false} RenderIsJoin(props: seq<(string, string)>)
    ensures Render(props) == Join(Lines(props) + [[]], NL)
    decreases |props|
  {
    if props != [] {
      RenderIsJoin(props[1..]);
      assert Lines(props) + [[]] == [Line(props[0])] + (Lines(props[1..]) + [[]]);
    }
  }

  lemma RenderedLines(props: seq<(string, string)>)
    requires Renderable(props)
    ensures Fields(Render(props), NL) == Lines(props) + [[]]
  {
    RenderIsJoin(props);
    forall k | 0 <= k < |Lines(props) + [[]]| ensures NL !in (Lines(props) + [[]])[k] {
      if k < |props| {
        assert (Lines(props) + [[]])[k] == props[k].0 + [EQ] + props[k].1;
      }
    }
    JoinFields(Lines(props) + [[]], NL);
  }

  lemma {:induction false} ParseLinesRendered(props: seq<(string, string)>, m: map<string, string>)
    requires Renderable(props)
    ensures ParseLines(Lines(props) + [[]], m) == Success(ToMap(props, m))
    decreases |props|
  {
    if props == [] {
      assert Lines(props) + [[]] == [[]];
    } else {
      var line := Line(props[0]);
      assert (Lines(props) + [[]])[0] == line;
      assert (Lines(props) + [[]])[1..] == Lines(props[1..]) + [[]];
      assert line[|props[0].0|] == EQ;
      IndexOfPrefix(props[0].0, EQ, props[0].1);
      assert line[..|props[0].0|] == props[0].0 && line[|props[0].0| + 1..] == props[0].1;
      ParseLinesRendered(props[1..], m[props[0].0 := props[0].1]);
    }
  }

  /**
   * Round trip of the corrected parse: whatever properties the server renders, the
   * client reads back the map they describe, empty values, values containing `=`
   * and an empty configuration included.
   */
  lemma ParseRoundTrip(props: seq<(string, string)>)
    requires Renderable(props)
    ensures ParseConfig(Render(props)) == Success(ToMap(props, map[]))
  {
    RenderedLines(props);
    ParseLinesRendered(props, map[]);
  }

  /** In the map, each key holds the value of its last occurrence; every key is present. */
  lemma {:induction false} LaterKeyWins(props: seq<(string, string)>, m: map<string, string>, i: nat)
    requires i < |props|
    requires forall j | i < j < |props| :: props[j].0 != props[i].0
    ensures props[i].0 in ToMap(props, m) && ToMap(props, m)[props[i].0] == props[i].1
    decreases |props|
  {
    if i > 0 {
      LaterKeyWins(props[1..], m[props[0].0 := props[0].1], i - 1);
    } else {
      KeyKept(props[1..], m[props[0].0 := props[0].1], props[0].0);
    }
  }

  /** A key no later property mentions keeps the value it had. */
  lemma {:induction false} KeyKept(props: seq<(string, string)>, m: map<string, string>, k: string)
    requires k in m
    requires forall j | 0 <= j < |props| :: props[j].0 != k
    ensures k in ToMap(props, m) && ToMap(props, m)[k] == m[k]
    decreases |props|
  {
    if props != [] {
      KeyKept(props[1..], m[props[0].0 := props[0].1], k);
    }
  }

  // ---------------------------------------------------------------------------
  // What the parse as written does with the server's text

  lemma {:induction false} BuildLinesPlain(props: seq<(string, string)>, m: map<string, string>)
    requires Renderable(props)
    requires forall i | 0 <= i < |props| :: props[i].1 != [] && EQ !in props[i].1
    ensures BuildLines(Lines(props), m) == Success(ToMap(props, m))
    decreases |props|
  {
    if props != [] {
      SplitPair(props[0].0, props[0].1, EQ);
      assert Lines(props)[1..] == Lines(props[1..]);
      BuildLinesPlain(props[1..], m[props[0].0 := props[0].1]);
    }
  }

  lemma JavaSplitRendered(props: seq<(string, string)>)
    requires Renderable(props) && props != []
    ensures JavaSplit(Render(props), NL) == Lines(props)
  {
    RenderedLines(props);
    assert Render(props)[|Line(props[0])|] == NL;
    var fs := Lines(props) + [[]];
    assert fs[..|fs| - 1] == Lines(props);
    assert Lines(props)[|props| - 1] == Line(props[|props| - 1]);
    assert Line(props[|props| - 1])[|props[|props| - 1].0|] == EQ;
  }

  /**
   * As written, the parse agrees with the intended map as long as there is at least
   * one property and every value is non-empty and free of `=`.
   */
  lemma AsWrittenPlainValues(props: seq<(string, string)>)
    requires Renderable(props) && props != []
    requires forall i | 0 <= i < |props| :: props[i].1 != [] && EQ !in props[i].1
    ensures BuildConfigMap(Render(props)) == Success(ToMap(props, map[]))
  {
    JavaSplitRendered(props);
    BuildLinesPlain(props, map[]);
  }

  /** As written, a property with an empty value makes the whole parse fail. */
  lemma AsWrittenEmptyValueFails(k: string)
    requires EQ !in k && NL !in k
    ensures BuildConfigMap(Render([(k, [])])).Failure?
    ensures ParseConfig(Render([(k, [])])) == Success(map[k := []])
  {
    var props := [(k, [])];
    JavaSplitRendered(props);
    var line := k + [EQ] + [];
    assert Lines(props) == [line];
    JoinFields([k, []], EQ);
    assert Join([k, []], EQ) == line;
    assert line[|k|] == EQ;
    ParseRoundTrip(props);
  }

  /** As written, a value containing `=` is cut at its first `=`. */
  lemma AsWrittenTruncatesValue(k: string, a: string, b: string)
    requires EQ !in k && NL !in k && EQ !in a && EQ !in b && NL !in a && NL !in b
    requires b != []
    ensures BuildConfigMap(Render([(k, a + [EQ] + b)])) == Success(map[k := a])
    ensures ParseConfig(Render([(k, a + [EQ] + b)])) == Success(map[k := a + [EQ] + b])
  {
    var props := [(k, a + [EQ] + b)];
    JavaSplitRendered(props);
    var line := k + [EQ] + (a + [EQ] + b);
    assert Lines(props) == [line];
    assert Join([k, a, b], EQ) == line by {
      assert Join([k, a, b], EQ) == k + [EQ] + Join([a, b], EQ);
      assert Join([a, b], EQ) == a + [EQ] + Join([b], EQ);
    }
    JoinFields([k, a, b], EQ);
    assert line[|k|] == EQ;
    assert JavaSplit(line, EQ) == [k, a, b];
    assert BuildLines([line], map[]) == BuildLines([], map[][k := a]);
    ParseRoundTrip(props);
  }

  /** As written, an empty configuration makes the parse fail. */
  lemma AsWrittenEmptyConfigFails()
    ensures BuildConfigMap(Render([])).Failure?
    ensures ParseConfig(Render([])) == Success(map[])
  {
    assert Render([]) == [];
    assert JavaSplit([], NL) == [[]];
    assert JavaSplit([], EQ) == [[]];
    ParseRoundTrip([]);
  }

  /**
   * The client test's configuration, for any keys and values of its shape: two
   * `key=value` lines joined by NEWLINE, with no NEWLINE after the last, parse as
   * written to the two properties.
   */
  lemma TestConfigParses(k1: string, v1: string, k2: string, v2: string)
    requires EQ !in k1 && NL !in k1 && EQ !in v1 && NL !in v1 && v1 != []
    requires EQ !in k2 && NL !in k2 && EQ !in v2 && NL !in v2 && v2 != []
    ensures BuildConfigMap(k1 + [EQ] + v1 + [NL] + k2 + [EQ] + v2) == Success(map[k1 := v1][k2 := v2])
  {
    var l1 := k1 + [EQ] + v1;
    var l2 := k2 + [EQ] + v2;
    assert k1 + [EQ] + v1 + [NL] + k2 + [EQ] + v2 == l1 + [NL] + l2;
    assert NL !in l1 && NL !in l2 && l2 != [];
    SplitPair(l1, l2, NL);
    SplitPair(k1, v1, EQ);
    SplitPair(k2, v2, EQ);
    assert BuildLines([l1, l2], map[]) == BuildLines([l2], map[k1 := v1]);
    assert BuildLines([l2], map[k1 := v1]) == BuildLines([], map[k1 := v1][k2 := v2]);
  }

  // ---------------------------------------------------------------------------
  // Waiting for the reply, and initialisation

  datatype ToAppType = PublicCfgResponse | Stop
  datatype MsgFromHoogas = MsgFromHoogas(kind: ToAppType, text: string)

  /** `waitForPublicConfig`'s timeout, in milliseconds. */
  const ReplyTimeout: int := 4000

  datatype ClientError =
    | AlreadyInitialised
    | NotInitialised
    | ReplyTimedOut
    | InvalidReply
    | BadConfig(error: ConfigError)

  /** The poll at which the wait loop stops: the first that found messages or ran past the timeout. */
  function StopIndex(polls: seq<seq<MsgFromHoogas>>, elapsed: seq<int>): (i: nat)
    requires |polls| == |elapsed|
    requires exists j | 0 <= j < |polls| :: polls[j] != [] || elapsed[j] >= ReplyTimeout
    ensures i < |polls| && (polls[i] != [] || elapsed[i] >= ReplyTimeout)
    ensures forall j | 0 <= j < i :: polls[j] == [] && elapsed[j] < ReplyTimeout
  {
    if polls[0] != [] || elapsed[0] >= ReplyTimeout then 0
    else 1 + StopIndex(polls[1..], elapsed[1..])
  }

  /** The checks after the wait: nothing is a timeout; anything but one config reply is invalid. */
  function CheckReply(found: seq<MsgFromHoogas>): (r: Result<MsgFromHoogas, ClientError>)
    ensures r.Success? <==> |found| == 1 && found[0].kind == PublicCfgResponse
    ensures found == [] <==> r == Failure(ReplyTimedOut)
    ensures r.Success? ==> r.value == found[0]
  {
    if found == [] then Failure(ReplyTimedOut)
    else if |found| != 1 || found[0].kind != PublicCfgResponse then Failure(InvalidReply)
    else Success(found[0])
  }

  /**
   * `waitForPublicConfig`: polls the directory (`polls[i]` is what the i-th poll
   * found, `elapsed[i]` the time since the request after it) until something is
   * found or the timeout has passed, then checks what was found.
   */
  function WaitForPublicConfig(polls: seq<seq<MsgFromHoogas>>, elapsed: seq<int>): Result<MsgFromHoogas, ClientError>
    requires |polls| == |elapsed|
    requires exists j | 0 <= j < |polls| :: polls[j] != [] || elapsed[j] >= ReplyTimeout
  {
    CheckReply(polls[StopIndex(polls, elapsed)])
  }

  datatype HoogasClient = HoogasClient(initialised: bool)

  /**
   * `init`: refused once initialised; otherwise requests the public configuration,
   * waits for the reply and parses it, and only then marks the client initialised.
   */
  function Init(c: HoogasClient, polls: seq<seq<MsgFromHoogas>>, elapsed: seq<int>)
    : (r: Result<(map<string, string>, HoogasClient), ClientError>)
    requires |polls| == |elapsed|
    requires exists j | 0 <= j < |polls| :: polls[j] != [] || elapsed[j] >= ReplyTimeout
    ensures c.initialised <==> r == Failure(AlreadyInitialised)
    ensures r.Success? ==> r.value.1.initialised
    ensures r.Success? ==>
      WaitForPublicConfig(polls, elapsed).Success?
      && ParseConfig(WaitForPublicConfig(polls, elapsed).value.text) == Success(r.value.0)
    ensures !c.initialised && WaitForPublicConfig(polls, elapsed).Failure? ==>
      r == Failure(WaitForPublicConfig(polls, elapsed).error)
    ensures !c.initialised && WaitForPublicConfig(polls, elapsed).Success? ==>
      var parsed := ParseConfig(WaitForPublicConfig(polls, elapsed).value.text);
      && (parsed.Success? ==> r == Success((parsed.value, HoogasClient(true))))
      && (parsed.Failure? ==> r == Failure(BadConfig(parsed.error)))
  {
    if c.initialised then Failure(AlreadyInitialised)
    else
      var reply :- WaitForPublicConfig(polls, elapsed);
      var parsed := ParseConfig(reply.text);
      if parsed.Failure? then Failure(BadConfig(parsed.error))
      else Success((parsed.value, HoogasClient(true)))
  }

  /**
   * `init` reads back the server's configuration: when the first poll finds the
   * rendered public properties as the one config response, an uninitialised client
   * becomes initialised with exactly the map those properties describe.
   */
  lemma InitReadsServerConfig(props: seq<(string, string)>, polls: seq<seq<MsgFromHoogas>>, elapsed: seq<int>)
    requires Renderable(props)
    requires |polls| == |elapsed| && |polls| >= 1
    requires polls[0] == [MsgFromHoogas(PublicCfgResponse, Render(props))]
    ensures Init(HoogasClient(false), polls, elapsed) == Success((ToMap(props, map[]), HoogasClient(true)))
  {
    assert polls[0] != [];
    assert StopIndex(polls, elapsed) == 0;
    ParseRoundTrip(props);
  }

  /** Two `key=value` lines joined by NEWLINE, with none after the last, parse to the two properties. */
  lemma ParseTwoLines(k1: string, v1: string, k2: string, v2: string)
    requires EQ !in k1 && NL !in k1 && NL !in v1
    requires EQ !in k2 && NL !in k2 && NL !in v2
    ensures ParseConfig(k1 + [EQ] + v1 + [NL] + k2 + [EQ] + v2) == Success(map[k1 := v1][k2 := v2])
  {
    var l1 := k1 + [EQ] + v1;
    var l2 := k2 + [EQ] + v2;
    assert k1 + [EQ] + v1 + [NL] + k2 + [EQ] + v2 == l1 + [NL] + l2;
    TwoFields(l1, l2, NL);
    ParseLineStep(k1, v1, [l2], map[]);
    ParseLineStep(k2, v2, [], map[k1 := v1]);
  }

  /** Two pieces free of `c`, joined by one `c`, split back into exactly those two. */
  lemma TwoFields(a: string, b: string, c: char)
    requires c !in a && c !in b
    ensures Fields(a + [c] + b, c) == [a, b]
  {
    assert Join([a, b], c) == a + [c] + Join([b], c);
    JoinFields([a, b], c);
  }

  /** A `key=value` line with an `=`-free key adds that property and parsing goes on. */
  lemma ParseLineStep(k: string, v: string, rest: seq<string>, m: map<string, string>)
    requires EQ !in k
    ensures ParseLines([k + [EQ] + v] + rest, m) == ParseLines(rest, m[k := v])
  {
    var line := k + [EQ] + v;
    IndexOfPrefix(k, EQ, v);
    assert line[|k|] == EQ;
    assert line[..|k|] == k && line[|k| + 1..] == v;
    assert ([line] + rest)[1..] == rest;
  }

  /**
   * The client test's `init`: the server answers the config request with
   * `testing1=1234`, NEWLINE, `testing2=5678`, and `init` returns the two-entry map
   * holding `1234` and `5678`.
   */
  lemma InitTestConfig(polls: seq<seq<MsgFromHoogas>>, elapsed: seq<int>)
    requires |polls| == |elapsed| && |polls| >= 1
    requires polls[0] == [MsgFromHoogas(PublicCfgResponse, "testing1=1234" + [NL] + "testing2=5678")]
    ensures Init(HoogasClient(false), polls, elapsed).Success?
    ensures var m := Init(HoogasClient(false), polls, elapsed).value.0;
      |m| == 2 && "testing1" in m && m["testing1"] == "1234" && "testing2" in m && m["testing2"] == "5678"
  {
    assert polls[0] != [];
    assert StopIndex(polls, elapsed) == 0;
    assert "testing1=1234" + [NL] + "testing2=5678" == "testing1" + [EQ] + "1234" + [NL] + "testing2" + [EQ] + "5678";
    ParseTwoLines("testing1", "1234", "testing2", "5678");
    var m := map["testing1" := "1234"]["testing2" := "5678"];
    assert m.Keys == {"testing1", "testing2"};
  }

  datatype AppState = Starting | Running | Stopping | Stopped

  /** `setStarting`, `setRunning`, `setStopping`, `setStopped`: only once initialised. */
  function SetState(c: HoogasClient, st: AppState): (r: Outcome<ClientError>)
    ensures r.Pass? <==> c.initialised
    ensures r.Fail? ==> r.error == NotInitialised
  {
    if !c.initialised then Fail(NotInitialised) else Pass
  }

  /**
   * `init` succeeds at most once: after a success every further call fails and the
   * state calls are allowed; after a failure the client is still uninitialised.
   */
  lemma InitOnce(c: HoogasClient, polls: seq<seq<MsgFromHoogas>>, elapsed: seq<int>,
                 polls2: seq<seq<MsgFromHoogas>>, elapsed2: seq<int>, st: AppState)
    requires |polls| == |elapsed| && |polls2| == |elapsed2|
    requires exists j | 0 <= j < |polls| :: polls[j] != [] || elapsed[j] >= ReplyTimeout
    requires exists j | 0 <= j < |polls2| :: polls2[j] != [] || elapsed2[j] >= ReplyTimeout
    requires !c.initialised
    ensures Init(c, polls, elapsed).Success? ==>
      && Init(Init(c, polls, elapsed).value.1, polls2, elapsed2) == Failure(AlreadyInitialised)
      && SetState(Init(c, polls, elapsed).value.1, st) == Pass
    ensures SetState(c, st) == Fail(NotInitialised)
  {
  }

  /**
   * The reply checks: a wait that found nothing before the timeout is a timeout; a
   * single `PUBLIC_CFG_RESPONSE` is the only acceptable reply.
   */
  lemma WaitOutcomes(polls: seq<seq<MsgFromHoogas>>, elapsed: seq<int>, text: string)
    requires |polls| == |elapsed|
    requires exists j | 0 <= j < |polls| :: polls[j] != [] || elapsed[j] >= ReplyTimeout
    ensures (forall j | 0 <= j < |polls| :: polls[j] == []) ==>
      WaitForPublicConfig(polls, elapsed) == Failure(ReplyTimedOut)
    ensures polls[0] == [MsgFromHoogas(PublicCfgResponse, text)] ==>
      WaitForPublicConfig(polls, elapsed) == Success(MsgFromHoogas(PublicCfgResponse, text))
    ensures polls[0] == [MsgFromHoogas(Stop, text)] ==>
      WaitForPublicConfig(polls, elapsed) == Failure(InvalidReply)
  {
  }
}
