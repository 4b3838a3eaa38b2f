/**
 * `InboundMessagingService` (HoogasServer copy): applications drop one file per
 * message into their outbound directory, named after the message type; the
 * service collects them, deletes what it has read, and hands each type's batch
 * to that type's listeners.
 *
 * The file system is abstracted as a listing per deployed application, in the
 * order the deployed map is iterated: each entry says whether it is a directory,
 * what the file holds and whether deleting it would succeed.
 */
module InboundMessaging {
  import opened Wrappers
  import Periodic

  /** `MessageTypeFromApplications`. */
  datatype FromAppType = Stats | PublicCfgRequest

  /** The enum constant's name, which is also the name of a message file of that type. */
  function TypeName(t: FromAppType): string {
    match t
    case Stats => "STATS"
    case PublicCfgRequest => "PUBLIC_CFG_REQUEST"
  }

  /** The processor lookup by file name: `None` where `messageProcessors.get` gives `null`. */
  function TypeOf(name: string): (r: Option<FromAppType>)
    ensures r.Some? ==> TypeName(r.value) == name
    ensures r.None? ==> forall t: FromAppType :: TypeName(t) != name
  {
    if name == "STATS" then Some(Stats)
    else if name == "PUBLIC_CFG_REQUEST" then Some(PublicCfgRequest)
    else None
  }

  /** `InternalMessageInbound(text, from)`; `text` is `None` where `readLine` gives `null`. */
  datatype InboundMsg = InboundMsg(text: Option<string>, from: string)

  /** A registered listener, by identity. */
  type ListenerId = int

  /** One listener call: the listener and the batch it was handed. */
  datatype Call = Call(listener: ListenerId, batch: seq<InboundMsg>)

  /** `MessageProcessor`: the listeners of one type and the batch gathered since it last fired. */
  datatype Processor = Processor(listeners: seq<ListenerId>, received: seq<InboundMsg>)

  datatype Service = Service(stats: Processor, cfgRequests: Processor, interval: int, lastRun: int)

  function Proc(s: Service, t: FromAppType): Processor {
    match t
    case Stats => s.stats
    case PublicCfgRequest => s.cfgRequests
  }

  function WithProc(s: Service, t: FromAppType, p: Processor): Service {
    match t
    case Stats => s.(stats := p)
    case PublicCfgRequest => s.(cfgRequests := p)
  }

  /** The constructor: every message type gets a processor of its own, with no listeners and nothing received. */
  function NewService(interval: int): (r: Service)
    ensures forall t: FromAppType :: Proc(r, t) == Processor([], [])
    ensures r.interval == interval && r.lastRun == 0
  {
    Service(Processor([], []), Processor([], []), interval, 0)
  }

  // ---------------------------------------------------------------------------
  // MessageProcessor
  // ---------------------------------------------------------------------------

  /** `addReceivedMessage`: the message joins the end of the batch. */
  function AddReceived(p: Processor, m: InboundMsg): (r: Processor)
    ensures r.listeners == p.listeners
    ensures |r.received| == |p.received| + 1
    ensures r.received[..|p.received|] == p.received && r.received[|p.received|] == m
  {
    p.(received := p.received + [m])
  }

  /** Each listener in turn is handed the same batch. */
  function Notify(listeners: seq<ListenerId>, batch: seq<InboundMsg>): (r: seq<Call>)
    ensures |r| == |listeners|
    ensures forall i | 0 <= i < |r| :: r[i] == Call(listeners[i], batch)
    decreases |listeners|
  {
    if listeners == [] then []
    else [Call(listeners[0], batch)] + Notify(listeners[1..], batch)
  }

  /**
   * `processMessagesReceived`: an empty batch fires nothing; otherwise the whole
   * batch goes to every listener in registration order and is then cleared.
   */
  function Fire(p: Processor): (r: (Processor, seq<Call>))
    ensures p.received == [] ==> r == (p, [])
    ensures p.received != [] ==>
      && r.0 == Processor(p.listeners, [])
      && |r.1| == |p.listeners|
      && forall i | 0 <= i < |r.1| :: r.1[i] == Call(p.listeners[i], p.received)
  {
    if p.received == [] then (p, [])
    else (p.(received := []), Notify(p.listeners, p.received))
  }

  /** The position of the first occurrence of `x`. */
  function FirstIndex(xs: seq<ListenerId>, x: ListenerId): (i: nat)
    requires x in xs
    ensures i < |xs| && xs[i] == x && x !in xs[..i]
    decreases |xs|
  {
    if xs[0] == x then 0
    else
      var i := 1 + FirstIndex(xs[1..], x);
      assert xs[..i] == [xs[0]] + xs[1..][..i - 1];
      i
  }

  /** `listeners.remove(listener)`: the first occurrence goes, if there is one. */
  function RemoveFirst(xs: seq<ListenerId>, x: ListenerId): (r: seq<ListenerId>)
    ensures x !in xs ==> r == xs
    ensures x in xs ==> |r| == |xs| - 1 && multiset(r) == multiset(xs) - multiset{x}
    ensures x in xs ==>
      exists i | 0 <= i < |xs| :: xs[i] == x && x !in xs[..i] && r == xs[..i] + xs[i + 1..]
  {
    if x !in xs then xs
    else
      var i := FirstIndex(xs, x);
      assert xs == xs[..i] + [x] + xs[i + 1..];
      assert xs[i] == x && x !in xs[..i];
      xs[..i] + xs[i + 1..]
  }

  /** `addStatsListener` / `addConfigRequestListener`. */
  function AddListener(s: Service, t: FromAppType, l: ListenerId): (r: Service)
    ensures Proc(r, t).listeners == Proc(s, t).listeners + [l]
    ensures Proc(r, t).received == Proc(s, t).received
    ensures forall u | u != t :: Proc(r, u) == Proc(s, u)
  {
    WithProc(s, t, Proc(s, t).(listeners := Proc(s, t).listeners + [l]))
  }

  /** `removeStatsListener` / `removeConfigRequestListener`. */
  function RemoveListener(s: Service, t: FromAppType, l: ListenerId): (r: Service)
    ensures Proc(r, t).listeners == RemoveFirst(Proc(s, t).listeners, l)
    ensures Proc(r, t).received == Proc(s, t).received
    ensures forall u | u != t :: Proc(r, u) == Proc(s, u)
  {
    WithProc(s, t, Proc(s, t).(listeners := RemoveFirst(Proc(s, t).listeners, l)))
  }

  /**
   * A listener registered once for a type, once removed, is handed none of that
   * type's later batches, while the others still are, each once and in
   * registration order.
   */
  lemma RemovedListenerNotCalled(s: Service, t: FromAppType, l: ListenerId)
    requires multiset(Proc(s, t).listeners)[l] <= 1
    ensures Proc(s, t).received == [] ==> Fire(Proc(RemoveListener(s, t, l), t)).1 == []
    ensures Proc(s, t).received != [] ==>
      Fire(Proc(RemoveListener(s, t, l), t)).1 == Notify(RemoveFirst(Proc(s, t).listeners, l), Proc(s, t).received)
    ensures forall c | c in Fire(Proc(RemoveListener(s, t, l), t)).1 :: c.listener != l
    ensures forall c | c in Fire(Proc(RemoveListener(s, t, l), t)).1 :: c.listener in Proc(s, t).listeners
  {
    var xs := Proc(s, t).listeners;
    var ys := Proc(RemoveListener(s, t, l), t).listeners;
    assert ys == RemoveFirst(xs, l);
    assert multiset(ys)[l] == 0 by {
      if l in xs {
        assert multiset(ys) == multiset(xs) - multiset{l};
      }
    }
    assert l !in ys;
    assert forall y | y in ys :: y in xs by {
      forall y | y in ys ensures y in xs {
        assert y in multiset(ys);
      }
    }
  }

  // ---------------------------------------------------------------------------
  // collect
  // ---------------------------------------------------------------------------

  /** An entry of an application's message directory. */
  datatype FileEntry = FileEntry(name: string, isDir: bool, content: string, deletable: bool)

  /** A deployed application and its message directory's listing; `None` where `listFiles` gives `null`. */
  datatype AppDir = AppDir(app: string, files: Option<seq<FileEntry>>)

  predicate LineEnd(c: char) {
    c == '\n' || c == '\r'
  }

  /** The characters up to the first line terminator. */
  function TakeLine(s: string): (r: string)
    ensures r <= s
    ensures forall i | 0 <= i < |r| :: !LineEnd(r[i])
    ensures |r| == |s| || LineEnd(s[|r|])
  {
    if s == [] || LineEnd(s[0]) then [] else [s[0]] + TakeLine(s[1..])
  }

  /** `BufferedReader.readLine` on a fresh file: `null` on an empty file, otherwise the first line. */
  function FirstLine(content: string): (r: Option<string>)
    ensures r.None? <==> content == []
  {
    if content == [] then None else Some(TakeLine(content))
  }

  /** The message a file of a known type becomes. */
  function MessageOf(app: string, f: FileEntry): InboundMsg {
    InboundMsg(FirstLine(f.content), app)
  }

  /** A message file of type `t`: not a directory and named after `t`. */
  predicate IsMessageOf(f: FileEntry, t: FromAppType) {
    !f.isDir && TypeOf(f.name) == Some(t)
  }

  /** A file the scan leaves in place: a directory, an unknown name, or one that could not be deleted. */
  predicate StaysAfterScan(f: FileEntry) {
    f.isDir || TypeOf(f.name).None? || !f.deletable
  }

  /**
   * One entry of the inner loop. A directory is ignored; a file with an unknown name
   * is skipped before it is read; otherwise its message is added to its type's batch
   * and the type is marked to fire, and then the file is deleted. A failed delete
   * only logs: the message stays added.
   */
  function ScanFile(s: Service, app: string, f: FileEntry): (r: (Service, bool, set<FromAppType>))
    ensures r.1 <==> StaysAfterScan(f)
    ensures r.0.interval == s.interval && r.0.lastRun == s.lastRun
  {
    if f.isDir then (s, true, {})
    else
      match TypeOf(f.name)
      case None => (s, true, {})
      case Some(t) => (WithProc(s, t, AddReceived(Proc(s, t), MessageOf(app, f))), !f.deletable, {t})
  }

  /** The inner loop over one directory's listing: the service after it, the entries left, the types touched. */
  function ScanFiles(s: Service, app: string, files: seq<FileEntry>): (r: (Service, seq<FileEntry>, set<FromAppType>))
    ensures r.0.interval == s.interval && r.0.lastRun == s.lastRun
    decreases |files|
  {
    if files == [] then (s, [], {})
    else
      var (s1, stays, touched1) := ScanFile(s, app, files[0]);
      var (s2, left, touched2) := ScanFiles(s1, app, files[1..]);
      (s2, (if stays then [files[0]] else []) + left, touched1 + touched2)
  }

  /** The outer loop over the deployed applications; a directory that cannot be listed is passed over. */
  function ScanApps(s: Service, apps: seq<AppDir>): (r: (Service, seq<AppDir>, set<FromAppType>))
    ensures |r.1| == |apps|
    ensures r.0.interval == s.interval && r.0.lastRun == s.lastRun
    decreases |apps|
  {
    if apps == [] then (s, [], {})
    else
      var (s1, dir1, touched1) := ScanApp(s, apps[0]);
      var (s2, dirs, touched2) := ScanApps(s1, apps[1..]);
      (s2, [dir1] + dirs, touched1 + touched2)
  }

  function ScanApp(s: Service, a: AppDir): (r: (Service, AppDir, set<FromAppType>)) {
    match a.files
    case None => (s, a, {})
    case Some(files) =>
      var (s', left, touched) := ScanFiles(s, a.app, files);
      (s', AppDir(a.app, Some(left)), touched)
  }

  /** Fires the processor of `t` if it was marked; the calls are recorded under `t`. */
  function FireIfTouched(s: Service, touched: set<FromAppType>, t: FromAppType): (Service, map<FromAppType, seq<Call>>) {
    if t !in touched then (s, map[])
    else
      var (p, calls) := Fire(Proc(s, t));
      (WithProc(s, t, p), map[t := calls])
  }

  /**
   * `collect`: scans every application's directory, then fires each processor that
   * received a message during this scan. The marked processors are held in a hash
   * set, so the order in which the two types fire is not fixed: the calls are
   * returned per type.
   */
  function Collect(s: Service, apps: seq<AppDir>): (r: (Service, seq<AppDir>, map<FromAppType, seq<Call>>))
    ensures r.0.interval == s.interval && r.0.lastRun == s.lastRun
  {
    var (s1, left, touched) := ScanApps(s, apps);
    var (s2, statsCalls) := FireIfTouched(s1, touched, Stats);
    var (s3, cfgCalls) := FireIfTouched(s2, touched, PublicCfgRequest);
    (s3, left, statsCalls + cfgCalls)
  }

  /** `doCheck`: collects when an interval has passed, and records when it finished, whatever the collect did. */
  function DoCheck(s: Service, now: int, finishedAt: int, apps: seq<AppDir>): (r: (Service, seq<AppDir>, map<FromAppType, seq<Call>>))
    ensures !Periodic.ShouldRun(now, s.lastRun, s.interval) ==> r == (s, apps, map[])
    ensures Periodic.ShouldRun(now, s.lastRun, s.interval) ==>
      r.0 == Collect(s, apps).0.(lastRun := finishedAt) && r.1 == Collect(s, apps).1 && r.2 == Collect(s, apps).2
    ensures r.0.interval == s.interval
  {
    if !Periodic.ShouldRun(now, s.lastRun, s.interval) then (s, apps, map[])
    else
      var (s', left, calls) := Collect(s, apps);
      (s'.(lastRun := finishedAt), left, calls)
  }

  // ---------------------------------------------------------------------------
  // Reference definitions of what a scan finds, and lemmas tying them to collect
  // ---------------------------------------------------------------------------

  /** The messages of type `t` in one listing, in listing order. */
  function FileMessages(app: string, files: seq<FileEntry>, t: FromAppType): seq<InboundMsg>
    decreases |files|
  {
    if files == [] then []
    else (if IsMessageOf(files[0], t) then [MessageOf(app, files[0])] else []) + FileMessages(app, files[1..], t)
  }

  /** The messages of type `t` in one application's directory; none where it cannot be listed. */
  function DirMessages(a: AppDir, t: FromAppType): seq<InboundMsg> {
    match a.files
    case None => []
    case Some(files) => FileMessages(a.app, files, t)
  }

  /** The messages of type `t` across all applications, in scan order. */
  function AppMessages(apps: seq<AppDir>, t: FromAppType): seq<InboundMsg>
    decreases |apps|
  {
    if apps == [] then [] else DirMessages(apps[0], t) + AppMessages(apps[1..], t)
  }

  /** The entries of one listing that the scan leaves in place, in listing order. */
  function Staying(files: seq<FileEntry>): seq<FileEntry>
    decreases |files|
  {
    if files == [] then []
    else (if StaysAfterScan(files[0]) then [files[0]] else []) + Staying(files[1..])
  }

  /** One entry adds its message, if it is one of type `t`, and marks `t` exactly then. */
  lemma ScanFileEffect(s: Service, app: string, f: FileEntry, t: FromAppType)
    ensures var r := ScanFile(s, app, f);
      && Proc(r.0, t).listeners == Proc(s, t).listeners
      && Proc(r.0, t).received == Proc(s, t).received + (if IsMessageOf(f, t) then [MessageOf(app, f)] else [])
      && (t in r.2 <==> IsMessageOf(f, t))
  {
    if !f.isDir && TypeOf(f.name).Some? && TypeOf(f.name).value != t {
      assert !IsMessageOf(f, t);
    }
  }

  lemma {:induction false} ScanFilesFinds(s: Service, app: string, files: seq<FileEntry>, t: FromAppType)
    ensures var r := ScanFiles(s, app, files);
      && Proc(r.0, t).listeners == Proc(s, t).listeners
      && Proc(r.0, t).received == Proc(s, t).received + FileMessages(app, files, t)
      && (t in r.2 <==> FileMessages(app, files, t) != [])
    decreases |files|
  {
    if files != [] {
      var s1 := ScanFile(s, app, files[0]).0;
      ScanFileEffect(s, app, files[0], t);
      ScanFilesFinds(s1, app, files[1..], t);
      var head := if IsMessageOf(files[0], t) then [MessageOf(app, files[0])] else [];
      assert Proc(s, t).received + head + FileMessages(app, files[1..], t)
          == Proc(s, t).received + (head + FileMessages(app, files[1..], t));
    }
  }

  lemma {:induction false} ScanFilesLeaves(s: Service, app: string, files: seq<FileEntry>)
    ensures ScanFiles(s, app, files).1 == Staying(files)
    decreases |files|
  {
    if files != [] {
      ScanFilesLeaves(ScanFile(s, app, files[0]).0, app, files[1..]);
    }
  }

  /** One directory adds its messages of type `t` and marks `t` exactly when it holds one. */
  lemma ScanAppFinds(s: Service, a: AppDir, t: FromAppType)
    ensures var r := ScanApp(s, a);
      && Proc(r.0, t).listeners == Proc(s, t).listeners
      && Proc(r.0, t).received == Proc(s, t).received + DirMessages(a, t)
      && (t in r.2 <==> DirMessages(a, t) != [])
  {
    if a.files.Some? {
      ScanFilesFinds(s, a.app, a.files.value, t);
    }
  }

  /**
   * The scan adds to the batch of `t` exactly the messages of that type the listings
   * hold, in scan order, and marks `t` exactly when it found one.
   */
  lemma {:induction false} ScanAppsFinds(s: Service, apps: seq<AppDir>, t: FromAppType)
    ensures var r := ScanApps(s, apps);
      && Proc(r.0, t).listeners == Proc(s, t).listeners
      && Proc(r.0, t).received == Proc(s, t).received + AppMessages(apps, t)
      && (t in r.2 <==> AppMessages(apps, t) != [])
    decreases |apps|
  {
    if apps != [] {
      var r0 := ScanApp(s, apps[0]);
      ScanAppFinds(s, apps[0], t);
      ScanAppsFinds(r0.0, apps[1..], t);
      var r1 := ScanApps(r0.0, apps[1..]);
      assert ScanApps(s, apps) == (r1.0, [r0.1] + r1.1, r0.2 + r1.2);
      var head, tail := DirMessages(apps[0], t), AppMessages(apps[1..], t);
      assert AppMessages(apps, t) == head + tail;
      assert Proc(s, t).received + head + tail == Proc(s, t).received + (head + tail);
      assert head + tail != [] <==> head != [] || tail != [];
    }
  }

  /** Each directory keeps exactly its directories, its files with unknown names and the files it could not delete. */
  lemma {:induction false} ScanAppsLeaves(s: Service, apps: seq<AppDir>)
    ensures var r := ScanApps(s, apps);
      && (forall i | 0 <= i < |apps| :: r.1[i].app == apps[i].app)
      && (forall i | 0 <= i < |apps| :: apps[i].files.None? ==> r.1[i] == apps[i])
      && (forall i | 0 <= i < |apps| :: apps[i].files.Some? ==> r.1[i].files == Some(Staying(apps[i].files.value)))
    decreases |apps|
  {
    if apps != [] {
      if apps[0].files.Some? {
        ScanFilesLeaves(s, apps[0].app, apps[0].files.value);
      }
      var s1 := ScanApp(s, apps[0]).0;
      ScanAppsLeaves(s1, apps[1..]);
      var r := ScanApps(s, apps);
      var r1 := ScanApps(s1, apps[1..]);
      assert forall i | 1 <= i < |apps| :: r.1[i] == r1.1[i - 1];
    }
  }

  /**
   * What one collect does for type `t`: the type fires exactly when the scan found a
   * message of it; then each of its listeners, in registration order, is handed the
   * whole batch (what was pending plus what was found, in scan order) and the batch
   * is emptied; a type that does not fire is left as it was; its listeners never change.
   */
  lemma CollectDelivers(s: Service, apps: seq<AppDir>, t: FromAppType)
    ensures var r := Collect(s, apps);
      && (t in r.2 <==> AppMessages(apps, t) != [])
      && Proc(r.0, t).listeners == Proc(s, t).listeners
      && (t in r.2 ==>
            && Proc(r.0, t).received == []
            && |r.2[t]| == |Proc(s, t).listeners|
            && forall i | 0 <= i < |r.2[t]| ::
                 r.2[t][i] == Call(Proc(s, t).listeners[i], Proc(s, t).received + AppMessages(apps, t)))
      && (t !in r.2 ==> Proc(r.0, t) == Proc(s, t))
  {
    ScanAppsFinds(s, apps, t);
  }

  /** The directories after a collect: exactly what the scan does not consume. */
  lemma CollectLeaves(s: Service, apps: seq<AppDir>)
    ensures var r := Collect(s, apps);
      && |r.1| == |apps|
      && (forall i | 0 <= i < |apps| :: r.1[i].app == apps[i].app)
      && (forall i | 0 <= i < |apps| :: apps[i].files.None? ==> r.1[i] == apps[i])
      && (forall i | 0 <= i < |apps| :: apps[i].files.Some? ==> r.1[i].files == Some(Staying(apps[i].files.value)))
  {
    ScanAppsLeaves(s, apps);
  }

  /** Between collects every batch is empty: a collect that starts with empty batches ends with them. */
  lemma CollectEmptiesBatches(s: Service, apps: seq<AppDir>)
    requires Proc(s, Stats).received == [] && Proc(s, PublicCfgRequest).received == []
    ensures Proc(Collect(s, apps).0, Stats).received == []
    ensures Proc(Collect(s, apps).0, PublicCfgRequest).received == []
  {
    CollectDelivers(s, apps, Stats);
    CollectDelivers(s, apps, PublicCfgRequest);
  }

  /** A listing of directories and files with unknown names holds no message and is left as it is. */
  lemma {:induction false} NothingToCollect(app: string, files: seq<FileEntry>, t: FromAppType)
    requires forall i | 0 <= i < |files| :: files[i].isDir || TypeOf(files[i].name).None?
    ensures FileMessages(app, files, t) == [] && Staying(files) == files
    decreases |files|
  {
    if files != [] {
      NothingToCollect(app, files[1..], t);
    }
  }

  /** A one-line text is read back whole. */
  lemma {:induction false} OneLine(text: string)
    requires text != [] && forall i | 0 <= i < |text| :: !LineEnd(text[i])
    ensures FirstLine(text) == Some(text)
  {
    var r := TakeLine(text);
    assert |r| == |text|;
    assert r == text[..|r|] == text;
  }

  /** What the scan finds in the test's listing: one message of each type, and the other entries. */
  lemma ScenarioListing(app: string, cfgText: string, statsText: string, others: seq<FileEntry>)
    requires cfgText != [] && forall i | 0 <= i < |cfgText| :: !LineEnd(cfgText[i])
    requires statsText != [] && forall i | 0 <= i < |statsText| :: !LineEnd(statsText[i])
    requires forall i | 0 <= i < |others| :: others[i].isDir || TypeOf(others[i].name).None?
    ensures
      var files := [
        FileEntry(TypeName(PublicCfgRequest), false, cfgText, true),
        FileEntry(TypeName(Stats), false, statsText, true)] + others;
      && AppMessages([AppDir(app, Some(files))], PublicCfgRequest) == [InboundMsg(Some(cfgText), app)]
      && AppMessages([AppDir(app, Some(files))], Stats) == [InboundMsg(Some(statsText), app)]
      && Staying(files) == others
  {
    var cfgFile := FileEntry(TypeName(PublicCfgRequest), false, cfgText, true);
    var statsFile := FileEntry(TypeName(Stats), false, statsText, true);
    var files := [cfgFile, statsFile] + others;
    var apps := [AppDir(app, Some(files))];
    NothingToCollect(app, others, Stats);
    NothingToCollect(app, others, PublicCfgRequest);
    OneLine(cfgText);
    OneLine(statsText);
    assert IsMessageOf(cfgFile, PublicCfgRequest) && !IsMessageOf(cfgFile, Stats);
    assert IsMessageOf(statsFile, Stats) && !IsMessageOf(statsFile, PublicCfgRequest);
    assert files[1..] == [statsFile] + others && files[1..][1..] == others;
    assert apps[1..] == [];
    assert FileMessages(app, files[1..], PublicCfgRequest) == [];
    assert FileMessages(app, files[1..], Stats) == [InboundMsg(Some(statsText), app)];
  }

  /**
   * The scenario of the service's own test, for any sender and texts: one config
   * request file and one stats file from an application, followed by entries that are
   * directories or have unknown names. Each type's listener gets exactly its one
   * message, with the file's text and the application as sender; the two message
   * files are gone and every other entry remains.
   */
  lemma CollectScenario(cfgListener: ListenerId, statsListener: ListenerId, app: string,
                        cfgText: string, statsText: string, others: seq<FileEntry>)
    requires cfgText != [] && forall i | 0 <= i < |cfgText| :: !LineEnd(cfgText[i])
    requires statsText != [] && forall i | 0 <= i < |statsText| :: !LineEnd(statsText[i])
    requires forall i | 0 <= i < |others| :: others[i].isDir || TypeOf(others[i].name).None?
    ensures
      var s := AddListener(AddListener(NewService(-1), PublicCfgRequest, cfgListener), Stats, statsListener);
      var files := [
        FileEntry(TypeName(PublicCfgRequest), false, cfgText, true),
        FileEntry(TypeName(Stats), false, statsText, true)] + others;
      var r := Collect(s, [AppDir(app, Some(files))]);
      && r.2.Keys == {Stats, PublicCfgRequest}
      && r.2[PublicCfgRequest] == [Call(cfgListener, [InboundMsg(Some(cfgText), app)])]
      && r.2[Stats] == [Call(statsListener, [InboundMsg(Some(statsText), app)])]
      && r.1 == [AppDir(app, Some(others))]
  {
    var s := AddListener(AddListener(NewService(-1), PublicCfgRequest, cfgListener), Stats, statsListener);
    var files := [
      FileEntry(TypeName(PublicCfgRequest), false, cfgText, true),
      FileEntry(TypeName(Stats), false, statsText, true)] + others;
    var apps := [AppDir(app, Some(files))];
    ScenarioListing(app, cfgText, statsText, others);
    assert Proc(s, Stats) == Processor([statsListener], []);
    assert Proc(s, PublicCfgRequest) == Processor([cfgListener], []);
    assert [] + [InboundMsg(Some(cfgText), app)] == [InboundMsg(Some(cfgText), app)];
    assert [] + [InboundMsg(Some(statsText), app)] == [InboundMsg(Some(statsText), app)];
    CollectDelivers(s, apps, Stats);
    CollectDelivers(s, apps, PublicCfgRequest);
    CollectLeaves(s, apps);
    var r := Collect(s, apps);
    assert forall t | t in r.2.Keys :: t == Stats || t == PublicCfgRequest;
    assert |r.1| == 1 && r.1[0].app == app && r.1[0].files == Some(others);
  }
}
