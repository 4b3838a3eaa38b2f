/**
 * `DeployedApplicationsHolder`: the server's record of which version of each
 * application is deployed, and the listeners told whenever it changes. The
 * read-write lock is not modelled: each operation is one atomic step.
 */
module DeployedApplications {
  import opened Wrappers

  /** A registered `DeployedApplicationsUpdatedListener`, by identity. */
  type ListenerId = int

  datatype Holder = Holder(deployed: map<string, string>, listeners: seq<ListenerId>)

  datatype HolderError = LengthMismatch(names: nat, versions: nat)

  /** No later position holds the same name: position `i` is the one that counts. */
  predicate LastOccurrence(names: seq<string>, i: int)
    requires 0 <= i < |names|
  {
    forall j | i < j < |names| :: names[j] != names[i]
  }

  /**
   * `addApplications(appNames, versions)`: refuses arrays of different lengths before
   * touching anything; otherwise records each name with its version, in array order,
   * then calls every listener once, in registration order (returned as `notified`).
   */
  method AddApplications(h: Holder, names: seq<string>, versions: seq<string>)
    returns (r: Result<Holder, HolderError>, notified: seq<ListenerId>)
    ensures |names| != |versions| ==> r == Failure(LengthMismatch(|names|, |versions|)) && notified == []
    ensures |names| == |versions| ==> r.Success? && notified == h.listeners
    ensures r.Success? ==>
      && r.value.listeners == h.listeners
      && (forall k :: k in r.value.deployed <==> k in h.deployed || k in names)
      && (forall i | 0 <= i < |names| && LastOccurrence(names, i) :: r.value.deployed[names[i]] == versions[i])
      && (forall k | k in h.deployed && k !in names :: r.value.deployed[k] == h.deployed[k])
  {
    if |names| != |versions| {
      return Failure(LengthMismatch(|names|, |versions|)), [];
    }
    var m := h.deployed;
    var i := 0;
    while i < |names|
      invariant 0 <= i <= |names|
      invariant forall k :: k in m <==> k in h.deployed || k in names[..i]
      invariant forall j | 0 <= j < i && (forall j' | j < j' < i :: names[j'] != names[j]) :: m[names[j]] == versions[j]
      invariant forall k | k in h.deployed && k !in names[..i] :: m[k] == h.deployed[k]
    {
      assert names[..i + 1] == names[..i] + [names[i]];
      m := m[names[i] := versions[i]];
      i := i + 1;
    }
    assert names[..i] == names;
    r := Success(Holder(m, h.listeners));
    notified := [];
    var l := 0;
    while l < |h.listeners|
      invariant 0 <= l <= |h.listeners|
      invariant notified == h.listeners[..l]
    {
      notified := notified + [h.listeners[l]];
      l := l + 1;
    }
    assert h.listeners[..l] == h.listeners;
  }

  /** `clearEverything`: no applications and no listeners. */
  function ClearEverything(h: Holder): (r: Holder)
    ensures r.deployed == map[] && r.listeners == []
  {
    Holder(map[], [])
  }

  /** `addApplicationUpdatedListener`: appended after the listeners already registered. */
  function AddListener(h: Holder, l: ListenerId): (r: Holder)
    ensures r.deployed == h.deployed
    ensures |r.listeners| == |h.listeners| + 1
    ensures r.listeners[..|h.listeners|] == h.listeners && r.listeners[|h.listeners|] == l
  {
    Holder(h.deployed, h.listeners + [l])
  }

  /**
   * A listener registered after `clearEverything` is the only one told of the next
   * update, and the update sees only the applications it adds.
   */
  method ClearThenUpdate(h: Holder, l: ListenerId, names: seq<string>, versions: seq<string>)
    returns (r: Result<Holder, HolderError>, notified: seq<ListenerId>)
    requires |names| == |versions|
    ensures notified == [l]
    ensures r.Success? && r.value.deployed.Keys == set i | 0 <= i < |names| :: names[i]
  {
    var cleared := AddListener(ClearEverything(h), l);
    r, notified := AddApplications(cleared, names, versions);
    assert forall k :: k in r.value.deployed <==> k in names;
    forall k | k in r.value.deployed ensures k in set i | 0 <= i < |names| :: names[i] {
      var i :| 0 <= i < |names| && names[i] == k;
    }
  }

  /** The same name twice in one update: the later version is the one recorded. */
  method LaterVersionWins(h: Holder, name: string, v1: string, v2: string)
    returns (r: Result<Holder, HolderError>, notified: seq<ListenerId>)
    ensures r.Success? && name in r.value.deployed && r.value.deployed[name] == v2
    ensures notified == h.listeners
  {
    r, notified := AddApplications(h, [name, name], [v1, v2]);
    var names := [name, name];
    assert names[1] == name;
    assert LastOccurrence(names, 1);
    assert r.value.deployed[names[1]] == v2;
  }
}
