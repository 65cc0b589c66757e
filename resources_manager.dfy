/** `ResourcesManager`: the run-time registry. It merges package manifests
    into address, label and bundle tables, creates one provider per
    address, scene or bundle name in the operation arena, collects a
    bundle's dependency closure, and unloads providers nobody references. */
module Registry {
  import opened Wrappers
  import opened Collections
  import opened Graphs
  import opened Manifest
  import opened Operations
  import opened Handles

  /** `AddressInfoWrap`: the record registered under a key used as an
      address, and the records carrying a key used as a label. */
  datatype Wrap = Wrap(info: Option<AddressInfo>, infos: Option<seq<AddressInfo>>)

  /** `IsArray`: the label list exists and is not empty. */
  predicate IsArray(w: Wrap) {
    w.infos.Some? && |w.infos.value| > 0
  }

  /** `AddToList`: creates the label list when it is `null` and appends
      `info` unless it is already listed. */
  function AddToList(w: Wrap, info: AddressInfo): (r: Wrap)
    ensures r.info == w.info && IsArray(r) && info in r.infos.value
  {
    var l := w.infos.GetOr([]);
    if info in l then w.(infos := Some(l)) else w.(infos := Some(l + [info]))
  }

  /** `AddToList` never lists a record twice: the list gains `info` and
      nothing else. */
  lemma AddToListOnce(w: Wrap, info: AddressInfo)
    requires Distinct(w.infos.GetOr([]))
    ensures Distinct(AddToList(w, info).infos.value)
    ensures Members(AddToList(w, info).infos.value) == Members(w.infos.GetOr([])) + {info}
    ensures w.infos.GetOr([]) <= AddToList(w, info).infos.value
  {
    var l := w.infos.GetOr([]);
    if info !in l {
      DistinctSnoc(l, info);
      assert Members(l + [info]) == Members(l) + {info};
    }
  }

  /** Every key has a record or a non-empty label list without repeats. */
  ghost predicate WrapsOk(w: map<string, Wrap>) {
    forall k :: k in w ==> (w[k].info.Some? || IsArray(w[k])) && Distinct(w[k].infos.GetOr([]))
  }

  /** A manifest with every address record stamped with its package
      name. */
  function Stamp(data: ManifestData): (r: ManifestData)
    ensures |r.addressInfos| == |data.addressInfos|
    ensures forall k :: 0 <= k < |data.addressInfos| ==>
      r.addressInfos[k] == data.addressInfos[k].(packageName := data.packageName)
    ensures r.(addressInfos := data.addressInfos) == data
  {
    var infos := data.addressInfos;
    data.(addressInfos := seq(|infos|, k requires 0 <= k < |infos| => infos[k].(packageName := data.packageName)))
  }

  /** The registration of one record under its address: only when the key
      is not taken. */
  function AddAddress(w: map<string, Wrap>, info: AddressInfo): map<string, Wrap> {
    if info.address in w then w else w[info.address := Wrap(Some(info), None)]
  }

  /** `info` added to the list of each label key, creating missing keys. */
  function AddLabels(w: map<string, Wrap>, info: AddressInfo, labels: seq<string>): map<string, Wrap>
    decreases |labels|
  {
    if labels == [] then w
    else
      var l := labels[0];
      AddLabels(w[l := AddToList(if l in w then w[l] else Wrap(None, None), info)], info, labels[1..])
  }

  /** The address loop of `OnPackageLoadCompleted`: each record registered
      under its address, then under each of its labels. */
  function AddAddresses(w: map<string, Wrap>, infos: seq<AddressInfo>): map<string, Wrap>
    decreases |infos|
  {
    if infos == [] then w
    else AddAddresses(AddLabels(AddAddress(w, infos[0]), infos[0], infos[0].labels), infos[1..])
  }

  /** The lines the registry writes with `Debug.LogError`. */
  datatype LogEntry = DuplicateBundle(name: string) | AddressNotFound(address: string)

  /** The bundle loop's error log: an entry for each record whose name is
      already registered with a different MD5. */
  function Duplicates(m: map<string, BundleInfo>, infos: seq<BundleInfo>): seq<LogEntry>
    decreases |infos|
  {
    if infos == [] then []
    else
      var b := infos[0];
      (if b.name in m && b.md5 != m[b.name].md5 then [DuplicateBundle(b.name)] else [])
      + Duplicates(if b.name in m then m else m[b.name := b], infos[1..])
  }

  /** Every record's name ends up registered. */
  lemma NamesRegistered(m: map<string, BundleInfo>, infos: seq<BundleInfo>)
    ensures forall j :: 0 <= j < |infos| ==> infos[j].name in AddFirst(m, infos)
  {
    AddFirstWins(m, infos);
    forall j | 0 <= j < |infos| ensures infos[j].name in AddFirst(m, infos) {
      assert FindBundle(infos, infos[j].name).Some?;
    }
  }

  /** Only a name some record of which has an MD5 other than the
      registered record's is logged. */
  lemma {:induction false} DuplicatesSound(m: map<string, BundleInfo>, infos: seq<BundleInfo>, x: string)
    requires DuplicateBundle(x) in Duplicates(m, infos)
    ensures x in AddFirst(m, infos)
    ensures exists j :: 0 <= j < |infos| && infos[j].name == x && infos[j].md5 != AddFirst(m, infos)[x].md5
    decreases |infos|
  {
    var b := infos[0];
    var m' := if b.name in m then m else m[b.name := b];
    assert AddFirst(m, infos) == AddFirst(m', infos[1..]);
    if DuplicateBundle(x) !in Duplicates(m', infos[1..]) {
      AddFirstWins(m', infos[1..]);
      assert infos[0].name == x;
    } else {
      DuplicatesSound(m', infos[1..], x);
      var j :| 0 <= j < |infos[1..]| && infos[1..][j].name == x &&
        infos[1..][j].md5 != AddFirst(m', infos[1..])[x].md5;
      assert infos[j + 1] == infos[1..][j];
    }
  }

  /** Every name some record of which has an MD5 other than the registered
      record's is logged. */
  lemma {:induction false} DuplicatesComplete(m: map<string, BundleInfo>, infos: seq<BundleInfo>, j: nat)
    requires j < |infos|
    requires infos[j].name in AddFirst(m, infos)
    requires infos[j].md5 != AddFirst(m, infos)[infos[j].name].md5
    ensures DuplicateBundle(infos[j].name) in Duplicates(m, infos)
    decreases |infos|
  {
    var b := infos[0];
    var m' := if b.name in m then m else m[b.name := b];
    assert AddFirst(m, infos) == AddFirst(m', infos[1..]);
    if j == 0 {
      AddFirstWins(m', infos[1..]);
    } else {
      assert infos[j] == infos[1..][j - 1];
      DuplicatesComplete(m', infos[1..], j - 1);
    }
  }

  /** Address records never replace one another, keys are never dropped,
      and the label lists only grow. */
  lemma {:induction false} AddAddressesKeeps(w: map<string, Wrap>, infos: seq<AddressInfo>, k: string)
    requires k in w
    ensures k in AddAddresses(w, infos)
    ensures AddAddresses(w, infos)[k].info == w[k].info
    ensures w[k].infos.GetOr([]) <= AddAddresses(w, infos)[k].infos.GetOr([])
    decreases |infos|
  {
    if infos != [] {
      var w1 := AddAddress(w, infos[0]);
      AddLabelsKeeps(w1, infos[0], infos[0].labels, k);
      AddAddressesKeeps(AddLabels(w1, infos[0], infos[0].labels), infos[1..], k);
    }
  }

  lemma {:induction false} AddLabelsKeeps(w: map<string, Wrap>, info: AddressInfo, labels: seq<string>, k: string)
    requires k in w
    ensures k in AddLabels(w, info, labels)
    ensures AddLabels(w, info, labels)[k].info == w[k].info
    ensures w[k].infos.GetOr([]) <= AddLabels(w, info, labels)[k].infos.GetOr([])
    decreases |labels|
  {
    if labels != [] {
      var l := labels[0];
      var w1 := w[l := AddToList(if l in w then w[l] else Wrap(None, None), info)];
      if l == k {
        assert w[k].infos.GetOr([]) <= w1[k].infos.GetOr([]);
      }
      AddLabelsKeeps(w1, info, labels[1..], k);
    }
  }

  /** Registration keeps every key well-formed. */
  lemma {:induction false} AddAddressesOk(w: map<string, Wrap>, infos: seq<AddressInfo>)
    requires WrapsOk(w)
    ensures WrapsOk(AddAddresses(w, infos))
    decreases |infos|
  {
    if infos != [] {
      AddLabelsOk(AddAddress(w, infos[0]), infos[0], infos[0].labels);
      AddAddressesOk(AddLabels(AddAddress(w, infos[0]), infos[0], infos[0].labels), infos[1..]);
    }
  }

  lemma {:induction false} AddLabelsOk(w: map<string, Wrap>, info: AddressInfo, labels: seq<string>)
    requires WrapsOk(w)
    ensures WrapsOk(AddLabels(w, info, labels))
    decreases |labels|
  {
    if labels != [] {
      var l := labels[0];
      var old_ := if l in w then w[l] else Wrap(None, None);
      AddToListOnce(old_, info);
      AddLabelsOk(w[l := AddToList(old_, info)], info, labels[1..]);
    }
  }

  /** Every label of every record lists that record. */
  lemma {:induction false} LabelsListed(w: map<string, Wrap>, infos: seq<AddressInfo>)
    ensures forall i, l :: 0 <= i < |infos| && l in infos[i].labels ==>
      l in AddAddresses(w, infos) && infos[i] in AddAddresses(w, infos)[l].infos.GetOr([])
    decreases |infos|
  {
    if infos != [] {
      var w1 := AddLabels(AddAddress(w, infos[0]), infos[0], infos[0].labels);
      LabelsListed(w1, infos[1..]);
      forall l | l in infos[0].labels
        ensures l in AddAddresses(w, infos) && infos[0] in AddAddresses(w, infos)[l].infos.GetOr([])
      {
        LabelListed(AddAddress(w, infos[0]), infos[0], infos[0].labels, l);
        AddAddressesKeeps(w1, infos[1..], l);
      }
      forall i, l | 1 <= i < |infos| && l in infos[i].labels
        ensures l in AddAddresses(w, infos) && infos[i] in AddAddresses(w, infos)[l].infos.GetOr([])
      {
        assert infos[i] == infos[1..][i - 1];
      }
    }
  }

  lemma {:induction false} LabelListed(w: map<string, Wrap>, info: AddressInfo, labels: seq<string>, l: string)
    requires l in labels
    ensures l in AddLabels(w, info, labels) && info in AddLabels(w, info, labels)[l].infos.GetOr([])
    decreases |labels|
  {
    var l0 := labels[0];
    var w1 := w[l0 := AddToList(if l0 in w then w[l0] else Wrap(None, None), info)];
    if l == l0 {
      AddLabelsKeeps(w1, info, labels[1..], l);
    } else {
      LabelListed(w1, info, labels[1..], l);
    }
  }

  /** A label list holds only what it held before and records carrying
      that label. */
  lemma {:induction false} LabelsOnly(w: map<string, Wrap>, infos: seq<AddressInfo>, k: string, x: AddressInfo)
    requires k in AddAddresses(w, infos) && x in AddAddresses(w, infos)[k].infos.GetOr([])
    ensures (k in w && x in w[k].infos.GetOr([])) || exists i :: 0 <= i < |infos| && infos[i] == x && k in x.labels
    decreases |infos|
  {
    if infos != [] {
      var w0 := AddAddress(w, infos[0]);
      var w1 := AddLabels(w0, infos[0], infos[0].labels);
      LabelsOnly(w1, infos[1..], k, x);
      if k in w1 && x in w1[k].infos.GetOr([]) {
        LabelOnly(w0, infos[0], infos[0].labels, k, x);
      } else {
        var i :| 0 <= i < |infos[1..]| && infos[1..][i] == x && k in x.labels;
        assert infos[i + 1] == x;
      }
    }
  }

  lemma {:induction false} LabelOnly(w: map<string, Wrap>, info: AddressInfo, labels: seq<string>, k: string, x: AddressInfo)
    requires k in AddLabels(w, info, labels) && x in AddLabels(w, info, labels)[k].infos.GetOr([])
    ensures (k in w && x in w[k].infos.GetOr([])) || (x == info && k in labels)
    decreases |labels|
  {
    if labels != [] {
      var l := labels[0];
      var w1 := w[l := AddToList(if l in w then w[l] else Wrap(None, None), info)];
      LabelOnly(w1, info, labels[1..], k, x);
    }
  }

  /** A key that no record uses as a label, and that was not taken before,
      ends up holding the first record with that address, if any. */
  lemma {:induction false} FirstAddressWins(w: map<string, Wrap>, infos: seq<AddressInfo>, k: string)
    requires k !in w
    requires forall i :: 0 <= i < |infos| ==> k !in infos[i].labels
    ensures k in AddAddresses(w, infos) <==> FindAddress(infos, k).Some?
    ensures k in AddAddresses(w, infos) ==> AddAddresses(w, infos)[k] == Wrap(FindAddress(infos, k), None)
    decreases |infos|
  {
    if infos != [] {
      var w0 := AddAddress(w, infos[0]);
      var w1 := AddLabels(w0, infos[0], infos[0].labels);
      LabelsUntouched(w0, infos[0], infos[0].labels, k);
      assert forall i :: 1 <= i < |infos| ==> infos[i] == infos[1..][i - 1];
      if infos[0].address == k {
        AddAddressesKeeps(w1, infos[1..], k);
        AddAddressesPlain(w1, infos[1..], k);
      } else {
        FirstAddressWins(w1, infos[1..], k);
      }
    }
  }

  /** Labels leave a key that is not one of them alone. */
  lemma {:induction false} LabelsUntouched(w: map<string, Wrap>, info: AddressInfo, labels: seq<string>, k: string)
    requires k !in labels
    ensures k in AddLabels(w, info, labels) <==> k in w
    ensures k in w ==> AddLabels(w, info, labels)[k] == w[k]
    decreases |labels|
  {
    if labels != [] {
      var l := labels[0];
      LabelsUntouched(w[l := AddToList(if l in w then w[l] else Wrap(None, None), info)], info, labels[1..], k);
    }
  }

  /** A key no later record uses as a label keeps its wrap. */
  lemma {:induction false} AddAddressesPlain(w: map<string, Wrap>, infos: seq<AddressInfo>, k: string)
    requires k in w
    requires forall i :: 0 <= i < |infos| ==> k !in infos[i].labels
    ensures k in AddAddresses(w, infos) && AddAddresses(w, infos)[k] == w[k]
    decreases |infos|
  {
    AddAddressesKeeps(w, infos, k);
    if infos != [] {
      var w0 := AddAddress(w, infos[0]);
      LabelsUntouched(w0, infos[0], infos[0].labels, k);
      assert forall i :: 1 <= i < |infos| ==> infos[i] == infos[1..][i - 1];
      AddAddressesPlain(AddLabels(w0, infos[0], infos[0].labels), infos[1..], k);
    }
  }

  /** What `GetAddressInfos` lists for a key: the label list when the key's
      wrap `IsArray`, otherwise its single record, and nothing for an
      unknown key. */
  function Lookup(w: map<string, Wrap>, key: string): (r: seq<AddressInfo>)
    requires WrapsOk(w)
    ensures key !in w ==> r == []
    ensures key in w && IsArray(w[key]) ==> r == w[key].infos.value
    ensures key in w && !IsArray(w[key]) ==> r == [w[key].info.value]
  {
    if key !in w then []
    else if IsArray(w[key]) then w[key].infos.value
    else [w[key].info.value]
  }

  /** The dependency graph of the registered bundles; a `null` list reads
      as empty, as the JSON deserialiser makes it. */
  ghost function BundleGraph(m: map<string, BundleInfo>): Digraph<string> {
    map n | n in m :: Members(m[n].dependencies.GetOr([]))
  }

  /** The base `GetProgressStatus` of a provider with hash code `id`. */
  function BaseStatus(id: nat): ProgressStatus {
    ProgressStatus(id, 0.0, 0, 0, false)
  }

  /** Registration keeps every record under its own name. */
  lemma {:induction false} AddFirstNamed(m: map<string, BundleInfo>, infos: seq<BundleInfo>)
    requires forall k :: k in m ==> m[k].name == k
    ensures forall k :: k in AddFirst(m, infos) ==> AddFirst(m, infos)[k].name == k
    decreases |infos|
  {
    if infos != [] {
      AddFirstNamed(if infos[0].name in m then m else m[infos[0].name := infos[0]], infos[1..]);
    }
  }

  /** The bundles `root` reaches through one or more dependency edges,
      itself excluded: what `CreateBundleDependProvider` creates providers
      for. Names without a record are included; they are leaves. */
  ghost function Dependents(m: map<string, BundleInfo>, root: string): set<string> {
    set x | x in Targets(BundleGraph(m)) && Reaches(BundleGraph(m), root, x) && x != root
  }

  /** `Unload` applied to each operation of `ids`: one without references
      becomes unloadable. */
  function Marked(os: seq<OpState>, ids: set<nat>): (r: seq<OpState>)
    ensures |r| == |os|
  {
    seq(|os|, j requires 0 <= j < |os| => if j in ids && os[j].refCount <= 0 then os[j].(canUnload := true) else os[j])
  }

  /** `Unload` on one operation is `Marked` on it. */
  lemma MarkOne(os: seq<OpState>, i: nat, o: OpState)
    requires i < |os| && o == os[i].(canUnload := o.canUnload)
    requires o.canUnload <==> os[i].canUnload || os[i].refCount <= 0
    ensures os[i := o] == Marked(os, {i})
  {
  }

  /** A marked operation becomes unloadable exactly when it was or has no
      references left; everything else about it, and every unmarked
      operation, stays. */
  lemma MarkedExactly(os: seq<OpState>, ids: set<nat>, j: nat)
    requires j < |os|
    ensures Marked(os, ids)[j] == os[j].(canUnload := Marked(os, ids)[j].canUnload)
    ensures Marked(os, ids)[j].canUnload <==> os[j].canUnload || (j in ids && os[j].refCount <= 0)
  {
  }

  /** Marking twice is marking the union: the order in which operations
      are unloaded does not matter, and unloading twice is unloading once. */
  lemma MarkedUnion(os: seq<OpState>, a: set<nat>, b: set<nat>)
    ensures Marked(Marked(os, a), b) == Marked(os, a + b)
  {
  }

  /** The sweep loops of `Unload`: the entries whose provider is
      unloadable are removed from the table, the others kept as they were. */
  method Sweep(t: map<string, nat>, os: seq<OpState>) returns (r: map<string, nat>)
    requires forall k :: k in t ==> t[k] < |os|
    ensures forall k :: k in r <==> k in t && !os[t[k]].canUnload
    ensures forall k :: k in r ==> r[k] == t[k]
  {
    r := t;
    var keys := t.Keys;
    while keys != {}
      invariant keys <= t.Keys
      invariant forall k :: k in r <==> k in t && (k in keys || !os[t[k]].canUnload)
      invariant forall k :: k in r ==> r[k] == t[k]
      decreases |keys|
    {
      var k :| k in keys;
      if os[r[k]].canUnload {
        r := r - {k};
      }
      keys := keys - {k};
    }
  }

  /** The bundle loop of `OnPackageLoadCompleted`: a record is
      registered unless its name is, and a clash of MD5 is logged. */
  method RegisterBundles(m: map<string, BundleInfo>, log: seq<LogEntry>, bs: seq<BundleInfo>)
    returns (m': map<string, BundleInfo>, log': seq<LogEntry>)
    ensures m' == AddFirst(m, bs)
    ensures log' == log + Duplicates(m, bs)
  {
    m', log' := m, log;
    for k := 0 to |bs|
      invariant AddFirst(m', bs[k..]) == AddFirst(m, bs)
      invariant log' + Duplicates(m', bs[k..]) == log + Duplicates(m, bs)
    {
      var b := bs[k];
      assert bs[k..][1..] == bs[k + 1..];
      if b.name !in m' {
        m' := m'[b.name := b];
      } else if b.md5 != m'[b.name].md5 {
        log' := log' + [DuplicateBundle(b.name)];
      }
    }
  }

  /** The address loop of `OnPackageLoadCompleted`: each record is
      stamped with the package name, then registered under its address
      and its labels. */
  method RegisterAddresses(w: map<string, Wrap>, data: ManifestData) returns (w': map<string, Wrap>)
    ensures w' == AddAddresses(w, Stamp(data).addressInfos)
  {
    var infos := data.addressInfos;
    ghost var stamped := Stamp(data).addressInfos;
    w' := w;
    for k := 0 to |infos|
      invariant AddAddresses(w', stamped[k..]) == AddAddresses(w, stamped)
    {
      var info := infos[k].(packageName := data.packageName);
      assert info == stamped[k] && stamped[k..][1..] == stamped[k + 1..];
      if info.address !in w' {
        w' := w'[info.address := Wrap(Some(info), None)];
      }
      w' := RegisterLabels(w', info);
    }
  }

  /** The label loop: `info` added to the list of each of its labels,
      creating the missing keys. */
  method RegisterLabels(w: map<string, Wrap>, info: AddressInfo) returns (w': map<string, Wrap>)
    ensures w' == AddLabels(w, info, info.labels)
  {
    var labels := info.labels;
    w' := w;
    for j := 0 to |labels|
      invariant AddLabels(w', info, labels[j..]) == AddLabels(w, info, labels)
    {
      var l := labels[j];
      assert labels[j..][1..] == labels[j + 1..];
      var v := if l in w' then w'[l] else Wrap(None, None);
      w' := w'[l := AddToList(v, info)];
    }
  }

  /** The lookup of `address` finds a record whose bundle is not
      registered, so `GetBundleInfoByAddress` throws. */
  ghost predicate Unresolved(w: map<string, Wrap>, m: map<string, BundleInfo>, address: string)
    requires WrapsOk(w)
  {
    |Lookup(w, address)| > 0 && Lookup(w, address)[0].bundleName !in m
  }

  /** The `DependOps` an asset or scene provider for `address` gets: the
      provider of the bundle of the record found, or `null` when no record
      is found. */
  ghost function ProviderDeps(w: map<string, Wrap>, bp: map<string, nat>, address: string): Option<seq<nat>>
    requires WrapsOk(w)
  {
    var l := Lookup(w, address);
    if |l| == 0 || l[0].bundleName !in bp then None else Some([bp[l[0].bundleName]])
  }

  /** Some record of `infos` has an address without a provider in `ap`
      and a bundle that is not registered. */
  ghost predicate Blocked(w: map<string, Wrap>, m: map<string, BundleInfo>, ap: map<string, nat>, infos: seq<AddressInfo>)
    requires WrapsOk(w)
  {
    exists j :: 0 <= j < |infos| && infos[j].address !in ap && Unresolved(w, m, infos[j].address)
  }

  /** Operation `id` survives `Unload`: it is not unloadable yet and still
      has references. */
  ghost predicate Survives(os: seq<OpState>, id: nat) {
    id < |os| && !os[id].canUnload && os[id].refCount > 0
  }

  /** The sweep of one table after every provider was marked: the
      entries whose provider survives are kept. */
  method Prune(t: map<string, nat>, os: seq<OpState>, ghost os0: seq<OpState>, ghost ids: set<nat>)
    returns (r: map<string, nat>)
    requires os == Marked(os0, ids)
    requires forall k :: k in t ==> t[k] < |os0|
    requires ProviderIds(t) <= ids
    ensures forall k :: k in r <==> k in t && Survives(os0, t[k])
    ensures Extends(r, t)
  {
    r := Sweep(t, os);
    forall k | k in t
      ensures os[t[k]].canUnload <==> os0[t[k]].canUnload || os0[t[k]].refCount <= 0
      ensures os[t[k]].refCount == os0[t[k]].refCount
    {
      assert t[k] in ProviderIds(t);
      MarkedExactly(os0, ids, t[k]);
    }
  }

  /** `ds` is the list of the providers of `names`, in order. */
  ghost predicate Lists(bp: map<string, nat>, ds: seq<nat>, names: seq<string>) {
    |ds| == |names| && forall j :: 0 <= j < |names| ==> names[j] in bp && ds[j] == bp[names[j]]
  }

  /** `ops` is `prefix` followed by the asset providers of `infos`, in
      order. */
  ghost predicate Appended(ap: map<string, nat>, ops: seq<nat>, prefix: seq<nat>, infos: seq<AddressInfo>) {
    && |ops| == |prefix| + |infos| && ops[..|prefix|] == prefix
    && forall j :: 0 <= j < |infos| ==> infos[j].address in ap && ops[|prefix| + j] == ap[infos[j].address]
  }

  /** The providers a table holds. */
  ghost function ProviderIds(t: map<string, nat>): set<nat> {
    set k | k in t :: t[k]
  }

  /** The `Unload` loop over one provider table. */
  method UnloadAll(a: Operations, t: map<string, nat>)
    requires a.Valid() && forall k :: k in t ==> t[k] < |a.ops|
    modifies a
    ensures a.Valid() && a.deps == old(a.deps) && a.fired == old(a.fired)
    ensures a.ops == Marked(old(a.ops), ProviderIds(t))
  {
    var keys := t.Keys;
    ghost var os0 := a.ops;
    ghost var done: set<nat> := {};
    while keys != {}
      invariant keys <= t.Keys
      invariant a.Valid() && a.deps == old(a.deps) && a.fired == old(a.fired)
      invariant a.ops == Marked(os0, done)
      invariant done <= ProviderIds(t)
      invariant forall k :: k in t && k !in keys ==> t[k] in done
      decreases |keys|
    {
      var k :| k in keys;
      ghost var before := a.ops;
      a.Unload(t[k]);
      MarkOne(before, t[k], a.ops[t[k]]);
      MarkedUnion(os0, done, {t[k]});
      done := done + {t[k]};
      keys := keys - {k};
    }
    assert done == ProviderIds(t);
  }

  /** The arena after provider creation: operations are only appended,
      each new one fresh and reporting its hash code, and a `DependOps`
      once set stays. */
  ghost predicate Grew(ops0: seq<OpState>, deps0: seq<Option<seq<nat>>>, ops: seq<OpState>, deps: seq<Option<seq<nat>>>) {
    && ops0 <= ops && |deps0| <= |deps|
    && (forall j :: |ops0| <= j < |ops| ==> ops[j] == Fresh(BaseStatus(j)))
    && (forall j :: 0 <= j < |deps0| && deps0[j].Some? ==> deps[j] == deps0[j])
  }

  lemma GrewTrans(ops0: seq<OpState>, deps0: seq<Option<seq<nat>>>, ops1: seq<OpState>, deps1: seq<Option<seq<nat>>>,
                  ops: seq<OpState>, deps: seq<Option<seq<nat>>>)
    requires Grew(ops0, deps0, ops1, deps1) && Grew(ops1, deps1, ops, deps)
    ensures Grew(ops0, deps0, ops, deps)
  {
  }

  /** Every old entry of a provider table is kept. */
  ghost predicate Extends(t0: map<string, nat>, t: map<string, nat>) {
    forall k :: k in t0 ==> k in t && t[k] == t0[k]
  }

  /** `ResourcesManager`: static state in the source, one object here.
      `arena` holds the providers; the three provider tables map a bundle
      name, an address or a scene name to its provider. */
  class ResourcesManager {
    var packages: map<string, ManifestData>
    var wraps: map<string, Wrap>
    var bundleInfos: map<string, BundleInfo>
    var bundleProviders: map<string, nat>
    var assetProviders: map<string, nat>
    var sceneProviders: map<string, nat>
    /** Every `Debug.LogError` line so far, in order. */
    var log: seq<LogEntry>
    const arena: Operations

    ghost predicate Valid()
      reads this, arena
    {
      && arena.Valid()
      && WrapsOk(wraps)
      && (forall k :: k in bundleInfos ==> bundleInfos[k].name == k)
      && (forall k :: k in bundleProviders ==> bundleProviders[k] < |arena.ops|)
      && (forall k :: k in assetProviders ==> assetProviders[k] < |arena.ops|)
      && (forall k :: k in sceneProviders ==> sceneProviders[k] < |arena.ops|)
    }

    /** The manifest-derived tables, which only `OnPackageLoadCompleted`
        changes. */
    ghost function Loaded(): (map<string, ManifestData>, map<string, Wrap>, map<string, BundleInfo>)
      reads this
    {
      (packages, wraps, bundleInfos)
    }

    /** An empty registry. */
    constructor()
      ensures Valid() && fresh(arena) && arena.ops == [] && arena.fired == []
      ensures packages == map[] && wraps == map[] && bundleInfos == map[] && log == []
      ensures bundleProviders == map[] && assetProviders == map[] && sceneProviders == map[]
    {
      packages, wraps, bundleInfos := map[], map[], map[];
      bundleProviders, assetProviders, sceneProviders := map[], map[], map[];
      log := [];
      arena := new Operations();
    }

    /** `OnPackageLoadCompleted`, given what the package handle's
        `GetAsset<ManifestData>` returns: nothing happens without a
        manifest or for a package already registered; otherwise the
        manifest is registered, its bundle records first-wins with an error
        line for each clash of MD5, then its address records, stamped with
        the package name, under their addresses and labels. */
    method OnPackageLoadCompleted(asset: Option<ManifestData>)
      requires Valid()
      modifies this
      ensures Valid()
      ensures bundleProviders == old(bundleProviders) && assetProviders == old(assetProviders)
      ensures sceneProviders == old(sceneProviders)
      ensures asset.None? || asset.value.packageName in old(packages) ==>
        Loaded() == old(Loaded()) && log == old(log)
      ensures asset.Some? && asset.value.packageName !in old(packages) ==>
        packages == old(packages)[asset.value.packageName := Stamp(asset.value)]
      ensures asset.Some? && asset.value.packageName !in old(packages) ==>
        bundleInfos == AddFirst(old(bundleInfos), asset.value.bundleInfos)
      ensures asset.Some? && asset.value.packageName !in old(packages) ==>
        log == old(log) + Duplicates(old(bundleInfos), asset.value.bundleInfos)
      ensures asset.Some? && asset.value.packageName !in old(packages) ==>
        wraps == AddAddresses(old(wraps), Stamp(asset.value).addressInfos)
    {
      // updating a registered manifest is a to-do in the source
      if asset.Some? && asset.value.packageName !in packages {
        var data := asset.value;
        var bi, lg := RegisterBundles(bundleInfos, log, data.bundleInfos);
        var w := RegisterAddresses(wraps, data);
        AddFirstNamed(bundleInfos, data.bundleInfos);
        AddAddressesOk(wraps, Stamp(data).addressInfos);
        packages, bundleInfos, log, wraps := packages[data.packageName := Stamp(data)], bi, lg, w;
      }
    }

    /** `GetAddressInfos`: the label list of a key used as a label,
        otherwise the record registered under the address; nothing for an
        unknown key. */
    method GetAddressInfos(address: string) returns (list: seq<AddressInfo>)
      requires WrapsOk(wraps)
      ensures list == Lookup(wraps, address)
    {
      list := [];
      if address in wraps {
        if IsArray(wraps[address]) {
          var infos := wraps[address].infos.value;
          for k := 0 to |infos|
            invariant list == infos[..k]
          {
            list := list + [infos[k]];
          }
          assert infos[..|infos|] == infos;
        } else {
          list := list + [wraps[address].info.value];
        }
      }
    }

    /** `GetAddressInfo`: the first record `GetAddressInfos` lists, or
        `null`. */
    method GetAddressInfo(address: string) returns (r: Option<AddressInfo>)
      requires WrapsOk(wraps)
      ensures r.None? <==> |Lookup(wraps, address)| == 0
      ensures r.Some? ==> r.value == Lookup(wraps, address)[0]
    {
      var list := GetAddressInfos(address);
      r := if |list| > 0 then Some(list[0]) else None;
    }

    /** `GetBundleInfo`: the record registered under the name, or `null`. */
    function GetBundleInfo(bundleName: string): (r: Option<BundleInfo>)
      reads this
      ensures r.None? <==> bundleName !in bundleInfos
      ensures r.Some? ==> r.value == bundleInfos[bundleName]
    {
      if bundleName in bundleInfos then Some(bundleInfos[bundleName]) else None
    }

    /** `GetBundleInfoByAddress`: `null` for an unknown address; the
        dictionary indexer throws when the record's bundle is not
        registered. */
    method GetBundleInfoByAddress(address: string) returns (r: Result<Option<BundleInfo>>)
      requires WrapsOk(wraps)
      ensures r.Err? <==> Unresolved(wraps, bundleInfos, address)
      ensures r.Err? ==> r.fault == KeyNotFound
      ensures r.Ok? ==> (r.value.None? <==> |Lookup(wraps, address)| == 0)
      ensures r.Ok? && r.value.Some? ==> r.value.value == bundleInfos[Lookup(wraps, address)[0].bundleName]
    {
      var info := GetAddressInfo(address);
      if info.None? {
        return Ok(None);
      }
      if info.value.bundleName !in bundleInfos {
        return Err(KeyNotFound);
      }
      return Ok(Some(bundleInfos[info.value.bundleName]));
    }

    /** `GetAssetPackageName`: the package of the record found, or the
        empty string. */
    method GetAssetPackageName(address: string) returns (r: string)
      requires WrapsOk(wraps)
      ensures |Lookup(wraps, address)| == 0 ==> r == ""
      ensures |Lookup(wraps, address)| > 0 ==> r == Lookup(wraps, address)[0].packageName
    {
      var info := GetAddressInfo(address);
      r := if info.Some? then info.value.packageName else "";
    }

    /** `GetDependentAssetBundle(bundleName, list)`: walks the dependencies
        of `bundleName`'s record, listing and descending into each one not
        listed yet. A name without a record is a leaf. `pending` holds the
        bundles whose walk is in progress further up. */
    method GetDependentAssetBundle(bundleName: string, list0: seq<string>, ghost pending: set<string>)
      returns (list: seq<string>)
      requires Distinct(list0)
      requires Open(BundleGraph(bundleInfos), list0, pending + {bundleName})
      ensures Gathered(BundleGraph(bundleInfos), list0, list, bundleName, pending)
      decreases Targets(BundleGraph(bundleInfos)) - Members(list0)
    {
      ghost var g := BundleGraph(bundleInfos);
      var info := GetBundleInfo(bundleName);
      if info.None? {
        return list0;
      }
      var deps := info.value.dependencies.GetOr([]);
      assert g[bundleName] == Members(deps);
      list := list0;
      for i := 0 to |deps|
        invariant Gathering(g, list0, list, bundleName, pending)
        invariant Members(deps[..i]) <= Members(list)
      {
        var dep := deps[i];
        MembersPrefix(deps, i);
        if dep !in list {
          DistinctSnoc(list, dep);
          assert Members(list + [dep]) == Members(list) + {dep};
          assert dep in deps && bundleName in g && dep in g[bundleName];
          assert dep in Targets(g);
          assert dep in (Targets(g) - Members(list0)) - (Targets(g) - Members(list + [dep]));
          var more := GetDependentAssetBundle(dep, list + [dep], pending + {bundleName});
          GatherStep(g, list0, list, more, bundleName, dep, pending);
          list := more;
        }
      }
      assert deps[..|deps|] == deps;
    }

    /** The walk from an empty list, with the root taken out: exactly the
        bundles the root reaches, each once. */
    method DependentBundles(bundleName: string) returns (list: seq<string>)
      ensures Distinct(list) && Members(list) == Dependents(bundleInfos, bundleName)
    {
      ghost var g := BundleGraph(bundleInfos);
      var all := GetDependentAssetBundle(bundleName, [], {});
      forall x | x in Dependents(bundleInfos, bundleName) ensures x in all {
        GatheredReach(g, [], all, bundleName, x);
      }
      forall x | x in all ensures x in Targets(g) && Reaches(g, bundleName, x) {
        assert all[0..] == all;
        var y := ReachLast(g, bundleName, x);
      }
      RemoveFirstMembers(all, bundleName);
      list := RemoveFirst(all, bundleName);
    }

    /** `InternalCreateBundleProvider`: the registered provider of the
        bundle, or a new one. The package name only reaches the provider's
        constructor, which is not part of this model. */
    method InternalCreateBundleProvider(packageName: string, bundleName: string) returns (id: nat)
      requires Valid()
      modifies this, arena
      ensures Valid() && Loaded() == old(Loaded()) && log == old(log)
      ensures assetProviders == old(assetProviders) && sceneProviders == old(sceneProviders)
      ensures arena.fired == old(arena.fired)
      ensures bundleName in bundleProviders && id == bundleProviders[bundleName]
      ensures bundleName in old(bundleProviders) ==>
        bundleProviders == old(bundleProviders) && arena.ops == old(arena.ops) && arena.deps == old(arena.deps)
      ensures bundleName !in old(bundleProviders) ==>
        id == old(|arena.ops|) && bundleProviders == old(bundleProviders)[bundleName := id]
      ensures bundleName !in old(bundleProviders) ==>
        arena.ops == old(arena.ops) + [Fresh(BaseStatus(id))] && arena.deps == old(arena.deps) + [None]
    {
      if bundleName in bundleProviders {
        return bundleProviders[bundleName];
      }
      id := arena.Create(None, BaseStatus(|arena.ops|));
      bundleProviders := bundleProviders[bundleName := id];
    }

    /** `CreateBundleDependProvider`: a provider, registered or new, for
        each bundle the bundle reaches, in the order of the walk. */
    method CreateBundleDependProvider(packageName: string, bundleName: string)
      returns (ds: seq<nat>, ghost names: seq<string>)
      requires Valid()
      modifies this, arena
      ensures Valid() && Loaded() == old(Loaded()) && log == old(log)
      ensures assetProviders == old(assetProviders) && sceneProviders == old(sceneProviders)
      ensures arena.fired == old(arena.fired) && Extends(old(bundleProviders), bundleProviders)
      ensures Grew(old(arena.ops), old(arena.deps), arena.ops, arena.deps)
      ensures Distinct(names) && Members(names) == Dependents(bundleInfos, bundleName)
      ensures Lists(bundleProviders, ds, names)
    {
      var list := DependentBundles(bundleName);
      names := list;
      ds := [];
      for k := 0 to |list|
        invariant Valid() && Loaded() == old(Loaded()) && log == old(log)
        invariant assetProviders == old(assetProviders) && sceneProviders == old(sceneProviders)
        invariant arena.fired == old(arena.fired) && Extends(old(bundleProviders), bundleProviders)
        invariant Grew(old(arena.ops), old(arena.deps), arena.ops, arena.deps)
        invariant Lists(bundleProviders, ds, list[..k])
      {
        var id := InternalCreateBundleProvider(packageName, list[k]);
        ds := ds + [id];
      }
      assert list[..|list|] == list;
    }

    /** The `DependOps` of bundle provider `op` are set: as they were in
        `deps0`, or to the providers of the bundles `root` reaches. */
    ghost predicate Wired(op: nat, deps0: seq<Option<seq<nat>>>, root: string, names: seq<string>)
      reads this, arena
      requires op < |arena.deps|
    {
      && arena.deps[op].Some?
      && ((op < |deps0| && arena.deps[op] == deps0[op]) ||
          (Distinct(names) && Members(names) == Dependents(bundleInfos, root) &&
           Lists(bundleProviders, arena.deps[op].value, names)))
    }

    /** `op.DependOps ??= CreateBundleDependProvider(...)`. */
    method DependOnce(packageName: string, op: nat, bundleName: string) returns (ghost names: seq<string>)
      requires Valid() && op < |arena.ops|
      modifies this, arena
      ensures Valid() && Loaded() == old(Loaded()) && log == old(log)
      ensures assetProviders == old(assetProviders) && sceneProviders == old(sceneProviders)
      ensures arena.fired == old(arena.fired) && Extends(old(bundleProviders), bundleProviders)
      ensures Grew(old(arena.ops), old(arena.deps), arena.ops, arena.deps)
      ensures old(arena.deps[op]).Some? ==> arena.deps == old(arena.deps) && arena.ops == old(arena.ops)
      ensures old(arena.deps[op]).Some? ==> bundleProviders == old(bundleProviders)
      ensures Wired(op, old(arena.deps), bundleName, names)
    {
      names := [];
      if arena.deps[op].None? {
        var ds;
        ds, names := CreateBundleDependProvider(packageName, bundleName);
        arena.SetDependOps(op, Some(ds));
      }
    }

    /** `CreateBundleProvider`: `null` for an unknown address; otherwise
        the provider of the record's bundle, whose `DependOps`, when still
        `null`, become the providers of what the bundle reaches. Throws
        when the bundle is not registered. */
    method CreateBundleProvider(packageName: string, address: string)
      returns (r: Result<Option<seq<nat>>>, ghost names: seq<string>)
      requires Valid()
      modifies this, arena
      ensures Valid() && Loaded() == old(Loaded()) && log == old(log)
      ensures assetProviders == old(assetProviders) && sceneProviders == old(sceneProviders)
      ensures arena.fired == old(arena.fired) && Extends(old(bundleProviders), bundleProviders)
      ensures Grew(old(arena.ops), old(arena.deps), arena.ops, arena.deps)
      ensures r.Err? <==> Unresolved(wraps, bundleInfos, address)
      ensures r.Err? ==> r.fault == KeyNotFound
      ensures r.Err? || r.value.None? ==>
        bundleProviders == old(bundleProviders) && arena.ops == old(arena.ops) && arena.deps == old(arena.deps)
      ensures r.Ok? ==> r.value == ProviderDeps(wraps, bundleProviders, address)
      ensures r.Ok? ==> (r.value.None? <==> |Lookup(wraps, address)| == 0)
      ensures r.Ok? && r.value.Some? ==>
        Wired(bundleProviders[Lookup(wraps, address)[0].bundleName], old(arena.deps),
              Lookup(wraps, address)[0].bundleName, names)
    {
      names := [];
      var info := GetBundleInfoByAddress(address);
      if info.Err? {
        return Err(info.fault), names;
      }
      if info.value.None? {
        return Ok(None), names;
      }
      var b := info.value.value;
      var op := InternalCreateBundleProvider(packageName, b.name);
      names := DependOnce(packageName, op, b.name);
      r := Ok(Some([op]));
    }

    /** `InternalCreateAssetProviderHandle`: the registered provider of
        the record's address, or a new one depending on the bundle
        provider; nothing is registered when that throws. */
    method InternalCreateAssetProviderHandle(info: AddressInfo) returns (r: Result<nat>)
      requires Valid()
      modifies this, arena
      ensures Valid() && Loaded() == old(Loaded()) && log == old(log) && sceneProviders == old(sceneProviders)
      ensures arena.fired == old(arena.fired) && Extends(old(bundleProviders), bundleProviders)
      ensures Grew(old(arena.ops), old(arena.deps), arena.ops, arena.deps)
      ensures info.address in old(assetProviders) ==> r == Ok(old(assetProviders)[info.address])
      ensures info.address !in old(assetProviders) ==> (r.Err? <==> Unresolved(wraps, bundleInfos, info.address))
      ensures r.Err? ==> r.fault == KeyNotFound
      ensures r.Err? || info.address in old(assetProviders) ==>
        assetProviders == old(assetProviders) && bundleProviders == old(bundleProviders)
      ensures r.Err? || info.address in old(assetProviders) ==>
        arena.ops == old(arena.ops) && arena.deps == old(arena.deps)
      ensures r.Ok? && info.address !in old(assetProviders) ==>
        assetProviders == old(assetProviders)[info.address := r.value] && r.value == |arena.ops| - 1
      ensures r.Ok? && info.address !in old(assetProviders) ==>
        arena.deps[r.value] == ProviderDeps(wraps, bundleProviders, info.address)
    {
      if info.address in assetProviders {
        return Ok(assetProviders[info.address]);
      }
      var d, names := CreateBundleProvider(info.packageName, info.address);
      if d.Err? {
        return Err(d.fault);
      }
      var id := arena.Create(d.value, BaseStatus(|arena.ops|));
      assetProviders := assetProviders[info.address := id];
      r := Ok(id);
    }

    /** `CreateAssetProviderHandles`: an error line when nothing is found
        under the key, then the provider of each record found, appended to
        `dependsOps`. Throws at the first record whose provider is new and
        whose bundle is not registered. */
    method CreateAssetProviderHandles(address: string, dependsOps: seq<nat>) returns (r: Result<seq<nat>>)
      requires Valid()
      modifies this, arena
      ensures Valid() && Loaded() == old(Loaded()) && sceneProviders == old(sceneProviders)
      ensures log == old(log) + if |Lookup(wraps, address)| == 0 then [AddressNotFound(address)] else []
      ensures arena.fired == old(arena.fired) && Extends(old(bundleProviders), bundleProviders)
      ensures Extends(old(assetProviders), assetProviders)
      ensures Grew(old(arena.ops), old(arena.deps), arena.ops, arena.deps)
      ensures r.Err? <==> Blocked(wraps, bundleInfos, old(assetProviders), Lookup(wraps, address))
      ensures r.Ok? ==> Appended(assetProviders, r.value, dependsOps, Lookup(wraps, address))
    {
      var infos := GetAddressInfos(address);
      if |infos| == 0 {
        log := log + [AddressNotFound(address)];
      }
      r := AddAssetProviders(infos, dependsOps);
    }

    /** The loop of `CreateAssetProviderHandles`. */
    method AddAssetProviders(infos: seq<AddressInfo>, dependsOps: seq<nat>) returns (r: Result<seq<nat>>)
      requires Valid()
      modifies this, arena
      ensures Valid() && Loaded() == old(Loaded()) && log == old(log) && sceneProviders == old(sceneProviders)
      ensures arena.fired == old(arena.fired) && Extends(old(bundleProviders), bundleProviders)
      ensures Extends(old(assetProviders), assetProviders)
      ensures Grew(old(arena.ops), old(arena.deps), arena.ops, arena.deps)
      ensures r.Err? <==> Blocked(wraps, bundleInfos, old(assetProviders), infos)
      ensures r.Ok? ==> Appended(assetProviders, r.value, dependsOps, infos)
    {
      ghost var w, m, ap0 := wraps, bundleInfos, assetProviders;
      var ops := dependsOps;
      for k := 0 to |infos|
        invariant Valid() && Loaded() == old(Loaded()) && log == old(log) && sceneProviders == old(sceneProviders)
        invariant arena.fired == old(arena.fired) && Extends(old(bundleProviders), bundleProviders)
        invariant Extends(ap0, assetProviders)
        invariant Grew(old(arena.ops), old(arena.deps), arena.ops, arena.deps)
        invariant forall a :: a in assetProviders && a !in ap0 ==> !Unresolved(w, m, a)
        invariant forall j :: 0 <= j < k ==> !(infos[j].address !in ap0 && Unresolved(w, m, infos[j].address))
        invariant Appended(assetProviders, ops, dependsOps, infos[..k])
      {
        var p := InternalCreateAssetProviderHandle(infos[k]);
        if p.Err? {
          return Err(p.fault);
        }
        ops := ops + [p.value];
      }
      assert infos[..|infos|] == infos;
      r := Ok(ops);
    }

    /** `CreateAssetHandle(address)`: a handle on the provider of the first
        record found, or an empty handle when nothing is found. */
    method CreateAssetHandle(address: string) returns (r: Result<Handle>)
      requires Valid()
      modifies this, arena
      ensures Valid() && Loaded() == old(Loaded()) && sceneProviders == old(sceneProviders)
      ensures log == old(log) + if |Lookup(wraps, address)| == 0 then [AddressNotFound(address)] else []
      ensures arena.fired == old(arena.fired) && Extends(old(bundleProviders), bundleProviders)
      ensures Extends(old(assetProviders), assetProviders)
      ensures Grew(old(arena.ops), old(arena.deps), arena.ops, arena.deps)
      ensures r.Err? <==> Blocked(wraps, bundleInfos, old(assetProviders), Lookup(wraps, address))
      ensures r.Ok? ==> Refers(arena, r.value)
      ensures r.Ok? ==> (r.value.op.None? <==> |Lookup(wraps, address)| == 0)
      ensures r.Ok? && r.value.op.Some? ==>
        Lookup(wraps, address)[0].address in assetProviders &&
        r.value.op.value == assetProviders[Lookup(wraps, address)[0].address]
    {
      var ds := CreateAssetProviderHandles(address, []);
      if ds.Err? {
        return Err(ds.fault);
      }
      if |ds.value| > 0 {
        assert ds.value[0] == assetProviders[Lookup(wraps, address)[0].address];
        return Ok(Handle(Some(ds.value[0])));
      }
      return Ok(Handle(None));
    }

    /** `CreateSceneHandle`: a handle on the registered provider of the
        scene, or on a new one depending on the bundle provider of the
        scene's record. The load mode only reaches the provider's
        constructor. */
    method CreateSceneHandle(sceneName: string) returns (r: Result<Handle>)
      requires Valid()
      modifies this, arena
      ensures Valid() && Loaded() == old(Loaded()) && log == old(log) && assetProviders == old(assetProviders)
      ensures arena.fired == old(arena.fired) && Extends(old(bundleProviders), bundleProviders)
      ensures Extends(old(sceneProviders), sceneProviders)
      ensures Grew(old(arena.ops), old(arena.deps), arena.ops, arena.deps)
      ensures sceneName in old(sceneProviders) ==> r == Ok(Handle(Some(old(sceneProviders)[sceneName])))
      ensures sceneName !in old(sceneProviders) ==> (r.Err? <==> Unresolved(wraps, bundleInfos, sceneName))
      ensures r.Err? ==> r.fault == KeyNotFound && sceneProviders == old(sceneProviders)
      ensures r.Ok? ==> Refers(arena, r.value) && r.value.op.Some?
      ensures r.Ok? && sceneName !in old(sceneProviders) ==>
        sceneProviders == old(sceneProviders)[sceneName := r.value.op.value]
      ensures r.Ok? && sceneName !in old(sceneProviders) ==>
        r.value.op.value == |arena.ops| - 1 &&
        arena.deps[r.value.op.value] == ProviderDeps(wraps, bundleProviders, sceneName)
    {
      var packageName := GetAssetPackageName(sceneName);
      if sceneName !in sceneProviders {
        var d, names := CreateBundleProvider(packageName, sceneName);
        if d.Err? {
          return Err(d.fault);
        }
        var id := arena.Create(d.value, BaseStatus(|arena.ops|));
        sceneProviders := sceneProviders[sceneName := id];
      }
      r := Ok(Handle(Some(sceneProviders[sceneName])));
    }

    /** `Unload`: every provider of the three tables is asked to unload,
        then each table drops the providers that became unloadable. A
        provider stays exactly when it was not unloadable and still has
        references. */
    method Unload()
      requires Valid()
      modifies this, arena
      ensures Valid() && Loaded() == old(Loaded()) && log == old(log)
      ensures arena.deps == old(arena.deps) && arena.fired == old(arena.fired)
      ensures arena.ops == Marked(old(arena.ops),
        ProviderIds(old(assetProviders)) + ProviderIds(old(sceneProviders)) + ProviderIds(old(bundleProviders)))
      ensures forall k :: k in assetProviders <==> k in old(assetProviders) && Survives(old(arena.ops), old(assetProviders)[k])
      ensures forall k :: k in sceneProviders <==> k in old(sceneProviders) && Survives(old(arena.ops), old(sceneProviders)[k])
      ensures forall k :: k in bundleProviders <==> k in old(bundleProviders) && Survives(old(arena.ops), old(bundleProviders)[k])
      ensures Extends(assetProviders, old(assetProviders)) && Extends(sceneProviders, old(sceneProviders))
      ensures Extends(bundleProviders, old(bundleProviders))
    {
      ghost var os0 := arena.ops;
      ghost var ids := ProviderIds(assetProviders) + ProviderIds(sceneProviders) + ProviderIds(bundleProviders);
      MarkAll();
      SweepAll(os0, ids);
    }

    /** The three `Unload` loops. */
    method MarkAll()
      requires Valid()
      modifies arena
      ensures Valid()
      ensures arena.deps == old(arena.deps) && arena.fired == old(arena.fired)
      ensures arena.ops == Marked(old(arena.ops),
        ProviderIds(assetProviders) + ProviderIds(sceneProviders) + ProviderIds(bundleProviders))
    {
      ghost var os0 := arena.ops;
      ghost var A, S, B := ProviderIds(assetProviders), ProviderIds(sceneProviders), ProviderIds(bundleProviders);
      UnloadAll(arena, assetProviders);
      ghost var os1 := arena.ops;
      UnloadAll(arena, sceneProviders);
      ghost var os2 := arena.ops;
      UnloadAll(arena, bundleProviders);
      assert os1 == Marked(os0, A) && os2 == Marked(os1, S) && arena.ops == Marked(os2, B);
      MarkedUnion(os0, A, S);
      MarkedUnion(os0, A + S, B);
    }

    /** The three sweep loops, after every provider was marked. */
    method SweepAll(ghost os0: seq<OpState>, ghost ids: set<nat>)
      requires Valid() && |os0| == |arena.ops| && arena.ops == Marked(os0, ids)
      requires ids == ProviderIds(assetProviders) + ProviderIds(sceneProviders) + ProviderIds(bundleProviders)
      modifies this
      ensures Valid() && Loaded() == old(Loaded()) && log == old(log)
      ensures forall k :: k in assetProviders <==> k in old(assetProviders) && Survives(os0, old(assetProviders)[k])
      ensures forall k :: k in sceneProviders <==> k in old(sceneProviders) && Survives(os0, old(sceneProviders)[k])
      ensures forall k :: k in bundleProviders <==> k in old(bundleProviders) && Survives(os0, old(bundleProviders)[k])
      ensures Extends(assetProviders, old(assetProviders)) && Extends(sceneProviders, old(sceneProviders))
      ensures Extends(bundleProviders, old(bundleProviders))
    {
      var os := arena.ops;
      var a := Prune(assetProviders, os, os0, ids);
      var sc := Prune(sceneProviders, os, os0, ids);
      var b := Prune(bundleProviders, os, os0, ids);
      assetProviders, sceneProviders, bundleProviders := a, sc, b;
    }
  }
}
