/** The records of a package manifest, written at build time and read back
    at run time, and the first-match lookups over them. */
module Manifest {
  import opened Wrappers
  import opened Collections
  import opened Graphs

  /** `BundleInfo`: one built bundle. `dependencies` is `None` when the
      manifest stage left the array `null`. */
  datatype BundleInfo = BundleInfo(
    name: string,
    md5: string,
    size: nat,
    sizeStr: string,
    crc: string,
    bundleCrc: nat,
    dependencies: Option<seq<string>>,
    indirectDependencies: Option<seq<string>>,
    includeAssets: seq<string>,
    referenceAssets: seq<string>)

  /** `AddressInfo`: where one addressable asset lives. */
  datatype AddressInfo = AddressInfo(
    address: string,
    labels: seq<string>,
    assetPath: string,
    bundleName: string,
    packageName: string)

  /** `ManifestData`: everything one package ships. */
  datatype ManifestData = ManifestData(
    packageName: string,
    version: string,
    addressInfos: seq<AddressInfo>,
    bundleInfos: seq<BundleInfo>,
    loadPath: string)

  /** `BundleInfos.FirstOrDefault(v => v.Name.Equals(name))`. */
  function FindBundle(infos: seq<BundleInfo>, name: string): (r: Option<BundleInfo>)
    ensures r.None? <==> forall i :: 0 <= i < |infos| ==> infos[i].name != name
    ensures forall i :: 0 <= i < |infos| && infos[i].name == name ==>
      (forall j :: 0 <= j < i ==> infos[j].name != name) ==> r == Some(infos[i])
  {
    if infos == [] then None
    else if infos[0].name == name then Some(infos[0])
    else FindBundle(infos[1..], name)
  }

  /** `AddressInfos.Find(e => e.Address.Equals(address))`. */
  function FindAddress(infos: seq<AddressInfo>, address: string): (r: Option<AddressInfo>)
    ensures r.None? <==> forall i :: 0 <= i < |infos| ==> infos[i].address != address
    ensures forall i :: 0 <= i < |infos| && infos[i].address == address ==>
      (forall j :: 0 <= j < i ==> infos[j].address != address) ==> r == Some(infos[i])
  {
    if infos == [] then None
    else if infos[0].address == address then Some(infos[0])
    else FindAddress(infos[1..], address)
  }

  /** Registers `infos` into `m` in order; a name already present keeps its
      first record. */
  function AddFirst(m: map<string, BundleInfo>, infos: seq<BundleInfo>): map<string, BundleInfo>
    decreases |infos|
  {
    if infos == [] then m
    else AddFirst(if infos[0].name in m then m else m[infos[0].name := infos[0]], infos[1..])
  }

  /** Registration is first-wins: an old key keeps its record, and a new
      key gets the first record of that name. */
  lemma {:induction false} AddFirstWins(m: map<string, BundleInfo>, infos: seq<BundleInfo>)
    ensures forall k :: k in AddFirst(m, infos) <==> k in m || FindBundle(infos, k).Some?
    ensures forall k :: k in m ==> AddFirst(m, infos)[k] == m[k]
    ensures forall k :: k !in m && FindBundle(infos, k).Some? ==>
      AddFirst(m, infos)[k] == FindBundle(infos, k).value
    decreases |infos|
  {
    if infos != [] {
      var m' := if infos[0].name in m then m else m[infos[0].name := infos[0]];
      AddFirstWins(m', infos[1..]);
    }
  }

  /** The dependency lists of the records with one, as a graph. */
  ghost function DependGraph(m: map<string, BundleInfo>): Digraph<string> {
    map n | n in m && m[n].dependencies.Some? :: set d | d in m[n].dependencies.value
  }

  /** Every name any record lists as a dependency. */
  ghost function DependNames(m: map<string, BundleInfo>): set<string> {
    set n, d | n in m && m[n].dependencies.Some? && d in m[n].dependencies.value :: d
  }
}
