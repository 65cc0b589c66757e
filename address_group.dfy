/** A folder's group of entries and its lookup cache (`AssetAddressGroupInfo`).
    The cache files every entry under its address, its asset path, its guid
    and each of its labels; one key can list several entries. */
module Groups {
  import opened Wrappers
  import opened Strings
  import opened Collections
  import opened Engine
  import opened Entries

  type Cache = map<string, seq<AssetAddressEntry>>

  /** The list filed under `k`, empty when the key is absent. */
  function Lookup(m: Cache, k: string): seq<AssetAddressEntry> {
    if k in m then m[k] else []
  }

  /** `n` copies of `e`. */
  function Repeat(e: AssetAddressEntry, n: nat): (r: seq<AssetAddressEntry>)
    ensures |r| == n && forall i :: 0 <= i < n ==> r[i] == e
  {
    if n == 0 then [] else Repeat(e, n - 1) + [e]
  }

  /** The keys an entry is filed under, in the order `AddCache` files it. */
  function KeysOf(e: AssetAddressEntry): seq<string>
    reads e
  {
    [e.address, e.assetPath, e.guid] + e.labels
  }

  /** Appends `e` to the list of every key in `keys`, creating missing lists. */
  function Push(m: Cache, keys: seq<string>, e: AssetAddressEntry): Cache
    decreases |keys|
  {
    if keys == [] then m
    else
      var m1 := Push(m, keys[..|keys| - 1], e);
      var k := keys[|keys| - 1];
      m1[k := Lookup(m1, k) + [e]]
  }

  /** Each key's list grows by one `e` per occurrence of the key in `keys`. */
  lemma {:induction false} PushLookup(m: Cache, keys: seq<string>, e: AssetAddressEntry, k: string)
    ensures Lookup(Push(m, keys, e), k) == Lookup(m, k) + Repeat(e, CountOf(keys, k))
    decreases |keys|
  {
    if keys != [] {
      var front := keys[..|keys| - 1];
      var last := keys[|keys| - 1];
      assert keys == front + [last];
      CountOfSnoc(front, last, k);
      PushLookup(m, front, e, k);
      PushSnoc(m, front, last, e, k);
      if last == k {
        RepeatSnoc(e, CountOf(front, k));
        AppendAssoc(Lookup(m, k), Repeat(e, CountOf(front, k)), [e]);
      }
    }
  }

  lemma PushSnoc(m: Cache, front: seq<string>, last: string, e: AssetAddressEntry, k: string)
    ensures Lookup(Push(m, front + [last], e), k) == Lookup(Push(m, front, e), k) + if last == k then [e] else []
  {
    assert (front + [last])[..|front|] == front;
  }

  lemma AppendAssoc<T>(a: seq<T>, b: seq<T>, c: seq<T>)
    ensures (a + b) + c == a + (b + c)
  {
  }

  lemma RepeatSnoc(e: AssetAddressEntry, n: nat)
    ensures Repeat(e, n + 1) == Repeat(e, n) + [e]
  {
  }

  /** The cache after `AddCache(e)`. */
  function AddCache(m: Cache, e: AssetAddressEntry): Cache
    reads e
  {
    Push(m, KeysOf(e), e)
  }

  /** The cache `GenerateCache` builds from the entries alone. */
  function Index(es: seq<AssetAddressEntry>): Cache
    reads es
  {
    if es == [] then map[]
    else AddCache(Index(es[..|es| - 1]), es[|es| - 1])
  }

  /** The position of the first entry filed under `k`, or -1. */
  function FirstFiledUnder(es: seq<AssetAddressEntry>, k: string): (r: int)
    reads es
    ensures -1 <= r < |es|
    ensures r >= 0 ==> k in KeysOf(es[r])
    ensures forall i :: 0 <= i < |es| && (r < 0 || i < r) ==> k !in KeysOf(es[i])
  {
    if es == [] then -1
    else if k in KeysOf(es[0]) then 0
    else
      var r := FirstFiledUnder(es[1..], k);
      if r < 0 then -1 else r + 1
  }

  /** An entry is listed under `k` in the rebuilt cache exactly when it is
      one of the entries and `k` is one of its keys. */
  lemma IndexMembers(es: seq<AssetAddressEntry>, k: string, e: AssetAddressEntry)
    ensures e in Lookup(Index(es), k) <==> exists i :: 0 <= i < |es| && es[i] == e && k in KeysOf(es[i])
  {
    if e in Lookup(Index(es), k) {
      IndexListed(es, k, e);
    }
    if exists i :: 0 <= i < |es| && es[i] == e && k in KeysOf(es[i]) {
      var i :| 0 <= i < |es| && es[i] == e && k in KeysOf(es[i]);
      ListedIndex(es, k, i);
    }
  }

  /** The entries the rebuilt cache lists under `k` are entries filed under `k`. */
  lemma {:induction false} IndexListed(es: seq<AssetAddressEntry>, k: string, e: AssetAddressEntry)
    requires e in Lookup(Index(es), k)
    ensures exists i :: 0 <= i < |es| && es[i] == e && k in KeysOf(es[i])
    decreases |es|
  {
    var front := es[..|es| - 1];
    var last := es[|es| - 1];
    var n := CountOf(KeysOf(last), k);
    PushLookup(Index(front), KeysOf(last), last, k);
    assert Lookup(Index(es), k) == Lookup(Index(front), k) + Repeat(last, n);
    if e in Lookup(Index(front), k) {
      IndexListed(front, k, e);
      var i :| 0 <= i < |front| && front[i] == e && k in KeysOf(front[i]);
      assert es[i] == e && k in KeysOf(es[i]);
    } else {
      var j :| 0 <= j < n && Repeat(last, n)[j] == e;
      assert k in KeysOf(last) <==> n > 0;
      assert es[|es| - 1] == e && k in KeysOf(es[|es| - 1]);
    }
  }

  /** Every entry filed under `k` is listed under `k` in the rebuilt cache. */
  lemma {:induction false} ListedIndex(es: seq<AssetAddressEntry>, k: string, i: nat)
    requires i < |es| && k in KeysOf(es[i])
    ensures es[i] in Lookup(Index(es), k)
    decreases |es|
  {
    var front := es[..|es| - 1];
    var last := es[|es| - 1];
    var n := CountOf(KeysOf(last), k);
    PushLookup(Index(front), KeysOf(last), last, k);
    assert Lookup(Index(es), k) == Lookup(Index(front), k) + Repeat(last, n);
    if i < |es| - 1 {
      assert front[i] == es[i];
      ListedIndex(front, k, i);
    } else {
      assert k in KeysOf(last) <==> n > 0;
      assert Repeat(last, n)[0] == es[i];
    }
  }

  /** The rebuilt cache lists under `k` the first entry that has `k` as its
      address, path, guid or one of its labels; nothing when none has. */
  lemma {:induction false} IndexFirst(es: seq<AssetAddressEntry>, k: string)
    ensures Lookup(Index(es), k) == [] <==> FirstFiledUnder(es, k) < 0
    ensures FirstFiledUnder(es, k) >= 0 ==> Lookup(Index(es), k)[0] == es[FirstFiledUnder(es, k)]
    decreases |es|
  {
    if es != [] {
      var front := es[..|es| - 1];
      var last := es[|es| - 1];
      IndexFirst(front, k);
      PushLookup(Index(front), KeysOf(last), last, k);
      assert k in KeysOf(last) <==> CountOf(KeysOf(last), k) > 0;
      FirstFiledUnderPrefix(es, k);
    }
  }

  /** The first hit in a sequence is the first hit in its front, if there is one there. */
  lemma FirstFiledUnderPrefix(es: seq<AssetAddressEntry>, k: string)
    requires es != []
    ensures var front := es[..|es| - 1];
      FirstFiledUnder(es, k) == if FirstFiledUnder(front, k) >= 0 then FirstFiledUnder(front, k)
        else if k in KeysOf(es[|es| - 1]) then |es| - 1 else -1
  {
    var front := es[..|es| - 1];
    var f := FirstFiledUnder(front, k);
    var r := FirstFiledUnder(es, k);
    assert forall i :: 0 <= i < |front| ==> front[i] == es[i];
    if f >= 0 {
      assert r <= f;
      assert r >= 0 ==> r >= f;
    }
  }

  /** Takes one `e` out of the list under each of `keys` that is present. */
  function RemoveFromLists(m: Cache, keys: seq<string>, e: AssetAddressEntry): (r: Cache)
    ensures r.Keys == m.Keys
    decreases |keys|
  {
    if keys == [] then m
    else
      var m1 := RemoveFromLists(m, keys[..|keys| - 1], e);
      var k := keys[|keys| - 1];
      if k in m1 then m1[k := RemoveFirst(m1[k], e)] else m1
  }

  /** The cache after `RemoveCache(e)`: the address, path and guid keys go
      entirely; each label list loses one `e`. */
  function RemoveCache(m: Cache, e: AssetAddressEntry): (r: Cache)
    reads e`address, e`assetPath, e`guid, e`labels
    ensures e.address !in r && e.assetPath !in r && e.guid !in r
    ensures forall k :: k in r <==> k in m && k != e.address && k != e.assetPath && k != e.guid
  {
    RemoveFromLists(m - {e.address, e.assetPath, e.guid}, e.labels, e)
  }

  /** The position of the first entry whose path or address is `p`, or -1 (`List.Find`). */
  function FindEntry(es: seq<AssetAddressEntry>, p: string): (r: int)
    reads es`assetPath, es`address
    ensures -1 <= r < |es|
    ensures r >= 0 ==> es[r].assetPath == p || es[r].address == p
    ensures forall i :: 0 <= i < |es| && (r < 0 || i < r) ==> es[i].assetPath != p && es[i].address != p
  {
    if es == [] then -1
    else if es[0].assetPath == p || es[0].address == p then 0
    else
      var r := FindEntry(es[1..], p);
      if r < 0 then -1 else r + 1
  }

  /** The entries' (path, address) pairs. */
  ghost function EntryKeys(es: seq<AssetAddressEntry>): (r: seq<(string, string)>)
    reads es`assetPath, es`address
    ensures KeysMatch(es, r)
  {
    if es == [] then [] else [(es[0].assetPath, es[0].address)] + EntryKeys(es[1..])
  }

  /** `ks` holds the path and address of each entry of `es`. */
  ghost predicate KeysMatch(es: seq<AssetAddressEntry>, ks: seq<(string, string)>)
    reads es`assetPath, es`address
  {
    |es| == |ks| && forall j :: 0 <= j < |es| ==> es[j].assetPath == ks[j].0 && es[j].address == ks[j].1
  }

  /** `FindEntry` on (path, address) pairs. */
  function FindKey(ks: seq<(string, string)>, p: string): (r: int)
    ensures -1 <= r < |ks|
  {
    if ks == [] then -1
    else if ks[0].0 == p || ks[0].1 == p then 0
    else
      var r := FindKey(ks[1..], p);
      if r < 0 then -1 else r + 1
  }

  lemma {:induction false} FindKeyIsFindEntry(es: seq<AssetAddressEntry>, ks: seq<(string, string)>, p: string)
    requires KeysMatch(es, ks)
    ensures FindEntry(es, p) == FindKey(ks, p)
  {
    if es != [] {
      FindKeyIsFindEntry(es[1..], ks[1..], p);
    }
  }

  /** Entries in ordinal order of their asset paths. */
  ghost predicate SortedByPath(es: seq<AssetAddressEntry>)
    reads es`assetPath
  {
    forall i :: 0 < i < |es| ==> Le(es[i - 1].assetPath, es[i].assetPath)
  }

  function InsertByPath(e: AssetAddressEntry, es: seq<AssetAddressEntry>): (r: seq<AssetAddressEntry>)
    reads e`assetPath, es`assetPath
    requires SortedByPath(es)
    ensures SortedByPath(r)
    ensures multiset(r) == multiset(es) + multiset{e}
    ensures r[0] == e || (es != [] && r[0] == es[0])
  {
    if es == [] then [e]
    else if Le(es[0].assetPath, e.assetPath) then
      var rest := InsertByPath(e, es[1..]);
      assert es == [es[0]] + es[1..];
      assert |es| > 1 ==> Le(es[0].assetPath, es[1].assetPath);
      ConsSortedByPath(es[0], rest);
      [es[0]] + rest
    else
      LeTotal(es[0].assetPath, e.assetPath);
      ConsSortedByPath(e, es);
      [e] + es
  }

  lemma ConsSortedByPath(x: AssetAddressEntry, es: seq<AssetAddressEntry>)
    requires SortedByPath(es)
    requires es != [] ==> Le(x.assetPath, es[0].assetPath)
    ensures SortedByPath([x] + es)
  {
  }

  /** `entries.Sort((a, b) => string.CompareOrdinal(a.AssetPath, b.AssetPath))`, as a stable sort.
      `List.Sort` is not stable; the two agree whenever the asset paths are
      distinct, as they are when every entry came through `AddAssetEntry`,
      which adds a path only when it finds no entry for it. */
  function SortByPath(es: seq<AssetAddressEntry>): (r: seq<AssetAddressEntry>)
    reads es`assetPath
    ensures SortedByPath(r)
    ensures multiset(r) == multiset(es)
  {
    if es == [] then []
    else
      var front := es[..|es| - 1];
      assert es == front + [es[|es| - 1]];
      var sorted := SortByPath(front);
      assert forall i | 0 <= i < |sorted| :: sorted[i] in es by {
        forall i | 0 <= i < |sorted| ensures sorted[i] in es {
          assert sorted[i] in multiset(front);
        }
      }
      InsertByPath(es[|es| - 1], sorted)
  }

  /** The first element, `null` for an empty list. */
  function First(s: seq<AssetAddressEntry>): Option<AssetAddressEntry> {
    if s == [] then None else Some(s[0])
  }

  class AssetAddressGroupInfo {
    var packageName: string
    var groupName: string
    var folderPath: string
    var guid: string
    var entries: seq<AssetAddressEntry>
    var packRule: string
    var copyToStreamingAssets: bool
    var active: bool
    var entriesCache: Cache

    /** The cache a lookup consults: an empty cache is rebuilt first. */
    ghost function CacheView(): Cache
      reads this`entries, this`entriesCache, entries
    {
      if |entriesCache| == 0 then Index(entries) else entriesCache
    }

    constructor ()
      ensures packageName == "" && groupName == "" && folderPath == "" && guid == ""
      ensures entries == [] && packRule == "" && copyToStreamingAssets && active
      ensures entriesCache == map[]
    {
      packageName := "";
      groupName := "";
      folderPath := "";
      guid := "";
      entries := [];
      packRule := "";
      copyToStreamingAssets := true;
      active := true;
      entriesCache := map[];
    }

    /** A group as `AddGroup` creates it. */
    constructor Create(package: string, folder: string, name: string, id: string)
      ensures packageName == package && groupName == name && folderPath == folder && guid == id
      ensures entries == [] && packRule == "" && copyToStreamingAssets && active
      ensures entriesCache == map[]
    {
      packageName := package;
      groupName := name;
      folderPath := folder;
      guid := id;
      entries := [];
      packRule := "";
      copyToStreamingAssets := true;
      active := true;
      entriesCache := map[];
    }

    /** Files `e` under its address, path and guid, then under each label. */
    method AddCacheFor(e: AssetAddressEntry)
      modifies this`entriesCache
      ensures entriesCache == AddCache(old(entriesCache), e)
    {
      var m := entriesCache;
      m := Push(m, [e.address, e.assetPath, e.guid], e);
      var ls := e.labels;
      assert [e.address, e.assetPath, e.guid] + ls[..0] == [e.address, e.assetPath, e.guid];
      var i := 0;
      while i < |ls|
        invariant 0 <= i <= |ls|
        invariant m == Push(old(entriesCache), [e.address, e.assetPath, e.guid] + ls[..i], e)
      {
        var k := ls[i];
        assert ([e.address, e.assetPath, e.guid] + ls[..i + 1])[..3 + i] == [e.address, e.assetPath, e.guid] + ls[..i];
        m := m[k := Lookup(m, k) + [e]];
        i := i + 1;
      }
      assert ls[..i] == ls;
      entriesCache := m;
    }

    /** Drops the address, path and guid keys of `e` and takes `e` out of its label lists. */
    method RemoveCacheFor(e: AssetAddressEntry)
        modifies this`entriesCache
      ensures entriesCache == RemoveCache(old(entriesCache), e)
    {
      var m := entriesCache - {e.address, e.assetPath, e.guid};
      var ls := e.labels;
      var i := 0;
      while i < |ls|
        invariant 0 <= i <= |ls|
        invariant m == RemoveFromLists(old(entriesCache) - {e.address, e.assetPath, e.guid}, ls[..i], e)
      {
        assert ls[..i + 1][..i] == ls[..i];
        if ls[i] in m {
          m := m[ls[i] := RemoveFirst(m[ls[i]], e)];
        }
        i := i + 1;
      }
      assert ls[..i] == ls;
      entriesCache := m;
    }

    /** Adds every entry to the cache, in list order. */
    method FillCache()
      modifies this`entriesCache
      ensures entriesCache == PushAll(old(entriesCache), entries)
    {
      var i := 0;
      while i < |entries|
        invariant 0 <= i <= |entries|
        invariant entriesCache == PushAll(old(entriesCache), entries[..i])
      {
        assert entries[..i + 1][..i] == entries[..i];
        AddCacheFor(entries[i]);
        i := i + 1;
      }
      assert entries[..i] == entries;
    }

    /** `GenerateCache`: the cache rebuilt from the entries alone. */
    method GenerateCache()
      modifies this`entriesCache
      ensures entriesCache == Index(entries)
    {
      entriesCache := map[];
      FillCache();
      PushAllIsIndex(entries);
    }

    /** `GetAssetInfo(key)`: rebuilds an empty cache, then the first entry filed under `key`. */
    method GetAssetInfo(key: string) returns (r: Option<AssetAddressEntry>)
      modifies this`entriesCache
      ensures entriesCache == old(CacheView())
      ensures r == First(Lookup(entriesCache, key))
    {
      if |entriesCache| == 0 {
        assert entriesCache == map[];
        FillCache();
        PushAllIsIndex(entries);
      }
      if key in entriesCache {
        r := if |entriesCache[key]| > 0 then Some(entriesCache[key][0]) else None;
      } else {
        r := None;
      }
    }

    /** `GetAssetInfos(key)`: the whole list filed under `key`, `null` when the key is absent. */
    method GetAssetInfos(key: string) returns (r: Option<seq<AssetAddressEntry>>)
      modifies this`entriesCache
      ensures entriesCache == old(CacheView())
      ensures r == if key in entriesCache then Some(entriesCache[key]) else None
    {
      if |entriesCache| == 0 {
        assert entriesCache == map[];
        FillCache();
        PushAllIsIndex(entries);
      }
      r := if key in entriesCache then Some(entriesCache[key]) else None;
    }

    /** `IsAssetMatch`: a plain prefix test on the folder path. */
    predicate IsAssetMatch(assetPath: string)
      reads this`folderPath
    {
      StartsWith(assetPath, folderPath)
    }

    /** A group matches exactly the paths that continue its folder path,
        with or without a separator after it. */
    lemma MatchIsContinuation(assetPath: string)
      ensures IsAssetMatch(assetPath) <==> exists rest :: assetPath == folderPath + rest
    {
      if IsAssetMatch(assetPath) {
        assert assetPath == folderPath + assetPath[|folderPath|..];
      }
    }

    /** `AddAssetEntry(assetPath, address)`: an empty `address` stands for `null`. */
    method AddAssetEntry(assetPath: string, address: string, db: AssetDatabase) returns (r: Option<AssetAddressEntry>)
      modifies this`entries, this`entriesCache
      ensures Offered(this, assetPath, address, db, old(CacheView()), old(entries), old(entriesCache), r)
      ensures r.Some? && Lookup(old(CacheView()), assetPath) == [] ==> fresh(r.value)
    {
      if !IsAssetMatch(assetPath) || assetPath == "" {
        return None;
      }
      var addr := if address == "" then assetPath else address;
      ghost var matched := IsAssetMatch(assetPath);
      var found := GetAssetInfo(assetPath);
      assert IsAssetMatch(assetPath) == matched;
      if found.Some? {
        return found;
      }
      var e := NewEntry(assetPath, addr, db);
      r := Some(e);
    }

    /** The part of `AddAssetEntry` that creates, files and sorts in a new entry. */
    method NewEntry(assetPath: string, addr: string, db: AssetDatabase) returns (e: AssetAddressEntry)
      modifies this`entries, this`entriesCache
      ensures fresh(e)
      ensures e.assetPath == assetPath && e.address == addr && e.guid == db.guidOf(assetPath)
      ensures e.mainType == (if db.mainType(assetPath).Some? then Some(db.mainType(assetPath).value.fullName) else None)
      ensures e.groupName == groupName && e.labels == [] && e.active
      ensures entries == SortByPath(old(entries) + [e])
      ensures entriesCache == AddCache(old(entriesCache), e)
    {
      var typeName := match db.mainType(assetPath)
        case Some(t) => Some(t.fullName)
        case None => None;
      e := new AssetAddressEntry.Create(assetPath, addr, db.guidOf(assetPath), typeName, groupName);
      InsertEntry(e);
    }

    /** Adds `e` to the list, re-sorts the list and files `e` in the cache.
        The source files it first; the two updates touch different fields. */
    method InsertEntry(e: AssetAddressEntry)
      modifies this`entries, this`entriesCache
      ensures entries == SortByPath(old(entries) + [e])
      ensures entriesCache == AddCache(old(entriesCache), e)
    {
      entries := SortByPath(entries + [e]);
      AddCacheFor(e);
    }

    /** `RemoveEntry(key)`: removes the first entry whose path or address is
        `key` and tells whether there was one. */
    method RemoveEntry(key: string) returns (removed: bool)
      modifies this`entries, this`entriesCache
      ensures removed == (old(FindEntry(entries, key)) >= 0)
      ensures !removed ==> entries == old(entries) && entriesCache == old(entriesCache)
      ensures removed ==>
        var j := old(FindEntry(entries, key));
        entries == old(entries[..j] + entries[j + 1..])
        && entriesCache == old(RemoveCache(entriesCache, entries[j]))
    {
      var j := FindEntry(entries, key);
      if j < 0 {
        return false;
      }
      var e := entries[j];
      RemoveFirstAt(entries, j);
      entries := RemoveFirst(entries, e);
      RemoveCacheFor(e);
      removed := true;
    }

    /** `HasAssetInfo`. */
    method HasAssetInfo(key: string) returns (r: bool)
      modifies this`entriesCache
      ensures entriesCache == old(CacheView())
      ensures r == (Lookup(entriesCache, key) != [])
    {
      var e := GetAssetInfo(key);
      r := e.Some?;
    }
  }

  /** A cache that is still the old one, or was filled from the view, shows
      the same view. */
  twostate lemma SettledView(g: AssetAddressGroupInfo)
    requires unchanged(g`entries) && unchanged(g.entries)
    requires g.entriesCache == old(g.entriesCache) || g.entriesCache == old(g.CacheView())
    ensures g.CacheView() == old(g.CacheView())
  {
  }

  /** What `AddAssetEntry(p, address)` leaves behind in group `g`, which
      held `entries0` with the cache `cache0` (seen as `view` once rebuilt):
      a path outside the folder, or an empty one, changes nothing; a path
      already filed returns its first entry; otherwise a new entry with the
      path, the address (the path when none is given), the guid and the main
      type's full name joins the sorted list and the cache. */
  ghost predicate Offered(g: AssetAddressGroupInfo, p: string, address: string, db: AssetDatabase,
                          view: Cache, entries0: seq<AssetAddressEntry>, cache0: Cache, r: Option<AssetAddressEntry>)
    reads g, entries0, if r.Some? then {r.value} else {}
  {
    if !g.IsAssetMatch(p) || p == "" then
      r == None && g.entries == entries0 && g.entriesCache == cache0
    else if Lookup(view, p) != [] then
      r == Some(Lookup(view, p)[0]) && g.entries == entries0 && g.entriesCache == view
    else
      r.Some?
      && r.value.assetPath == p
      && r.value.address == (if address == "" then p else address)
      && r.value.guid == db.guidOf(p)
      && r.value.mainType == (if db.mainType(p).Some? then Some(db.mainType(p).value.fullName) else None)
      && r.value.groupName == g.groupName
      && r.value.labels == [] && r.value.active
      && g.entries == SortByPath(entries0 + [r.value])
      && g.entriesCache == AddCache(view, r.value)
  }

  /** The cache after adding each of `es` in turn. */
  function PushAll(m: Cache, es: seq<AssetAddressEntry>): Cache
    reads es
  {
    if es == [] then m else AddCache(PushAll(m, es[..|es| - 1]), es[|es| - 1])
  }

  /** Adding every entry to an empty cache is the rebuilt index. */
  lemma {:induction false} PushAllIsIndex(es: seq<AssetAddressEntry>)
    ensures PushAll(map[], es) == Index(es)
    decreases |es|
  {
    if es != [] {
      PushAllIsIndex(es[..|es| - 1]);
    }
  }
}
