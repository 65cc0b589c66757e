/** One addressable asset of the editor database (`AssetAddressEntry`). */
module Entries {
  import opened Wrappers
  import opened Collections
  import opened Sorting

  /** The label list after `Addlabel(tag)`: a label already present changes
      nothing; otherwise the label is added and the list sorted. */
  function LabelsAfterAdd(labels: seq<string>, tag: string): (r: seq<string>)
    ensures tag in r
    ensures tag in labels ==> r == labels
    ensures tag !in labels ==> SortedBy(r, Id) && multiset(r) == multiset(labels) + multiset{tag}
  {
    if tag in labels then labels
    else
      var r := Sort(labels + [tag]);
      assert tag in multiset(r);
      r
  }

  /** Adding a label keeps a duplicate-free list duplicate-free. */
  lemma AddKeepsDistinct(labels: seq<string>, tag: string)
    requires Distinct(labels)
    ensures Distinct(LabelsAfterAdd(labels, tag))
  {
    if tag !in labels {
      var l := labels + [tag];
      forall i, j | 0 <= i < j < |l| ensures l[i] != l[j] {
        assert l[i] == labels[i];
        if j < |labels| {
          assert l[j] == labels[j];
        }
      }
      SortByDistinct(l, Id);
    }
  }

  /** Adding the same label twice is the same as adding it once. */
  lemma AddIsIdempotent(labels: seq<string>, tag: string)
    ensures LabelsAfterAdd(LabelsAfterAdd(labels, tag), tag) == LabelsAfterAdd(labels, tag)
  {
  }

  /** Removing a label from a duplicate-free list leaves none of it. */
  lemma {:induction false} RemoveDeletesFromDistinct(labels: seq<string>, tag: string)
    requires Distinct(labels)
    ensures tag !in RemoveFirst(labels, tag)
    ensures Distinct(RemoveFirst(labels, tag))
  {
    if labels == [] {
    } else if labels[0] == tag {
      assert tag !in labels[1..] by {
        forall j | 0 <= j < |labels[1..]| ensures labels[1..][j] != tag {
          assert labels[1..][j] == labels[j + 1];
        }
      }
      DistinctTail(labels);
    } else {
      var t := labels[1..];
      DistinctTail(labels);
      RemoveDeletesFromDistinct(t, tag);
      var r := RemoveFirst(t, tag);
      RemoveFirstCounts(t, tag);
      assert labels[0] !in t by {
        forall j | 0 <= j < |t| ensures t[j] != labels[0] {
          assert t[j] == labels[j + 1];
        }
      }
      assert labels[0] !in multiset(r);
      DistinctCons(labels[0], r);
    }
  }

  /** What `HasLabel` answers after an edit: adding a label makes it held
      and leaves every other answer as it was; removing one from a
      duplicate-free list makes it not held and leaves every other answer
      as it was. */
  lemma LabelsHeld(labels: seq<string>, tag: string)
    ensures forall t :: t in LabelsAfterAdd(labels, tag) <==> t in labels || t == tag
    ensures Distinct(labels) ==> forall t :: t in RemoveFirst(labels, tag) <==> t in labels && t != tag
  {
    forall t ensures t in LabelsAfterAdd(labels, tag) <==> t in labels || t == tag {
      assert t in LabelsAfterAdd(labels, tag) <==> t in multiset(LabelsAfterAdd(labels, tag));
    }
    RemoveFirstCounts(labels, tag);
    if Distinct(labels) {
      RemoveDeletesFromDistinct(labels, tag);
      forall t ensures t in RemoveFirst(labels, tag) <==> t in labels && t != tag {
        assert t in RemoveFirst(labels, tag) <==> t in multiset(RemoveFirst(labels, tag));
      }
    }
  }

  lemma DistinctTail(s: seq<string>)
    requires s != [] && Distinct(s)
    ensures Distinct(s[1..])
  {
    forall i, j | 0 <= i < j < |s[1..]| ensures s[1..][i] != s[1..][j] {
      assert s[1..][i] == s[i + 1] && s[1..][j] == s[j + 1];
    }
  }

  lemma DistinctCons(x: string, s: seq<string>)
    requires x !in s && Distinct(s)
    ensures Distinct([x] + s)
  {
    var l := [x] + s;
    forall i, j | 0 <= i < j < |l| ensures l[i] != l[j] {
      assert l[j] == s[j - 1];
      if i > 0 {
        assert l[i] == s[i - 1];
      }
    }
  }

  class AssetAddressEntry {
    /** `null` until a group stamps it; the empty string stands for `null`. */
    var groupName: string
    var assetPath: string
    var address: string
    var guid: string
    /** The full name of the main asset type, `None` for `null`. */
    var mainType: Option<string>
    var addressRuleName: string
    /** Never `null`: it starts empty and nothing assigns `null`. */
    var labels: seq<string>
    var active: bool

    /** The field defaults: empty path, address and guid, an empty label list, active. */
    constructor ()
      ensures assetPath == "" && address == "" && guid == ""
      ensures groupName == "" && mainType == None && addressRuleName == ""
      ensures labels == [] && active
    {
      groupName := "";
      assetPath := "";
      address := "";
      guid := "";
      mainType := None;
      addressRuleName := "";
      labels := [];
      active := true;
    }

    /** An entry as `AddAssetEntry` creates it. */
    constructor Create(path: string, addr: string, id: string, typeName: Option<string>, group: string)
      ensures assetPath == path && address == addr && guid == id
      ensures mainType == typeName && groupName == group
      ensures addressRuleName == "" && labels == [] && active
    {
      groupName := group;
      assetPath := path;
      address := addr;
      guid := id;
      mainType := typeName;
      addressRuleName := "";
      labels := [];
      active := true;
    }

    method Addlabel(tag: string)
      modifies this`labels
      ensures labels == LabelsAfterAdd(old(labels), tag)
      ensures HasLabel(tag) && forall t :: t != tag ==> (HasLabel(t) <==> t in old(labels))
    {
      if tag !in labels {
        labels := labels + [tag];
        labels := Sort(labels);
      }
      LabelsHeld(old(labels), tag);
    }

    /** `Labels.Remove(tag)`: the first occurrence goes. */
    method RemoveLabel(tag: string)
      modifies this`labels
      ensures labels == RemoveFirst(old(labels), tag)
      ensures Distinct(old(labels)) ==> !HasLabel(tag) && forall t :: t != tag ==> (HasLabel(t) <==> t in old(labels))
    {
      labels := RemoveFirst(labels, tag);
      LabelsHeld(old(labels), tag);
    }

    /** `Labels.Contains(tag)`. */
    predicate HasLabel(tag: string)
      reads this
    {
      tag in labels
    }
  }

  /** Removing a label that `Addlabel` just added gives back the original
      labels, now in order. */
  lemma AddThenRemoveRestores(labels: seq<string>, tag: string)
    requires tag !in labels
    ensures multiset(RemoveFirst(LabelsAfterAdd(labels, tag), tag)) == multiset(labels)
    ensures SortedBy(LabelsAfterAdd(labels, tag), Id)
  {
    var added := LabelsAfterAdd(labels, tag);
    RemoveFirstCounts(added, tag);
  }
}
