/** `ListExt`: sorting a list in place and refilling a reusable list,
    on the lists of strings the repository applies them to. */
module Lists {
  import opened Sorting

  /** A `List<string>`, updated in place. */
  class StringList {
    var items: seq<string>

    constructor()
      ensures items == []
    {
      items := [];
    }
  }

  /** `Sort2List(this List<T>)`: sorts the list in place and returns the
      same list, now in order and holding the same strings. */
  method Sort2List(list: StringList) returns (r: StringList)
    modifies list
    ensures r == list
    ensures SortedBy(list.items, Id) && multiset(list.items) == multiset(old(list.items))
    ensures list.items == Sort(old(list.items))
  {
    list.items := Sort(list.items);
    return list;
  }

  /** `Sort2List(this IEnumerable<T>)`: a fresh list of the strings, in
      order. */
  method Sort2ListOf(e: seq<string>) returns (r: StringList)
    ensures fresh(r)
    ensures SortedBy(r.items, Id) && multiset(r.items) == multiset(e)
  {
    var l := ToRefList(e, null);
    r := Sort2List(l);
  }

  /** `ToRefList`: the given list, or a fresh one when none is given,
      cleared and then filled with the strings in order. */
  method ToRefList(e: seq<string>, list: StringList?) returns (r: StringList)
    modifies list
    ensures list == null ==> fresh(r)
    ensures list != null ==> r == list
    ensures r.items == e
  {
    if list == null {
      r := new StringList();
    } else {
      r := list;
    }
    r.items := [];
    var i := 0;
    while i < |e|
      invariant 0 <= i <= |e|
      invariant r.items == e[..i]
    {
      r.items := r.items + [e[i]];
      i := i + 1;
      assert e[..i] == e[..i - 1] + [e[i - 1]];
    }
    assert e[..i] == e;
  }
}
