/** `ObjectPool`: one FIFO queue of recycled objects per element type. */
module Pool {
  import opened Wrappers
  import opened Collections

  /** A runtime type. The pool keys its queues by the type argument `T`
      (as `typeof(Queue<T>)`, which `Release(Type)` rebuilds from `T`). */
  datatype Type = Named(name: string) | ListOf(elem: Type) | DictOf(key: Type, value: Type)

  /** A pooled object of dynamic type `ty`; `count` is the number of
      entries it holds when it is a collection. */
  class Obj {
    const ty: Type
    var count: nat

    constructor(ty: Type)
      ensures this.ty == ty && count == 0
    {
      this.ty := ty;
      count := 0;
    }
  }

  /** Whether `Put<T>` clears the object: `value as IDictionary` succeeds
      for a dictionary, `value as ICollection<T>` for a list of `T`, and a
      recycle callback runs when one is given (each callback the repository
      passes clears the list). */
  predicate Cleared(ty: Type, t: Type, recycle: bool) {
    ty.DictOf? || ty == ListOf(t) || recycle
  }

  /** A type is never a list of itself, so the `ICollection<T>` cast never
      fires on an object of the pool's own type `T`: such a list is cleared
      only by a recycle callback. */
  lemma OwnTypeCleared(t: Type, recycle: bool)
    ensures Cleared(t, t, recycle) <==> t.DictOf? || recycle
  {
    assert t != ListOf(t) by {
      SmallerThanList(t);
    }
  }

  /** The element type of a list type is structurally smaller. */
  lemma {:induction false} SmallerThanList(t: Type)
    ensures t != ListOf(t)
  {
    match t
    case ListOf(e) => SmallerThanList(e);
    case _ =>
  }

  /** The static pool: a queue per type, and the count of "duplicate
      recycle" errors logged. */
  class ObjectPool {
    var queues: map<Type, seq<Obj>>
    var duplicates: nat

    /** No object waits twice in one queue. */
    ghost predicate Valid()
      reads this
    {
      forall t :: t in queues ==> Distinct(queues[t])
    }

    /** `GetQueue`: the type's queue, empty when it has none. */
    function Queue(t: Type): seq<Obj>
      reads this
    {
      if t in queues then queues[t] else []
    }

    constructor()
      ensures Valid() && queues == map[] && duplicates == 0
    {
      queues := map[];
      duplicates := 0;
    }

    /** `Get<T>`: the head of the type's queue when there is one, otherwise
        a new object; the queue is created when missing. */
    method Get(t: Type) returns (o: Obj)
      requires Valid()
      modifies this
      ensures Valid() && duplicates == old(duplicates)
      ensures old(Queue(t)) != [] ==> o == old(Queue(t))[0] && queues == old(queues)[t := old(Queue(t))[1..]]
      ensures old(Queue(t)) == [] ==> fresh(o) && o.ty == t && o.count == 0 && queues == old(queues)[t := []]
    {
      if t !in queues {
        queues := queues[t := []];
      }
      var q := queues[t];
      if |q| > 0 {
        o := q[0];
        assert Distinct(q[1..]) by {
          forall i, j | 0 <= i < j < |q[1..]| ensures q[1..][i] != q[1..][j] {
            assert q[1..][i] == q[i + 1] && q[1..][j] == q[j + 1];
          }
        }
        queues := queues[t := q[1..]];
      } else {
        o := new Obj(t);
      }
    }

    /** `Put<T>`: ignores `null`; otherwise clears the object as `Cleared`
        says and appends it to the type's queue, unless it is queued
        already, which is logged instead. */
    method Put(t: Type, value: Obj?, recycle: bool)
      requires Valid()
      modifies this, value
      ensures Valid()
      ensures value == null ==> queues == old(queues) && duplicates == old(duplicates)
      ensures value != null ==>
        value.count == (if Cleared(value.ty, t, recycle) then 0 else old(value.count)) &&
        queues == old(queues)[t := AddAbsent(old(Queue(t)), value)] &&
        duplicates == old(duplicates) + (if value in old(Queue(t)) then 1 else 0)
    {
      if value == null {
        return;
      }
      Recycle(t, value, recycle);
      Enqueue(t, value);
    }

    /** The queueing half of `Put`. */
    method Enqueue(t: Type, value: Obj)
      requires Valid()
      modifies this
      ensures Valid()
      ensures queues == old(queues)[t := AddAbsent(old(Queue(t)), value)]
      ensures duplicates == old(duplicates) + (if value in old(Queue(t)) then 1 else 0)
    {
      var q := Queue(t);
      if value !in q {
        DistinctSnoc(q, value);
        queues := queues[t := q + [value]];
      } else {
        duplicates := duplicates + 1;
      }
    }

    /** `Release<T>`: empties the type's queue when it has one. */
    method Release(t: Type)
      requires Valid()
      modifies this
      ensures Valid() && duplicates == old(duplicates)
      ensures Queue(t) == []
      ensures t in old(queues) ==> queues == old(queues)[t := []]
      ensures t !in old(queues) ==> queues == old(queues)
    {
      if t in queues {
        queues := queues[t := []];
      }
    }

    /** `Release(Type)`: as `Release<T>`, and nothing for `null`. */
    method ReleaseType(t: Option<Type>)
      requires Valid()
      modifies this
      ensures Valid() && duplicates == old(duplicates)
      ensures t.None? ==> queues == old(queues)
      ensures t.Some? ==> Queue(t.value) == []
      ensures t.Some? ==> queues == if t.value in old(queues) then old(queues)[t.value := []] else old(queues)
    {
      if t.Some? {
        Release(t.value);
      }
    }
  }

  /** The clearing half of `Put`. */
  method Recycle(t: Type, value: Obj, recycle: bool)
    modifies value
    ensures value.count == if Cleared(value.ty, t, recycle) then 0 else old(value.count)
  {
    if value.ty.DictOf? || value.ty == ListOf(t) || recycle {
      value.count := 0;
    }
  }

  /** Taking the head off a queue and putting it back gives the same
      objects, the head now last. */
  lemma GetPutRotates(q: seq<Obj>)
    requires Distinct(q) && q != []
    ensures AddAbsent(q[1..], q[0]) == q[1..] + [q[0]]
  {
    assert q[0] !in q[1..] by {
      forall i | 0 <= i < |q[1..]| ensures q[1..][i] != q[0] {
        assert q[1..][i] == q[i + 1];
      }
    }
  }
}
