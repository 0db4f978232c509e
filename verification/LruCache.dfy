/** The least-recently-used cache of `kernel/kstd/LRUCache.h`: a map and a list of its keys, oldest first. */
module LruCache {
  datatype Option<T> = None | Some(value: T)

  ghost predicate NoRepeats<T>(s: seq<T>) {
    forall i: nat, j: nat :: i < j < |s| ==> s[i] != s[j]
  }

  /** The list without its first k. */
  function Without(s: seq<int>, k: int): seq<int> {
    if s == [] then [] else if s[0] == k then s[1..] else [s[0]] + Without(s[1..], k)
  }

  /** The list with k moved to its end, if it is there. */
  function Promoted(s: seq<int>, k: int): seq<int> {
    if k in s then Without(s, k) + [k] else s
  }

  lemma {:induction false} WithoutAt(s: seq<int>, i: nat)
    requires i < |s| && forall j: nat :: j < i ==> s[j] != s[i]
    ensures Without(s, s[i]) == s[..i] + s[i + 1..]
  {
    if i > 0 {
      WithoutAt(s[1..], i - 1);
      assert s[..i] == [s[0]] + s[1..][..i - 1];
    }
  }

  lemma {:induction false} WithoutAbsent(s: seq<int>, k: int)
    requires k !in s
    ensures Without(s, k) == s
  {
    if s != [] {
      WithoutAbsent(s[1..], k);
    }
  }

  /** One key leaves the list; the others stay, in order and without repeats. */
  lemma WithoutKeeps(s: seq<int>, k: int)
    requires NoRepeats(s)
    ensures NoRepeats(Without(s, k)) && k !in Without(s, k)
    ensures forall x :: x in Without(s, k) <==> x in s && x != k
    ensures |Without(s, k)| == |s| - if k in s then 1 else 0
  {
    if k in s {
      var i: nat :| i < |s| && s[i] == k;
      WithoutAt(s, i);
      var r := s[..i] + s[i + 1..];
      forall x ensures x in r <==> x in s && x != k {
        if x in s && x != k {
          var j: nat :| j < |s| && s[j] == x;
          assert x == r[if j < i then j else j - 1];
        }
      }
    } else {
      WithoutAbsent(s, k);
    }
  }

  /** Promotion permutes the list and leaves the relative order of the other keys. */
  lemma PromotedKeeps(s: seq<int>, k: int)
    requires NoRepeats(s)
    ensures NoRepeats(Promoted(s, k)) && |Promoted(s, k)| == |s|
    ensures forall x :: x in Promoted(s, k) <==> x in s
    ensures Without(Promoted(s, k), k) == Without(s, k)
    ensures k in s ==> Promoted(s, k)[|s| - 1] == k
  {
    WithoutKeeps(s, k);
    if k in s {
      var w := Without(s, k);
      assert forall x :: x in Promoted(s, k) <==> x in w || x == k;
      WithoutAt(w + [k], |w|);
      assert w + [] == w;
    }
  }

  class LRUCache<V> {
    var items: map<int, V>
    var order: seq<int>

    /** The list names every key of the map, once. */
    ghost predicate Valid()
      reads this
    {
      NoRepeats(order) && forall k :: k in items <==> k in order
    }

    constructor ()
      ensures Valid() && items == map[] && order == []
    {
      items, order := map[], [];
    }

    /** The search loops of `erase` and `promote`, with the removal. */
    method RemoveFromOrder(key: int) returns (found: bool)
      modifies this`order
      ensures found <==> key in old(order)
      ensures order == Without(old(order), key)
    {
      found := false;
      var i := 0;
      while i < |order|
        invariant i <= |order| && order == old(order) && forall j: nat :: j < i ==> order[j] != key
      {
        if order[i] == key {
          WithoutAt(order, i);
          order := order[..i] + order[i + 1..];
          return true;
        }
        i := i + 1;
      }
      WithoutAbsent(order, key);
    }

    /** `promote`. */
    method Promote(key: int)
      requires Valid()
      modifies this`order
      ensures Valid() && order == Promoted(old(order), key)
    {
      PromotedKeeps(order, key);
      WithoutAbsentOr(order, key);
      var found := RemoveFromOrder(key);
      if found {
        order := order + [key];
      }
    }

    /** `insert`: a new value, most recently used if the key is new or was there. */
    method Insert(key: int, value: V)
      requires Valid()
      modifies this
      ensures Valid() && items == old(items)[key := value]
      ensures order == if key in old(items) then Promoted(old(order), key) else old(order) + [key]
    {
      if key in items {
        items := items[key := value];
        Promote(key);
      } else {
        items := items[key := value];
        order := order + [key];
        assert forall k :: k in order <==> k in old(order) || k == key;
      }
    }

    /** `erase`. */
    method Erase(key: int)
      requires Valid()
      modifies this
      ensures Valid() && items == old(items) - {key} && order == Without(old(order), key)
    {
      WithoutKeeps(order, key);
      items := items - {key};
      var found := RemoveFromOrder(key);
    }

    /** `get`: looking an item up makes it the most recently used. */
    method Get(key: int) returns (r: Option<V>)
      requires Valid()
      modifies this`order
      ensures Valid() && order == Promoted(old(order), key)
      ensures r == if key in items then Some(items[key]) else None
    {
      if key in items {
        Promote(key);
        return Some(items[key]);
      }
      return None;
    }

    /** `prune`: the oldest items leave. */
    method Prune(num: nat)
      requires Valid()
      modifies this
      ensures Valid() && order == old(order)[if num < |old(order)| then num else |old(order)|..]
      ensures forall k :: k in items <==> k in old(items) && k in order
      ensures forall k :: k in items ==> items[k] == old(items)[k]
    {
      var n := num;
      ghost var i := 0;
      while order != [] && n > 0
        invariant Valid() && i + n == num && 0 <= i <= |old(order)| && 0 <= n && order == old(order)[i..]
        invariant forall k :: k in items <==> k in old(items) && k in order
        invariant forall k :: k in items ==> items[k] == old(items)[k]
        decreases n
      {
        HeadLeaves(order);
        items := items - {order[0]};
        order := order[1..];
        n, i := n - 1, i + 1;
      }
      assert |order| == |old(order)| - i;
      assert i == if num < |old(order)| then num else |old(order)|;
    }

    /** `lru_unsafe`. */
    method LruUnsafe() returns (key: int, value: V)
      requires Valid() && order != []
      ensures key == order[0] && key in items && value == items[key]
    {
      assert order[0] in order;
      key, value := order[0], items[order[0]];
    }
  }

  lemma WithoutAbsentOr(s: seq<int>, k: int)
    ensures k !in s ==> Without(s, k) == s
  {
    if k !in s { WithoutAbsent(s, k); }
  }

  lemma HeadLeaves(s: seq<int>)
    requires NoRepeats(s) && s != []
    ensures NoRepeats(s[1..]) && forall k :: k in s[1..] <==> k in s && k != s[0]
  {
    assert Without(s, s[0]) == s[1..];
    WithoutKeeps(s, s[0]);
  }
}
