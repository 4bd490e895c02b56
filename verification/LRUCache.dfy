/**
  The least-recently-used cache with pinned entries (`LRUCache`): the mutable class, the value
  semantics its methods refine, and what holds of every history of operations.
 */
module LRUCache {
  import opened Wrappers
  import opened OrderedKeys

  /** An `OrderedDict` (oldest key first), the pinned keys and the capacity. */
  datatype Cache<K(==), V> = Cache(capacity: nat, keys: seq<K>, values: map<K, V>, pinned: set<K>)

  /** What holds of a cache even while it is over its capacity. */
  ghost predicate Coherent<K, V>(c: Cache<K, V>) {
    && Distinct(c.keys)
    && Elems(c.keys) == c.values.Keys
    && c.pinned <= c.values.Keys
  }

  ghost predicate Valid<K, V>(c: Cache<K, V>) {
    Coherent(c) && |c.keys| <= c.capacity
  }

  function Empty<K, V>(capacity: nat): (c: Cache<K, V>)
    ensures Valid(c)
  {
    Cache(capacity, [], map[], {})
  }

  /** The oldest key that is not pinned, or None for "all items are pinned". */
  function OldestUnpinned<K(==)>(keys: seq<K>, pinned: set<K>): (r: Option<K>)
    ensures r.None? <==> forall k :: k in keys ==> k in pinned
    ensures r.Some? ==> exists i :: 0 <= i < |keys| && keys[i] == r.value && r.value !in pinned
                                    && forall j :: 0 <= j < i ==> keys[j] in pinned
  {
    if keys == [] then None
    else if keys[0] !in pinned then Some(keys[0])
    else
      var r := OldestUnpinned(keys[1..], pinned);
      assert r.Some? ==> exists i :: 0 <= i < |keys[1..]| && keys[1..][i] == r.value && r.value !in pinned
                                     && forall j :: 0 <= j < i ==> keys[1..][j] in pinned;
      assert r.Some? ==>
        var i :| 0 <= i < |keys[1..]| && keys[1..][i] == r.value && forall j :: 0 <= j < i ==> keys[1..][j] in pinned;
        keys[i + 1] == r.value && forall j :: 0 <= j < i + 1 ==> keys[j] in pinned;
      r
  }

  /** `pop`, without the returned value. */
  function Drop<K(==), V>(c: Cache<K, V>, k: K): (r: Cache<K, V>) {
    Cache(c.capacity, Without(c.keys, k), c.values - {k}, c.pinned - {k})
  }

  lemma DropCoherent<K, V>(c: Cache<K, V>, k: K)
    requires Coherent(c)
    ensures Coherent(Drop(c, k))
    ensures |Drop(c, k).keys| == if k in c.values then |c.keys| - 1 else |c.keys|
  {
    WithoutDistinct(c.keys, k);
    assert k in c.values <==> k in Elems(c.keys);
    assert Elems(Drop(c, k).keys) == Elems(c.keys) - {k};
  }

  /** `cache[key] = value; cache.move_to_end(key)`: the insertion that precedes eviction. */
  function Insert<K(==), V>(c: Cache<K, V>, k: K, v: V): (r: Cache<K, V>) {
    c.(keys := MoveToEnd(c.keys, k), values := c.values[k := v])
  }

  lemma InsertCoherent<K, V>(c: Cache<K, V>, k: K, v: V)
    requires Coherent(c)
    ensures Coherent(Insert(c, k, v))
    ensures |Insert(c, k, v).keys| == if k in c.values then |c.keys| else |c.keys| + 1
  {
    MoveToEndDistinct(c.keys, k);
    assert k in c.values <==> k in Elems(c.keys);
    assert Insert(c, k, v).values.Keys == c.values.Keys + {k};
  }

  /** `put`: insert, then evict the oldest unpinned key when the capacity is exceeded. */
  function Put<K(==), V>(c: Cache<K, V>, k: K, v: V): (r: Cache<K, V>) {
    var full := Insert(c, k, v);
    if |full.keys| <= c.capacity then full
    else
      match OldestUnpinned(full.keys, full.pinned)
      case Some(victim) => Drop(full, victim)
      case None => full
  }

  function Touch<K(==), V>(c: Cache<K, V>, k: K): (r: Cache<K, V>) {
    if k in c.values then c.(keys := MoveToEnd(c.keys, k)) else c
  }

  /**
    Whenever `put` finds the cache over capacity there is an unpinned key to evict, because the
    only way to exceed the capacity is to have just inserted a key that was not cached and so
    is not pinned.
   */
  lemma PutNeverStuck<K, V>(c: Cache<K, V>, k: K, v: V)
    requires Valid(c)
    ensures |Insert(c, k, v).keys| > c.capacity ==>
              && k !in c.pinned
              && OldestUnpinned(Insert(c, k, v).keys, c.pinned).Some?
              && |Insert(c, k, v).keys| == c.capacity + 1
    ensures Valid(Put(c, k, v)) && Put(c, k, v).pinned == c.pinned
    ensures forall x :: x in Put(c, k, v).values ==>
                          (x == k || x in c.values) && Put(c, k, v).values[x] == if x == k then v else c.values[x]
  {
    InsertCoherent(c, k, v);
    var full := Insert(c, k, v);
    if |full.keys| > c.capacity {
      assert k in full.keys && k !in c.pinned;
      var victim := OldestUnpinned(full.keys, c.pinned).value;
      assert victim in Elems(full.keys);
      DropCoherent(full, victim);
    }
  }

  /** `rest` is `full` without the key at `i`, which is not pinned while all older ones are. */
  ghost predicate EvictedAt<K>(full: seq<K>, pinned: set<K>, i: nat, rest: seq<K>) {
    && i < |full| && full[i] !in pinned
    && (forall j :: 0 <= j < i ==> full[j] in pinned)
    && rest == full[..i] + full[i + 1..]
  }

  lemma OldestUnpinnedAt<K>(full: seq<K>, pinned: set<K>) returns (i: nat)
    requires Distinct(full) && OldestUnpinned(full, pinned).Some?
    ensures EvictedAt(full, pinned, i, Without(full, OldestUnpinned(full, pinned).value))
  {
    i :| 0 <= i < |full| && full[i] == OldestUnpinned(full, pinned).value && full[i] !in pinned
         && forall j :: 0 <= j < i ==> full[j] in pinned;
    WithoutAt(full, i);
  }

  /** The evicted key is the oldest unpinned one: all older keys are pinned, the rest stays in order. */
  lemma PutEvictsOldestUnpinned<K, V>(c: Cache<K, V>, k: K, v: V)
    requires Valid(c)
    ensures var full := MoveToEnd(c.keys, k);
            if k in c.values || |c.keys| < c.capacity then Put(c, k, v).keys == full
            else exists i :: EvictedAt(full, c.pinned, i, Put(c, k, v).keys)
  {
    InsertCoherent(c, k, v);
    PutNeverStuck(c, k, v);
    if !(k in c.values || |c.keys| < c.capacity) {
      var i := OldestUnpinnedAt(MoveToEnd(c.keys, k), c.pinned);
    }
  }

  lemma TouchValid<K, V>(c: Cache<K, V>, k: K)
    requires Valid(c)
    ensures Valid(Touch(c, k))
  {
    if k in c.values {
      assert k in Elems(c.keys);
      MoveToEndDistinct(c.keys, k);
    }
  }

  /** The mutable cache; `_on_remove` is the empty hook of the base class. */
  class LRU<K(==), V> {
    const capacity: nat
    var keys: seq<K>
    var values: map<K, V>
    var pinned: set<K>
    var hits: nat
    var total: nat

    ghost function View(): Cache<K, V>
      reads this
    {
      Cache(capacity, keys, values, pinned)
    }

    constructor (capacity: nat)
      ensures View() == Empty(capacity) && Valid(View()) && hits == total == 0
    {
      this.capacity := capacity;
      keys, values, pinned := [], map[], {};
      hits, total := 0, 0;
    }

    /** `get`: a hit refreshes the key and is counted, a miss returns the default. */
    method Get(k: K, default: Option<V>) returns (r: Option<V>)
      requires Valid(View())
      modifies this
      ensures View() == Touch(old(View()), k) && Valid(View())
      ensures r == if k in old(values) then Some(old(values)[k]) else default
      ensures View() == Apply(old(View()), GetOp(k))
      ensures total == old(total) + 1
      ensures hits == old(hits) + if k in old(values) then 1 else 0
    {
      TouchValid(View(), k);
      if k in values {
        r := Some(values[k]);
        keys := MoveToEnd(keys, k);
        hits := hits + 1;
      } else {
        r := default;
      }
      total := total + 1;
    }

    /** `touch`; false stands for the KeyError of a missing key. */
    method TouchKey(k: K) returns (ok: bool)
      requires Valid(View())
      modifies this`keys
      ensures View() == Touch(old(View()), k) && Valid(View())
      ensures ok == (k in old(values))
    {
      TouchValid(View(), k);
      ok := k in values;
      if ok {
        keys := MoveToEnd(keys, k);
      }
    }

    /** `pin`; false stands for the ValueError of a key that is not cached. */
    method Pin(k: K) returns (ok: bool)
      requires Valid(View())
      modifies this`pinned
      ensures Valid(View())
      ensures ok == (k in values)
      ensures pinned == if ok then old(pinned) + {k} else old(pinned)
      ensures View() == Apply(old(View()), PinOp(k))
    {
      ok := k in values;
      if ok {
        pinned := pinned + {k};
      }
    }

    method Pop(k: K, default: Option<V>) returns (r: Option<V>)
      requires Coherent(View())
      modifies this`keys, this`values, this`pinned
      ensures View() == Drop(old(View()), k) && Coherent(View())
      ensures View() == Apply(old(View()), PopOp(k))
      ensures keys == Without(old(keys), k) && values == old(values) - {k} && pinned == old(pinned) - {k}
      ensures |keys| == if k in old(values) then |old(keys)| - 1 else |old(keys)|
      ensures r == if k in old(values) then Some(old(values)[k]) else default
    {
      DropCoherent(View(), k);
      r := if k in values then Some(values[k]) else default;
      keys := Without(keys, k);
      values := values - {k};
      if k in pinned {
        pinned := pinned - {k};
      }
    }

    /** `remove_oldest`; false stands for the RuntimeError "All items are pinned". */
    method RemoveOldest(removePinned: bool) returns (ok: bool)
      requires Coherent(View())
      modifies this`keys, this`values, this`pinned
      ensures Coherent(View())
      ensures ok <==> old(keys) == [] || removePinned || OldestUnpinned(old(keys), old(pinned)).Some?
      ensures !ok || old(keys) == [] ==> View() == old(View())
      ensures ok && old(keys) != [] && removePinned ==> View() == Drop(old(View()), old(keys)[0])
      ensures ok && old(keys) != [] && !removePinned ==>
                View() == Drop(old(View()), OldestUnpinned(old(keys), old(pinned)).value)
      ensures ok && old(keys) != [] ==> |keys| == |old(keys)| - 1
      ensures View() == Apply(old(View()), RemoveOldestOp(removePinned))
    {
      if keys == [] {
        return true;
      }
      var victim := keys[0];
      if !removePinned {
        var candidate := OldestUnpinned(keys, pinned);
        if candidate.None? {
          return false;
        }
        victim := candidate.value;
      }
      assert victim in Elems(keys);
      assert Apply(View(), RemoveOldestOp(removePinned)) == Drop(View(), victim);
      var _ := Pop(victim, None);
      return true;
    }

    /** `put`, with its eviction loop; `ok` says that no exception left the call. */
    method PutKey(k: K, v: V) returns (ok: bool)
      requires Valid(View())
      modifies this`keys, this`values, this`pinned
      ensures ok
      ensures Valid(View()) && View() == Put(old(View()), k, v) && View() == Apply(old(View()), PutOp(k, v))
    {
      PutNeverStuck(View(), k, v);
      InsertCoherent(View(), k, v);
      values := values[k := v];
      keys := MoveToEnd(keys, k);
      ghost var full := View();
      assert full == Insert(old(View()), k, v);
      ok := true;
      while ok && |keys| > capacity
        invariant ok && Coherent(View())
        invariant View() == full || (|full.keys| > capacity && View() == Put(old(View()), k, v))
        decreases |keys|
      {
        ok := RemoveOldest(false);
      }
    }

    /** `clear` removes everything, pinned keys included. */
    method Clear()
      requires Valid(View())
      modifies this`keys, this`values, this`pinned
      ensures View() == Empty(capacity) && Valid(View()) && View() == Apply(old(View()), ClearOp)
    {
      while |keys| > 0
        invariant Coherent(View()) && |keys| <= capacity
        decreases |keys|
      {
        var _ := RemoveOldest(true);
      }
      assert values.Keys == Elems(keys) == {};
      assert values == map[];
    }
  }

  // ---------------------------------------------------------------------------------------
  // Every history of operations
  // ---------------------------------------------------------------------------------------

  datatype Op<K, V> =
    | PutOp(key: K, value: V)
    | GetOp(key: K)
    | PinOp(key: K)
    | UnpinOp(key: K)
    | PopOp(key: K)
    | RemoveOldestOp(removePinned: bool)
    | ClearOp

  function Apply<K(==), V>(c: Cache<K, V>, op: Op<K, V>): (r: Cache<K, V>) {
    match op
    case PutOp(k, v) => Put(c, k, v)
    case GetOp(k) => Touch(c, k)
    case PinOp(k) => if k in c.values then c.(pinned := c.pinned + {k}) else c
    case UnpinOp(k) => c.(pinned := c.pinned - {k})
    case PopOp(k) => Drop(c, k)
    case RemoveOldestOp(removePinned) =>
      if c.keys == [] then c
      else if removePinned then Drop(c, c.keys[0])
      else if OldestUnpinned(c.keys, c.pinned).Some? then Drop(c, OldestUnpinned(c.keys, c.pinned).value)
      else c
    case ClearOp => Empty(c.capacity)
  }

  function Run<K(==), V>(capacity: nat, ops: seq<Op<K, V>>): (r: Cache<K, V>) {
    if ops == [] then Empty(capacity)
    else Apply(Run(capacity, ops[..|ops| - 1]), ops[|ops| - 1])
  }

  lemma {:induction false} RunCapacity<K, V>(capacity: nat, ops: seq<Op<K, V>>)
    ensures Run(capacity, ops).capacity == capacity
  {
    if ops != [] {
      RunCapacity(capacity, ops[..|ops| - 1]);
    }
  }

  /**
    Pin safety: after every history the pinned keys are cached, the capacity is respected, and a
    further `put` of any key finds an evictable key whenever it has to evict.
   */
  lemma {:induction false} PinSafety<K, V>(capacity: nat, ops: seq<Op<K, V>>, k: K, v: V)
    ensures Valid(Run(capacity, ops))
    ensures var c := Run(capacity, ops);
            |Insert(c, k, v).keys| > capacity ==> OldestUnpinned(Insert(c, k, v).keys, c.pinned).Some?
    ensures Run(capacity, ops).pinned <= Put(Run(capacity, ops), k, v).values.Keys
  {
    RunCapacity(capacity, ops);
    if ops != [] {
      var c, op := Run(capacity, ops[..|ops| - 1]), ops[|ops| - 1];
      PinSafety(capacity, ops[..|ops| - 1], k, v);
      match op
      case PutOp(k', v') => PutNeverStuck(c, k', v');
      case GetOp(k') => TouchValid(c, k');
      case PopOp(k') => DropCoherent(c, k');
      case RemoveOldestOp(removePinned) =>
        if c.keys != [] {
          DropCoherent(c, c.keys[0]);
          if OldestUnpinned(c.keys, c.pinned).Some? {
            DropCoherent(c, OldestUnpinned(c.keys, c.pinned).value);
          }
        }
      case _ =>
    }
    PutNeverStuck(Run(capacity, ops), k, v);
  }

  // ---------------------------------------------------------------------------------------
  // Histories of `put` and `get` only: the recency order
  // ---------------------------------------------------------------------------------------

  ghost predicate PutGetOnly<K, V>(ops: seq<Op<K, V>>) {
    forall i :: 0 <= i < |ops| ==> ops[i].PutOp? || ops[i].GetOp?
  }

  /** The keys ever put. */
  ghost function PutKeys<K, V>(ops: seq<Op<K, V>>): set<K> {
    set i | 0 <= i < |ops| && ops[i].PutOp? :: ops[i].key
  }

  /** Without pins, `put` drops the oldest key exactly when a new key finds the cache full. */
  lemma UnpinnedPut<K, V>(c: Cache<K, V>, k: K, v: V)
    requires Valid(c) && c.pinned == {}
    ensures var full := MoveToEnd(c.keys, k);
            Put(c, k, v).keys == if |full| <= c.capacity then full else full[1..]
  {
    InsertCoherent(c, k, v);
    var full := Insert(c, k, v);
    if |full.keys| > c.capacity {
      WithoutFirst(full.keys);
    }
  }

  lemma PutGrows<K, V>(c: Cache<K, V>, k: K, v: V)
    requires Valid(c)
    ensures Valid(Put(c, k, v)) && Put(c, k, v).pinned == c.pinned
    ensures Put(c, k, v).values.Keys <= c.values.Keys + {k}
    ensures |Put(c, k, v).keys| == c.capacity || Put(c, k, v).values.Keys == c.values.Keys + {k}
    ensures |c.keys| == c.capacity ==> |Put(c, k, v).keys| == c.capacity
  {
    PutNeverStuck(c, k, v);
    InsertCoherent(c, k, v);
    var full := Insert(c, k, v);
    if |full.keys| > c.capacity {
      var victim := OldestUnpinned(full.keys, c.pinned).value;
      assert victim in Elems(full.keys);
      DropCoherent(full, victim);
    }
  }

  lemma TouchKeeps<K, V>(c: Cache<K, V>, k: K)
    requires Valid(c)
    ensures Valid(Touch(c, k)) && |Touch(c, k).keys| == |c.keys|
  {
    TouchValid(c, k);
    assert k in c.values <==> k in Elems(c.keys);
    MoveToEndDistinct(c.keys, k);
  }

  lemma {:induction false} UnpinnedRun<K, V>(capacity: nat, ops: seq<Op<K, V>>)
    requires PutGetOnly(ops)
    ensures var c := Run(capacity, ops);
            && Valid(c) && c.pinned == {} && c.capacity == capacity
            && c.values.Keys <= PutKeys(ops)
            && (|c.keys| == capacity || c.values.Keys == PutKeys(ops))
  {
    if ops != [] {
      var before, op := ops[..|ops| - 1], ops[|ops| - 1];
      UnpinnedRun(capacity, before);
      PutKeysSnoc(ops);
      var c := Run(capacity, before);
      if op.PutOp? {
        PutGrows(c, op.key, op.value);
      } else {
        TouchKeeps(c, op.key);
      }
    }
  }

  lemma PutKeysSnoc<K, V>(ops: seq<Op<K, V>>)
    requires ops != []
    ensures var op := ops[|ops| - 1];
            PutKeys(ops) == PutKeys(ops[..|ops| - 1]) + if op.PutOp? then {op.key} else {}
  {
  }

  lemma InclusionInsert<K>(s: seq<K>, l: seq<K>, k: K)
    requires IsSubsequence(s, l)
    ensures IsSubsequence(MoveToEnd(s, k), MoveToEnd(l, k))
  {
    var keep := Elems(s) + {k};
    ElemsConcat(Without(s, k), [k]);
    assert Elems(MoveToEnd(s, k)) == keep;
    KeepWithout(l, Elems(s), k);
    KeepConcat(Without(l, k), [k], keep);
    KeepAll([k], keep);
  }

  lemma InclusionDropSmall<K>(s: seq<K>, l: seq<K>)
    requires IsSubsequence(s, l) && Distinct(s) && s != []
    ensures IsSubsequence(s[1..], l)
  {
    WithoutFirst(s);
    KeepWithout(l, Elems(s), s[0]);
    assert Elems(s[1..]) == Elems(s) - {s[0]};
  }

  /** One `put` keeps the smaller cache's order inside the larger one's. */
  lemma InclusionPut<K, V>(small: Cache<K, V>, large: Cache<K, V>, k: K, v: V, ever: set<K>)
    requires Valid(small) && Valid(large) && small.pinned == large.pinned == {}
    requires small.capacity <= large.capacity
    requires IsSubsequence(small.keys, large.keys)
    requires large.values.Keys <= ever
    requires |small.keys| == small.capacity || small.values.Keys == ever
    ensures IsSubsequence(Put(small, k, v).keys, Put(large, k, v).keys)
  {
    UnpinnedPut(small, k, v);
    UnpinnedPut(large, k, v);
    var s, l := MoveToEnd(small.keys, k), MoveToEnd(large.keys, k);
    InclusionInsert(small.keys, large.keys, k);
    if |s| <= small.capacity {
      LargerNotFuller(small, large, k, ever);
    } else {
      MoveToEndDistinct(small.keys, k);
      assert s[0] !in s[1..];
      InclusionDropSmall(s, l);
    }
  }

  /** If the smaller cache has room for `k`, so has the larger one. */
  lemma LargerNotFuller<K, V>(small: Cache<K, V>, large: Cache<K, V>, k: K, ever: set<K>)
    requires Valid(small) && Valid(large) && small.capacity <= large.capacity
    requires IsSubsequence(small.keys, large.keys)
    requires large.values.Keys <= ever
    requires |small.keys| == small.capacity || small.values.Keys == ever
    requires |MoveToEnd(small.keys, k)| <= small.capacity
    ensures |MoveToEnd(large.keys, k)| <= large.capacity
  {
    MoveToEndDistinct(small.keys, k);
    MoveToEndDistinct(large.keys, k);
    if k !in large.keys {
      assert k !in small.keys;
      assert Elems(MoveToEnd(large.keys, k)) <= ever + {k} == Elems(MoveToEnd(small.keys, k));
      DistinctSize(MoveToEnd(small.keys, k));
      DistinctSize(MoveToEnd(large.keys, k));
      SubsetSize(Elems(MoveToEnd(large.keys, k)), Elems(MoveToEnd(small.keys, k)));
    }
  }

  lemma {:induction false} SubsetSize<K>(a: set<K>, b: set<K>)
    requires a <= b
    ensures |a| <= |b|
  {
    if x :| x in a {
      SubsetSize(a - {x}, b - {x});
    }
  }

  lemma InclusionGet<K, V>(small: Cache<K, V>, large: Cache<K, V>, k: K)
    requires Valid(small) && Valid(large)
    requires IsSubsequence(small.keys, large.keys)
    ensures IsSubsequence(Touch(small, k).keys, Touch(large, k).keys)
  {
    assert k in small.values <==> k in Elems(small.keys);
    assert k in large.values <==> k in Elems(large.keys);
    if k in large.keys {
      InclusionMove(small.keys, large.keys, k);
    }
  }

  lemma InclusionMove<K>(s: seq<K>, l: seq<K>, k: K)
    requires IsSubsequence(s, l) && k in l
    ensures IsSubsequence(if k in s then MoveToEnd(s, k) else s, MoveToEnd(l, k))
  {
    var keep := Elems(s);
    KeepWithout(l, keep, k);
    KeepConcat(Without(l, k), [k], keep);
    KeepMissing(Without(l, k), keep, k);
    if k in s {
      ElemsConcat(Without(s, k), [k]);
      assert Elems(MoveToEnd(s, k)) == keep;
      KeepAll([k], keep);
    } else {
      WithoutAbsent(s, k);
      assert Keep([k], keep) == [];
    }
  }

  /**
    Stack inclusion: on every history of puts and gets a larger cache keeps, in the same recency
    order and with the same values, every key that a smaller one keeps.
   */
  lemma {:induction false} StackInclusion<K, V>(c: nat, d: nat, ops: seq<Op<K, V>>)
    requires c <= d && PutGetOnly(ops)
    ensures IsSubsequence(Run(c, ops).keys, Run(d, ops).keys)
    ensures forall k :: k in Run(c, ops).values ==>
                          k in Run(d, ops).values && Run(d, ops).values[k] == Run(c, ops).values[k]
  {
    UnpinnedRun(c, ops);
    UnpinnedRun(d, ops);
    if ops != [] {
      var before, op := ops[..|ops| - 1], ops[|ops| - 1];
      StackInclusion(c, d, before);
      UnpinnedRun(c, before);
      UnpinnedRun(d, before);
      var small, large := Run(c, before), Run(d, before);
      if op.PutOp? {
        InclusionPut(small, large, op.key, op.value, PutKeys(before));
        PutNeverStuck(small, op.key, op.value);
        PutNeverStuck(large, op.key, op.value);
      } else {
        InclusionGet(small, large, op.key);
      }
    }
    forall k | k in Run(c, ops).values
      ensures k in Run(d, ops).values && Run(d, ops).values[k] == Run(c, ops).values[k]
    {
      assert k in Elems(Run(c, ops).keys);
      assert k in Run(d, ops).keys;
      assert k in Elems(Run(d, ops).keys);
      CachedValueIsLastPut(c, ops, k);
      CachedValueIsLastPut(d, ops, k);
    }
  }

  /** The value most recently put under `k`. */
  ghost function LastPut<K, V>(ops: seq<Op<K, V>>, k: K): (r: Option<V>) {
    if ops == [] then None
    else if ops[|ops| - 1].PutOp? && ops[|ops| - 1].key == k then Some(ops[|ops| - 1].value)
    else LastPut(ops[..|ops| - 1], k)
  }

  lemma {:induction false} CachedValueIsLastPut<K, V>(capacity: nat, ops: seq<Op<K, V>>, k: K)
    requires PutGetOnly(ops)
    requires k in Run(capacity, ops).values
    ensures LastPut(ops, k) == Some(Run(capacity, ops).values[k])
  {
    if ops != [] {
      var before, op := ops[..|ops| - 1], ops[|ops| - 1];
      UnpinnedRun(capacity, before);
      if op.PutOp? {
        PutNeverStuck(Run(capacity, before), op.key, op.value);
        if op.key != k {
          assert k in Run(capacity, before).values;
          CachedValueIsLastPut(capacity, before, k);
        }
      } else {
        CachedValueIsLastPut(capacity, before, k);
      }
    }
  }

  /** The keys accessed, in time order: every `put`, and every `get` that hits. */
  ghost function Accesses<K, V>(capacity: nat, ops: seq<Op<K, V>>): (r: seq<K>)
    requires PutGetOnly(ops)
  {
    if ops == [] then []
    else
      var before, op := ops[..|ops| - 1], ops[|ops| - 1];
      if op.PutOp? || op.key in Run(capacity, before).values then Accesses(capacity, before) + [op.key]
      else Accesses(capacity, before)
  }

  /** What follows the last occurrence of `k`. */
  ghost function After<K>(s: seq<K>, k: K): (r: seq<K>) {
    if s == [] || s[|s| - 1] == k then []
    else After(s[..|s| - 1], k) + [s[|s| - 1]]
  }

  /** The distinct keys of a log, ordered by last occurrence. */
  ghost function Recency<K>(log: seq<K>): (r: seq<K>) {
    if log == [] then []
    else MoveToEnd(Recency(log[..|log| - 1]), log[|log| - 1])
  }

  lemma {:induction false} RecencyDistinct<K>(log: seq<K>)
    ensures Distinct(Recency(log)) && Elems(Recency(log)) == Elems(log)
  {
    if log != [] {
      RecencyDistinct(log[..|log| - 1]);
      MoveToEndDistinct(Recency(log[..|log| - 1]), log[|log| - 1]);
      assert log == log[..|log| - 1] + [log[|log| - 1]];
    }
  }

  lemma {:induction false} AfterWithout<K>(s: seq<K>, k: K, x: K)
    requires k != x
    ensures Elems(After(Without(s, x), k)) == Elems(After(s, k)) - {x}
  {
    if s != [] {
      var init, last := s[..|s| - 1], s[|s| - 1];
      assert s == init + [last];
      WithoutConcat(init, [last], x);
      assert Without([last], x) == if last == x then [] else [last];
      AfterWithout(init, k, x);
      ElemsConcat(After(init, k), [last]);
      ElemsConcat(After(Without(init, x), k), [last]);
      if last != x {
        var w := Without(s, x);
        assert w == Without(init, x) + [last];
        assert w[..|w| - 1] == Without(init, x);
      } else {
        assert Without(s, x) == Without(init, x);
      }
    }
  }

  /** The keys more recent than `k` are the distinct keys accessed since `k` was. */
  lemma {:induction false} AfterRecency<K>(log: seq<K>, k: K)
    requires k in log
    ensures Elems(After(Recency(log), k)) == Elems(After(log, k))
  {
    var init, last := log[..|log| - 1], log[|log| - 1];
    assert log == init + [last];
    var r := Recency(log);
    assert r[..|r| - 1] == Without(Recency(init), last);
    if last != k {
      AfterRecency(init, k);
      AfterWithout(Recency(init), k, last);
      ElemsConcat(After(init, k), [last]);
      ElemsConcat(After(Without(Recency(init), last), k), [last]);
    }
  }

  lemma {:induction false} AfterAt<K>(s: seq<K>, i: nat)
    requires Distinct(s) && i < |s|
    ensures After(s, s[i]) == s[i + 1..]
  {
    var init := s[..|s| - 1];
    if i < |s| - 1 {
      AfterAt(init, i);
      assert init[i + 1..] + [s[|s| - 1]] == s[i + 1..];
    }
  }

  lemma AfterPosition<K>(s: seq<K>, k: K, c: nat)
    requires Distinct(s) && k in s && c <= |s|
    ensures Distinct(After(s, k))
    ensures k in s[|s| - c..] <==> |After(s, k)| < c
  {
    var i :| 0 <= i < |s| && s[i] == k;
    AfterAt(s, i);
    if |s| - c <= i {
      assert s[|s| - c..][i - (|s| - c)] == k;
    }
  }

  ghost function Newest<K>(s: seq<K>, c: nat): seq<K> {
    if |s| <= c then s else s[|s| - c..]
  }

  lemma NewestOfConcat<K>(a: seq<K>, b: seq<K>, c: nat)
    requires c <= |b|
    ensures Newest(a + b, c) == b[|b| - c..]
  {
  }

  /** Refreshing a key and trimming to the newest `c` commute. */
  lemma NewestMoveToEnd<K>(r: seq<K>, k: K, c: nat)
    requires Distinct(r)
    ensures Newest(MoveToEnd(r, k), c) == Newest(MoveToEnd(Newest(r, c), k), c)
    ensures k in Newest(r, c) ==> Newest(MoveToEnd(r, k), c) == MoveToEnd(Newest(r, c), k)
  {
    if |r| > c {
      var oldest, newest := r[..|r| - c], r[|r| - c..];
      assert r == oldest + newest;
      WithoutConcat(oldest, newest, k);
      WithoutDistinct(newest, k);
      assert MoveToEnd(r, k) == Without(oldest, k) + MoveToEnd(newest, k);
      NewestOfConcat(Without(oldest, k), MoveToEnd(newest, k), c);
    } else {
      WithoutDistinct(r, k);
    }
  }

  lemma {:induction false} RunIsNewest<K, V>(capacity: nat, ops: seq<Op<K, V>>)
    requires PutGetOnly(ops)
    ensures Run(capacity, ops).keys == Newest(Recency(Accesses(capacity, ops)), capacity)
  {
    if ops != [] {
      var before, op := ops[..|ops| - 1], ops[|ops| - 1];
      RunIsNewest(capacity, before);
      UnpinnedRun(capacity, before);
      var c, log := Run(capacity, before), Accesses(capacity, before);
      assert op.key in c.values <==> op.key in Elems(c.keys);
      var log' := Accesses(capacity, ops);
      RecencyDistinct(log);
      NewestMoveToEnd(Recency(log), op.key, capacity);
      if op.PutOp? || op.key in c.values {
        assert log'[..|log'| - 1] == log;
        if op.PutOp? {
          UnpinnedPut(c, op.key, op.value);
          MoveToEndDistinct(c.keys, op.key);
        }
      }
    }
  }

  /**
    The LRU specification: a key is cached exactly when it has been accessed and fewer than
    `capacity` distinct other keys have been accessed since; its value is the last one put.
   */
  lemma CachedIffRecent<K, V>(capacity: nat, ops: seq<Op<K, V>>, k: K)
    requires PutGetOnly(ops)
    ensures var log := Accesses(capacity, ops);
            k in Run(capacity, ops).values <==> k in log && |Elems(After(log, k))| < capacity
    ensures k in Run(capacity, ops).values ==> LastPut(ops, k) == Some(Run(capacity, ops).values[k])
  {
    var log := Accesses(capacity, ops);
    RunIsNewest(capacity, ops);
    UnpinnedRun(capacity, ops);
    RecencyDistinct(log);
    var r := Recency(log);
    assert k in Run(capacity, ops).values <==> k in Elems(Run(capacity, ops).keys);
    assert k in Elems(r) <==> k in Elems(log);
    if k in log {
      AfterRecency(log, k);
      AfterPosition(r, k, if |r| <= capacity then |r| else capacity);
      DistinctSize(After(r, k));
      assert r[0..] == r;
    }
    if k in Run(capacity, ops).values {
      CachedValueIsLastPut(capacity, ops, k);
    }
  }
}
