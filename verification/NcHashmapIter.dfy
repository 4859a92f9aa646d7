/** Iteration over a hash map: each occupied entry is yielded once, in storage order. */
module NcHashmapIter {
  import opened CStrings
  import opened HashTable
  import opened NcHashmap

  /** A row by its chain and its place there; None is the end of a chain. */
  type Position = Option<(nat, nat)>

  ghost predicate IsIn<K, V>(t: Table<K, V>, at: Position) {
    at.Some? ==> at.value.0 < |t| && at.value.1 < |t[at.value.0]|
  }

  ghost function After<K, V>(t: Table<K, V>, at: Position): Position
    requires at.Some? && IsIn(t, at)
  {
    var (b, p) := at.value;
    if p + 1 < |t[b]| then Some((b, p + 1)) else None
  }

  /** What is still to come: the rest of one chain, then the chains behind the current bucket. */
  ghost function Remaining<K, V>(t: Table<K, V>, bucket: int, at: Position): Chain<K, V>
    requires -1 <= bucket && IsIn(t, at)
  {
    (if at.Some? then Occupied(t[at.value.0][at.value.1..]) else []) +
    (if bucket < |t| then Entries(t, bucket + 1) else [])
  }

  lemma StepOver<K, V>(t: Table<K, V>, bucket: int, at: Position)
    requires -1 <= bucket && at.Some? && IsIn(t, at)
    ensures var row := t[at.value.0][at.value.1];
      && IsIn(t, After(t, at))
      && Remaining(t, bucket, at) == (if row.occ then [row] else []) + Remaining(t, bucket, After(t, at))
  {
    var (b, p) := at.value;
    assert t[b][p..][1..] == t[b][p + 1..];
    assert p + 1 == |t[b]| ==> Occupied(t[b][p + 1..]) == [];
  }

  lemma NextChain<K, V>(t: Table<K, V>, bucket: int)
    requires -1 <= bucket < |t| - 1 && t[bucket + 1] != []
    ensures Remaining(t, bucket, None) == Remaining(t, bucket + 1, Some((bucket + 1, 0)))
  {
  }

  /** At the end there is nothing left, whatever the current bucket. */
  lemma NothingLeft<K, V>(t: Table<K, V>, bucket: int, at: Position, bucket': int)
    requires -1 <= bucket && IsIn(t, at) && |t| <= bucket'
    ensures Remaining(t, bucket, at) == [] ==> Remaining(t, bucket', at) == []
    ensures |t| <= bucket + 1 ==> Remaining(t, bucket, None) == []
  {
  }

  /** The position of an entry, which it knows itself. */
  ghost function PositionOf<K, V>(e: Entry?<K, V>): Position {
    if e == null then None else Some((e.home, e.place))
  }

  /** e is nothing, or an entry of the map. */
  ghost predicate IsOf<K, V>(e: Entry?<K, V>, chains: Chains<K, V>) {
    e != null ==> e.home < |chains| && e.place < |chains[e.home]| && e == chains[e.home][e.place]
  }

  lemma NextEntry<K(!new), V>(keys: Keys<K>, buckets: array<Entry<K, V>>, model: Model<K, V>, e: Entry<K, V>)
    requires Holds(keys, buckets, model) && IsOf(e, model.chains)
    ensures IsIn(model.table, PositionOf(e))
    ensures Shows(e, model.table[e.home][e.place])
    ensures IsOf(e.next, model.chains) && PositionOf(e.next) == After(model.table, PositionOf(e))
  {
    assert Chained(model.chains[e.home], e.home, model.table[e.home]);
    assert Linked(model.chains[e.home], e.place);
  }

  lemma HeadEntry<K(!new), V>(keys: Keys<K>, buckets: array<Entry<K, V>>, model: Model<K, V>, b: nat)
    requires Holds(keys, buckets, model) && b < buckets.Length
    ensures IsOf(buckets[b], model.chains) && PositionOf(buckets[b]) == Some((b, 0)) && model.table[b] != []
    ensures |model.table| == buckets.Length
  {
  }

  class Iter<K(==, !new), V> {
    const owner: NcHashmap<K, V>
    var bucket: int
    var item: Entry?<K, V>

    ghost predicate Valid()
      reads this, owner, owner.buckets, owner.model.repr
    {
      && owner.Valid()
      && -1 <= bucket
      && IsOf(item, owner.model.chains) && IsIn(owner.model.table, PositionOf(item))
      && (bucket >= |owner.model.table| ==> Remaining(owner.model.table, bucket, PositionOf(item)) == [])
    }

    /** The rows that have not been yielded yet. */
    ghost function Rest(): Chain<K, V>
      requires Valid()
      reads this, owner, owner.buckets, owner.model.repr
    {
      Remaining(owner.model.table, bucket, PositionOf(item))
    }

    /** nc_hashmap_iter_init */
    constructor (m: NcHashmap<K, V>)
      requires m.Valid()
      ensures Valid() && owner == m
      ensures Rest() == Entries(m.model.table, 0)
    {
      owner, bucket, item := m, -1, null;
    }

    /** nc_hashmap_iter_next */
    method Next() returns (more: bool, key: Option<K>, value: Option<V>)
      requires Valid()
      modifies this
      ensures Valid()
      ensures more == (old(Rest()) != [])
      ensures more ==> Row(key, value, true) == old(Rest())[0] && Rest() == old(Rest())[1..]
      ensures !more ==> Rest() == []
    {
      hide Holds, Remaining;
      var n := owner.buckets.Length;
      ghost var model, rest := owner.model, Rest();
      HeadEntry(owner.keys, owner.buckets, model, 0);
      more, key, value := false, None, None;
      var it := item;
      while true
        invariant item == old(item) && -1 <= bucket && n == |model.table|
        invariant IsOf(it, model.chains) && IsIn(model.table, PositionOf(it))
        invariant Remaining(model.table, bucket, PositionOf(it)) == rest
        invariant bucket >= n ==> rest == []
        decreases n - bucket, if it == null then 0 else 1 + |model.table[it.home]| - it.place
      {
        if it != null {
          NextEntry(owner.keys, owner.buckets, model, it);
        }
        if bucket >= n && it != null && it.next == null {
          NothingLeft(model.table, old(bucket), PositionOf(item), bucket);
          return;
        }
        if it == null {
          NothingLeft(model.table, bucket, PositionOf(it), n);
          bucket := bucket + 1;
          if bucket > n - 1 {
            NothingLeft(model.table, old(bucket), PositionOf(item), bucket);
            return;
          }
          HeadEntry(owner.keys, owner.buckets, model, bucket);
          NextChain(model.table, bucket - 1);
          it := owner.buckets[bucket];
          NextEntry(owner.keys, owner.buckets, model, it);
        }
        StepOver(model.table, bucket, PositionOf(it));
        if it.occ {
          break;
        }
        it := it.next;
      }
      item := it.next;
      more, key, value := true, it.key, it.value;
    }
  }
}
