/** The hash map of libnica in memory: an array of bucket heads, each the start of a linked chain. */
module NcHashmap {
  import opened CStrings
  import opened HashTable

  class Entry<K, V> {
    var key: Option<K>
    var value: Option<V>
    var next: Entry?<K, V>
    var occ: bool
    /** The bucket and the place in its chain for which the entry was made. */
    ghost const home: nat
    ghost const place: nat

    /** calloc */
    constructor (ghost home: nat, ghost place: nat)
      ensures key == None && value == None && next == null && !occ
      ensures this.home == home && this.place == place
    {
      key, value, next, occ := None, None, null, false;
      this.home, this.place := home, place;
    }
  }

  /** The entries c form the chain of bucket b and hold these rows. */
  ghost predicate Chained<K, V>(c: seq<Entry<K, V>>, b: nat, rows: Chain<K, V>)
    reads c
  {
    && 0 < |c| == |rows|
    && (forall i :: 0 <= i < |c| ==> c[i].home == b && c[i].place == i)
    && (forall i {:trigger Linked(c, i)} :: 0 <= i < |c| ==> Linked(c, i))
    && (forall i :: 0 <= i < |c| ==> Shows(c[i], rows[i]))
  }

  /** Entry i leads to the next one, and the last one to nothing. */
  ghost predicate Linked<K, V>(c: seq<Entry<K, V>>, i: nat)
    requires i < |c|
    reads c
  {
    c[i].next == if i + 1 < |c| then c[i + 1] else null
  }

  ghost predicate Shows<K, V>(e: Entry<K, V>, row: Row<K, V>)
    reads e
  {
    e.key == row.key && e.value == row.value && e.occ == row.occ
  }

  /** Some entry of the chain leads back into it: a walk that does not find its key never ends. */
  ghost predicate Cyclic<K, V>(c: seq<Entry<K, V>>)
    reads c
  {
    exists i, j :: 0 <= i <= j < |c| && c[j].next == c[i]
  }

  /** The walk of nc_hashmap_insert_bucket: the entry that holds the key, or the last entry and the last free one. */
  method Walk<K(==), V>(keys: Keys<K>, head: Entry<K, V>, ghost c: seq<Entry<K, V>>, ghost b: nat,
      ghost rows: Chain<K, V>, key: Option<K>)
    returns (found: Entry?<K, V>, parent: Entry<K, V>, tomb: Entry?<K, V>)
    requires Chained(c, b, rows) && c[0] == head
    ensures found != null ==> FindOccupied(keys, rows, key) < |c| && found == c[FindOccupied(keys, rows, key)]
    ensures found == null ==>
      && FindOccupied(keys, rows, key) == |c|
      && parent == c[|c| - 1]
      && if tomb == null then Tomb(rows).None? else Tomb(rows).Some? && tomb == c[Tomb(rows).value]
  {
    var row: Entry?<K, V> := head;
    parent, tomb := head, null;
    ghost var i, t := 0, -1;
    while row != null
      invariant i <= |c| && row == (if i < |c| then c[i] else null)
      invariant i > 0 ==> parent == c[i - 1]
      invariant -1 <= t < i && tomb == (if t < 0 then null else c[t]) && (0 <= t ==> !rows[t].occ)
      invariant forall j :: t < j < i ==> rows[j].occ
      invariant forall j :: 0 <= j < i ==> !(rows[j].occ && Matches(keys, rows[j].key, key))
      decreases |c| - i
    {
      assert Linked(c, i) && Shows(c[i], rows[i]);
      if !row.occ {
        tomb, t := row, i;
      }
      parent := row;
      if row.occ && Matches(keys, row.key, key) {
        return row, parent, tomb;
      }
      row, i := row.next, i + 1;
    }
    found := null;
  }

  method Fill<K, V>(e: Entry<K, V>, ghost c: seq<Entry<K, V>>, ghost b: nat, ghost rows: Chain<K, V>, ghost i: nat,
                    key: Option<K>, value: Option<V>, occ: bool)
    requires Chained(c, b, rows) && i < |c| && e == c[i]
    modifies e
    ensures Chained(c, b, rows[i := Row(key, value, occ)])
  {
    e.key, e.value, e.occ := key, value, occ;
    forall j | 0 <= j < |c| ensures Linked(c, j) {
      assert old(Linked(c, j));
    }
  }

  method Append<K, V>(last: Entry<K, V>, ghost c: seq<Entry<K, V>>, ghost b: nat, ghost rows: Chain<K, V>,
                      key: Option<K>, value: Option<V>)
    returns (row: Entry<K, V>)
    requires Chained(c, b, rows) && last == c[|c| - 1]
    modifies last
    ensures fresh(row) && Chained(c + [row], b, rows + [Row(key, value, true)])
  {
    row := new Entry<K, V>(b, |c|);
    row.key, row.value, row.occ := key, value, true;
    last.next := row;
    forall j | 0 <= j < |c| + 1 ensures Linked(c + [row], j) {
      assert j < |c| ==> old(Linked(c, j));
    }
  }

  /**
   nc_hashmap_insert_bucket on the chain that starts at `head`. A safe insertion replaces one row
   or appends one; an unsafe one reuses a free row from the middle, and closes the chain into a cycle.
   */
  method InsertChain<K(==), V>(keys: Keys<K>, head: Entry<K, V>, ghost c: seq<Entry<K, V>>, ghost b: nat,
      ghost rows: Chain<K, V>, key: Option<K>, value: Option<V>)
    returns (inc: int, ghost c': seq<Entry<K, V>>)
    requires Chained(c, b, rows) && c[0] == head
    modifies c
    ensures InsertSafe(keys, rows, key) ==> Chained(c', b, Insert(keys, rows, key, value)) && c <= c'
    ensures !InsertSafe(keys, rows, key) ==> Cyclic(c) && c' == c
    ensures forall i :: 0 <= i < |c'| ==> c'[i] in c || fresh(c'[i])
    ensures inc == if FindOccupied(keys, rows, key) < |c| then 0 else 1
  {
    var found, parent, tomb := Walk(keys, head, c, b, rows, key);
    c' := c;
    if found != null {
      Fill(found, c, b, rows, FindOccupied(keys, rows, key), key, value, true);
      inc := 0;
    } else if tomb == null {
      var row := Append(parent, c, b, rows, key, value);
      c' := c + [row];
      inc := 1;
    } else {
      ghost var t := Tomb(rows).value;
      Fill(tomb, c, b, rows, t, key, value, true);
      if parent != tomb {
        parent.next := tomb;
        assert c[|c| - 1].next == c[t];
      }
      inc := 1;
    }
  }

  // ---- All buckets ----

  type Chains<K, V> = seq<seq<Entry<K, V>>>

  /** Each bucket starts its own chain within repr, and the chains hold the rows of the table. */
  ghost predicate Stored<K, V>(buckets: array<Entry<K, V>>, repr: set<Entry<K, V>>, chains: Chains<K, V>,
      t: Table<K, V>)
    reads buckets, repr
  {
    && 0 < buckets.Length == |chains| == |t|
    && (forall b, i :: 0 <= b < |chains| && 0 <= i < |chains[b]| ==> chains[b][i] in repr)
    && (forall b :: 0 <= b < |chains| ==> Chained(chains[b], b, t[b]) && chains[b][0] == buckets[b])
  }

  /** nc_hashmap_insert_bucket */
  method InsertBucket<K(==), V>(keys: Keys<K>, buckets: array<Entry<K, V>>, ghost repr: set<Entry<K, V>>,
                                ghost chains: Chains<K, V>, ghost t: Table<K, V>, b: nat,
                                key: Option<K>, value: Option<V>)
    returns (inc: int, ghost repr': set<Entry<K, V>>, ghost chains': Chains<K, V>)
    requires Stored(buckets, repr, chains, t) && b < buckets.Length
    modifies repr
    ensures repr <= repr' && fresh(repr' - repr)
    ensures inc == if FindOccupied(keys, t[b], key) < |t[b]| then 0 else 1
    ensures if InsertSafe(keys, t[b], key) then Stored(buckets, repr', chains', t[b := Insert(keys, t[b], key, value)])
            else Cyclic(chains[b])
  {
    ghost var c';
    inc, c' := InsertChain(keys, buckets[b], chains[b], b, t[b], key, value);
    chains' := chains[b := c'];
    repr' := repr + (set e | e in c');
  }

  // ---- What the memory stands for ----

  /** The entries in memory, their chains, the rows they hold, and the map they stand for. */
  datatype Model<!K(==), !V> = Model(repr: set<Entry<K, V>>, chains: Chains<K, V>, table: Table<K, V>,
      contents: map<Option<K>, Option<V>>)

  ghost predicate Holds<K(!new), V>(keys: Keys<K>, buckets: array<Entry<K, V>>, model: Model<K, V>)
    reads buckets, model.repr
  {
    match model
    case Model(repr, chains, table, contents) =>
      Stored(buckets, repr, chains, table) && Represents(keys, table, contents)
  }

  /** calloc of a bucket array */
  method NewBuckets<K(==, !new), V>(keys: Keys<K>, n: nat)
    returns (buckets: array<Entry<K, V>>, ghost model: Model<K, V>)
    requires n > 0
    ensures Holds(keys, buckets, model) && buckets.Length == n
    ensures Dense(model.table) && model.contents == map[]
    ensures fresh(buckets) && fresh(model.repr)
  {
    var first := new Entry<K, V>(0, 0);
    buckets := new Entry<K, V>[n](_ => first);
    ghost var repr, chains := {first}, [[first]];
    for b := 1 to n
      invariant fresh(buckets) && fresh(repr)
      invariant |chains| == b
      invariant forall a :: 0 <= a < b ==> |chains[a]| == 1 && chains[a][0] == buckets[a] && buckets[a] in repr
      invariant forall a :: 0 <= a < b ==> IsBlank(buckets[a], a)
    {
      var e := new Entry<K, V>(b, 0);
      buckets[b] := e;
      repr, chains := repr + {e}, chains + [[e]];
    }
    forall b | 0 <= b < n ensures Chained(chains[b], b, EmptyTable<K, V>(n)[b]) {
      assert Linked(chains[b], 0);
    }
    EmptyRepresentsEmpty<K, V>(keys, n);
    model := Model(repr, chains, EmptyTable<K, V>(n), map[]);
  }

  ghost predicate IsBlank<K, V>(e: Entry<K, V>, b: nat)
    reads e
  {
    e.home == b && e.place == 0 && e.next == null && Shows(e, Row(None, None, false))
  }

  /** A put into the buckets, without regard to their number. */
  method Insertion<K(==, !new), V>(keys: Keys<K>, buckets: array<Entry<K, V>>, ghost model: Model<K, V>,
      key: Option<K>, value: Option<V>)
    returns (inc: int, ghost model': Model<K, V>)
    requires Holds(keys, buckets, model) && Usable(keys, key)
    modifies model.repr
    ensures model.repr <= model'.repr && fresh(model'.repr - model.repr)
    ensures inc == if key in model.contents then 0 else 1
    ensures Dense(model.table) ==> Fits(keys, model.table, key) && Dense(model'.table)
    ensures Fits(keys, model.table, key) ==>
      Holds(keys, buckets, model') && model'.contents == model.contents[key := value] && |model'.table| == |model.table|
    ensures !Fits(keys, model.table, key) ==> Cyclic(model.chains[Bucket(keys, key, |model.table|)])
  {
    ghost var t := model.table;
    var b := Bucket(keys, key, buckets.Length);
    FoundIffMapped(keys, t, model.contents, key);
    if Dense(t) {
      DenseIsSafe(keys, t[b], key, value);
    }
    ghost var repr', chains';
    inc, repr', chains' := InsertBucket(keys, buckets, model.repr, model.chains, t, b, key, value);
    if Fits(keys, t, key) {
      InsertRefines(keys, t, model.contents, key, value);
      model' := Model(repr', chains', t[b := Insert(keys, t[b], key, value)], model.contents[key := value]);
    } else {
      model' := model.(repr := repr');
    }
  }

  /** The walk of nc_hashmap_get_entry: the first entry that holds the key, occupied or not. */
  method FindEntry<K(==), V>(keys: Keys<K>, head: Entry<K, V>, ghost c: seq<Entry<K, V>>, ghost b: nat,
      ghost rows: Chain<K, V>, key: Option<K>)
    returns (e: Entry?<K, V>)
    requires Chained(c, b, rows) && c[0] == head
    ensures var i := FindAny(keys, rows, key);
      e == if i < |c| then c[i] else null
  {
    e := head;
    ghost var i := 0;
    while e != null
      invariant i <= |c| && e == (if i < |c| then c[i] else null)
      invariant forall j :: 0 <= j < i ==> !Matches(keys, rows[j].key, key)
      decreases |c| - i
    {
      assert Linked(c, i) && Shows(c[i], rows[i]);
      if Matches(keys, e.key, key) {
        return;
      }
      e, i := e.next, i + 1;
    }
  }

  method Blank<K, V>(buckets: array<Entry<K, V>>, ghost repr: set<Entry<K, V>>, ghost chains: Chains<K, V>,
      ghost t: Table<K, V>, ghost b: nat, ghost i: nat, e: Entry<K, V>)
    requires Stored(buckets, repr, chains, t) && b < |t| && i < |t[b]| && e == chains[b][i]
    modifies e
    ensures Stored(buckets, repr, chains, Removed(t, b, i))
  {
    Fill(e, chains[b], b, t[b], i, None, None, false);
  }

  /** The end of a removal: the row is blanked, whether or not it was occupied. */
  method Vacate<K(==, !new), V>(keys: Keys<K>, buckets: array<Entry<K, V>>, ghost model: Model<K, V>, ghost b: nat,
      ghost i: nat, e: Entry<K, V>)
    returns (ghost model': Model<K, V>)
    requires Holds(keys, buckets, model) && b < |model.table| && i < |model.table[b]| && e == model.chains[b][i]
    modifies e
    ensures model.table[b][i].occ ==>
      && Holds(keys, buckets, model') && model'.repr == model.repr
      && model'.contents == model.contents - {model.table[b][i].key}
    ensures !model.table[b][i].occ ==> model' == model
  {
    Blank(buckets, model.repr, model.chains, model.table, b, i, e);
    model' := model;
    if model.table[b][i].occ {
      RemoveRefines(keys, model.table, model.contents, b, i);
      model' := model.(table := Removed(model.table, b, i), contents := model.contents - {model.table[b][i].key});
    }
  }

  /** nc_hashmap_remove_internal, but for the count. */
  method Removal<K(==, !new), V>(keys: Keys<K>, buckets: array<Entry<K, V>>, ghost model: Model<K, V>, key: Option<K>)
    returns (removed: bool, ghost model': Model<K, V>)
    requires Holds(keys, buckets, model) && Usable(keys, key)
    modifies model.repr
    ensures LookupFits(keys, model.table, key) ==>
      && Holds(keys, buckets, model') && removed == (key in model.contents)
      && model'.contents == (if removed then model.contents - {key} else model.contents)
      && |model'.contents| == |model.contents| - if removed then 1 else 0
    ensures !LookupFits(keys, model.table, key) ==> removed && model' == model
    ensures model'.repr == model.repr
  {
    var b := Bucket(keys, key, buckets.Length);
    ghost var i := FindAny(keys, model.table[b], key);
    RemoveFound(keys, model.table, model.contents, key);
    var e := FindEntry(keys, buckets[b], model.chains[b], b, model.table[b], key);
    if e == null {
      return false, model;
    }
    model' := Vacate(keys, buckets, model, b, i, e);
    if model.table[b][i].occ {
      SizeWithout(model.contents, model'.contents, key);
    }
    removed := true;
  }

  const INITIAL_SIZE := 61
  const INCREASE_FACTOR := 4

  /** 70% of the buckets */
  function NextSize(n: nat): nat {
    n * 7 / 10
  }

  /** One step of nc_hashmap_resize: an occupied entry goes into the new buckets, and counts. */
  method MoveEntry<K(==, !new), V>(keys: Keys<K>, entry: Entry<K, V>, ghost t: Table<K, V>,
      ghost m: map<Option<K>, Option<V>>, ghost i: nat, ghost j: nat, buckets': array<Entry<K, V>>,
      ghost moved: Model<K, V>)
    returns (inc: int, ghost moved': Model<K, V>)
    requires Represents(keys, t, m) && i < |t| && j < |t[i]| && Shows(entry, t[i][j])
    requires Holds(keys, buckets', moved) && Dense(moved.table)
    requires Moved(keys, t, m, moved.contents, i, j)
    modifies moved.repr
    ensures Holds(keys, buckets', moved') && Dense(moved'.table)
    ensures moved.repr <= moved'.repr && fresh(moved'.repr - moved.repr)
    ensures Moved(keys, t, m, moved'.contents, i, j + 1)
    ensures inc == |moved'.contents| - |moved.contents|
  {
    MoveRow(keys, t, m, moved.contents, i, j);
    inc, moved' := 0, moved;
    if entry.occ {
      inc, moved' := Insertion(keys, buckets', moved, entry.key, entry.value);
    }
  }

  /** nc_hashmap_resize, inner loop: the entries of chain i. */
  method MoveEntries<K(==, !new), V>(keys: Keys<K>, head: Entry<K, V>, ghost c: seq<Entry<K, V>>, ghost t: Table<K, V>,
                                     ghost m: map<Option<K>, Option<V>>, ghost i: nat,
                                     buckets': array<Entry<K, V>>, ghost moved: Model<K, V>)
    returns (items: int, ghost moved': Model<K, V>)
    requires Represents(keys, t, m) && i < |t| && Chained(c, i, t[i]) && c[0] == head
    requires Holds(keys, buckets', moved) && Dense(moved.table)
    requires forall k :: 0 <= k < |c| ==> c[k] !in moved.repr
    requires Moved(keys, t, m, moved.contents, i, 0)
    modifies moved.repr
    ensures Holds(keys, buckets', moved') && Dense(moved'.table)
    ensures moved.repr <= moved'.repr && fresh(moved'.repr - moved.repr)
    ensures Moved(keys, t, m, moved'.contents, i + 1, 0)
    ensures items == |moved'.contents| - |moved.contents|
  {
    var entry: Entry?<K, V> := head;
    ghost var j := 0;
    items, moved' := 0, moved;
    while entry != null
      invariant j <= |c| && entry == (if j < |c| then c[j] else null)
      invariant Chained(c, i, t[i])
      invariant Holds(keys, buckets', moved') && Dense(moved'.table)
      invariant moved.repr <= moved'.repr && fresh(moved'.repr - moved.repr)
      invariant Moved(keys, t, m, moved'.contents, i, j)
      invariant items == |moved'.contents| - |moved.contents|
      decreases |c| - j
    {
      assert Linked(c, j) && Shows(c[j], t[i][j]);
      var next, inc := entry.next, 0;
      inc, moved' := MoveEntry(keys, entry, t, m, i, j, buckets', moved');
      items := items + inc;
      entry, j := next, j + 1;
    }
    MoveChain(keys, t, m, moved'.contents, i);
  }

  /** nc_hashmap_resize: four times the buckets, the same contents, no free row inside a chain. */
  method Resized<K(==, !new), V>(keys: Keys<K>, buckets: array<Entry<K, V>>, ghost model: Model<K, V>)
    returns (items: int, buckets': array<Entry<K, V>>, ghost model': Model<K, V>)
    requires Holds(keys, buckets, model)
    ensures Holds(keys, buckets', model') && Dense(model'.table)
    ensures model'.contents == model.contents && items == |model.contents|
    ensures buckets'.Length == INCREASE_FACTOR * buckets.Length
    ensures fresh(buckets') && fresh(model'.repr)
  {
    buckets', model' := NewBuckets<K, V>(keys, INCREASE_FACTOR * buckets.Length);
    items := 0;
    for i := 0 to buckets.Length
      invariant Holds(keys, buckets, model)
      invariant Holds(keys, buckets', model') && Dense(model'.table)
      invariant fresh(buckets') && fresh(model'.repr) && model.repr !! model'.repr
      invariant Moved(keys, model.table, model.contents, model'.contents, i, 0)
      invariant items == |model'.contents|
    {
      var more;
      more, model' := MoveEntries(keys, buckets[i], model.chains[i], model.table, model.contents, i, buckets', model');
      items := items + more;
    }
    MovedAll(keys, model.table, model.contents, model'.contents);
  }

  class NcHashmap<K(==, !new), V> {
    const keys: Keys<K>
    var size: int
    var nextSize: int
    var buckets: array<Entry<K, V>>
    ghost var model: Model<K, V>

    ghost predicate Valid()
      reads this, buckets, model.repr
    {
      && Holds(keys, buckets, model)
      && size == |model.contents| <= nextSize == NextSize(buckets.Length)
      && 0 < nextSize
    }

    constructor (keys: Keys<K>)
      ensures Valid() && Dense(model.table) && fresh(buckets) && fresh(model.repr)
      ensures model.contents == map[] && this.keys == keys
    {
      this.keys := keys;
      var heads, m := NewBuckets<K, V>(keys, INITIAL_SIZE);
      buckets, model := heads, m;
      size, nextSize := 0, NextSize(INITIAL_SIZE);
    }

    method Get(key: Option<K>) returns (value: Option<V>)
      requires Valid() && Usable(keys, key)
      ensures value ==
        if key in model.contents && LookupFits(keys, model.table, key) then model.contents[key] else None
    {
      var b := Bucket(keys, key, buckets.Length);
      LookupRefines(keys, model.table, model.contents, key);
      var e := FindEntry(keys, buckets[b], model.chains[b], b, model.table[b], key);
      if e != null {
        assert Shows(e, model.table[b][FindAny(keys, model.table[b], key)]);
        return e.value;
      }
      return None;
    }

    /** A stored NULL counts as absent. */
    method Contains(key: Option<K>) returns (yes: bool)
      requires Valid() && Usable(keys, key)
      ensures yes ==
        (key in model.contents && LookupFits(keys, model.table, key) && model.contents[key].Some?)
    {
      var value := Get(key);
      return value.Some?;
    }

    method Size() returns (n: int)
      requires Valid()
      ensures n == |model.contents|
    {
      return size;
    }

    /** A removal that finds the key's own row deletes it; one that stops at a blank row only miscounts. */
    method Remove(key: Option<K>) returns (removed: bool)
      requires Valid() && Usable(keys, key)
      modifies this, model.repr
      ensures old(LookupFits(keys, model.table, key)) ==>
        && Valid() && removed == (key in old(model.contents))
        && model.contents == if removed then old(model.contents) - {key} else old(model.contents)
      ensures !old(LookupFits(keys, model.table, key)) ==>
        removed && model == old(model) && size == |model.contents| - 1
      ensures buckets == old(buckets) && model.repr == old(model.repr)
    {
      hide Holds, LookupFits;
      removed, model := Removal(keys, buckets, model, key);
      size := if removed then size - 1 else size;
    }

    /**
     nc_hashmap_put. After a resize, or when the key's chain has no free row in its middle, it is an
     update of the map; otherwise the chain is closed into a cycle.
     */
    method Put(key: Option<K>, value: Option<V>) returns (ok: bool)
      requires Valid() && Usable(keys, key)
      modifies this, model.repr
      ensures ok
      ensures old(size >= nextSize || Fits(keys, model.table, key)) ==>
        Valid() && model.contents == old(model.contents)[key := value]
      ensures !old(size >= nextSize || Fits(keys, model.table, key)) ==>
        Cyclic(old(model.chains)[Bucket(keys, key, |old(model.table)|)])
      ensures old(Dense(model.table)) ==> old(size >= nextSize || Fits(keys, model.table, key)) && Dense(model.table)
      ensures fresh(model.repr - old(model.repr)) && (buckets == old(buckets) || fresh(buckets))
    {
      hide Holds, Dense, Fits;
      Grow();
      var inc;
      inc, model := Insertion(keys, buckets, model, key, value);
      size := size + inc;
      return true;
    }

    /** Makes room when the map is full: afterwards there is room for one more. */
    method Grow()
      requires Valid()
      modifies this
      ensures Valid() && size < nextSize && model.contents == old(model.contents)
      ensures if old(size >= nextSize) then Dense(model.table) && fresh(buckets) && fresh(model.repr)
              else model == old(model) && buckets == old(buckets)
    {
      hide Holds, Dense;
      if size >= nextSize {
        size, buckets, model := Resized(keys, buckets, model);
        nextSize := NextSize(buckets.Length);
      }
    }
  }
}
