/**
 The chained hash table on values: chains are sequences of rows, a row is what one
 entry holds. What the operations do to the rows is compared with a finite map.
 */
module HashTable {
  import opened CStrings

  /** None stands for a NULL pointer, as a key and as a value. */
  datatype Row<K, V> = Row(key: Option<K>, value: Option<V>, occ: bool)

  type Chain<K, V> = seq<Row<K, V>>

  /** nc_simple_compare finds NULL equal to NULL, nc_string_compare does not. */
  datatype Keys<!K> = Keys(hash: Option<K> -> nat, nullEq: bool)

  predicate Matches<K(==)>(keys: Keys<K>, l: Option<K>, r: Option<K>) {
    l == r && (l.Some? || keys.nullEq)
  }

  /** Keys that may be passed in: a string key must not be NULL. */
  predicate Usable<K>(keys: Keys<K>, key: Option<K>) {
    key.Some? || keys.nullEq
  }

  // ---- One chain ----

  /** The first occupied row that holds the key, or the length of the chain. */
  function FindOccupied<K(==), V>(keys: Keys<K>, c: Chain<K, V>, key: Option<K>): (i: nat)
    ensures i <= |c|
    ensures i < |c| ==> c[i].occ && Matches(keys, c[i].key, key)
    ensures forall j :: 0 <= j < i ==> !(c[j].occ && Matches(keys, c[j].key, key))
  {
    if c == [] || (c[0].occ && Matches(keys, c[0].key, key)) then 0 else 1 + FindOccupied(keys, c[1..], key)
  }

  /** The first row that holds the key, occupied or not. */
  function FindAny<K(==), V>(keys: Keys<K>, c: Chain<K, V>, key: Option<K>): (i: nat)
    ensures i <= |c|
    ensures i < |c| ==> Matches(keys, c[i].key, key)
    ensures forall j :: 0 <= j < i ==> !Matches(keys, c[j].key, key)
  {
    if c == [] || Matches(keys, c[0].key, key) then 0 else 1 + FindAny(keys, c[1..], key)
  }

  /** The last unoccupied row, or None. */
  function Tomb<K, V>(c: Chain<K, V>): (t: Option<nat>)
    ensures t.Some? ==> t.value < |c| && !c[t.value].occ && forall j :: t.value < j < |c| ==> c[j].occ
    ensures t.None? ==> forall j :: 0 <= j < |c| ==> c[j].occ
  {
    if c == [] then None
    else if !c[|c| - 1].occ then Some(|c| - 1)
    else Tomb(c[..|c| - 1])
  }

  /** A put of this key leaves the chain a chain: the key is there, or no row is free, or the last one is. */
  predicate InsertSafe<K(==), V>(keys: Keys<K>, c: Chain<K, V>, key: Option<K>) {
    FindOccupied(keys, c, key) < |c| || Tomb(c).None? || Tomb(c).value == |c| - 1
  }

  function Insert<K(==), V>(keys: Keys<K>, c: Chain<K, V>, key: Option<K>, value: Option<V>): Chain<K, V>
    requires InsertSafe(keys, c, key)
  {
    var row := Row(key, value, true);
    if FindOccupied(keys, c, key) < |c| then c[FindOccupied(keys, c, key) := row]
    else if Tomb(c).Some? then c[Tomb(c).value := row]
    else c + [row]
  }

  // ---- The whole table ----

  type Table<K, V> = seq<Chain<K, V>>

  function Bucket<K>(keys: Keys<K>, key: Option<K>, n: nat): nat
    requires n > 0
  {
    keys.hash(key) % n
  }

  /** The place of a key in its chain; the length of the chain when it is not there. */
  function Place<K(==), V>(keys: Keys<K>, t: Table<K, V>, key: Option<K>): nat
    requires |t| > 0
  {
    FindOccupied(keys, t[Bucket(keys, key, |t|)], key)
  }

  predicate Found<K(==), V>(keys: Keys<K>, t: Table<K, V>, key: Option<K>)
    requires |t| > 0
  {
    Place(keys, t, key) < |t[Bucket(keys, key, |t|)]|
  }

  /** A row that holds the key is as good as finding it. */
  lemma FoundAt<K, V>(keys: Keys<K>, t: Table<K, V>, key: Option<K>, i: nat)
    requires |t| > 0 && Usable(keys, key)
    requires var c := t[Bucket(keys, key, |t|)]; i < |c| && c[i].occ && c[i].key == key
    ensures Found(keys, t, key)
  {
  }

  /** An occupied row holds an entry of the map, in the bucket of its hash; a free row is blank. */
  ghost predicate RowSound<K, V>(keys: Keys<K>, row: Row<K, V>, b: nat, n: nat, m: map<Option<K>, Option<V>>) {
    if row.occ then
      n > 0 && Usable(keys, row.key) && row.key in m && m[row.key] == row.value && Bucket(keys, row.key, n) == b
    else row == Row(None, None, false)
  }

  ghost predicate Sound<K(!new), V>(keys: Keys<K>, t: Table<K, V>, m: map<Option<K>, Option<V>>) {
    forall b, i :: 0 <= b < |t| && 0 <= i < |t[b]| ==> RowSound(keys, t[b][i], b, |t|, m)
  }

  /** No key is held twice. */
  ghost predicate Unique<K(!new), V>(t: Table<K, V>) {
    forall b, i, j :: 0 <= b < |t| && 0 <= i < j < |t[b]| && t[b][i].occ && t[b][j].occ ==> t[b][i].key != t[b][j].key
  }

  /** Every key of the map is in its chain. */
  ghost predicate Complete<K(!new), V>(keys: Keys<K>, t: Table<K, V>, m: map<Option<K>, Option<V>>)
    requires |t| > 0
  {
    forall k :: k in m ==> Usable(keys, k) && Found(keys, t, k)
  }

  ghost predicate Represents<K(!new), V>(keys: Keys<K>, t: Table<K, V>, m: map<Option<K>, Option<V>>) {
    |t| > 0 && Sound(keys, t, m) && Unique(t) && Complete(keys, t, m)
  }

  /** The key's chain finds it exactly when the map has it. */
  lemma FoundIffMapped<K(!new), V>(keys: Keys<K>, t: Table<K, V>, m: map<Option<K>, Option<V>>, key: Option<K>)
    requires Represents(keys, t, m) && Usable(keys, key)
    ensures var c := t[Bucket(keys, key, |t|)];
      && (FindOccupied(keys, c, key) < |c| <==> key in m)
      && (key in m ==> c[FindOccupied(keys, c, key)].value == m[key])
  {
  }

  lemma InsertSound<K(!new), V>(keys: Keys<K>, t: Table<K, V>, m: map<Option<K>, Option<V>>, key: Option<K>,
      value: Option<V>)
    requires Represents(keys, t, m) && Usable(keys, key)
    requires InsertSafe(keys, t[Bucket(keys, key, |t|)], key)
    ensures var b := Bucket(keys, key, |t|);
      Sound(keys, t[b := Insert(keys, t[b], key, value)], m[key := value])
  {
    hide Unique, Complete, Insert;
    var b := Bucket(keys, key, |t|);
    var t', m' := t[b := Insert(keys, t[b], key, value)], m[key := value];
    forall b', i | 0 <= b' < |t'| && 0 <= i < |t'[b']| ensures RowSound(keys, t'[b'][i], b', |t'|, m') {
      InsertedRow(keys, t, m, key, value, b', i);
    }
  }

  /** After an insertion a row is the new one, or an old one with another key. */
  lemma InsertedRow<K(!new), V>(keys: Keys<K>, t: Table<K, V>, m: map<Option<K>, Option<V>>, key: Option<K>,
      value: Option<V>, b': nat, i: nat)
    requires Represents(keys, t, m) && Usable(keys, key)
    requires InsertSafe(keys, t[Bucket(keys, key, |t|)], key)
    requires var b := Bucket(keys, key, |t|);
      var t' := t[b := Insert(keys, t[b], key, value)];
      b' < |t'| && i < |t'[b']|
    ensures var b := Bucket(keys, key, |t|);
      var row := t[b := Insert(keys, t[b], key, value)][b'][i];
      RowSound(keys, row, b', |t|, m[key := value])
  {
    var b := Bucket(keys, key, |t|);
    if i < |t[b']| {
      assert RowSound(keys, t[b'][i], b', |t|, m);
    }
  }

  lemma InsertUnique<K(!new), V>(keys: Keys<K>, t: Table<K, V>, m: map<Option<K>, Option<V>>, key: Option<K>,
      value: Option<V>)
    requires Represents(keys, t, m) && Usable(keys, key)
    requires InsertSafe(keys, t[Bucket(keys, key, |t|)], key)
    ensures var b := Bucket(keys, key, |t|);
      Unique(t[b := Insert(keys, t[b], key, value)])
  {
  }

  lemma InsertComplete<K(!new), V>(keys: Keys<K>, t: Table<K, V>, m: map<Option<K>, Option<V>>, key: Option<K>,
      value: Option<V>)
    requires Represents(keys, t, m) && Usable(keys, key)
    requires InsertSafe(keys, t[Bucket(keys, key, |t|)], key)
    ensures var b := Bucket(keys, key, |t|);
      Complete(keys, t[b := Insert(keys, t[b], key, value)], m[key := value])
  {
    var b := Bucket(keys, key, |t|);
    var c := t[b];
    var t', m' := t[b := Insert(keys, t[b], key, value)], m[key := value];
    forall k | k in m' ensures Usable(keys, k) && Found(keys, t', k) {
      if k == key {
        var at := if FindOccupied(keys, c, key) < |c| then FindOccupied(keys, c, key)
                  else if Tomb(c).Some? then Tomb(c).value else |c|;
        FoundAt(keys, t', k, at);
      } else {
        assert Found(keys, t, k);
        FoundAt(keys, t', k, Place(keys, t, k));
      }
    }
  }

  /** A safe insertion is an update of the map. */
  lemma InsertRefines<K(!new), V>(keys: Keys<K>, t: Table<K, V>, m: map<Option<K>, Option<V>>, key: Option<K>,
      value: Option<V>)
    requires Represents(keys, t, m) && Usable(keys, key)
    requires InsertSafe(keys, t[Bucket(keys, key, |t|)], key)
    ensures var b := Bucket(keys, key, |t|);
      Represents(keys, t[b := Insert(keys, t[b], key, value)], m[key := value])
  {
    InsertSound(keys, t, m, key, value);
    InsertUnique(keys, t, m, key, value);
    InsertComplete(keys, t, m, key, value);
  }

  // ---- Lookup and removal ----

  /** A lookup walks past no blank row that it takes for the NULL key. */
  predicate LookupSafe<K(==), V>(keys: Keys<K>, c: Chain<K, V>, key: Option<K>) {
    var i := FindAny(keys, c, key);
    i == |c| || c[i].occ
  }

  /** What nc_hashmap_get returns from a chain. */
  function Lookup<K(==), V>(keys: Keys<K>, c: Chain<K, V>, key: Option<K>): Option<V> {
    var i := FindAny(keys, c, key);
    if i < |c| then c[i].value else None
  }

  /** A lookup of NULL finds the blank row before its own. */
  lemma NullStopsAtBlank<K, V>(keys: Keys<K>, v: V)
    requires keys.nullEq
    ensures var c := [Row(None, None, false), Row(None, Some(v), true)];
      FindOccupied(keys, c, None) == 1 && Lookup(keys, c, None) == None && !LookupSafe(keys, c, None)
  {
    var c: Chain<K, V> := [Row(None, None, false), Row(None, Some(v), true)];
    assert c[1..] == [Row(None, Some(v), true)];
    assert FindOccupied(keys, c, None) == 1 + FindOccupied(keys, c[1..], None);
  }

  lemma LookupRefines<K(!new), V>(keys: Keys<K>, t: Table<K, V>, m: map<Option<K>, Option<V>>, key: Option<K>)
    requires Represents(keys, t, m) && Usable(keys, key)
    ensures var c := t[Bucket(keys, key, |t|)];
      && (key.Some? ==> LookupSafe(keys, c, key))
      && (LookupSafe(keys, c, key) ==> FindAny(keys, c, key) == FindOccupied(keys, c, key))
      && Lookup(keys, c, key) == (if key in m && LookupSafe(keys, c, key) then m[key] else None)
  {
  }

  function Removed<K, V>(t: Table<K, V>, b: nat, i: nat): Table<K, V>
    requires b < |t| && i < |t[b]|
  {
    t[b := t[b][i := Row(None, None, false)]]
  }

  lemma RemoveSound<K(!new), V>(keys: Keys<K>, t: Table<K, V>, m: map<Option<K>, Option<V>>, b: nat, i: nat)
    requires Represents(keys, t, m) && b < |t| && i < |t[b]| && t[b][i].occ
    ensures Sound(keys, Removed(t, b, i), m - {t[b][i].key})
  {
  }

  lemma RemoveComplete<K(!new), V>(keys: Keys<K>, t: Table<K, V>, m: map<Option<K>, Option<V>>, b: nat, i: nat)
    requires Represents(keys, t, m) && b < |t| && i < |t[b]| && t[b][i].occ
    ensures Complete(keys, Removed(t, b, i), m - {t[b][i].key})
  {
    forall k | k in m - {t[b][i].key} ensures Usable(keys, k) && Found(keys, Removed(t, b, i), k) {
      assert Found(keys, t, k);
      FoundAt(keys, Removed(t, b, i), k, Place(keys, t, k));
    }
  }

  /** Blanking an occupied row is a deletion from the map. */
  lemma RemoveRefines<K(!new), V>(keys: Keys<K>, t: Table<K, V>, m: map<Option<K>, Option<V>>, b: nat, i: nat)
    requires Represents(keys, t, m) && b < |t| && i < |t[b]| && t[b][i].occ
    ensures Represents(keys, Removed(t, b, i), m - {t[b][i].key})
  {
    RemoveSound(keys, t, m, b, i);
    RemoveComplete(keys, t, m, b, i);
  }

  /** A lookup of this key in the whole table is right. */
  predicate LookupFits<K(==), V>(keys: Keys<K>, t: Table<K, V>, key: Option<K>) {
    |t| > 0 ==> LookupSafe(keys, t[Bucket(keys, key, |t|)], key)
  }

  /** A put of this key into the whole table is safe. */
  predicate Fits<K(==), V>(keys: Keys<K>, t: Table<K, V>, key: Option<K>) {
    |t| > 0 ==> InsertSafe(keys, t[Bucket(keys, key, |t|)], key)
  }

  /** What removing the row that a lookup stops at does to the map. */
  lemma RemoveFound<K(!new), V>(keys: Keys<K>, t: Table<K, V>, m: map<Option<K>, Option<V>>, key: Option<K>)
    requires Represents(keys, t, m) && Usable(keys, key)
    ensures var b := Bucket(keys, key, |t|);
      var i := FindAny(keys, t[b], key);
      && (i == |t[b]| ==> key !in m)
      && (i < |t[b]| && t[b][i].occ ==>
            key in m)
  {
  }

  lemma SizeWithout<K, V>(m: map<Option<K>, Option<V>>, m': map<Option<K>, Option<V>>, key: Option<K>)
    requires key in m && m' == m - {key}
    ensures |m'| == |m| - 1
  {
  }

  // ---- Tables that were only ever put into ----

  /** Free rows are only the heads of chains that hold nothing. */
  ghost predicate Dense<K, V>(t: Table<K, V>) {
    forall b :: 0 <= b < |t| ==> DenseChain(t[b])
  }

  ghost predicate DenseChain<K, V>(c: Chain<K, V>) {
    Tomb(c).None? || |c| == 1
  }

  /** In a dense table every put is safe and every lookup is right, and a put keeps it dense. */
  lemma DenseIsSafe<K(!new), V>(keys: Keys<K>, c: Chain<K, V>, key: Option<K>, value: Option<V>)
    requires DenseChain(c)
    ensures InsertSafe(keys, c, key) && (FindOccupied(keys, c, key) < |c| ==> LookupSafe(keys, c, key))
    ensures DenseChain(Insert(keys, c, key, value))
  {
  }

  lemma DenseLookup<K(!new), V>(keys: Keys<K>, t: Table<K, V>, m: map<Option<K>, Option<V>>, key: Option<K>)
    requires Represents(keys, t, m) && Dense(t) && Usable(keys, key)
    ensures key in m ==> LookupFits(keys, t, key)
  {
  }

  /** Two keys of one chain are put and the first is removed: a put of a third one is no longer safe. */
  lemma PutAfterRemoveIsUnsafe<K(!new), V>(keys: Keys<K>, k: K, k': K, k'': K, v: Option<V>)
    requires k != k' && k != k'' && k' != k''
    ensures var c := [Row(None, None, false)];
      && InsertSafe(keys, c, Some(k)) && InsertSafe(keys, Insert(keys, c, Some(k), v), Some(k'))
      && var full := Insert(keys, Insert(keys, c, Some(k), v), Some(k'), v);
      && FindAny(keys, full, Some(k)) == 0
      && !InsertSafe(keys, full[0 := Row(None, None, false)], Some(k''))
  {
  }

  function EmptyTable<K, V>(n: nat): Table<K, V> {
    seq(n, _ => [Row(None, None, false)])
  }

  lemma EmptyRepresentsEmpty<K(!new), V>(keys: Keys<K>, n: nat)
    requires n > 0
    ensures Represents(keys, EmptyTable<K, V>(n), map[]) && Dense(EmptyTable<K, V>(n))
  {
  }

  // ---- Iteration ----

  function Occupied<K, V>(c: Chain<K, V>): Chain<K, V> {
    if c == [] then [] else (if c[0].occ then [c[0]] else []) + Occupied(c[1..])
  }

  /** The occupied rows of the chains from b on, in the order in which they are stored. */
  function Entries<K, V>(t: Table<K, V>, b: nat): Chain<K, V>
    requires b <= |t|
    decreases |t| - b
  {
    if b == |t| then [] else Occupied(t[b]) + Entries(t, b + 1)
  }

  lemma {:induction false} OccupiedHas<K, V>(c: Chain<K, V>, row: Row<K, V>)
    ensures row in Occupied(c) <==> row.occ && row in c
  {
    if c == [] {
    } else {
      assert c == [c[0]] + c[1..];
      OccupiedHas(c[1..], row);
    }
  }

  /** From some chain on, a row is listed exactly when one of them holds it and it is occupied. */
  lemma {:induction false} EntriesHave<K, V>(t: Table<K, V>, b: nat, row: Row<K, V>)
    requires b <= |t|
    ensures row in Entries(t, b) <==> exists b' :: b <= b' < |t| && row.occ && row in t[b']
    decreases |t| - b
  {
    if b < |t| {
      OccupiedHas(t[b], row);
      EntriesHave(t, b + 1, row);
    }
  }

  ghost predicate DistinctKeys<K, V>(rows: Chain<K, V>) {
    forall i, j :: 0 <= i < j < |rows| ==> rows[i].key != rows[j].key
  }

  lemma {:induction false} OccupiedAreDistinct<K, V>(c: Chain<K, V>)
    requires forall i, j :: 0 <= i < j < |c| && c[i].occ && c[j].occ ==> c[i].key != c[j].key
    ensures DistinctKeys(Occupied(c))
  {
    if c == [] {
    } else {
      OccupiedAreDistinct(c[1..]);
      if c[0].occ {
        forall j | 0 <= j < |Occupied(c[1..])| ensures Occupied(c[1..])[j].key != c[0].key {
          OccupiedHas(c[1..], Occupied(c[1..])[j]);
        }
      }
    }
  }

  lemma {:induction false} EntriesAreDistinct<K(!new), V>(keys: Keys<K>, t: Table<K, V>, m: map<Option<K>, Option<V>>,
      b: nat)
    requires Represents(keys, t, m) && b <= |t|
    ensures DistinctKeys(Entries(t, b))
    decreases |t| - b
  {
    if b < |t| {
      OccupiedAreDistinct(t[b]);
      EntriesAreDistinct(keys, t, m, b + 1);
      var here, later := Occupied(t[b]), Entries(t, b + 1);
      forall i, j | 0 <= i < |here| && 0 <= j < |later| ensures here[i].key != later[j].key {
        InItsBucket(keys, t, m, b, here[i]);
        EntriesHave(t, b + 1, later[j]);
        var b' :| b + 1 <= b' < |t| && later[j] in t[b'];
        OccupiedHas(t[b'], later[j]);
        InItsBucket(keys, t, m, b', later[j]);
      }
    }
  }

  lemma InItsBucket<K(!new), V>(keys: Keys<K>, t: Table<K, V>, m: map<Option<K>, Option<V>>, b: nat, row: Row<K, V>)
    requires Represents(keys, t, m) && b < |t| && row in Occupied(t[b])
    ensures row.key in m && m[row.key] == row.value && Bucket(keys, row.key, |t|) == b
  {
    OccupiedHas(t[b], row);
    var i :| 0 <= i < |t[b]| && t[b][i] == row;
    assert RowSound(keys, t[b][i], b, |t|, m);
  }

  lemma ListedIsMapped<K(!new), V>(keys: Keys<K>, t: Table<K, V>, m: map<Option<K>, Option<V>>, row: Row<K, V>)
    requires Represents(keys, t, m) && row in Entries(t, 0)
    ensures row.occ && row.key in m && m[row.key] == row.value
  {
    EntriesHave(t, 0, row);
    var b :| 0 <= b < |t| && row in t[b];
    OccupiedHas(t[b], row);
    InItsBucket(keys, t, m, b, row);
  }

  lemma MappedIsListed<K(!new), V>(keys: Keys<K>, t: Table<K, V>, m: map<Option<K>, Option<V>>, key: Option<K>)
    requires Represents(keys, t, m) && key in m
    ensures Row(key, m[key], true) in Entries(t, 0)
  {
    var b, i := Bucket(keys, key, |t|), Place(keys, t, key);
    assert Found(keys, t, key) && RowSound(keys, t[b][i], b, |t|, m);
    assert Row(key, m[key], true) in t[b];
    EntriesHave(t, 0, Row(key, m[key], true));
  }

  /** Iteration lists every entry of the map once: the keys differ, and key and value pairs are those of the map. */
  lemma EntriesAreTheMap<K(!new), V>(keys: Keys<K>, t: Table<K, V>, m: map<Option<K>, Option<V>>)
    requires Represents(keys, t, m)
    ensures DistinctKeys(Entries(t, 0))
    ensures forall row :: row in Entries(t, 0) <==> row.occ && row.key in m && m[row.key] == row.value
  {
    EntriesAreDistinct(keys, t, m, 0);
    forall row ensures row in Entries(t, 0) <==> row.occ && row.key in m && m[row.key] == row.value {
      if row in Entries(t, 0) {
        ListedIsMapped(keys, t, m, row);
      }
      if row.occ && row.key in m && m[row.key] == row.value {
        MappedIsListed(keys, t, m, row.key);
      }
    }
  }

  // ---- Moving all entries, row by row ----

  /** Row k of chain b comes before row j of chain i. */
  predicate Before(b: int, k: int, i: int, j: int) {
    b < i || (b == i && k < j)
  }

  /** p has exactly the entries of the rows before row j of chain i. */
  ghost predicate Moved<K(!new), V>(keys: Keys<K>, t: Table<K, V>, m: map<Option<K>, Option<V>>,
      p: map<Option<K>, Option<V>>, i: nat, j: nat)
    requires |t| > 0
  {
    forall key :: if key in p then key in m && p[key] == m[key] && IsBefore(keys, t, key, i, j)
                  else key in m ==> !IsBefore(keys, t, key, i, j)
  }

  ghost predicate IsBefore<K(!new), V>(keys: Keys<K>, t: Table<K, V>, key: Option<K>, i: nat, j: nat)
    requires |t| > 0
  {
    Before(Bucket(keys, key, |t|), Place(keys, t, key), i, j)
  }

  /** An occupied row is the place of its key. */
  lemma PlaceOfRow<K(!new), V>(keys: Keys<K>, t: Table<K, V>, m: map<Option<K>, Option<V>>, i: nat, j: nat)
    requires Represents(keys, t, m) && i < |t| && j < |t[i]| && t[i][j].occ
    ensures RowSound(keys, t[i][j], i, |t|, m)
    ensures Place(keys, t, t[i][j].key) == j
  {
  }

  /** The next row, if it is occupied, holds a key that has not been moved yet. */
  lemma MoveRow<K(!new), V>(keys: Keys<K>, t: Table<K, V>, m: map<Option<K>, Option<V>>, p: map<Option<K>, Option<V>>,
      i: nat, j: nat)
    requires Represents(keys, t, m) && i < |t| && j < |t[i]|
    requires Moved(keys, t, m, p, i, j)
    ensures !t[i][j].occ ==> Moved(keys, t, m, p, i, j + 1)
    ensures t[i][j].occ ==>
      && Usable(keys, t[i][j].key)
      && t[i][j].key !in p
      && Moved(keys, t, m, p[t[i][j].key := t[i][j].value], i, j + 1)
  {
    if t[i][j].occ {
      PlaceOfRow(keys, t, m, i, j);
    }
    forall key | key in m && Bucket(keys, key, |t|) == i && Place(keys, t, key) == j
      ensures t[i][j].occ && t[i][j].key == key
    {
      assert Found(keys, t, key);
    }
  }

  lemma MoveChain<K(!new), V>(keys: Keys<K>, t: Table<K, V>, m: map<Option<K>, Option<V>>,
      p: map<Option<K>, Option<V>>, i: nat)
    requires i < |t| && Represents(keys, t, m) && Moved(keys, t, m, p, i, |t[i]|)
    ensures Moved(keys, t, m, p, i + 1, 0)
  {
  }

  lemma MovedAll<K(!new), V>(keys: Keys<K>, t: Table<K, V>, m: map<Option<K>, Option<V>>, p: map<Option<K>, Option<V>>)
    requires Represents(keys, t, m) && Moved(keys, t, m, p, |t|, 0)
    ensures p == m
  {
  }
}
