/** The pstore probe: chunks of kernel dumps, found in any order, are grouped by dump and put together. */
module Pstore {
  import opened CStrings
  import opened HashTable
  import opened NcHashmap
  import opened NcHashmapIter

  /** One file: the dump it belongs to, its part (both counted from 0), and what it holds. */
  datatype Chunk = Chunk(count: int, part: int, contents: string)

  /** parse_id: the count and the part of a file name's number. */
  function ParseId(id: nat): (int, int) {
    (id % 1000, id / 1000 % 100)
  }

  lemma ParseIdRoundTrip(timestamp: nat, part: nat, count: nat)
    requires part < 100 && count < 1000
    ensures ParseId((timestamp * 100 + part) * 1000 + count) == (count, part)
  {
  }

  // ---- Grouping ----

  /** NC_HASH_KEY: the number 0 is the NULL pointer. */
  function KeyOf(count: int): Option<int> {
    if count == 0 then None else Some(count)
  }

  const SIMPLE_KEYS: Keys<int> := Keys((k: Option<int>) => if k.None? then 0 else k.value % TWO32, true)

  /** The chunks of one dump, the latest first. */
  function GroupOf(chunks: seq<Chunk>, count: int): seq<Chunk> {
    if chunks == [] then []
    else
      var last := chunks[|chunks| - 1];
      var before := GroupOf(chunks[..|chunks| - 1], count);
      if last.count == count then [last] + before else before
  }

  /** The map has one entry for each dump that has chunks: all of them. */
  ghost predicate Grouped(m: map<Option<int>, Option<seq<Chunk>>>, chunks: seq<Chunk>) {
    Some(0) !in m && forall count ::
      && (GroupOf(chunks, count) == [] <==> KeyOf(count) !in m)
      && (KeyOf(count) in m ==> m[KeyOf(count)] == Some(GroupOf(chunks, count)))
  }

  lemma GroupStep(m: map<Option<int>, Option<seq<Chunk>>>, chunks: seq<Chunk>, chunk: Chunk)
    requires Grouped(m, chunks)
    ensures Grouped(m[KeyOf(chunk.count) := Some([chunk] + GroupOf(chunks, chunk.count))], chunks + [chunk])
  {
  }

  lemma HeadIsGroup(m: map<Option<int>, Option<seq<Chunk>>>, chunks: seq<Chunk>, count: int, head: Option<seq<Chunk>>)
    requires Grouped(m, chunks)
    requires head == if KeyOf(count) in m then m[KeyOf(count)] else None
    ensures (if head.Some? then head.value else []) == GroupOf(chunks, count)
  {
  }

  /** The directory loop, one file: the chunk is put in front of the list of its dump. */
  method AddChunk(hash: NcHashmap<int, seq<Chunk>>, elem: Chunk, ghost before: seq<Chunk>)
    requires hash.Valid() && hash.keys == SIMPLE_KEYS && Dense(hash.model.table)
    requires Grouped(hash.model.contents, before)
    modifies hash, hash.model.repr
    ensures hash.Valid() && Dense(hash.model.table)
    ensures Grouped(hash.model.contents, before + [elem])
    ensures fresh(hash.model.repr - old(hash.model.repr)) && (hash.buckets == old(hash.buckets) || fresh(hash.buckets))
  {
    hide Holds, Dense, Fits, LookupFits, Grouped;
    DenseHashLookup(hash, KeyOf(elem.count));
    var head := hash.Get(KeyOf(elem.count));
    HeadIsGroup(hash.model.contents, before, elem.count, head);
    GroupStep(hash.model.contents, before, elem);
    var list := [elem] + if head.Some? then head.value else [];
    var _ := hash.Put(KeyOf(elem.count), Some(list));
  }

  method GroupChunks(chunks: seq<Chunk>) returns (hash: NcHashmap<int, seq<Chunk>>)
    ensures fresh(hash) && hash.Valid() && hash.keys == SIMPLE_KEYS
    ensures Grouped(hash.model.contents, chunks)
  {
    hide Holds, Dense;
    hash := new NcHashmap<int, seq<Chunk>>(SIMPLE_KEYS);
    for i := 0 to |chunks|
      invariant fresh(hash) && fresh(hash.model.repr)
      invariant hash.Valid() && hash.keys == SIMPLE_KEYS && Dense(hash.model.table)
      invariant Grouped(hash.model.contents, chunks[..i])
    {
      assert chunks[..i + 1] == chunks[..i] + [chunks[i]];
      AddChunk(hash, chunks[i], chunks[..i]);
    }
    assert chunks[..|chunks|] == chunks;
  }

  lemma DenseHashLookup(hash: NcHashmap<int, seq<Chunk>>, key: Option<int>)
    requires hash.Valid() && Dense(hash.model.table) && Usable(hash.keys, key)
    ensures key in hash.model.contents ==> LookupFits(hash.keys, hash.model.table, key)
  {
    DenseLookup(hash.keys, hash.model.table, hash.model.contents, key);
  }

  // ---- Putting one dump together ----

  /**
   Aborted: the assertion that the highest part is positive fails.
   OutOfBounds: a file name has part number 0, whose slot would be the one before the array; what the program
   does then is not modelled.
   */
  datatype Dump = Complete(text: string, size: nat) | Incomplete | Aborted | OutOfBounds

  /** No other dump is handled after this one. */
  predicate Halts(dump: Dump) {
    dump.Aborted? || dump.OutOfBounds?
  }

  predicate HasNegative(list: seq<Chunk>) {
    exists i :: 0 <= i < |list| && list[i].part < 0
  }

  function MaxPart(list: seq<Chunk>): int {
    if list == [] then -1
    else
      var before := MaxPart(list[..|list| - 1]);
      if list[|list| - 1].part > before then list[|list| - 1].part else before
  }

  function TotalSize(list: seq<Chunk>): nat {
    if list == [] then 0 else TotalSize(list[..|list| - 1]) + |list[|list| - 1].contents|
  }

  /** The chunk that ends up in slot p: the last one of the list with that part. */
  function PartAt(list: seq<Chunk>, p: int): Option<Chunk> {
    if list == [] then None
    else if list[|list| - 1].part == p then Some(list[|list| - 1])
    else PartAt(list[..|list| - 1], p)
  }

  /** What slot p contributes; nothing when the part is missing. */
  function PartText(list: seq<Chunk>, p: int): string {
    match PartAt(list, p) case None => "" case Some(chunk) => chunk.contents
  }

  /** Every part below n is there and not empty. */
  predicate AllPresent(list: seq<Chunk>, n: int) {
    forall p :: 0 <= p < n ==> PartText(list, p) != ""
  }

  /** Parts n - 1 down to 0, one after the other. */
  function Descending(list: seq<Chunk>, n: nat): string {
    if n == 0 then "" else PartText(list, n - 1) + Descending(list, n - 1)
  }

  function Reassembled(list: seq<Chunk>): Dump {
    var n := MaxPart(list) + 1;
    if n <= 1 then Aborted
    else if HasNegative(list) then OutOfBounds
    else if AllPresent(list, n) then Complete(Descending(list, n), TotalSize(list))
    else Incomplete
  }

  lemma {:induction false} MaxPartBounds(list: seq<Chunk>)
    ensures -1 <= MaxPart(list)
    ensures forall i :: 0 <= i < |list| ==> list[i].part <= MaxPart(list)
    ensures MaxPart(list) >= 0 ==> exists i :: 0 <= i < |list| && list[i].part == MaxPart(list)
  {
    if list == [] {
    } else {
      var before := list[..|list| - 1];
      MaxPartBounds(before);
      if MaxPart(list) == MaxPart(before) && MaxPart(before) >= 0 {
        var i :| 0 <= i < |before| && before[i].part == MaxPart(before);
        assert list[i].part == MaxPart(list);
      }
    }
  }

  /** The program aborts at a dump exactly when none of its parts is above 0. */
  lemma AbortsIff(list: seq<Chunk>)
    ensures Reassembled(list) == Aborted <==> forall i :: 0 <= i < |list| ==> list[i].part <= 0
  {
    MaxPartBounds(list);
  }

  /** It aborts at a dump that fits into one file. */
  lemma OnePartAborts(count: int, contents: string)
    ensures Reassembled([Chunk(count, 0, contents)]) == Aborted
  {
    AbortsIff([Chunk(count, 0, contents)]);
  }

  /** The loop body of main for one list of chunks. */
  method Reassemble(list: seq<Chunk>) returns (dump: Dump)
    ensures dump == Reassembled(list)
  {
    var maxPart, totalsize := MeasureChunks(list);
    MaxPartBounds(list);
    if !(maxPart > 0) {
      return Aborted;
    }
    if HasNegative(list) {
      return OutOfBounds;
    }
    var parts := PlaceChunks(list, maxPart);
    var part := 0;
    while part <= maxPart
      invariant 0 <= part <= maxPart + 1
      invariant AllPresent(list, part)
    {
      if parts[part].None? || parts[part].value.contents == "" {
        assert PartText(list, part) == "";
        return Incomplete;
      }
      part := part + 1;
    }
    var text := JoinParts(list, parts, maxPart);
    return Complete(text, totalsize);
  }

  /** The copy loop, from the highest part down. */
  method JoinParts(ghost list: seq<Chunk>, parts: array<Option<Chunk>>, maxPart: nat) returns (text: string)
    requires parts.Length == maxPart + 1
    requires AllPresent(list, maxPart + 1)
    requires forall p :: 0 <= p <= maxPart ==> parts[p] == PartAt(list, p)
    ensures text == Descending(list, maxPart + 1)
  {
    text := "";
    var part := maxPart;
    while part >= 0
      invariant -1 <= part <= maxPart
      invariant text + Descending(list, part + 1) == Descending(list, maxPart + 1)
    {
      assert PartText(list, part) != "";
      text := text + parts[part].value.contents;
      part := part - 1;
    }
  }

  method MeasureChunks(list: seq<Chunk>) returns (maxPart: int, totalsize: nat)
    ensures maxPart == MaxPart(list) && totalsize == TotalSize(list)
  {
    maxPart, totalsize := -1, 0;
    for i := 0 to |list|
      invariant maxPart == MaxPart(list[..i]) && totalsize == TotalSize(list[..i])
    {
      assert list[..i + 1][..i] == list[..i];
      if list[i].part > maxPart {
        maxPart := list[i].part;
      }
      totalsize := totalsize + |list[i].contents|;
    }
    assert list[..|list|] == list;
  }

  /** The array of chunks by part. */
  method PlaceChunks(list: seq<Chunk>, maxPart: nat) returns (parts: array<Option<Chunk>>)
    requires forall i :: 0 <= i < |list| ==> 0 <= list[i].part <= maxPart
    ensures fresh(parts) && parts.Length == maxPart + 1
    ensures forall p :: 0 <= p <= maxPart ==> parts[p] == PartAt(list, p)
  {
    parts := new Option<Chunk>[maxPart + 1](_ => None);
    for i := 0 to |list|
      invariant forall p :: 0 <= p <= maxPart ==> parts[p] == PartAt(list[..i], p)
    {
      assert list[..i + 1][..i] == list[..i];
      parts[list[i].part] := Some(list[i]);
    }
    assert list[..|list|] == list;
  }

  // ---- The order of the directory does not matter ----

  ghost predicate DistinctParts(list: seq<Chunk>) {
    forall i, j :: 0 <= i < j < |list| ==> list[i].part != list[j].part
  }

  lemma {:induction false} PartAtFinds(list: seq<Chunk>, p: int)
    ensures PartAt(list, p).Some? ==> PartAt(list, p).value in list && PartAt(list, p).value.part == p
    ensures PartAt(list, p).None? ==> forall i :: 0 <= i < |list| ==> list[i].part != p
  {
    if list == [] {
    } else {
      PartAtFinds(list[..|list| - 1], p);
    }
  }

  lemma SameElements(list: seq<Chunk>, list': seq<Chunk>, chunk: Chunk)
    requires multiset(list) == multiset(list')
    ensures chunk in list <==> chunk in list'
  {
    assert chunk in list <==> chunk in multiset(list);
    assert chunk in list' <==> chunk in multiset(list');
  }

  lemma PartAtSame(list: seq<Chunk>, list': seq<Chunk>, p: int)
    requires multiset(list) == multiset(list') && DistinctParts(list)
    ensures PartAt(list, p) == PartAt(list', p)
  {
    PartAtFinds(list, p);
    PartAtFinds(list', p);
    if PartAt(list, p).Some? {
      SameElements(list, list', PartAt(list, p).value);
    }
    if PartAt(list', p).Some? {
      SameElements(list, list', PartAt(list', p).value);
    }
  }

  lemma {:induction false} DescendingSame(list: seq<Chunk>, list': seq<Chunk>, n: nat)
    requires multiset(list) == multiset(list') && DistinctParts(list)
    ensures Descending(list, n) == Descending(list', n)
  {
    hide PartAt, DistinctParts;
    if n == 0 {
    } else {
      PartAtSame(list, list', n - 1);
      DescendingSame(list, list', n - 1);
    }
  }

  lemma MaxPartAtLeast(list: seq<Chunk>, list': seq<Chunk>)
    requires multiset(list) == multiset(list')
    ensures MaxPart(list) <= MaxPart(list')
  {
    MaxPartBounds(list);
    MaxPartBounds(list');
    if MaxPart(list) >= 0 {
      var i :| 0 <= i < |list| && list[i].part == MaxPart(list);
      SameElements(list, list', list[i]);
    }
  }

  function Without(list: seq<Chunk>, i: nat): seq<Chunk>
    requires i < |list|
  {
    list[..i] + list[i + 1..]
  }

  lemma ElementsWithout(list: seq<Chunk>, i: nat)
    requires i < |list|
    ensures multiset(Without(list, i)) == multiset(list) - multiset{list[i]}
  {
    assert list == list[..i] + [list[i]] + list[i + 1..];
  }

  lemma {:induction false} TotalSizeWithout(list: seq<Chunk>, i: nat)
    requires i < |list|
    ensures TotalSize(list) == TotalSize(Without(list, i)) + |list[i].contents|
  {
    var last := |list| - 1;
    if i == last {
      assert Without(list, i) == list[..last];
    } else {
      TotalSizeWithout(list[..last], i);
      var rest := Without(list, i);
      assert rest[..|rest| - 1] == Without(list[..last], i);
    }
  }

  lemma {:induction false} TotalSizeSame(list: seq<Chunk>, list': seq<Chunk>)
    requires multiset(list) == multiset(list')
    ensures TotalSize(list) == TotalSize(list')
    decreases |list|
  {
    assert |list| == |multiset(list)| == |list'|;
    if list == [] {
    } else {
      var last := |list| - 1;
      SameElements(list, list', list[last]);
      var i :| 0 <= i < |list'| && list'[i] == list[last];
      TotalSizeWithout(list, last);
      TotalSizeWithout(list', i);
      ElementsWithout(list, last);
      ElementsWithout(list', i);
      TotalSizeSame(Without(list, last), Without(list', i));
    }
  }

  lemma ReassembledSame(list: seq<Chunk>, list': seq<Chunk>)
    requires multiset(list) == multiset(list') && DistinctParts(list)
    ensures Reassembled(list) == Reassembled(list')
  {
    MaxPartAtLeast(list, list');
    MaxPartAtLeast(list', list);
    TotalSizeSame(list, list');
    var n := MaxPart(list) + 1;
    if n > 0 {
      DescendingSame(list, list', n);
    }
    forall p ensures PartText(list, p) == PartText(list', p) {
      PartAtSame(list, list', p);
    }
    NegativePartSame(list, list');
    NegativePartSame(list', list);
  }

  lemma NegativePartSame(list: seq<Chunk>, list': seq<Chunk>)
    requires multiset(list) == multiset(list')
    ensures HasNegative(list) ==> HasNegative(list')
  {
    if i :| 0 <= i < |list| && list[i].part < 0 {
      SameElements(list, list', list[i]);
    }
  }

  lemma {:induction false} GroupCounts(chunks: seq<Chunk>, count: int, chunk: Chunk)
    ensures multiset(GroupOf(chunks, count))[chunk] == if chunk.count == count then multiset(chunks)[chunk] else 0
  {
    if chunks == [] {
    } else {
      var last := |chunks| - 1;
      assert chunks == chunks[..last] + [chunks[last]];
      GroupCounts(chunks[..last], count, chunk);
    }
  }

  lemma {:induction false} GroupIsPart(chunks: seq<Chunk>, count: int)
    ensures forall i :: 0 <= i < |GroupOf(chunks, count)| ==>
      GroupOf(chunks, count)[i] in chunks && GroupOf(chunks, count)[i].count == count
  {
    if chunks == [] {
    } else {
      GroupIsPart(chunks[..|chunks| - 1], count);
    }
  }

  /** No two files carry the same count and part. */
  ghost predicate DistinctChunks(chunks: seq<Chunk>) {
    forall i, j :: 0 <= i < j < |chunks| ==> chunks[i].count != chunks[j].count || chunks[i].part != chunks[j].part
  }

  lemma {:induction false} GroupHasDistinctParts(chunks: seq<Chunk>, count: int)
    requires DistinctChunks(chunks)
    ensures DistinctParts(GroupOf(chunks, count))
  {
    if chunks == [] {
    } else {
      var before := chunks[..|chunks| - 1];
      GroupHasDistinctParts(before, count);
      GroupIsPart(before, count);
    }
  }

  /** Whatever the order in which the files are found, each dump comes out the same. */
  lemma OrderIndependent(chunks: seq<Chunk>, chunks': seq<Chunk>, count: int)
    requires multiset(chunks) == multiset(chunks') && DistinctChunks(chunks)
    ensures Reassembled(GroupOf(chunks, count)) == Reassembled(GroupOf(chunks', count))
  {
    var list, list' := GroupOf(chunks, count), GroupOf(chunks', count);
    forall chunk ensures multiset(list)[chunk] == multiset(list')[chunk] {
      GroupCounts(chunks, count, chunk);
      GroupCounts(chunks', count, chunk);
    }
    assert multiset(list) == multiset(list');
    GroupHasDistinctParts(chunks, count);
    ReassembledSame(list, list');
  }

  // ---- What a dump is ----

  lemma PartAtIs(list: seq<Chunk>, i: nat)
    requires DistinctParts(list) && i < |list|
    ensures PartAt(list, list[i].part) == Some(list[i])
  {
  }

  lemma PartAtWithout(list: seq<Chunk>, i: nat, p: int)
    requires DistinctParts(list) && i < |list| && p != list[i].part
    ensures PartAt(Without(list, i), p) == PartAt(list, p)
  {
    var rest := Without(list, i);
    PartAtFinds(list, p);
    PartAtFinds(rest, p);
    if PartAt(list, p).Some? {
      var k :| 0 <= k < |list| && list[k] == PartAt(list, p).value;
      assert rest[if k < i then k else k - 1] == list[k];
    }
  }

  lemma {:induction false} DescendingWithout(list: seq<Chunk>, i: nat, n: nat)
    requires DistinctParts(list) && i < |list| && n <= list[i].part
    ensures Descending(Without(list, i), n) == Descending(list, n)
  {
    if n == 0 {
    } else {
      PartAtWithout(list, i, n - 1);
      DescendingWithout(list, i, n - 1);
    }
  }

  lemma PartsWithout(list: seq<Chunk>, i: nat, n: nat)
    requires DistinctParts(list) && forall i :: 0 <= i < |list| ==> 0 <= list[i].part < n
    requires i < |list| && list[i].part == n - 1
    ensures DistinctParts(Without(list, i))
    ensures |Without(list, i)| == |list| - 1
    ensures forall k :: 0 <= k < |list| - 1 ==> 0 <= Without(list, i)[k].part < n - 1
  {
  }

  /** The buffer of a dump with distinct parts is exactly filled. */
  lemma {:induction false} SizeIsLength(list: seq<Chunk>, n: nat)
    requires DistinctParts(list) && forall i :: 0 <= i < |list| ==> 0 <= list[i].part < n
    ensures TotalSize(list) == |Descending(list, n)|
    decreases n
  {
    assert list == [] || 0 <= list[0].part < n;
    if n == 0 {
    } else {
      if i :| 0 <= i < |list| && list[i].part == n - 1 {
        PartsWithout(list, i, n);
        SizeIsLength(Without(list, i), n - 1);
        SizeWithPart(list, i, n);
      } else {
        PartAtFinds(list, n - 1);
        SizeIsLength(list, n - 1);
      }
    }
  }

  lemma SizeWithPart(list: seq<Chunk>, i: nat, n: nat)
    requires DistinctParts(list) && i < |list| && 0 <= list[i].part == n - 1
    requires TotalSize(Without(list, i)) == |Descending(Without(list, i), n - 1)|
    ensures TotalSize(list) == |Descending(list, n)|
  {
    TotalSizeWithout(list, i);
    PartAtIs(list, i);
    DescendingWithout(list, i, n - 1);
  }

  ghost predicate HasPart(list: seq<Chunk>, p: int) {
    exists i :: 0 <= i < |list| && list[i].part == p
  }

  lemma DumpIsDescending(list: seq<Chunk>, n: nat)
    requires n >= 2 && DistinctParts(list)
    requires forall i :: 0 <= i < |list| ==> 0 <= list[i].part < n && list[i].contents != ""
    requires forall p :: 0 <= p < n ==> HasPart(list, p)
    ensures Reassembled(list) == Complete(Descending(list, n), |Descending(list, n)|)
    ensures forall i :: 0 <= i < |list| ==> PartText(list, list[i].part) == list[i].contents
  {
    MaxPartBounds(list);
    forall i | 0 <= i < |list| ensures PartText(list, list[i].part) == list[i].contents {
      PartAtIs(list, i);
    }
    forall p | 0 <= p < n ensures PartText(list, p) != "" {
      assert HasPart(list, p);
      var i :| 0 <= i < |list| && list[i].part == p;
      PartAtIs(list, i);
    }
    assert HasPart(list, n - 1);
    SizeIsLength(list, n);
  }

  /** The contents of chunks, one after the other as they come. */
  function Contents(chunks: seq<Chunk>): string {
    if chunks == [] then "" else chunks[0].contents + Contents(chunks[1..])
  }

  lemma NoContents()
    ensures Contents([]) == ""
  {
  }

  lemma PartTextIs(order: seq<Chunk>, k: nat)
    requires k < |order| && forall k :: 0 <= k < |order| ==> order[k].part == |order| - 1 - k
    ensures PartText(order, |order| - 1 - k) == order[k].contents
  {
    PartAtIs(order, k);
  }

  lemma ContentsFrom(chunks: seq<Chunk>, k: nat)
    requires k < |chunks|
    ensures Contents(chunks[k..]) == chunks[k].contents + Contents(chunks[k + 1..])
  {
    assert chunks[k..][1..] == chunks[k + 1..];
  }

  lemma {:induction false} DescendingIsContents(order: seq<Chunk>, m: nat)
    requires m <= |order| && forall k :: 0 <= k < |order| ==> order[k].part == |order| - 1 - k
    ensures Descending(order, m) == Contents(order[|order| - m..])
  {
    hide PartText, Contents;
    if m == 0 {
      NoContents();
    } else {
      var k := |order| - m;
      DescendingIsContents(order, m - 1);
      PartTextIs(order, k);
      ContentsFrom(order, k);
    }
  }

  /** All parts of a dump are there: it is the highest part first, then the next one, and so on down to part 0. */
  lemma CompleteDump(list: seq<Chunk>, order: seq<Chunk>)
    requires multiset(list) == multiset(order) && |order| >= 2
    requires forall k :: 0 <= k < |order| ==> order[k].part == |order| - 1 - k && order[k].contents != ""
    ensures Reassembled(list) == Complete(Contents(order), |Contents(order)|)
  {
    var n := |order|;
    forall p | 0 <= p < n
      ensures HasPart(order, p)
    {
      assert order[n - 1 - p].part == p;
    }
    DumpIsDescending(order, n);
    DescendingIsContents(order, n);
    assert order[0..] == order;
    ReassembledSame(order, list);
  }

  /** Two parts, whichever is found first. */
  lemma TwoPartDump(count: int, low: string, high: string)
    requires low != "" && high != ""
    ensures Reassembled([Chunk(count, 0, low), Chunk(count, 1, high)]) == Complete(high + low, |high + low|)
  {
    var order := [Chunk(count, 1, high), Chunk(count, 0, low)];
    CompleteDump([Chunk(count, 0, low), Chunk(count, 1, high)], order);
    assert order[1..][1..] == [];
    assert Contents(order) == high + Contents(order[1..]) && Contents(order[1..]) == low + Contents([]);
  }

  /** A part below the highest one is missing: there is no dump. */
  lemma MissingPart(list: seq<Chunk>, p: int)
    requires 0 <= p < MaxPart(list) && forall i :: 0 <= i < |list| ==> list[i].part != p
    ensures !Reassembled(list).Complete?
  {
    PartAtFinds(list, p);
    assert PartText(list, p) == "";
  }

  // ---- All dumps ----

  /** A row of the map: a number and all the chunks of that number. */
  ghost predicate IsGroup(row: Row<int, seq<Chunk>>, chunks: seq<Chunk>) {
    var count := CountOf(row.key);
    row.key == KeyOf(count) && GroupOf(chunks, count) != [] && row.value == Some(GroupOf(chunks, count))
  }

  /** NC_UNHASH_KEY */
  function CountOf(key: Option<int>): int {
    if key.None? then 0 else key.value
  }

  /** The rows list every dump of the chunks, and each of them once. */
  ghost predicate ListsGroups(entries: Chain<int, seq<Chunk>>, chunks: seq<Chunk>) {
    && DistinctKeys(entries)
    && (forall i :: 0 <= i < |entries| ==> IsGroup(entries[i], chunks))
    && (forall count :: GroupOf(chunks, count) != [] ==> IsListed(entries, count))
  }

  ghost predicate IsListed(entries: Chain<int, seq<Chunk>>, count: int) {
    exists i :: 0 <= i < |entries| && entries[i].key == KeyOf(count)
  }

  lemma ListedAreGroups(keys: Keys<int>, t: Table<int, seq<Chunk>>, m: map<Option<int>, Option<seq<Chunk>>>,
      chunks: seq<Chunk>)
    requires Represents(keys, t, m) && Grouped(m, chunks)
    ensures ListsGroups(Entries(t, 0), chunks)
  {
    hide Represents;
    EntriesAreDistinct(keys, t, m, 0);
    var entries := Entries(t, 0);
    forall i | 0 <= i < |entries| ensures IsGroup(entries[i], chunks) {
      var row := entries[i];
      ListedIsMapped(keys, t, m, row);
      assert row.key == KeyOf(CountOf(row.key));
    }
    forall count | GroupOf(chunks, count) != [] ensures IsListed(entries, count) {
      MappedIsListed(keys, t, m, KeyOf(count));
    }
  }

  /** The dumps are those of the first rows. */
  ghost predicate DumpedSoFar(dumps: seq<(int, Dump)>, entries: Chain<int, seq<Chunk>>, chunks: seq<Chunk>) {
    && |dumps| <= |entries|
    && forall i :: 0 <= i < |dumps| ==>
         dumps[i].0 == CountOf(entries[i].key) && dumps[i].1 == Reassembled(GroupOf(chunks, dumps[i].0))
  }

  /**
   The second loop of main: every dump of the directory is handled, and none twice, unless one
   of them ends the program.
   */
  method DumpAll(chunks: seq<Chunk>) returns (dumps: seq<(int, Dump)>)
    ensures forall i :: 0 <= i < |dumps| ==>
      GroupOf(chunks, dumps[i].0) != [] && dumps[i].1 == Reassembled(GroupOf(chunks, dumps[i].0))
    ensures forall i, j :: 0 <= i < j < |dumps| ==> dumps[i].0 != dumps[j].0
    ensures (forall i :: 0 <= i < |dumps| ==> !Halts(dumps[i].1)) ==>
      forall count :: GroupOf(chunks, count) != [] ==> IsDumped(dumps, count)
  {
    hide Grouped, Represents, Stored, ListsGroups, Entries, Reassembled, Remaining;
    var hash := GroupChunks(chunks);
    ghost var entries := Entries(hash.model.table, 0);
    ListedAreGroups(hash.keys, hash.model.table, hash.model.contents, chunks);
    var iter := new Iter<int, seq<Chunk>>(hash);
    var halted;
    dumps, halted := DumpLoop(iter, entries, chunks);
    DumpsAreGroups(dumps, entries, chunks);
  }

  ghost predicate IsDumped(dumps: seq<(int, Dump)>, count: int) {
    exists i :: 0 <= i < |dumps| && dumps[i].0 == count
  }

  method DumpLoop(iter: Iter<int, seq<Chunk>>, ghost entries: Chain<int, seq<Chunk>>, ghost chunks: seq<Chunk>)
    returns (dumps: seq<(int, Dump)>, halted: bool)
    requires iter.Valid() && iter.Rest() == entries && ListsGroups(entries, chunks)
    modifies iter
    ensures DumpedSoFar(dumps, entries, chunks)
    ensures halted ==> dumps != [] && Halts(dumps[|dumps| - 1].1)
    ensures !halted ==> |dumps| == |entries|
  {
    hide Holds, Remaining, Reassembled, DistinctKeys, IsListed;
    dumps := [];
    while true
      invariant iter.Valid() && DumpedSoFar(dumps, entries, chunks) && iter.Rest() == entries[|dumps|..]
      decreases |entries| - |dumps|
    {
      var more, key, value := iter.Next();
      if !more {
        return dumps, false;
      }
      assert Row(key, value, true) == entries[|dumps|] && IsGroup(entries[|dumps|], chunks);
      var dump := Reassemble(value.value);
      dumps := dumps + [(CountOf(key), dump)];
      if Halts(dump) {
        return dumps, true;
      }
    }
  }

  lemma DumpsAreGroups(dumps: seq<(int, Dump)>, entries: Chain<int, seq<Chunk>>, chunks: seq<Chunk>)
    requires ListsGroups(entries, chunks) && DumpedSoFar(dumps, entries, chunks)
    ensures forall i :: 0 <= i < |dumps| ==> GroupOf(chunks, dumps[i].0) != []
    ensures forall i, j :: 0 <= i < j < |dumps| ==> dumps[i].0 != dumps[j].0
    ensures |dumps| == |entries| ==> forall count :: GroupOf(chunks, count) != [] ==> IsDumped(dumps, count)
  {
  }
}
