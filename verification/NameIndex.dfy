/** The name index of `.debug_names`: src/debug_names_parser.cpp. Reading the bucket and hash
    tables, looking a name up through its bucket, and the memo of answers. */
module NameIndex {
  import opened Words
  import opened ByteOrder

  type Name = seq<u8>

  /** The entry list of one name. */
  datatype Hits = Hits(dies: seq<u64>, cus: seq<u64>, tags: seq<u64>)

  datatype NameEntry = NameEntry(name: Name, hash: u32, hits: Hits)

  /** What stands at an offset of the entry pool: the end of a list, an abbreviation code that is
      not declared, or an entry. `readable` is false when one of its forms is not known. */
  datatype PoolItem =
    | EndOfList
    | Undeclared
    | Entry(tag: u64, readable: bool, typeUnit: Option<u64>, compileUnit: u64, die: u64, next: u64)

  /** The tables of one unit; row i of `hashes`, `names` and `entryOffsets` is name i. */
  datatype Unit = Unit(
    buckets: seq<u32>, hashes: seq<u32>, names: seq<Name>, entryOffsets: seq<u64>,
    cuOffsets: seq<u64>, tuOffsets: seq<u64>, poolBase: u64, unitEnd: u64, pool: u64 -> PoolItem)

  ghost predicate NonDecreasing(s: seq<u32>) {
    forall i, j :: 0 <= i <= j < |s| ==> s[i] <= s[j]
  }

  /** What holds of every unit the parser keeps. */
  ghost predicate Accepted(unit: Unit) {
    && |unit.hashes| == |unit.names| == |unit.entryOffsets| && unit.poolBase <= unit.unitEnd
    && (forall b :: 0 <= b < |unit.buckets| ==> unit.buckets[b] <= |unit.names|)
    && NonDecreasing(unit.hashes)
  }

  // ------------------------------------------------------------------ tables

  /** Word i of a table of 32-bit words at `off`. */
  function WordAt(bytes: seq<u8>, off: nat, i: nat, little: bool): nat
    requires off + 4 * i + 4 <= |bytes|
  {
    FixedWidth(bytes, off + 4 * i, 4, little)
  }

  lemma {:induction false} WordIsU32(bytes: seq<u8>, off: nat, little: bool)
    requires off + 4 <= |bytes|
    ensures FixedWidth(bytes, off, 4, little) < TWO_32
  {
    assert BytesLE(bytes, off + 2, 2) == bytes[off + 2] + 0x100 * BytesLE(bytes, off + 3, 1);
    assert BytesBE(bytes, off, 2) == bytes[off + 1] + 0x100 * BytesBE(bytes, off, 1);
  }

  /** `parseBuckets`: accepted exactly when the table fits before `end` and every bucket is 0 or
      the 1-based number of a name. */
  method ParseBuckets(bytes: seq<u8>, offset: nat, end: nat, bucketCount: u32, nameCount: u32, little: bool)
    returns (ok: bool, buckets: seq<u32>)
    requires offset <= end <= |bytes|
    ensures ok <==> offset + 4 * bucketCount <= end
                    && forall i :: 0 <= i < bucketCount ==> WordAt(bytes, offset, i, little) <= nameCount
    ensures ok ==> |buckets| == bucketCount
                   && forall i :: 0 <= i < bucketCount ==> buckets[i] == WordAt(bytes, offset, i, little)
  {
    hide FixedWidth;
    ok, buckets := true, [];
    for i := 0 to bucketCount
      invariant |buckets| == i && offset + 4 * i <= end
      invariant forall k :: 0 <= k < i ==> buckets[k] == WordAt(bytes, offset, k, little) <= nameCount
    {
      if offset + 4 * i + 4 > end {
        return false, buckets;
      }
      var b := FixedWidth(bytes, offset + 4 * i, 4, little);
      assert b == WordAt(bytes, offset, i, little);
      if b > nameCount {
        return false, buckets;
      }
      buckets := buckets + [b];
    }
  }

  /** `parseHashes`: accepted exactly when the table fits and never decreases. */
  method ParseHashes(bytes: seq<u8>, offset: nat, end: nat, nameCount: u32, little: bool)
    returns (ok: bool, hashes: seq<u32>)
    requires offset <= end <= |bytes|
    ensures ok <==> offset + 4 * nameCount <= end
                    && forall i, j :: 0 <= i <= j < nameCount ==>
                                        WordAt(bytes, offset, i, little) <= WordAt(bytes, offset, j, little)
    ensures ok ==> |hashes| == nameCount && NonDecreasing(hashes)
                   && forall i :: 0 <= i < nameCount ==> hashes[i] == WordAt(bytes, offset, i, little)
  {
    hide FixedWidth;
    ok, hashes := true, [];
    for i := 0 to nameCount
      invariant |hashes| == i && offset + 4 * i <= end
      invariant forall k :: 0 <= k < i ==> hashes[k] == WordAt(bytes, offset, k, little)
      invariant NonDecreasing(hashes)
    {
      if offset + 4 * i + 4 > end {
        return false, hashes;
      }
      var h := FixedWidth(bytes, offset + 4 * i, 4, little);
      WordIsU32(bytes, offset + 4 * i, little);
      assert h == WordAt(bytes, offset, i, little);
      if i > 0 && h < hashes[i - 1] {
        assert WordAt(bytes, offset, i - 1, little) > WordAt(bytes, offset, i, little);
        return false, hashes;
      }
      hashes := hashes + [h];
    }
  }

  // -------------------------------------------------------------------- hash

  /** The hash function of section 7.33 of DWARF 5, in 32 bits throughout. The standard applies it
      to the name after case folding, the program to the name as it is. */
  function NameHash(name: Name): u32 {
    if name == [] then 5381
    else Wrap32(33 * NameHash(name[..|name| - 1]) + name[|name| - 1])
  }

  lemma SameResidue(x: int, k: int)
    ensures Wrap32(x - k * 0x1_0000_0000) == Wrap32(x)
  {
  }

  lemma HashStep(hash: u64, c: u8)
    ensures Wrap32(Wrap64(Wrap64(Wrap64(32 * hash) + hash) + c)) == Wrap32(33 * Wrap32(hash) + c)
  {
    var q := hash / 0x1_0000_0000;
    assert Wrap32(hash) == hash - q * 0x1_0000_0000;
    hide Wrap32, Wrap64;
    var k := WrapIs(32 * hash);
    var l := WrapIs(Wrap64(32 * hash) + hash);
    var m := WrapIs(Wrap64(Wrap64(32 * hash) + hash) + c);
    SameResidue(33 * hash + c, (k + l + m) * 0x1_0000_0000);
    SameResidue(33 * hash + c, 33 * q);
  }

  /** `hashName`: computed in 64 bits and truncated by its caller, it is the 32-bit hash. */
  method HashName(name: Name) returns (hash: u64)
    ensures Wrap32(hash) == NameHash(name)
  {
    hide Wrap32, Wrap64;
    hash := 5381;
    assert Wrap32(hash) == 5381 by {
      Small();
    }
    for i := 0 to |name|
      invariant Wrap32(hash) == NameHash(name[..i])
    {
      HashStep(hash, name[i]);
      assert name[..i + 1][..i] == name[..i];
      hash := Wrap64(Wrap64(Wrap64(32 * hash) + hash) + name[i]);
    }
    assert name[..|name|] == name;
  }

  lemma Small()
    ensures Wrap32(5381) == 5381
  {
  }

  // -------------------------------------------------------------- entry pool

  /** The offset of a DIE in `.debug_info`. */
  function AbsoluteOffset(unit: Unit, item: PoolItem): u64
    requires item.Entry?
  {
    if item.typeUnit.Some? && item.typeUnit.value < |unit.tuOffsets| then
      Wrap64(unit.tuOffsets[item.typeUnit.value] + item.die)
    else if item.compileUnit < |unit.cuOffsets| then Wrap64(unit.cuOffsets[item.compileUnit] + item.die)
    else item.die
  }

  /** The entry at an offset can be read and moves the reader on. */
  predicate Usable(unit: Unit, offset: u64, item: PoolItem) {
    item.Entry? && item.readable && offset < item.next <= unit.unitEnd
  }

  /** The list from an offset on. An unusable entry ends it, but its tag is kept. */
  function HitsFrom(unit: Unit, offset: u64): Hits
    decreases unit.unitEnd - offset
  {
    if offset >= unit.unitEnd then Hits([], [], [])
    else
      var item := unit.pool(offset);
      if !item.Entry? then Hits([], [], [])
      else if !Usable(unit, offset, item) then Hits([], [], [item.tag])
      else
        var rest := HitsFrom(unit, item.next);
        Hits([AbsoluteOffset(unit, item)] + rest.dies, [item.compileUnit] + rest.cus, [item.tag] + rest.tags)
  }

  /** The entry list of name i. */
  function HitsAt(unit: Unit, i: nat): Hits
    requires i < |unit.entryOffsets|
  {
    if unit.poolBase > unit.unitEnd || unit.entryOffsets[i] > unit.unitEnd - unit.poolBase then Hits([], [], [])
    else HitsFrom(unit, unit.poolBase + unit.entryOffsets[i])
  }

  /** `die` lies where the entry says: `entry.die` bytes into the type unit it names, if there is
      such a unit, else into the compile unit it names, else into the section. */
  predicate LiesInItsUnit(unit: Unit, item: PoolItem, die: u64)
    requires item.Entry?
  {
    var base :=
      if item.typeUnit.Some? && item.typeUnit.value < |unit.tuOffsets| then unit.tuOffsets[item.typeUnit.value]
      else if item.compileUnit < |unit.cuOffsets| then unit.cuOffsets[item.compileUnit]
      else 0;
    (die - base - item.die) % 0x1_0000_0000_0000_0000 == 0
  }

  /** An entry that can be read stands at `offset`, and the next one behind it. */
  predicate Readable(unit: Unit, offset: u64) {
    var item := unit.pool(offset);
    item.Entry? && item.readable && offset < item.next && item.next <= unit.unitEnd
  }

  /** `at` are the offsets of the entries from `offset` on, each where the one before says, up to the
      first that is not there or cannot be read; `end` is where that stands. */
  ghost predicate Chain(unit: Unit, offset: u64, at: seq<u64>, end: u64)
    decreases |at|
  {
    if at == [] then end == offset && (end < unit.unitEnd ==> !Readable(unit, end))
    else at[0] == offset && Readable(unit, offset) && Chain(unit, unit.pool(offset).next, at[1..], end)
  }

  /** DIEs, units and tags are those of the entries of the chain, one for each; an entry that cannot
      be read ends it and leaves its tag behind them. */
  ghost predicate Corresponds(unit: Unit, h: Hits, at: seq<u64>, end: u64) {
    && |h.dies| == |h.cus| == |at| <= |h.tags|
    && (forall k | 0 <= k < |at| ::
          var item := unit.pool(at[k]);
          && item.Entry? && h.cus[k] == item.compileUnit && h.tags[k] == item.tag
          && LiesInItsUnit(unit, item, h.dies[k]))
    && h.tags[|at|..] == if end < unit.unitEnd && unit.pool(end).Entry? then [unit.pool(end).tag] else []
  }

  lemma {:induction false} HitsCorrespond(unit: Unit, offset: u64) returns (at: seq<u64>, end: u64)
    ensures Chain(unit, offset, at, end) && Corresponds(unit, HitsFrom(unit, offset), at, end)
    decreases unit.unitEnd - offset
  {
    hide LiesInItsUnit, AbsoluteOffset, Chain, Corresponds;
    if offset < unit.unitEnd && Usable(unit, offset, unit.pool(offset)) {
      at, end := HitsCorrespond(unit, unit.pool(offset).next);
      LongerChain(unit, offset, HitsFrom(unit, unit.pool(offset).next), at, end);
      at := [offset] + at;
    } else {
      at, end := [], offset;
      EmptyChain(unit, offset);
    }
  }

  /** The entries of name i start at its offset in the unit's pool, if that is inside the unit. */
  lemma EntriesOfName(unit: Unit, i: nat) returns (at: seq<u64>, end: u64)
    requires i < |unit.entryOffsets|
    ensures if unit.poolBase + unit.entryOffsets[i] > unit.unitEnd
            then HitsAt(unit, i) == Hits([], [], [])
            else Chain(unit, unit.poolBase + unit.entryOffsets[i], at, end) && Corresponds(unit, HitsAt(unit, i), at, end)
  {
    at, end := [], 0;
    if unit.poolBase + unit.entryOffsets[i] <= unit.unitEnd {
      at, end := HitsCorrespond(unit, unit.poolBase + unit.entryOffsets[i]);
    }
  }

  lemma EmptyChain(unit: Unit, offset: u64)
    requires offset < unit.unitEnd ==> !Usable(unit, offset, unit.pool(offset))
    ensures Chain(unit, offset, [], offset) && Corresponds(unit, HitsFrom(unit, offset), [], offset)
  {
  }

  lemma LongerChain(unit: Unit, offset: u64, h: Hits, at: seq<u64>, end: u64)
    requires Readable(unit, offset) && Chain(unit, unit.pool(offset).next, at, end) && Corresponds(unit, h, at, end)
    ensures Chain(unit, offset, [offset] + at, end)
    ensures var item := unit.pool(offset);
            Corresponds(unit, Hits([AbsoluteOffset(unit, item)] + h.dies, [item.compileUnit] + h.cus, [item.tag] + h.tags),
                        [offset] + at, end)
  {
    hide LiesInItsUnit, AbsoluteOffset;
    var item, longer := unit.pool(offset), [offset] + at;
    assert longer[1..] == at;
    BaseAdded(unit, item);
    var tags := [item.tag] + h.tags;
    assert tags[|longer|..] == h.tags[|at|..];
  }

  lemma BaseAdded(unit: Unit, item: PoolItem)
    requires item.Entry?
    ensures LiesInItsUnit(unit, item, AbsoluteOffset(unit, item))
  {
    BaseRemains(0, item.die);
    if item.typeUnit.Some? && item.typeUnit.value < |unit.tuOffsets| {
      BaseRemains(unit.tuOffsets[item.typeUnit.value], item.die);
    } else if item.compileUnit < |unit.cuOffsets| {
      BaseRemains(unit.cuOffsets[item.compileUnit], item.die);
    }
  }

  lemma BaseRemains(base: u64, die: u64)
    ensures (Wrap64(base + die) - base - die) % 0x1_0000_0000_0000_0000 == 0
  {
  }

  function JoinHits(a: Hits, b: Hits): Hits {
    Hits(a.dies + b.dies, a.cus + b.cus, a.tags + b.tags)
  }

  lemma NoHits(unit: Unit, i: nat)
    requires i < |unit.entryOffsets| && unit.poolBase <= unit.unitEnd
    ensures unit.entryOffsets[i] > unit.unitEnd - unit.poolBase ==> HitsAt(unit, i) == Hits([], [], [])
    ensures unit.entryOffsets[i] <= unit.unitEnd - unit.poolBase ==>
              HitsAt(unit, i) == JoinHits(Hits([], [], []), HitsFrom(unit, unit.poolBase + unit.entryOffsets[i]))
  {
  }

  lemma UsableStep(unit: Unit, hits: Hits, offset: u64)
    requires offset < unit.unitEnd && Usable(unit, offset, unit.pool(offset))
    ensures var item := unit.pool(offset);
            JoinHits(hits, HitsFrom(unit, offset))
            == JoinHits(Hits(hits.dies + [AbsoluteOffset(unit, item)], hits.cus + [item.compileUnit], hits.tags + [item.tag]),
                        HitsFrom(unit, item.next))
  {
    hide AbsoluteOffset;
  }

  lemma LastStep(unit: Unit, hits: Hits, offset: u64)
    requires offset < unit.unitEnd ==> !Usable(unit, offset, unit.pool(offset))
    ensures JoinHits(hits, HitsFrom(unit, offset))
         == if offset < unit.unitEnd && unit.pool(offset).Entry? then hits.(tags := hits.tags + [unit.pool(offset).tag])
            else hits
  {
  }

  /** The entry loop, the same in lookup and population. */
  method ReadHits(unit: Unit, i: nat) returns (hits: Hits)
    requires i < |unit.entryOffsets| && unit.poolBase <= unit.unitEnd
    ensures hits == HitsAt(unit, i)
  {
    hide AbsoluteOffset, HitsFrom, HitsAt, JoinHits;
    hits := Hits([], [], []);
    NoHits(unit, i);
    var rel := unit.entryOffsets[i];
    if rel > unit.unitEnd - unit.poolBase {
      return;
    }
    var offset: u64 := unit.poolBase + rel;
    while offset < unit.unitEnd
      invariant JoinHits(hits, HitsFrom(unit, offset)) == HitsAt(unit, i)
      decreases unit.unitEnd - offset
    {
      var item := unit.pool(offset);
      if !item.Entry? {
        LastStep(unit, hits, offset);
        return;
      }
      if !Usable(unit, offset, item) {
        LastStep(unit, hits, offset);
        hits := hits.(tags := hits.tags + [item.tag]);
        return;
      }
      UsableStep(unit, hits, offset);
      hits := hits.(tags := hits.tags + [item.tag]);
      hits := hits.(dies := hits.dies + [AbsoluteOffset(unit, item)], cus := hits.cus + [item.compileUnit]);
      offset := item.next;
    }
    LastStep(unit, hits, offset);
  }

  // ------------------------------------------------------------------ lookup

  predicate Listed(unit: Unit, i: nat, name: Name) {
    i < |unit.names| && i < |unit.entryOffsets| && unit.names[i] == name && HitsAt(unit, i).dies != []
  }

  function Hit(unit: Unit, i: nat, name: Name): seq<NameEntry>
    requires i < |unit.hashes|
  {
    if Listed(unit, i, name) then [NameEntry(name, unit.hashes[i], HitsAt(unit, i))] else []
  }

  /** Going through the first n names one by one. */
  function Scan(unit: Unit, n: nat, name: Name): seq<NameEntry>
    requires n <= |unit.hashes|
  {
    if n == 0 then [] else Scan(unit, n - 1, name) + Hit(unit, n - 1, name)
  }

  /** The bucket of hash h starts at or before name i, and name i has that hash. */
  predicate Reachable(unit: Unit, i: nat, h: u32) {
    |unit.buckets| > 0 && i < |unit.hashes| && unit.hashes[i] == h
    && 0 < unit.buckets[h % |unit.buckets|] <= i + 1
  }

  /** The entries for a name among those its bucket leads to. */
  function Bucketed(unit: Unit, n: nat, name: Name, h: u32): seq<NameEntry>
    requires n <= |unit.hashes|
  {
    if n == 0 then []
    else Bucketed(unit, n - 1, name, h) + if Reachable(unit, n - 1, h) then Hit(unit, n - 1, name) else []
  }

  lemma {:induction false} SameBucketed(unit: Unit, n: nat, m: nat, name: Name, h: u32)
    requires n <= m <= |unit.hashes|
    requires forall i | n <= i < m :: !Reachable(unit, i, h)
    ensures Bucketed(unit, m, name, h) == Bucketed(unit, n, name, h)
    decreases m
  {
    if n < m {
      SameBucketed(unit, n, m - 1, name, h);
    }
  }

  /** One unit of `lookupName`. */
  method LookupInUnit(unit: Unit, name: Name, h: u32) returns (results: seq<NameEntry>)
    requires Accepted(unit)
    ensures results == Bucketed(unit, |unit.names|, name, h)
  {
    hide Bucketed;
    var count := |unit.names|;
    NothingScanned(unit, name, h);
    results := [];
    if |unit.buckets| == 0 || count == 0 {
      SameBucketed(unit, 0, count, name, h);
      return;
    }
    var start := unit.buckets[h % |unit.buckets|];
    if start == 0 {
      SameBucketed(unit, 0, count, name, h);
      return;
    }
    var j := start - 1;
    SameBucketed(unit, 0, j, name, h);
    while j < count
      invariant start - 1 <= j <= count
      invariant results == Bucketed(unit, j, name, h)
    {
      var hj := unit.hashes[j];
      if hj > h {
        SameBucketed(unit, j, count, name, h);
        return;
      }
      BucketedStep(unit, j, name, h);
      if hj == h && unit.names[j] == name {
        var hits := ReadHits(unit, j);
        var entry := NameEntry(name, hj, hits);
        if entry.hits.dies != [] {
          results := results + [entry];
        }
      }
      j := j + 1;
    }
  }

  lemma NothingScanned(unit: Unit, name: Name, h: u32)
    ensures Bucketed(unit, 0, name, h) == [] && Scan(unit, 0, name) == []
  {
  }

  lemma BucketedStep(unit: Unit, n: nat, name: Name, h: u32)
    requires n < |unit.hashes|
    ensures Bucketed(unit, n + 1, name, h)
         == Bucketed(unit, n, name, h) + if Reachable(unit, n, h) then Hit(unit, n, name) else []
  {
  }

  /** All entries for a name, unit by unit. */
  function ScanAll(units: seq<Unit>, k: nat, name: Name): seq<NameEntry>
    requires k <= |units|
    decreases k
  {
    if k == 0 then [] else ScanAll(units, k - 1, name) + Scan(units[k - 1], |units[k - 1].hashes|, name)
  }

  function BucketedAll(units: seq<Unit>, k: nat, name: Name): seq<NameEntry>
    requires k <= |units|
    decreases k
  {
    if k == 0 then []
    else BucketedAll(units, k - 1, name) + Bucketed(units[k - 1], |units[k - 1].hashes|, name, NameHash(name))
  }

  /** What the index says about a name. The empty name is never looked for. */
  function Listing(units: seq<Unit>, name: Name): seq<NameEntry> {
    if name == [] then [] else ScanAll(units, |units|, name)
  }

  function Uncached(units: seq<Unit>, name: Name): seq<NameEntry> {
    if name == [] then [] else BucketedAll(units, |units|, name)
  }

  // -------------------------------------------------------- what is found where

  datatype Position = Position(unit: nat, row: nat)

  predicate Before(p: Position, q: Position) {
    p.unit < q.unit || (p.unit == q.unit && p.row < q.row)
  }

  /** Row i of the unit has the name and an entry, carries the hash, and stands at or behind the
      start of a nonempty bucket of that hash. */
  predicate FoundIn(unit: Unit, i: nat, name: Name, h: u32) {
    && i < |unit.names| && i < |unit.hashes| && i < |unit.entryOffsets|
    && unit.names[i] == name && unit.hashes[i] == h && HitsAt(unit, i).dies != []
    && |unit.buckets| > 0 && 1 <= unit.buckets[h % |unit.buckets|] <= i + 1
  }

  ghost predicate EntryOf(units: seq<Unit>, p: Position, name: Name, entry: NameEntry) {
    && p.unit < |units| && FoundIn(units[p.unit], p.row, name, NameHash(name))
    && entry.name == name && entry.hash == units[p.unit].hashes[p.row]
    && entry.hits == HitsAt(units[p.unit], p.row)
  }

  /** `entries` are those at the positions `at`, in the order of units and rows; every row found
      before row n of unit k is among them. */
  ghost predicate Finds(units: seq<Unit>, k: nat, n: nat, name: Name, entries: seq<NameEntry>, at: seq<Position>) {
    && |at| == |entries|
    && (forall x | 0 <= x < |at| :: EntryOf(units, at[x], name, entries[x]) && Before(at[x], Position(k, n)))
    && (forall x, y | 0 <= x < y < |at| :: Before(at[x], at[y]))
    && forall p: Position | Before(p, Position(k, n)) && p.unit < |units|
                            && FoundIn(units[p.unit], p.row, name, NameHash(name)) :: p in at
  }

  lemma FoundIsReached(unit: Unit, i: nat, name: Name, h: u32)
    requires i < |unit.hashes|
    ensures (if Reachable(unit, i, h) then Hit(unit, i, name) else [])
         == if FoundIn(unit, i, name, h) then [NameEntry(name, unit.hashes[i], HitsAt(unit, i))] else []
  {
  }

  lemma {:induction false} RowFound(
      units: seq<Unit>, k: nat, n: nat, name: Name, entries: seq<NameEntry>, at: seq<Position>)
    returns (at': seq<Position>)
    requires k < |units| && n < |units[k].hashes| && Finds(units, k, n, name, entries, at)
    ensures var unit, h := units[k], NameHash(name);
            Finds(units, k, n + 1, name, entries + if Reachable(unit, n, h) then Hit(unit, n, name) else [], at')
  {
    hide NameHash, HitsAt, Reachable, Hit;
    FoundIsReached(units[k], n, name, NameHash(name));
    if FoundIn(units[k], n, name, NameHash(name)) {
      at' := at + [Position(k, n)];
      assert EntryOf(units, Position(k, n), name, NameEntry(name, units[k].hashes[n], HitsAt(units[k], n)));
    } else {
      at' := at;
      assert entries + [] == entries;
    }
    hide EntryOf, FoundIn;
    forall p: Position | Before(p, Position(k, n + 1)) && p.unit < |units|
                         && FoundIn(units[p.unit], p.row, name, NameHash(name))
      ensures p in at'
    {
      assert Before(p, Position(k, n)) || p == Position(k, n);
    }
  }

  lemma {:induction false} RowsFound(
      units: seq<Unit>, k: nat, n: nat, name: Name, entries: seq<NameEntry>, at: seq<Position>)
    returns (at': seq<Position>)
    requires k < |units| && n <= |units[k].hashes| && Finds(units, k, 0, name, entries, at)
    ensures Finds(units, k, n, name, entries + Bucketed(units[k], n, name, NameHash(name)), at')
    decreases n
  {
    hide NameHash, Finds, Hit, Reachable;
    if n == 0 {
      at' := at;
      assert entries + [] == entries;
    } else {
      var h := NameHash(name);
      var rows := RowsFound(units, k, n - 1, name, entries, at);
      var before := entries + Bucketed(units[k], n - 1, name, h);
      at' := RowFound(units, k, n - 1, name, before, rows);
      assert entries + Bucketed(units[k], n, name, h)
          == before + if Reachable(units[k], n - 1, h) then Hit(units[k], n - 1, name) else [];
    }
  }

  lemma {:induction false} UnitsFound(units: seq<Unit>, k: nat, name: Name) returns (at: seq<Position>)
    requires k <= |units|
    ensures Finds(units, k, 0, name, BucketedAll(units, k, name), at)
    decreases k
  {
    hide NameHash, HitsAt, Bucketed;
    at := [];
    if k > 0 {
      var n := |units[k - 1].hashes|;
      at := UnitsFound(units, k - 1, name);
      at := RowsFound(units, k - 1, n, name, BucketedAll(units, k - 1, name), at);
      assert forall p: Position | Before(p, Position(k, 0)) && p.row < n :: p.unit == k - 1 ==> Before(p, Position(k - 1, n));
    }
  }

  /** The lookup returns the entries of exactly the rows it finds, each with the row's hash and the
      entry list there, in the order of units and rows. */
  lemma LookupFinds(units: seq<Unit>, name: Name) returns (at: seq<Position>)
    requires name != []
    ensures Finds(units, |units|, 0, name, Uncached(units, name), at)
  {
    at := UnitsFound(units, |units|, name);
  }

  // ---------------------------------------------------- buckets against a scan

  ghost predicate AllReachable(unit: Unit, n: nat, name: Name, h: u32) {
    forall i: nat :: i < n && Listed(unit, i, name) ==> Reachable(unit, i, h)
  }

  /** Buckets never add entries; they lose some exactly when a listed name is out of their reach. */
  lemma {:induction false} UnitByScan(unit: Unit, n: nat, name: Name, h: u32)
    requires n <= |unit.hashes|
    ensures |Bucketed(unit, n, name, h)| <= |Scan(unit, n, name)|
    ensures AllReachable(unit, n, name, h) ==> Bucketed(unit, n, name, h) == Scan(unit, n, name)
    ensures |Bucketed(unit, n, name, h)| == |Scan(unit, n, name)| ==> AllReachable(unit, n, name, h)
  {
    if n > 0 {
      UnitByScan(unit, n - 1, name, h);
      assert AllReachable(unit, n, name, h)
        <==> AllReachable(unit, n - 1, name, h) && (Listed(unit, n - 1, name) ==> Reachable(unit, n - 1, h));
    }
  }

  ghost predicate ReachableIn(units: seq<Unit>, k: nat, name: Name)
    requires k <= |units|
  {
    forall u :: 0 <= u < k ==> AllReachable(units[u], |units[u].hashes|, name, NameHash(name))
  }

  lemma {:induction false} UnitsByScan(units: seq<Unit>, k: nat, name: Name)
    requires k <= |units|
    ensures |BucketedAll(units, k, name)| <= |ScanAll(units, k, name)|
    ensures ReachableIn(units, k, name) ==> BucketedAll(units, k, name) == ScanAll(units, k, name)
    ensures |BucketedAll(units, k, name)| == |ScanAll(units, k, name)| ==> ReachableIn(units, k, name)
    decreases k
  {
    hide Bucketed, Scan, AllReachable;
    if k > 0 {
      UnitsByScan(units, k - 1, name);
      UnitByScan(units[k - 1], |units[k - 1].hashes|, name, NameHash(name));
    }
  }

  /** The bucketed lookup of a name is a scan of all names, exactly when every listed entry of that
      name carries its hash and stands at or behind the start of a nonempty bucket. */
  lemma LookupIsScan(units: seq<Unit>, name: Name)
    requires name != []
    ensures Uncached(units, name) == Listing(units, name) <==> ReachableIn(units, |units|, name)
  {
    UnitsByScan(units, |units|, name);
  }

  /** A kept table whose hashes are those of its names and whose buckets start no later than the
      names that fall into them. */
  ghost predicate IndexedTable(unit: Unit) {
    && Accepted(unit) && |unit.buckets| > 0
    && (forall i :: 0 <= i < |unit.names| ==> unit.hashes[i] == NameHash(unit.names[i]))
    && forall i :: 0 <= i < |unit.names| ==> 0 < unit.buckets[unit.hashes[i] % |unit.buckets|] <= i + 1
  }

  /** On such tables the lookup misses nothing, whatever the name. */
  lemma IndexedTablesLoseNothing(units: seq<Unit>, name: Name)
    requires forall u :: 0 <= u < |units| ==> IndexedTable(units[u])
    ensures Uncached(units, name) == Listing(units, name)
  {
    if name != [] {
      forall u, i: nat | 0 <= u < |units| && i < |units[u].hashes| && Listed(units[u], i, name)
        ensures Reachable(units[u], i, NameHash(name))
      {
        assert IndexedTable(units[u]);
      }
      LookupIsScan(units, name);
    }
  }

  // ------------------------------------------------------- the standard's tables

  /** Bucket b is empty and 0, or the 1-based number of the first name whose hash falls into it. */
  ghost predicate BucketStart(unit: Unit, b: nat)
    requires b < |unit.buckets|
  {
    var start := unit.buckets[b];
    if start == 0 then forall i: nat | i < |unit.hashes| :: unit.hashes[i] % |unit.buckets| != b
    else
      && start <= |unit.hashes| && unit.hashes[start - 1] % |unit.buckets| == b
      && forall i: nat | i < start - 1 :: unit.hashes[i] % |unit.buckets| != b
  }

  /** A table as sections 6.1.1.4.5 and 7.33 of DWARF 5 describe it: names are hashed after case
      folding, and the hashes are grouped by bucket. They need not be sorted. */
  ghost predicate StandardTable(unit: Unit, fold: Name -> Name) {
    && |unit.hashes| == |unit.names| == |unit.entryOffsets| && unit.poolBase <= unit.unitEnd && |unit.buckets| > 0
    && (forall i: nat | i < |unit.names| :: unit.hashes[i] == NameHash(fold(unit.names[i])))
    && (forall i: nat, j: nat | i <= j < |unit.hashes| ::
          unit.hashes[i] % |unit.buckets| <= unit.hashes[j] % |unit.buckets|)
    && forall b: nat | b < |unit.buckets| :: BucketStart(unit, b)
  }

  ghost predicate StandardTables(units: seq<Unit>, fold: Name -> Name) {
    forall u :: 0 <= u < |units| ==> StandardTable(units[u], fold)
  }

  /** What the parser makes of the section: one refused table, and nothing is found. */
  ghost function Kept(units: seq<Unit>): seq<Unit> {
    if forall u :: 0 <= u < |units| ==> Accepted(units[u]) then units else []
  }

  lemma StandardAccepted(unit: Unit, fold: Name -> Name)
    requires StandardTable(unit, fold)
    ensures Accepted(unit) <==> NonDecreasing(unit.hashes)
  {
    hide NonDecreasing, NameHash;
    forall b | 0 <= b < |unit.buckets|
      ensures unit.buckets[b] <= |unit.names|
    {
      assert BucketStart(unit, b);
    }
  }

  lemma StandardReachable(unit: Unit, fold: Name -> Name, i: nat)
    requires StandardTable(unit, fold) && i < |unit.hashes|
    ensures Reachable(unit, i, unit.hashes[i])
  {
    hide NameHash;
    assert BucketStart(unit, unit.hashes[i] % |unit.buckets|);
  }

  lemma {:induction false} ListedInUnit(unit: Unit, n: nat, name: Name) returns (i: nat)
    requires n <= |unit.hashes| && Scan(unit, n, name) != []
    ensures i < n && Listed(unit, i, name)
  {
    hide Listed;
    if Listed(unit, n - 1, name) {
      i := n - 1;
    } else {
      i := ListedInUnit(unit, n - 1, name);
    }
  }

  lemma {:induction false} ListedSomewhere(units: seq<Unit>, k: nat, name: Name) returns (u: nat, i: nat)
    requires k <= |units| && ScanAll(units, k, name) != []
    ensures u < k && i < |units[u].hashes| && Listed(units[u], i, name)
    decreases k
  {
    hide Scan;
    if Scan(units[k - 1], |units[k - 1].hashes|, name) != [] {
      u := k - 1;
      i := ListedInUnit(units[u], |units[u].hashes|, name);
    } else {
      u, i := ListedSomewhere(units, k - 1, name);
    }
  }

  lemma ListedHash(unit: Unit, fold: Name -> Name, i: nat, name: Name)
    requires StandardTable(unit, fold) && Listed(unit, i, name)
    ensures i < |unit.hashes| && unit.hashes[i] == NameHash(fold(name))
  {
    hide NameHash;
  }

  /** On tables whose buckets are right, names are reached exactly through their folded hash. */
  lemma StandardReach(units: seq<Unit>, fold: Name -> Name, name: Name)
    requires StandardTables(units, fold) && ScanAll(units, |units|, name) != []
    ensures ReachableIn(units, |units|, name) <==> NameHash(fold(name)) == NameHash(name)
  {
    hide NameHash, StandardTable, Reachable, Listed;
    if NameHash(fold(name)) == NameHash(name) {
      forall u, i: nat | 0 <= u < |units| && i < |units[u].hashes| && Listed(units[u], i, name)
        ensures Reachable(units[u], i, NameHash(name))
      {
        ListedHash(units[u], fold, i, name);
        StandardReachable(units[u], fold, i);
      }
    } else {
      var u, i := ListedSomewhere(units, |units|, name);
      ListedHash(units[u], fold, i, name);
      ReachedByHash(units[u], i, NameHash(name));
    }
  }

  lemma ReachedByHash(unit: Unit, i: nat, h: u32)
    ensures Reachable(unit, i, h) ==> i < |unit.hashes| && unit.hashes[i] == h
  {
  }

  /** A section with the standard's tables is answered like a scan for a listed name if and only if
      the hashes of no table decrease, so that the parser keeps it, and the name hashes like its
      folded form. */
  lemma StandardLookup(units: seq<Unit>, fold: Name -> Name, name: Name)
    requires StandardTables(units, fold)
    ensures Uncached(Kept(units), name) == Listing(units, name)
       <==> || Listing(units, name) == []
            || ((forall u :: 0 <= u < |units| ==> NonDecreasing(units[u].hashes))
                && NameHash(fold(name)) == NameHash(name))
  {
    hide StandardTable, Accepted, NonDecreasing, NameHash, ScanAll, BucketedAll;
    forall u | 0 <= u < |units|
      ensures Accepted(units[u]) <==> NonDecreasing(units[u].hashes)
    {
      StandardAccepted(units[u], fold);
    }
    NoUnits(name);
    if name != [] {
      UnitsByScan(units, |units|, name);
      if Listing(units, name) != [] {
        StandardReach(units, fold, name);
      }
    }
  }

  /** The parser refuses this table, whose hashes are grouped in two buckets as the standard wants
      them, and then finds no entry of its first name. */
  lemma GroupedTableIsRefused()
    ensures var name: Name := [97];
            var unit := Unit([1, 3], [177670, 177672, 177671], [[97], [99], [98]], [0, 0, 0], [], [], 0, 1, OneEntry);
            && StandardTable(unit, Unfolded) && !Accepted(unit)
            && Listing([unit], name) != [] && Uncached(Kept([unit]), name) == []
  {
    var name: Name := [97];
    var unit := Unit([1, 3], [177670, 177672, 177671], [[97], [99], [98]], [0, 0, 0], [], [], 0, 1, OneEntry);
    hide StandardTable, Listed, Scan, ScanAll, Bucketed, BucketedAll;
    GroupedTable(unit);
    assert unit.hashes[1] > unit.hashes[2];
    FirstIsListed(unit, name);
    NoUnits(name);
    assert Kept([unit]) == [] by { assert [unit][0] == unit; }
  }

  lemma GroupedTable(unit: Unit)
    requires unit.buckets == [1, 3] && unit.hashes == [177670, 177672, 177671] && unit.names == [[97], [99], [98]]
    requires |unit.entryOffsets| == 3 && unit.poolBase <= unit.unitEnd
    ensures StandardTable(unit, Unfolded)
  {
    hide NameHash;
    OneLetter(97);
    OneLetter(99);
    OneLetter(98);
    assert BucketStart(unit, 0) && BucketStart(unit, 1);
  }

  /** The parser keeps this table, whose one name is hashed in its folded form, and does not find
      it. */
  lemma CapitalIsMissed()
    ensures var name: Name := [65];
            var unit := Unit([1], [177670], [name], [0], [], [], 0, 1, OneEntry);
            && StandardTable(unit, AsciiFolded) && Accepted(unit)
            && Listing([unit], name) != [] && Uncached(Kept([unit]), name) == []
  {
    var name: Name := [65];
    var unit := Unit([1], [177670], [name], [0], [], [], 0, 1, OneEntry);
    OneLetter(97);
    OneLetter(65);
    assert AsciiFolded(name) == [97];
    assert BucketStart(unit, 0);
    FirstIsListed(unit, name);
    hide NameHash, Listed;
    assert Kept([unit]) == [unit];
    assert Bucketed(unit, 1, name, NameHash(name)) == [];
    assert BucketedAll([unit], 1, name) == BucketedAll([unit], 0, name) + Bucketed(unit, 1, name, NameHash(name));
  }

  function OneEntry(offset: u64): PoolItem {
    Entry(0x2e, true, None, 0, 0, 1)
  }

  function Unfolded(name: Name): Name {
    name
  }

  function AsciiFolded(name: Name): Name {
    seq(|name|, i requires 0 <= i < |name| => if 65 <= name[i] <= 90 then name[i] + 32 else name[i])
  }

  lemma OneLetter(c: u8)
    ensures NameHash([c]) == 177573 + c
  {
    assert [c][..0] == [];
    assert NameHash([]) == 5381;
  }

  lemma FirstIsListed(unit: Unit, name: Name)
    requires |unit.hashes| == |unit.names| == |unit.entryOffsets| > 0 && unit.names[0] == name != []
    requires unit.entryOffsets[0] == 0 == unit.poolBase && unit.unitEnd == 1 && unit.pool == OneEntry
    ensures Listed(unit, 0, name) && Listing([unit], name) != []
  {
    assert HitsFrom(unit, 1) == Hits([], [], []);
    assert HitsAt(unit, 0).dies != [];
    ScanGrows(unit, 1, |unit.hashes|, name);
    assert Scan(unit, 1, name) == Scan(unit, 0, name) + Hit(unit, 0, name);
    assert ScanAll([unit], 1, name) == ScanAll([unit], 0, name) + Scan(unit, |unit.hashes|, name);
  }

  lemma {:induction false} ScanGrows(unit: Unit, n: nat, m: nat, name: Name)
    requires n <= m <= |unit.hashes|
    ensures |Scan(unit, n, name)| <= |Scan(unit, m, name)|
    decreases m
  {
    if n < m {
      ScanGrows(unit, n, m - 1, name);
    }
  }

  // -------------------------------------------------------------------- memo

  type Cache = map<Name, seq<NameEntry>>

  datatype Memo = Memo(cache: Cache, populated: bool)

  function Cached(cache: Cache, name: Name): seq<NameEntry> {
    if name in cache then cache[name] else []
  }

  /** The answer of a lookup. */
  function Answer(units: seq<Unit>, memo: Memo, name: Name): seq<NameEntry> {
    if name in memo.cache then memo.cache[name] else Uncached(units, name)
  }

  function AfterLookup(units: seq<Unit>, memo: Memo, name: Name): Memo {
    if name in memo.cache || units == [] || name == [] then memo
    else memo.(cache := memo.cache[name := Uncached(units, name)])
  }

  /** `populateCache` appends the listing of every name to what the cache holds for it. */
  ghost predicate Appended(before: Cache, after: Cache, name: Name, listing: seq<NameEntry>) {
    && (name in after <==> name in before || listing != [])
    && Cached(after, name) == Cached(before, name) + listing
  }

  ghost predicate AfterPopulate(units: seq<Unit>, before: Memo, after: Memo) {
    if before.populated then after == before
    else after.populated && forall name: Name :: Appended(before.cache, after.cache, name, Listing(units, name))
  }

  /** The parser object after `parse`. */
  class Index {
    const units: seq<Unit>
    const parsed: bool
    var nameCache: Cache
    var cachePopulated: bool

    constructor (units: seq<Unit>, parsed: bool)
      requires forall u :: 0 <= u < |units| ==> Accepted(units[u])
      ensures Valid() && this.units == units && this.parsed == parsed && State() == Memo(map[], false)
    {
      this.units, this.parsed := units, parsed;
      nameCache, cachePopulated := map[], false;
    }

    ghost predicate Valid() {
      forall u :: 0 <= u < |units| ==> Accepted(units[u])
    }

    ghost function State(): Memo
      reads this
    {
      Memo(nameCache, cachePopulated)
    }

    /** Nothing is found in a section that did not parse. */
    ghost function Searched(): seq<Unit> {
      if parsed then units else []
    }

    /** `lookupName` */
    method LookupName(name: Name) returns (results: seq<NameEntry>)
      requires Valid()
      modifies this`nameCache
      ensures results == Answer(Searched(), old(State()), name)
      ensures State() == AfterLookup(Searched(), old(State()), name)
    {
      hide BucketedAll, Bucketed;
      if name in nameCache {
        return nameCache[name];
      }
      if !parsed || units == [] || name == [] {
        NoUnits(name);
        return [];
      }
      var hash := HashName(name);
      var h := Wrap32(hash);
      results := [];
      NoUnits(name);
      AllStep(units, 0, name);
      for k := 0 to |units|
        invariant nameCache == old(nameCache) && results == BucketedAll(units, k, name)
      {
        AllStep(units, k, name);
        var found := LookupInUnit(units[k], name, h);
        results := results + found;
      }
      nameCache := nameCache[name := results];
    }

    /** `populateCache` */
    method PopulateCache()
      requires Valid()
      modifies this
      ensures AfterPopulate(Searched(), old(State()), State())
    {
      hide AppendedTo;
      if cachePopulated {
        return;
      }
      ghost var before := nameCache;
      NothingAppended(before, Searched());
      if !parsed || units == [] {
        cachePopulated := true;
        return;
      }
      for k := 0 to |units|
        invariant AppendedTo(before, nameCache, units, k, 0)
      {
        var unit := units[k];
        for i := 0 to |unit.names|
          invariant AppendedTo(before, nameCache, units, k, i)
        {
          ghost var start := nameCache;
          if unit.names[i] != [] {
            var hits := ReadHits(unit, i);
            var entry := NameEntry(unit.names[i], unit.hashes[i], hits);
            if entry.hits.dies != [] {
              nameCache := nameCache[entry.name := Cached(nameCache, entry.name) + [entry]];
            }
          }
          NextName(units, k, i, before, start);
        }
        NextUnit(units, k, before, nameCache);
      }
      AllAppended(units, before, nameCache);
      cachePopulated := true;
    }
  }

  lemma NoUnits(name: Name)
    ensures Uncached([], name) == [] && Listing([], name) == []
  {
  }

  lemma AllStep(units: seq<Unit>, k: nat, name: Name)
    requires k < |units|
    ensures BucketedAll(units, 0, name) == []
    ensures BucketedAll(units, k + 1, name)
         == BucketedAll(units, k, name) + Bucketed(units[k], |units[k].hashes|, name, NameHash(name))
  {
  }

  /** The listing as far as the first k units and i names of the next one. */
  function ListingTo(units: seq<Unit>, k: nat, i: nat, name: Name): seq<NameEntry>
    requires k <= |units| && (k < |units| ==> i <= |units[k].hashes|)
  {
    if name == [] then []
    else if k == |units| then ScanAll(units, k, name)
    else ScanAll(units, k, name) + Scan(units[k], i, name)
  }

  ghost predicate AppendedTo(before: Cache, after: Cache, units: seq<Unit>, k: nat, i: nat)
    requires k <= |units| && (k < |units| ==> i <= |units[k].hashes|)
  {
    forall name: Name :: Appended(before, after, name, ListingTo(units, k, i, name))
  }

  lemma NothingAppended(cache: Cache, units: seq<Unit>)
    ensures AppendedTo(cache, cache, units, 0, 0)
    ensures units == [] ==> forall name: Name :: Appended(cache, cache, name, Listing(units, name))
  {
  }

  lemma AllAppended(units: seq<Unit>, before: Cache, after: Cache)
    requires AppendedTo(before, after, units, |units|, 0)
    ensures forall name: Name :: Appended(before, after, name, Listing(units, name))
  {
    hide Appended, ScanAll;
    forall name: Name
      ensures Appended(before, after, name, Listing(units, name))
    {
      assert Appended(before, after, name, ListingTo(units, |units|, 0, name));
      assert ListingTo(units, |units|, 0, name) == Listing(units, name);
    }
  }

  lemma NextUnit(units: seq<Unit>, k: nat, before: Cache, after: Cache)
    requires k < |units| && AppendedTo(before, after, units, k, |units[k].hashes|)
    ensures AppendedTo(before, after, units, k + 1, 0)
  {
    hide Appended;
    var next := k + 1;
    forall name: Name
      ensures Appended(before, after, name, ListingTo(units, next, 0, name))
    {
      assert Appended(before, after, name, ListingTo(units, k, |units[k].hashes|, name));
      assert ScanAll(units, next, name) + [] == ScanAll(units, next, name);
    }
  }

  /** Storing the entry of row i of a unit. */
  function StoreRow(cache: Cache, unit: Unit, i: nat): Cache
    requires i < |unit.names| == |unit.hashes| == |unit.entryOffsets|
  {
    if unit.names[i] == [] || HitsAt(unit, i).dies == [] then cache
    else cache[unit.names[i] := Cached(cache, unit.names[i])
                                + [NameEntry(unit.names[i], unit.hashes[i], HitsAt(unit, i))]]
  }

  lemma RowStored(cache: Cache, unit: Unit, i: nat, name: Name)
    requires i < |unit.names| == |unit.hashes| == |unit.entryOffsets|
    ensures Appended(cache, StoreRow(cache, unit, i), name, if name == [] then [] else Hit(unit, i, name))
  {
  }

  lemma AppendedTwice(a: Cache, b: Cache, c: Cache, name: Name, s: seq<NameEntry>, t: seq<NameEntry>)
    requires Appended(a, b, name, s) && Appended(b, c, name, t)
    ensures Appended(a, c, name, s + t)
  {
  }

  lemma NextName(units: seq<Unit>, k: nat, i: nat, before: Cache, start: Cache)
    requires k < |units| && i < |units[k].names| == |units[k].hashes| == |units[k].entryOffsets|
    requires AppendedTo(before, start, units, k, i)
    ensures AppendedTo(before, StoreRow(start, units[k], i), units, k, i + 1)
  {
    hide ListingTo, Hit, StoreRow, Appended;
    var next := i + 1;
    forall name: Name
      ensures Appended(before, StoreRow(start, units[k], i), name, ListingTo(units, k, next, name))
    {
      ListingStep(units, k, i, name);
      assert Appended(before, start, name, ListingTo(units, k, i, name));
      RowStored(start, units[k], i, name);
      AppendedTwice(before, start, StoreRow(start, units[k], i), name,
                    ListingTo(units, k, i, name), if name == [] then [] else Hit(units[k], i, name));
      assert name == [] ==> [] + [] == ListingTo(units, k, i, name);
    }
  }

  lemma ListingStep(units: seq<Unit>, k: nat, i: nat, name: Name)
    requires k < |units| && i < |units[k].hashes|
    ensures ListingTo(units, k, i + 1, name)
         == if name == [] then [] else ListingTo(units, k, i, name) + Hit(units[k], i, name)
    ensures name == [] ==> ListingTo(units, k, i, name) == []
  {
    hide ScanAll;
    assert Scan(units[k], i + 1, name) == Scan(units[k], i, name) + Hit(units[k], i, name);
  }

  // -------------------------------------------------------- runs of operations

  datatype Operation = Lookup(name: Name) | Populate

  ghost predicate Step(units: seq<Unit>, before: Memo, op: Operation, after: Memo) {
    match op
    case Lookup(name) => after == AfterLookup(units, before, name)
    case Populate => AfterPopulate(units, before, after)
  }

  /** The states of a parser object over a run of calls, starting from a fresh one. */
  ghost predicate Run(units: seq<Unit>, ops: seq<Operation>, memos: seq<Memo>) {
    && |memos| == |ops| + 1
    && memos[0] == Memo(map[], false)
    && forall k :: 0 <= k < |ops| ==> Step(units, memos[k], ops[k], memos[k + 1])
  }

  /** The name was looked up before the cache was populated. */
  predicate LookedUpFirst(ops: seq<Operation>, name: Name) {
    ops != [] && var init := ops[..|ops| - 1];
    LookedUpFirst(init, name) || (ops[|ops| - 1] == Lookup(name) && Populate !in init)
  }

  /** What the cache holds for one name after a run. */
  ghost predicate CacheAfter(units: seq<Unit>, ops: seq<Operation>, memo: Memo, name: Name) {
    var early := LookedUpFirst(ops, name) && units != [] && name != [];
    && (memo.populated <==> Populate in ops)
    && if early then
         name in memo.cache
         && memo.cache[name] == Uncached(units, name) + if memo.populated then Listing(units, name) else []
       else if memo.populated && Listing(units, name) != [] then
         name in memo.cache && memo.cache[name] == Listing(units, name)
       else
         name in memo.cache ==> memo.populated && memo.cache[name] == Uncached(units, name)
  }

  lemma {:induction false} CacheOverRun(units: seq<Unit>, ops: seq<Operation>, memos: seq<Memo>, name: Name)
    requires Run(units, ops, memos)
    ensures CacheAfter(units, ops, memos[|ops|], name)
    decreases |ops|
  {
    hide Uncached, Listing;
    if ops != [] {
      var n := |ops| - 1;
      CacheOverRun(units, ops[..n], memos[..n + 1], name);
      assert ops == ops[..n] + [ops[n]];
      assert Step(units, memos[n], ops[n], memos[n + 1]);
      CacheStep(units, ops[..n], memos[n], ops[n], memos[n + 1], name);
    }
  }

  lemma CacheStep(units: seq<Unit>, ops: seq<Operation>, before: Memo, op: Operation, after: Memo, name: Name)
    requires CacheAfter(units, ops, before, name) && Step(units, before, op, after)
    ensures CacheAfter(units, ops + [op], after, name)
  {
    hide Uncached, Listing;
    assert (ops + [op])[..|ops|] == ops;
    if op == Populate {
      assert !before.populated ==> Appended(before.cache, after.cache, name, Listing(units, name));
    }
  }

  /** After any run of calls a lookup answers as without a cache, with two exceptions: once the
      cache was populated, names looked up before that get their listing appended to their
      answer, and names not looked up before get their listing. */
  lemma AnswerOverRun(units: seq<Unit>, ops: seq<Operation>, memos: seq<Memo>, name: Name)
    requires Run(units, ops, memos)
    ensures Answer(units, memos[|ops|], name)
         == if Populate !in ops || Listing(units, name) == [] then Uncached(units, name)
            else if LookedUpFirst(ops, name) then Uncached(units, name) + Listing(units, name)
            else Listing(units, name)
  {
    CacheOverRun(units, ops, memos, name);
    if units == [] {
      NoUnits(name);
    }
  }

  /** So the memo changes no answer exactly for names that are asked before the cache is populated
      only, for names that are not listed, and for names not looked up before the cache was
      populated whose bucketed answer is their listing anyway. */
  lemma MemoIsTransparent(units: seq<Unit>, ops: seq<Operation>, memos: seq<Memo>, name: Name)
    requires Run(units, ops, memos)
    ensures Answer(units, memos[|ops|], name) == Uncached(units, name)
       <==> || Populate !in ops
            || Listing(units, name) == []
            || (!LookedUpFirst(ops, name) && Uncached(units, name) == Listing(units, name))
  {
    AnswerOverRun(units, ops, memos, name);
  }
}
