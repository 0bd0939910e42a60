/** The enumeration and the walk translate alike; chunked reads are bytewise reads. */
module PageTableProofs {
  import opened Results
  import opened Bytes
  import opened PageTables
  import Arithmetic

  /** Intervals inside [lo, hi), ascending and disjoint. */
  predicate Tiled(ms: seq<Mapping>, lo: nat, hi: nat) {
    && (forall i :: 0 <= i < |ms| ==> lo <= ms[i].va && ms[i].va + ms[i].size <= hi && ms[i].size > 0)
    && (forall i :: 0 <= i < |ms| ==> ms[i].va % 0x4000 == 0 && ms[i].pa % 0x4000 == 0 && ms[i].size % 0x4000 == 0)
    && (forall i, j :: 0 <= i < j < |ms| ==> ms[i].va + ms[i].size <= ms[j].va)
  }

  lemma TiledConcat(a: seq<Mapping>, b: seq<Mapping>, lo: nat, mid: nat, hi: nat)
    requires Tiled(a, lo, mid) && Tiled(b, mid, hi) && lo <= mid <= hi
    ensures Tiled(a + b, lo, hi)
  {
  }

  lemma {:induction false} LookupConcat(a: seq<Mapping>, b: seq<Mapping>, va: nat)
    ensures Lookup(a + b, va) == if Lookup(a, va).Some? then Lookup(a, va) else Lookup(b, va)
  {
    if a == [] {
      assert a + b == b;
    } else {
      assert (a + b)[1..] == a[1..] + b;
      LookupConcat(a[1..], b, va);
    }
  }

  lemma {:induction false} LookupOutside(ms: seq<Mapping>, lo: nat, hi: nat, va: nat)
    requires Tiled(ms, lo, hi) && (va < lo || hi <= va)
    ensures Lookup(ms, va).None?
  {
    if ms != [] {
      LookupOutside(ms[1..], lo, hi, va);
    }
  }

  lemma {:induction false} LookupHit(ms: seq<Mapping>, lo: nat, hi: nat, k: nat, va: nat)
    requires Tiled(ms, lo, hi) && k < |ms| && ms[k].va <= va < ms[k].va + ms[k].size
    ensures Lookup(ms, va) == Some(ms[k].pa + (va - ms[k].va))
  {
    if k > 0 {
      LookupHit(ms[1..], lo, hi, k - 1, va);
    }
  }

  lemma {:induction false} LookupWitness(ms: seq<Mapping>, va: nat) returns (k: nat)
    requires Lookup(ms, va).Some?
    ensures k < |ms| && ms[k].va <= va < ms[k].va + ms[k].size && Lookup(ms, va) == Some(ms[k].pa + (va - ms[k].va))
  {
    if ms[0].va <= va < ms[0].va + ms[0].size {
      k := 0;
    } else {
      k := LookupWitness(ms[1..], va);
      k := k + 1;
    }
  }

  function TableSpan(level: Level): nat { Count(level) * Span(level) }

  lemma TableSpans()
    ensures TableSpan(1) == VA_LIMIT && TableSpan(2) == Span(1) && TableSpan(3) == Span(2)
  {
  }

  lemma PageDivides(x: nat, level: Level)
    ensures Frame(x / 0x4000 * 0x4000, level) == Frame(x, level)
    ensures Frame(x, level) % 0x4000 == 0
  {
    Arithmetic.RoundTwiceMultiple(x, 0x4000, if level == 1 then 0x40_0000 else if level == 2 then 0x800 else 1,
                                  Span(level));
  }

  lemma {:induction false} TableTiled(read: Reader, table: nat, level: Level, prefix: nat)
    requires TableMappings(read, table, level, prefix).Some? && prefix % 0x4000 == 0
    ensures Tiled(TableMappings(read, table, level, prefix).value, prefix, prefix + TableSpan(level))
    decreases 3 - level, Count(level) + 2
  {
    EntriesTiled(read, read(table, Count(level) * 8).value, level, prefix, 0);
  }

  lemma Steps(prefix: nat, i: nat, level: Level)
    requires prefix % 0x4000 == 0
    ensures EntryAddress(prefix, level, i) % 0x4000 == 0
    ensures EntryAddress(prefix, level, i + 1) == EntryAddress(prefix, level, i) + Span(level)
  {
    match level case _ =>
  }

  lemma {:induction false} EntriesTiled(read: Reader, raw: seq<byte>, level: Level, prefix: nat, i: nat)
    requires |raw| == Count(level) * 8 && i <= Count(level) && prefix % 0x4000 == 0
    requires EntriesFrom(read, raw, level, prefix, i).Some?
    ensures Tiled(EntriesFrom(read, raw, level, prefix, i).value, EntryAddress(prefix, level, i), prefix + TableSpan(level))
    decreases 3 - level, Count(level) + 1 - i
  {
    hide U64, Span, EntryAddress;
    LastEntry(prefix, level, i);
    if i < Count(level) {
      Steps(prefix, i, level);
      var here := EntryMappings(read, U64(raw, i * 8), level, EntryAddress(prefix, level, i)).value;
      var rest := EntriesFrom(read, raw, level, prefix, i + 1).value;
      EntryTiled(read, U64(raw, i * 8), level, EntryAddress(prefix, level, i));
      EntriesTiled(read, raw, level, prefix, i + 1);
      LastEntry(prefix, level, i + 1);
      TiledConcat(here, rest, EntryAddress(prefix, level, i), EntryAddress(prefix, level, i + 1), prefix + TableSpan(level));
    }
  }

  lemma LastEntry(prefix: nat, level: Level, i: nat)
    ensures EntryAddress(prefix, level, Count(level)) == prefix + TableSpan(level)
    ensures i <= Count(level) ==> EntryAddress(prefix, level, i) <= prefix + TableSpan(level)
  {
    if i <= Count(level) {
      MulUp(i, Count(level), Span(level));
    }
  }

  lemma EntriesAscend(prefix: nat, level: Level, i: nat, k: nat)
    requires i <= k
    ensures EntryAddress(prefix, level, i) <= EntryAddress(prefix, level, k)
  {
    MulUp(i, k, Span(level));
  }

  lemma MulUp(i: nat, n: nat, s: nat)
    requires i <= n
    ensures i * s <= n * s
  {
  }

  lemma {:induction false} EntryTiled(read: Reader, entry: nat, level: Level, va: nat)
    requires EntryMappings(read, entry, level, va).Some? && va % 0x4000 == 0
    ensures Tiled(EntryMappings(read, entry, level, va).value, va, va + Span(level))
    decreases 3 - level, 0
  {
    hide Overlaps, Span, Tiled, TableMappings, Frame;
    OneTiled(va, level, 0);
    if entry % 2 == 1 && Overlaps(va, va + Span(level)) {
      if entry % 4 == 1 || level == 3 {
        PageDivides(Low48(entry), level);
        OneTiled(va, level, Frame(Low48(entry), level));
      } else {
        NextSpan(level);
        TableTiled(read, TableAddress(entry), level + 1, va);
      }
    }
  }

  lemma OneTiled(va: nat, level: Level, pa: nat)
    requires va % 0x4000 == 0 && pa % 0x4000 == 0
    ensures Tiled([], va, va + Span(level)) && Tiled([Mapping(va, pa, Span(level))], va, va + Span(level))
  {
  }

  // ---------- the two translations agree ----------

  lemma SubRead(mem: Physical, address: nat, size: nat, off: nat, n: nat)
    requires ReadPhysical(mem, address, size).Some? && off + n <= size
    ensures ReadPhysical(mem, address + off, n) == Some(ReadPhysical(mem, address, size).value[off..off + n])
  {
    hide ReadPhysical;
    var raw := ReadPhysical(mem, address, size).value;
    assert Readable(mem, address + off, n);
    var part := ReadPhysical(mem, address + off, n).value;
    forall i | 0 <= i < n
      ensures part[i] == raw[off + i]
    {
      ReadAt(mem, address + off, n, i);
      ReadAt(mem, address, size, off + i);
      assert address + off + i == address + (off + i);
    }
    assert part == raw[off..off + n];
  }

  lemma ReadAt(mem: Physical, address: nat, size: nat, i: nat)
    requires ReadPhysical(mem, address, size).Some? && i < size
    ensures mem(address + i) == Some(ReadPhysical(mem, address, size).value[i])
  {
    assert (address + i) - address == i;
  }

  lemma BytewiseIsCoherent(mem: Physical)
    ensures Coherent(Bytewise(mem))
  {
    hide ReadPhysical;
    var read := Bytewise(mem);
    forall a: nat, n: nat, off: nat, m: nat
      ensures PartReads(read, a, n, off, m)
    {
      if read(a, n).Some? && off + m <= n {
        SubRead(mem, a, n, 0, n);
        SubRead(mem, a, n, off, m);
      }
    }
  }

  lemma U64Slice(b: seq<byte>, off: nat)
    requires off + 8 <= |b|
    ensures U64(b[off..off + 8], 0) == U64(b, off)
  {
  }

  lemma SameEntry(read: Reader, table: nat, level: Level, k: nat)
    requires Coherent(read) && read(table, Count(level) * 8).Some? && k < Count(level)
    ensures |read(table, Count(level) * 8).value| == Count(level) * 8
    ensures EntryAt(read, table, k) == Some(U64(read(table, Count(level) * 8).value, k * 8))
  {
    hide U64;
    var raw := read(table, Count(level) * 8).value;
    assert PartReads(read, table, Count(level) * 8, k * 8, 8);
    U64Slice(raw, k * 8);
  }

  /** The entry of the table that covers `va`, for a table aligned to what it covers. */
  lemma IndexOf(va: nat, prefix: nat, level: Level) returns (k: nat)
    requires prefix % TableSpan(level) == 0 && prefix <= va < prefix + TableSpan(level)
    ensures k < Count(level) && Index(va, level) == k
    ensures EntryAddress(prefix, level, k) <= va < EntryAddress(prefix, level, k + 1)
    ensures EntryAddress(prefix, level, k) % Span(level) == 0 && va - EntryAddress(prefix, level, k) == Offset(va, level)
  {
    hide Span;
    var s, n := Span(level), Count(level);
    var q := prefix / TableSpan(level);
    Arithmetic.Parts(prefix, n * s);
    k := Arithmetic.Slot(va, q, n, s, va - prefix);
    Arithmetic.SlotBase(q, n, s, k);
  }

  lemma {:induction false} EntriesLookup(read: Reader, raw: seq<byte>, level: Level, prefix: nat, i: nat, k: nat, va: nat)
    requires |raw| == Count(level) * 8 && i <= k < Count(level) && prefix % 0x4000 == 0
    requires EntriesFrom(read, raw, level, prefix, i).Some?
    requires EntryAddress(prefix, level, k) <= va < EntryAddress(prefix, level, k + 1)
    ensures EntryMappings(read, U64(raw, k * 8), level, EntryAddress(prefix, level, k)).Some?
    ensures Lookup(EntriesFrom(read, raw, level, prefix, i).value, va) ==
            Lookup(EntryMappings(read, U64(raw, k * 8), level, EntryAddress(prefix, level, k)).value, va)
    decreases Count(level) - i
  {
    hide U64, Span, EntryMappings, Lookup, EntryAddress;
    var here := EntryMappings(read, U64(raw, i * 8), level, EntryAddress(prefix, level, i)).value;
    var rest := EntriesFrom(read, raw, level, prefix, i + 1).value;
    Steps(prefix, i, level);
    LookupConcat(here, rest, va);
    EntryTiled(read, U64(raw, i * 8), level, EntryAddress(prefix, level, i));
    EntriesTiled(read, raw, level, prefix, i + 1);
    if i < k {
      EntriesAscend(prefix, level, i + 1, k);
      LookupOutside(here, EntryAddress(prefix, level, i), EntryAddress(prefix, level, i + 1), va);
      EntriesLookup(read, raw, level, prefix, i + 1, k, va);
    } else {
      LookupOutside(rest, EntryAddress(prefix, level, i + 1), prefix + TableSpan(level), va);
    }
  }

  lemma {:induction false} TableAgrees(read: Reader, table: nat, level: Level, prefix: nat, va: nat)
    requires Coherent(read) && TableMappings(read, table, level, prefix).Some? && prefix % TableSpan(level) == 0
    requires prefix <= va < prefix + TableSpan(level)
    ensures var found := Lookup(TableMappings(read, table, level, prefix).value, va);
            found.Some? || InHeaps(va) ==> WalkFrom(read, table, va, level) == found
    decreases 3 - level, 1
  {
    hide Span, EntryMappings, U64, Lookup, Coherent, Index, Offset;
    AlignedTable(prefix, level);
    var k := IndexOf(va, prefix, level);
    var raw := read(table, Count(level) * 8).value;
    EntriesLookup(read, raw, level, prefix, 0, k, va);
    SameEntry(read, table, level, k);
    EntryAgrees(read, U64(raw, k * 8), level, EntryAddress(prefix, level, k), va);
  }

  lemma AlignedTable(prefix: nat, level: Level)
    requires prefix % TableSpan(level) == 0
    ensures prefix % 0x4000 == 0
  {
    TableSpans();
    if level == 1 {
      Whole43(prefix);
    } else if level == 2 {
      Whole36(prefix);
    } else {
      Whole25(prefix);
    }
  }

  lemma Whole43(x: nat)
    requires x % 0x800_0000_0000 == 0
    ensures x % 0x4000 == 0
  {
  }

  lemma Whole36(x: nat)
    requires x % 0x10_0000_0000 == 0
    ensures x % 0x4000 == 0
  {
  }

  lemma Whole25(x: nat)
    requires x % 0x200_0000 == 0
    ensures x % 0x4000 == 0
  {
  }

  function WalkEntry(read: Reader, entry: nat, level: Level, va: nat): Option<nat> {
    if entry % 2 == 0 || (level == 3 && entry % 4 != 3) then None
    else if entry % 4 == 1 || level == 3 then Some(Frame(Low48(entry), level) + Offset(va, level))
    else WalkFrom(read, TableAddress(entry), va, level + 1)
  }

  lemma InHeapsOverlaps(va: nat, lo: nat, hi: nat)
    requires lo <= va < hi && InHeaps(va)
    ensures Overlaps(lo, hi)
  {
  }

  lemma {:induction false} EntryAgrees(read: Reader, entry: nat, level: Level, base: nat, va: nat)
    requires Coherent(read) && EntryMappings(read, entry, level, base).Some? && base % Span(level) == 0
    requires base <= va < base + Span(level) && va - base == Offset(va, level)
    ensures var found := Lookup(EntryMappings(read, entry, level, base).value, va);
            found.Some? || InHeaps(va) ==> WalkEntry(read, entry, level, va) == found
    decreases 3 - level, 0
  {
    hide Span, InHeaps, Overlaps, WalkFrom, TableMappings, Frame, Offset, Coherent;
    if InHeaps(va) {
      InHeapsOverlaps(va, base, base + Span(level));
    }
    if entry % 2 == 1 && Overlaps(base, base + Span(level)) {
      if entry % 4 == 1 || level == 3 {
        PageDivides(Low48(entry), level);
      } else {
        assert level < 3;
        NextSpan(level);
        TableAgrees(read, TableAddress(entry), level + 1, base, va);
      }
    }
  }

  lemma NextSpan(level: Level)
    requires level < 3
    ensures TableSpan(level + 1) == Span(level)
  {
    TableSpans();
  }

  /** For every coherent way of reading memory and every root whose tables can be read: the yielded intervals are ascending and disjoint,
      every address in one is translated by the walk exactly as the interval says, and an address in the
      heap ranges is in one exactly when the walk succeeds. */
  lemma EnumerationAgreesWithWalk(read: Reader, root: nat, va: nat)
    requires Coherent(read) && Mappings(read, root).Some? && va < VA_LIMIT
    ensures var ms := Mappings(read, root).value;
            && Tiled(ms, 0, VA_LIMIT)
            && (Lookup(ms, va).Some? ==> Walk(read, root, va) == Lookup(ms, va))
            && (InHeaps(va) ==> Walk(read, root, va) == Lookup(ms, va))
  {
    hide InHeaps, Tiled, TableMappings, WalkFrom, Lookup, RootAddress, Coherent;
    TableSpans();
    TableTiled(read, RootAddress(root), 1, 0);
    TableAgrees(read, RootAddress(root), 1, 0, va);
  }

  // ---------- what is pruned ----------

  /** Part of the interval lies in one of the two heap ranges. */
  predicate TouchesHeaps(m: Mapping) {
    exists va :: m.va <= va < m.va + m.size && InHeaps(va)
  }

  predicate AllTouchHeaps(ms: seq<Mapping>) { forall k :: 0 <= k < |ms| ==> TouchesHeaps(ms[k]) }

  lemma OverlapWitness(va: nat, level: Level, pa: nat)
    requires Overlaps(va, va + Span(level))
    ensures TouchesHeaps(Mapping(va, pa, Span(level)))
  {
    var first := if va < 0x1_1000_0000 && 0x1_0000_0000 < va + Span(level) then (if va < 0x1_0000_0000 then 0x1_0000_0000 else va)
                 else (if va < 0x70_0000_0000 then 0x70_0000_0000 else va);
    assert InHeaps(first);
  }

  /** The enumeration lists no interval outside the heap ranges. */
  lemma {:induction false} EnumerationIsPruned(read: Reader, root: nat)
    ensures Mappings(read, root).Some? ==> AllTouchHeaps(Mappings(read, root).value)
  {
    TablePruned(read, RootAddress(root), 1, 0);
  }

  lemma {:induction false} TablePruned(read: Reader, table: nat, level: Level, prefix: nat)
    ensures TableMappings(read, table, level, prefix).Some? ==> AllTouchHeaps(TableMappings(read, table, level, prefix).value)
    decreases 3 - level, Count(level) + 2
  {
    hide EntriesFrom, AllTouchHeaps;
    var raw := read(table, Count(level) * 8);
    if raw.Some? && |raw.value| == Count(level) * 8 { EntriesPruned(read, raw.value, level, prefix, 0); }
  }

  lemma {:induction false} EntriesPruned(read: Reader, raw: seq<byte>, level: Level, prefix: nat, i: nat)
    requires |raw| == Count(level) * 8 && i <= Count(level)
    ensures EntriesFrom(read, raw, level, prefix, i).Some? ==> AllTouchHeaps(EntriesFrom(read, raw, level, prefix, i).value)
    decreases 3 - level, Count(level) + 1 - i
  {
    hide EntryMappings, TouchesHeaps;
    if i < Count(level) {
      EntryPruned(read, U64(raw, i * 8), level, EntryAddress(prefix, level, i));
      EntriesPruned(read, raw, level, prefix, i + 1);
    }
  }

  lemma {:induction false} EntryPruned(read: Reader, entry: nat, level: Level, va: nat)
    ensures EntryMappings(read, entry, level, va).Some? ==> AllTouchHeaps(EntryMappings(read, entry, level, va).value)
    decreases 3 - level, 0
  {
    hide TouchesHeaps, TableMappings, Frame, Span;
    if Overlaps(va, va + Span(level)) {
      OverlapWitness(va, level, Frame(TableAddress(entry), level));
      if level < 3 { TablePruned(read, TableAddress(entry), level + 1, va); }
    }
  }
}
