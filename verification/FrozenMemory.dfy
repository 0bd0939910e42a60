/** tools/re/warm_boot_postmortem.py's Memory: physical reads out of captured files, and a task's memory through its
    page tables, in pieces as large as the entry that maps them. */
module FrozenMemory {
  import opened Results
  import opened Bytes
  import opened PageTables
  import opened PageTableProofs
  import opened PageReaders
  import Arithmetic

  /** One captured stretch of physical memory. */
  datatype Region = Region(base: nat, data: seq<byte>)

  predicate Covers(region: Region, address: nat, size: nat) {
    region.base <= address && address + size <= region.base + |region.data|
  }

  /** Memory.physical: the first capture that holds the whole range. */
  function Capture(regions: seq<Region>, address: nat, size: nat): Option<seq<byte>> {
    if regions == [] then None
    else if Covers(regions[0], address, size) then
      Some(regions[0].data[address - regions[0].base..address - regions[0].base + size])
    else Capture(regions[1..], address, size)
  }

  function Dump(regions: seq<Region>): Reader { (address: nat, size: nat) => Capture(regions, address, size) }

  /** Reads are never short. */
  ghost predicate Sized(read: Reader) { forall a: nat, n: nat :: read(a, n).Some? ==> |read(a, n).value| == n }

  lemma {:induction false} CaptureSize(regions: seq<Region>, a: nat, n: nat)
    ensures Capture(regions, a, n).Some? ==> |Capture(regions, a, n).value| == n
  {
    if regions != [] {
      CaptureSize(regions[1..], a, n);
    }
  }

  lemma DumpIsSized(regions: seq<Region>)
    ensures Sized(Dump(regions))
  {
    hide Capture;
    forall a: nat, n: nat | Dump(regions)(a, n).Some?
      ensures |Dump(regions)(a, n).value| == n
    {
      CaptureSize(regions, a, n);
    }
  }

  /** The captures hold the bytes of one physical memory, each from a word boundary on. */
  predicate Captured(mem: Physical, regions: seq<Region>) {
    && (forall i :: 0 <= i < |regions| ==> regions[i].base % 8 == 0)
    && (forall i :: 0 <= i < |regions| ==> Holds(mem, regions[i]))
  }

  predicate InOneCapture(regions: seq<Region>, address: nat, size: nat) {
    exists i :: 0 <= i < |regions| && Covers(regions[i], address, size)
  }

  lemma {:induction false} CaptureIff(regions: seq<Region>, address: nat, size: nat)
    ensures Capture(regions, address, size).Some? <==> InOneCapture(regions, address, size)
  {
    if regions != [] {
      CaptureIff(regions[1..], address, size);
      if InOneCapture(regions, address, size) && !Covers(regions[0], address, size) {
        var i :| 0 <= i < |regions| && Covers(regions[i], address, size);
        assert regions[1..][i - 1] == regions[i];
      }
      if InOneCapture(regions[1..], address, size) {
        var i :| 0 <= i < |regions[1..]| && Covers(regions[1..][i], address, size);
        assert regions[i + 1] == regions[1..][i];
      }
    }
  }

  /** What a capture gives is what the physical memory holds. */
  lemma {:induction false} CaptureIsPhysical(mem: Physical, regions: seq<Region>, address: nat, size: nat)
    requires Captured(mem, regions) && Capture(regions, address, size).Some?
    ensures Capture(regions, address, size) == ReadPhysical(mem, address, size)
  {
    hide ReadPhysical;
    if Covers(regions[0], address, size) {
      CoveredIsPhysical(mem, regions[0], address, size);
    } else {
      CaptureIsPhysical(mem, regions[1..], address, size);
    }
  }

  predicate Holds(mem: Physical, region: Region) {
    forall k :: 0 <= k < |region.data| ==> mem(region.base + k) == Some(region.data[k])
  }

  lemma HeldByte(mem: Physical, region: Region, a: nat)
    requires Holds(mem, region) && Covers(region, a, 1)
    ensures mem(a) == Some(region.data[a - region.base])
  {
    var k := a - region.base;
    assert mem(region.base + k) == Some(region.data[k]);
  }

  lemma CoveredIsPhysical(mem: Physical, region: Region, address: nat, size: nat)
    requires Covers(region, address, size) && Holds(mem, region)
    ensures ReadPhysical(mem, address, size) == Some(region.data[address - region.base..address - region.base + size])
  {
    hide ReadPhysical, Holds;
    var off := address - region.base;
    forall a | address <= a < address + size
      ensures mem(a).Some?
    {
      HeldByte(mem, region, a);
    }
    var raw := ReadPhysical(mem, address, size).value;
    forall j | 0 <= j < size
      ensures raw[j] == region.data[off + j]
    {
      ReadAt(mem, address, size, j);
      HeldByte(mem, region, address + j);
    }
    assert raw == region.data[off..off + size];
  }

  lemma PartCaptured(regions: seq<Region>, a: nat, n: nat, off: nat, m: nat)
    requires InOneCapture(regions, a, n) && off + m <= n
    ensures InOneCapture(regions, a + off, m)
  {
    var i :| 0 <= i < |regions| && Covers(regions[i], a, n);
    assert Covers(regions[i], a + off, m);
  }

  lemma DumpIsCoherent(mem: Physical, regions: seq<Region>)
    requires Captured(mem, regions)
    ensures Coherent(Dump(regions))
  {
    hide ReadPhysical, Capture;
    var read := Dump(regions);
    forall a: nat, n: nat, off: nat, m: nat
      ensures PartReads(read, a, n, off, m)
    {
      if read(a, n).Some? && off + m <= n {
        CaptureIff(regions, a, n);
        PartCaptured(regions, a, n, off, m);
        CaptureIff(regions, a + off, m);
        CaptureIsPhysical(mem, regions, a, n);
        CaptureIsPhysical(mem, regions, a + off, m);
        SubRead(mem, a, n, 0, n);
        SubRead(mem, a, n, off, m);
      }
    }
  }

  // ---------- the task's memory ----------

  /** The walk with the level of the entry that maps the address. */
  function LeafFrom(read: Reader, table: nat, va: nat, level: Level): Option<(nat, Level)>
    decreases 3 - level
  {
    var entry :- EntryAt(read, table, Index(va, level));
    if entry % 2 == 0 || (level == 3 && entry % 4 != 3) then None
    else if entry % 4 == 1 || level == 3 then Some((Frame(TableAddress(entry), level) + Offset(va, level), level))
    else LeafFrom(read, TableAddress(entry), va, level + 1)
  }

  function Leaf(read: Reader, root: nat, va: nat): Option<(nat, Level)> { LeafFrom(read, RootAddress(root), va, 1) }

  lemma {:induction false} LeafIsWalk(read: Reader, table: nat, va: nat, level: Level)
    ensures WalkFrom(read, table, va, level) ==
            (if LeafFrom(read, table, va, level).Some? then Some(LeafFrom(read, table, va, level).value.0) else None)
    ensures LeafFrom(read, table, va, level).Some? ==> LeafFrom(read, table, va, level).value.1 >= level
    decreases 3 - level
  {
    hide Span, Frame, Index, Offset, EntryAt;
    var entry := EntryAt(read, table, Index(va, level));
    if entry.Some? {
      PageDivides(Low48(entry.value), level);
      if level < 3 {
        LeafIsWalk(read, TableAddress(entry.value), va, level + 1);
      }
    }
  }

  /** Addresses in the stretch one entry maps are mapped by it, one behind the other. */
  lemma {:induction false} LeafWithin(read: Reader, table: nat, va: nat, j: nat, level: Level)
    requires LeafFrom(read, table, va, level).Some?
    requires Offset(va, LeafFrom(read, table, va, level).value.1) + j < Span(LeafFrom(read, table, va, level).value.1)
    ensures var (pa, at) := LeafFrom(read, table, va, level).value;
            LeafFrom(read, table, va + j, level) == Some((pa + j, at))
    decreases 3 - level
  {
    hide Span, Frame, EntryAt, Index, Offset;
    LeafIsWalk(read, table, va, level);
    var at := LeafFrom(read, table, va, level).value.1;
    StretchBlock(va, j, level, at);
    var entry := EntryAt(read, table, Index(va, level)).value;
    if !(entry % 4 == 1 || level == 3) {
      LeafWithin(read, TableAddress(entry), va, j, level + 1);
    }
  }

  lemma StretchBlock(va: nat, j: nat, level: Level, at: Level)
    requires level <= at && Offset(va, at) + j < Span(at)
    ensures Index(va + j, level) == Index(va, level)
    ensures level == at ==> Offset(va + j, level) == Offset(va, level) + j
  {
    var k := if level == at then 1 else if at - level == 2 then 0x40_0000 else 0x800;
    Arithmetic.SameBlock(va, j, Span(at), k, Span(level));
  }

  /** How much the entry serves: what is left, or up to the end of its stretch. */
  function StretchLength(va: nat, left: nat, level: Level): (n: nat)
    ensures n <= left && n <= Span(level) - Offset(va, level) && (left > 0 ==> n > 0)
  {
    if left < Span(level) - Offset(va, level) then left else Span(level) - Offset(va, level)
  }

  function UserFrom(read: Reader, root: nat, va: nat, left: nat): Option<seq<byte>>
    decreases left
  {
    if left == 0 then Some([])
    else
      var (pa, level) :- Leaf(read, root, va);
      var n := StretchLength(va, left, level);
      var piece :- read(pa, n);
      var rest :- UserFrom(read, root, va + n, left - n);
      Some(piece + rest)
  }

  /** Memory.user: each stretch must lie in one capture. */
  function User(read: Reader, root: nat, address: nat, size: nat): Option<seq<byte>> {
    if address >= VA_LIMIT then None else UserFrom(read, root, address, size)
  }

  /** The task's space: the tables read from the captures, the bytes from physical memory. */
  function TaskSpace(mem: Physical, regions: seq<Region>, root: nat): Physical {
    (va: nat) => TaskByte(mem, regions, root, va)
  }

  function TaskByte(mem: Physical, regions: seq<Region>, root: nat, va: nat): Option<byte> {
    var pa :- Walk(Dump(regions), root, va);
    mem(pa)
  }

  lemma StretchIsPhysical(mem: Physical, regions: seq<Region>, root: nat, va: nat, left: nat)
    requires Leaf(Dump(regions), root, va).Some?
    ensures var (pa, level) := Leaf(Dump(regions), root, va).value;
            var n := StretchLength(va, left, level);
            ReadPhysical(TaskSpace(mem, regions, root), va, n) == ReadPhysical(mem, pa, n)
  {
    hide ReadPhysical, LeafFrom, WalkFrom, Span, Offset;
    var (pa, level) := Leaf(Dump(regions), root, va).value;
    var n := StretchLength(va, left, level);
    var v := TaskSpace(mem, regions, root);
    forall a | va <= a < va + n
      ensures v(a) == mem(pa + (a - va))
    {
      LeafWithin(Dump(regions), RootAddress(root), va, a - va, 1);
      LeafIsWalk(Dump(regions), RootAddress(root), a, 1);
    }
    PieceIsPhysical(v, mem, va, pa, n);
  }

  lemma {:induction false} UserSize(read: Reader, root: nat, va: nat, left: nat)
    requires Sized(read) && UserFrom(read, root, va, left).Some?
    ensures |UserFrom(read, root, va, left).value| == left
    decreases left
  {
    hide Leaf, StretchLength;
    if left > 0 {
      var (pa, level) := Leaf(read, root, va).value;
      var n := StretchLength(va, left, level);
      UserSize(read, root, va + n, left - n);
    }
  }

  /** What a task read returns is the task's memory, byte by byte. */
  lemma {:induction false} UserIsBytewise(mem: Physical, regions: seq<Region>, root: nat, va: nat, left: nat)
    requires Captured(mem, regions) && UserFrom(Dump(regions), root, va, left).Some?
    ensures UserFrom(Dump(regions), root, va, left) == ReadPhysical(TaskSpace(mem, regions, root), va, left)
    decreases left
  {
    hide ReadPhysical, Leaf, Capture, Captured, TaskSpace, StretchLength;
    var v := TaskSpace(mem, regions, root);
    if left == 0 {
      EmptyRead(v, va);
    } else {
      var (pa, level) := Leaf(Dump(regions), root, va).value;
      var n := StretchLength(va, left, level);
      StretchIsPhysical(mem, regions, root, va, left);
      CaptureIsPhysical(mem, regions, pa, n);
      UserIsBytewise(mem, regions, root, va + n, left - n);
      ReadConcat(v, va, n, left - n);
    }
  }

  /** A read inside one stretch succeeds if and only if the stretch is mapped and its bytes lie in one capture. */
  lemma OneStretchIff(regions: seq<Region>, root: nat, va: nat, size: nat)
    requires size > 0 && va < VA_LIMIT
    requires var leaf := Leaf(Dump(regions), root, va); leaf.Some? ==> size <= Span(leaf.value.1) - Offset(va, leaf.value.1)
    ensures var leaf := Leaf(Dump(regions), root, va);
            User(Dump(regions), root, va, size).Some? <==> leaf.Some? && InOneCapture(regions, leaf.value.0, size)
  {
    hide Leaf, Capture, Span, Offset;
    var leaf := Leaf(Dump(regions), root, va);
    if leaf.Some? {
      CaptureIff(regions, leaf.value.0, size);
      assert UserFrom(Dump(regions), root, va + size, 0) == Some([]);
    }
  }

  method TranslateLeaf(read: Reader, root: nat, va: nat) returns (leaf: Option<(nat, Level)>)
    ensures leaf == Leaf(read, root, va)
  {
    hide Frame, EntryAt, Index, Offset, Span, TableAddress;
    var table := RootAddress(root);
    var level: Level := 1;
    while true
      invariant Leaf(read, root, va) == LeafFrom(read, table, va, level)
      decreases 3 - level
    {
      var entry := EntryAt(read, table, Index(va, level));
      if entry.None? || entry.value % 2 == 0 || (level == 3 && entry.value % 4 != 3) {
        return None;
      }
      if entry.value % 4 == 1 || level == 3 {
        return Some((Frame(TableAddress(entry.value), level) + Offset(va, level), level));
      }
      table := TableAddress(entry.value);
      level := level + 1;
    }
  }

  /** The loop that fills the output. */
  method ReadUser(read: Reader, root: nat, address: nat, size: nat) returns (r: Option<seq<byte>>)
    requires Sized(read)
    ensures r == User(read, root, address, size)
  {
    hide Leaf, StretchLength;
    if address >= VA_LIMIT {
      return None;
    }
    var output: seq<byte> := [];
    NothingPrefixed(UserFrom(read, root, address, size));
    while |output| < size
      invariant |output| <= size
      invariant UserFrom(read, root, address, size) == Prefixed(output, UserFrom(read, root, address + |output|, size - |output|))
    {
      var va := address + |output|;
      var leaf := TranslateLeaf(read, root, va);
      if leaf.None? {
        return None;
      }
      var count := StretchLength(va, size - |output|, leaf.value.1);
      var piece := read(leaf.value.0, count);
      if piece.None? {
        return None;
      }
      PrefixedTwice(output, piece.value, UserFrom(read, root, va + count, size - |output| - count));
      output := output + piece.value;
    }
    assert output + [] == output;
    r := Some(output);
  }

  function Prefixed(output: seq<byte>, rest: Option<seq<byte>>): Option<seq<byte>> {
    if rest.Some? then Some(output + rest.value) else None
  }

  lemma NothingPrefixed(rest: Option<seq<byte>>)
    ensures Prefixed([], rest) == rest
  {
    if rest.Some? {
      assert [] + rest.value == rest.value;
    }
  }

  lemma PrefixedTwice(a: seq<byte>, b: seq<byte>, rest: Option<seq<byte>>)
    ensures Prefixed(a, Prefixed(b, rest)) == Prefixed(a + b, rest)
  {
    if rest.Some? {
      assert a + (b + rest.value) == a + b + rest.value;
    }
  }
}
