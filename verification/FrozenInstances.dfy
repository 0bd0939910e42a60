/** tools/re/frozen_objc_instances.py: the needle scan, the 16 KiB page index and the search for
    instances of one class. */
module FrozenInstances {
  import opened Results
  import opened Bytes
  import opened PageTables
  import opened PageTableProofs
  import opened PageReaders
  import opened FrozenMemory
  import Arithmetic

  function Digits(v: nat, n: nat): (d: seq<byte>)
    ensures |d| == n
  {
    if n == 0 then [] else [v % 0x100] + Digits(v / 0x100, n - 1)
  }

  function Beyond(v: nat, n: nat): nat {
    if n == 0 then v else Beyond(v / 0x100, n - 1)
  }

  /** The bytes are the digits of the value, and the value has no further digits. */
  lemma {:induction false} ValueIsDigits(s: seq<byte>, v: nat)
    ensures Little(s) == v <==> s == Digits(v, |s|) && Beyond(v, |s|) == 0
    decreases |s|
  {
    if s != [] {
      ValueIsDigits(s[1..], v / 0x100);
      var d := Digits(v, |s|);
      assert d[1..] == Digits(v / 0x100, |s| - 1);
      assert s == [s[0]] + s[1..];
    }
  }

  // ---------- the scan ----------

  /** cls.to_bytes(8, 'little')[1:6] */
  function Needle(cls: nat): seq<byte> { Digits(cls / 0x100, 5) }

  /** data.find(needle, from): the least position, if any. */
  function FindFrom(data: seq<byte>, needle: seq<byte>, from: nat): (r: Option<nat>)
    ensures r.Some? ==> from <= r.value && At(data, r.value, needle)
    ensures forall i :: from <= i && (r.Some? ==> i < r.value) ==> !At(data, i, needle)
    decreases |data| + 1 - from
  {
    if from + |needle| > |data| then None
    else if At(data, from, needle) then Some(from)
    else FindFrom(data, needle, from + 1)
  }

  /** isa & 0x0000fffffffffff8, from the six bytes the mask keeps. */
  function MaskedIsa(data: seq<byte>, off: nat): nat
    requires off + 6 <= |data|
  {
    Little(data[off..off + 6]) / 8 * 8
  }

  predicate IsHit(data: seq<byte>, cls: nat, start: nat) {
    start % 8 == 0 && start + 6 <= |data| && MaskedIsa(data, start) == cls
  }

  /** What the code tests: the five middle bytes, and the low byte under 0xf8. */
  predicate NeedleHit(data: seq<byte>, cls: nat, start: nat) {
    start % 8 == 0 && At(data, start + 1, Needle(cls)) && data[start] / 8 * 8 == cls % 0x100 / 8 * 8
  }

  /** For a class address with zero low three bits and nothing above bit 47 the needle test finds
      exactly the aligned words whose masked isa is the class. */
  lemma NeedleFindsExactly(data: seq<byte>, cls: nat, start: nat)
    requires cls % 8 == 0 && cls < 0x1_0000_0000_0000
    ensures NeedleHit(data, cls, start) <==> IsHit(data, cls, start)
  {
    if start + 6 <= |data| {
      var six, five := data[start..start + 6], data[start + 1..start + 6];
      assert six[1..] == five;
      ValueIsDigits(five, cls / 0x100);
      BeyondClass(cls);
      SplitWord(data[start], Little(five), cls);
    }
  }

  lemma BeyondClass(cls: nat)
    requires cls < 0x1_0000_0000_0000
    ensures Beyond(cls / 0x100, 5) == 0
  {
    var a := cls / 0x100;
    var b := a / 0x100;
    var c := b / 0x100;
    var d := c / 0x100;
    assert d / 0x100 / 0x100 == 0;
    assert Beyond(d / 0x100 / 0x100, 0) == 0;
    assert Beyond(d / 0x100, 1) == 0;
    assert Beyond(d, 2) == 0;
    assert Beyond(c, 3) == 0;
    assert Beyond(b, 4) == 0;
  }

  lemma SplitWord(low: byte, high: nat, cls: nat)
    requires cls % 8 == 0
    ensures (low + 0x100 * high) / 8 * 8 == cls <==> low / 8 * 8 == cls % 0x100 / 8 * 8 && high == cls / 0x100
  {
    assert (low + 0x100 * high) / 8 == low / 8 + 32 * high;
    WholeEights(cls);
    OneSplit(low / 8 * 8, high, cls);
  }

  lemma WholeEights(cls: nat)
    requires cls % 8 == 0
    ensures cls % 0x100 / 8 * 8 == cls % 0x100
  {
  }

  lemma OneSplit(x: nat, high: nat, cls: nat)
    requires x < 0x100
    ensures x + 0x100 * high == cls <==> x == cls % 0x100 && high == cls / 0x100
  {
  }

  function HitsFrom(data: seq<byte>, base: nat, cls: nat, start: nat): seq<nat>
    decreases |data| - start
  {
    if start >= |data| then []
    else (if IsHit(data, cls, start) then [base + start] else []) + HitsFrom(data, base, cls, start + 1)
  }

  lemma {:induction false} SkipTo(data: seq<byte>, base: nat, cls: nat, start: nat, next: nat)
    requires start <= next && forall i :: start <= i < next ==> !IsHit(data, cls, i)
    ensures HitsFrom(data, base, cls, start) == HitsFrom(data, base, cls, next)
    decreases next - start
  {
    if start < next {
      SkipTo(data, base, cls, start + 1, next);
      if start < |data| {
        assert !IsHit(data, cls, start);
      }
    }
  }

  method ScanRegion(region: Region, cls: nat) returns (hits: seq<nat>)
    requires cls % 8 == 0 && cls < 0x1_0000_0000_0000
    ensures hits == HitsFrom(region.data, region.base, cls, 0)
  {
    hide IsHit, At, Needle, HitsFrom;
    var data, needle := region.data, Needle(cls);
    hits := [];
    ghost var done := 0;
    var offset := FindFrom(data, needle, 0);
    NoHitWithoutNeedle(data, cls, 0, offset);
    while offset.Some?
      invariant offset.Some? ==> At(data, offset.value, needle) && done <= (if offset.value > 0 then offset.value - 1 else 0)
      invariant forall i :: done <= i && (offset.Some? ==> i + 1 < offset.value) ==> !IsHit(data, cls, i)
      invariant hits + HitsFrom(data, region.base, cls, done) == HitsFrom(data, region.base, cls, 0)
      decreases if offset.Some? then |data| + 1 - offset.value else 0
    {
      NeedleInside(data, cls, offset.value);
      var start := offset.value as int - 1;
      if start >= 0 {
        NeedleFindsExactly(data, cls, start);
        SkipTo(data, region.base, cls, done, start);
        OneHit(data, region.base, cls, start);
        if start % 8 == 0 && data[start] / 8 * 8 == cls % 0x100 / 8 * 8 {
          assert NeedleHit(data, cls, start);
          hits := hits + [region.base + start];
        } else {
          assert !NeedleHit(data, cls, start);
        }
        done := start + 1;
      }
      var next := FindFrom(data, needle, offset.value + 1);
      NoHitWithoutNeedle(data, cls, done, next);
      offset := next;
    }
    AllSkipped(data, region.base, cls, done);
  }

  lemma NeedleInside(data: seq<byte>, cls: nat, i: nat)
    requires At(data, i, Needle(cls))
    ensures i + 5 <= |data|
  {
  }

  lemma OneHit(data: seq<byte>, base: nat, cls: nat, start: nat)
    requires start < |data|
    ensures HitsFrom(data, base, cls, start) ==
            (if IsHit(data, cls, start) then [base + start] else []) + HitsFrom(data, base, cls, start + 1)
  {
  }

  lemma NoHitWithoutNeedle(data: seq<byte>, cls: nat, from: nat, found: Option<nat>)
    requires cls % 8 == 0 && cls < 0x1_0000_0000_0000
    requires forall i :: from + 1 <= i && (found.Some? ==> i < found.value) ==> !At(data, i, Needle(cls))
    ensures forall i :: from <= i && (found.Some? ==> i + 1 < found.value) ==> !IsHit(data, cls, i)
  {
    hide IsHit, At, Needle;
    forall i | from <= i && (found.Some? ==> i + 1 < found.value)
      ensures !IsHit(data, cls, i)
    {
      NeedleFindsExactly(data, cls, i);
      assert !At(data, i + 1, Needle(cls));
    }
  }

  lemma {:induction false} AllSkipped(data: seq<byte>, base: nat, cls: nat, done: nat)
    requires forall i :: done <= i ==> !IsHit(data, cls, i)
    ensures HitsFrom(data, base, cls, done) == []
    decreases |data| - done
  {
    if done < |data| {
      AllSkipped(data, base, cls, done + 1);
      assert !IsHit(data, cls, done);
    }
  }

  function AllHits(regions: seq<Region>, cls: nat): seq<nat> {
    if regions == [] then []
    else AllHits(regions[..|regions| - 1], cls)
         + HitsFrom(regions[|regions| - 1].data, regions[|regions| - 1].base, cls, 0)
  }

  // ---------- the page index ----------

  /** [h for h in hits if pa <= h < pa + length] */
  function InRange(hits: seq<nat>, pa: nat, length: nat): seq<nat> {
    if hits == [] then []
    else InRange(hits[..|hits| - 1], pa, length)
         + (if pa <= hits[|hits| - 1] < pa + length then [hits[|hits| - 1]] else [])
  }

  function PageOf(h: nat): nat { h / 0x4000 * 0x4000 }

  function Get(pages: map<nat, seq<nat>>, key: nat): seq<nat> {
    if key in pages then pages[key] else []
  }

  /** The index answers every page-sized query with the same hits, in the same order, as filtering. */
  method IndexPages(hits: seq<nat>) returns (pages: map<nat, seq<nat>>)
    ensures forall pa {:trigger Get(pages, pa)} :: pa % 0x4000 == 0 ==> Get(pages, pa) == InRange(hits, pa, 0x4000)
  {
    pages := map[];
    for i := 0 to |hits|
      invariant forall pa {:trigger Get(pages, pa)} ::
        pa % 0x4000 == 0 ==> Get(pages, pa) == InRange(hits[..i], pa, 0x4000)
    {
      var key := PageOf(hits[i]);
      ghost var before := pages;
      pages := pages[key := Get(pages, key) + [hits[i]]];
      assert hits[..i + 1][..i] == hits[..i];
      forall pa | pa % 0x4000 == 0
        ensures Get(pages, pa) == InRange(hits[..i + 1], pa, 0x4000)
      {
        assert Get(before, pa) == InRange(hits[..i], pa, 0x4000);
        PageKey(hits[i], pa);
      }
    }
    assert hits[..|hits|] == hits;
  }

  lemma PageKey(h: nat, pa: nat)
    requires pa % 0x4000 == 0
    ensures PageOf(h) == pa <==> pa <= h < pa + 0x4000
  {
  }

  // ---------- the search ----------

  datatype Row = Row(address: nat, physical: nat, raw: seq<byte>)

  /** int.from_bytes(raw[:8], 'little') & 0x0000fffffffffff8 */
  function RawIsa(raw: seq<byte>): nat {
    Little(if |raw| < 8 then raw else raw[..8]) % 0x1_0000_0000_0000 / 8 * 8
  }

  function Candidate(read: Reader, root: nat, cls: nat, size: nat, m: Mapping, h: nat): seq<Row>
    requires m.pa <= h && size >= 8
  {
    var address := m.va + (h - m.pa);
    match User(read, root, address, size)
    case None => []
    case Some(raw) => if RawIsa(raw) == cls then [Row(address, h, raw)] else []
  }

  function RowsIn(read: Reader, root: nat, cls: nat, size: nat, m: Mapping, matches: seq<nat>): seq<Row>
    requires size >= 8 && forall i :: 0 <= i < |matches| ==> m.pa <= matches[i]
  {
    if matches == [] then []
    else RowsIn(read, root, cls, size, m, matches[..|matches| - 1])
         + Candidate(read, root, cls, size, m, matches[|matches| - 1])
  }

  lemma {:induction false} InRangeMembers(hits: seq<nat>, pa: nat, length: nat, h: nat)
    ensures h in InRange(hits, pa, length) <==> h in hits && pa <= h < pa + length
  {
    if hits != [] {
      InRangeMembers(hits[..|hits| - 1], pa, length, h);
      assert hits == hits[..|hits| - 1] + [hits[|hits| - 1]];
    }
  }

  lemma InRangeBelow(hits: seq<nat>, pa: nat, length: nat)
    ensures forall i :: 0 <= i < |InRange(hits, pa, length)| ==> pa <= InRange(hits, pa, length)[i]
  {
    forall i | 0 <= i < |InRange(hits, pa, length)|
      ensures pa <= InRange(hits, pa, length)[i]
    {
      InRangeMembers(hits, pa, length, InRange(hits, pa, length)[i]);
    }
  }

  function AllRows(read: Reader, root: nat, cls: nat, size: nat, ms: seq<Mapping>, hits: seq<nat>): seq<Row>
    requires size >= 8
  {
    if ms == [] then []
    else
      var m := ms[|ms| - 1];
      InRangeBelow(hits, m.pa, m.size);
      AllRows(read, root, cls, size, ms[..|ms| - 1], hits) + RowsIn(read, root, cls, size, m, InRange(hits, m.pa, m.size))
  }

  /** The generator, run to its end; None when reading a page table raises. */
  method Instances(regions: seq<Region>, root: nat, cls: nat, size: nat) returns (r: Option<seq<Row>>)
    requires cls % 8 == 0 && cls < 0x1_0000_0000_0000 && 8 <= size <= 0x4000
    ensures r.Some? <==> Mappings(Dump(regions), root).Some?
    ensures r.Some? ==>
              r.value == AllRows(Dump(regions), root, cls, size, Mappings(Dump(regions), root).value, AllHits(regions, cls))
  {
    hide Mappings, User, Capture, InRange, HitsFrom, Sized;
    var read := Dump(regions);
    DumpIsSized(regions);
    var hits: seq<nat> := [];
    for i := 0 to |regions|
      invariant hits == AllHits(regions[..i], cls)
    {
      var found := ScanRegion(regions[i], cls);
      assert regions[..i + 1][..i] == regions[..i];
      hits := hits + found;
    }
    assert regions[..|regions|] == regions;
    var pages := IndexPages(hits);
    var ms := Mappings(read, root);
    if ms.None? {
      return None;
    }
    MappingsTiled(read, root);
    var rows: seq<Row> := [];
    for i := 0 to |ms.value|
      invariant rows == AllRows(read, root, cls, size, ms.value[..i], hits)
    {
      var m := ms.value[i];
      assert ms.value[..i + 1][..i] == ms.value[..i];
      var matches := if m.size == 0x4000 then Get(pages, m.pa) else InRange(hits, m.pa, m.size);
      assert matches == InRange(hits, m.pa, m.size);
      InRangeBelow(hits, m.pa, m.size);
      var more := Collect(read, root, cls, size, m, matches);
      rows := rows + more;
    }
    assert ms.value[..|ms.value|] == ms.value;
    r := Some(rows);
  }

  method Collect(read: Reader, root: nat, cls: nat, size: nat, m: Mapping, matches: seq<nat>) returns (rows: seq<Row>)
    requires Sized(read) && 8 <= size && forall i :: 0 <= i < |matches| ==> m.pa <= matches[i]
    ensures rows == RowsIn(read, root, cls, size, m, matches)
  {
    hide User, Sized;
    rows := [];
    for i := 0 to |matches|
      invariant rows == RowsIn(read, root, cls, size, m, matches[..i])
    {
      assert matches[..i + 1][..i] == matches[..i];
      var address := m.va + (matches[i] - m.pa);
      var raw := ReadUser(read, root, address, size);
      if raw.Some? && RawIsa(raw.value) == cls {
        rows := rows + [Row(address, matches[i], raw.value)];
      } else {
        assert rows + [] == rows;
      }
    }
    assert matches[..|matches|] == matches;
  }

  lemma MappingsTiled(read: Reader, root: nat)
    requires Mappings(read, root).Some?
    ensures Tiled(Mappings(read, root).value, 0, VA_LIMIT)
  {
    TableSpans();
    TableTiled(read, RootAddress(root), 1, 0);
  }

  // ---------- soundness and completeness ----------

  /** `h` is the address of an aligned word of some region whose masked isa is the class. */
  predicate HitAt(regions: seq<Region>, cls: nat, h: nat) {
    exists i :: 0 <= i < |regions| && HitIn(regions[i], cls, h)
  }

  lemma {:induction false} HitsFromMembers(data: seq<byte>, base: nat, cls: nat, start: nat, h: nat)
    ensures h in HitsFrom(data, base, cls, start) <==> base + start <= h && IsHit(data, cls, h - base)
    decreases |data| - start
  {
    if start < |data| {
      HitsFromMembers(data, base, cls, start + 1, h);
    }
  }

  predicate HitIn(region: Region, cls: nat, h: nat) {
    region.base <= h && IsHit(region.data, cls, h - region.base)
  }

  lemma HitAtSplit(regions: seq<Region>, last: Region, cls: nat, h: nat)
    ensures HitAt(regions + [last], cls, h) <==> HitAt(regions, cls, h) || HitIn(last, cls, h)
  {
    hide IsHit;
    var all := regions + [last];
    if HitAt(regions, cls, h) {
      var i :| 0 <= i < |regions| && HitIn(regions[i], cls, h);
      assert all[i] == regions[i];
    }
    if HitIn(last, cls, h) {
      assert all[|regions|] == last;
    }
    if HitAt(all, cls, h) && !HitIn(last, cls, h) {
      var i :| 0 <= i < |all| && HitIn(all[i], cls, h);
      assert regions[i] == all[i];
    }
  }

  lemma {:induction false} AllHitsMembers(regions: seq<Region>, cls: nat, h: nat)
    ensures h in AllHits(regions, cls) <==> HitAt(regions, cls, h)
    decreases |regions|
  {
    hide IsHit, HitAt, HitsFrom;
    if regions == [] {
      NoRegions(cls, h);
    } else {
      var n := |regions| - 1;
      AllHitsMembers(regions[..n], cls, h);
      HitsFromMembers(regions[n].data, regions[n].base, cls, 0, h);
      assert regions == regions[..n] + [regions[n]];
      HitAtSplit(regions[..n], regions[n], cls, h);
    }
  }

  lemma NoRegions(cls: nat, h: nat)
    ensures !HitAt([], cls, h)
  {
  }

  lemma {:induction false} RowsInMembers(read: Reader, root: nat, cls: nat, size: nat, m: Mapping, matches: seq<nat>, row: Row)
    requires size >= 8 && forall i :: 0 <= i < |matches| ==> m.pa <= matches[i]
    ensures row in RowsIn(read, root, cls, size, m, matches) <==>
            row.physical in matches && row in Candidate(read, root, cls, size, m, row.physical)
    decreases |matches|
  {
    hide User, RawIsa;
    if matches != [] {
      var n := |matches| - 1;
      RowsInMembers(read, root, cls, size, m, matches[..n], row);
      assert matches == matches[..n] + [matches[n]];
    }
  }

  predicate RowOf(read: Reader, root: nat, cls: nat, size: nat, m: Mapping, row: Row)
    requires size >= 8
  {
    m.pa <= row.physical < m.pa + m.size && row in Candidate(read, root, cls, size, m, row.physical)
  }

  lemma {:induction false} AllRowsMembers(read: Reader, root: nat, cls: nat, size: nat, ms: seq<Mapping>, hits: seq<nat>, row: Row)
    requires size >= 8
    ensures row in AllRows(read, root, cls, size, ms, hits) <==>
            row.physical in hits && exists k :: 0 <= k < |ms| && RowOf(read, root, cls, size, ms[k], row)
    decreases |ms|
  {
    hide Candidate, InRange, RowsIn, RowOf;
    if ms != [] {
      var n := |ms| - 1;
      AllRowsMembers(read, root, cls, size, ms[..n], hits, row);
      LastRows(read, root, cls, size, ms[n], hits, row);
      MoreRows(read, root, cls, size, ms[..n], ms[n], row);
      assert ms == ms[..n] + [ms[n]];
    }
  }

  lemma LastRows(read: Reader, root: nat, cls: nat, size: nat, m: Mapping, hits: seq<nat>, row: Row)
    requires size >= 8
    ensures forall i :: 0 <= i < |InRange(hits, m.pa, m.size)| ==> m.pa <= InRange(hits, m.pa, m.size)[i]
    ensures row in RowsIn(read, root, cls, size, m, InRange(hits, m.pa, m.size)) <==>
            row.physical in hits && RowOf(read, root, cls, size, m, row)
  {
    hide Candidate, InRange, RowsIn;
    InRangeBelow(hits, m.pa, m.size);
    RowsInMembers(read, root, cls, size, m, InRange(hits, m.pa, m.size), row);
    InRangeMembers(hits, m.pa, m.size, row.physical);
  }

  lemma MoreRows(read: Reader, root: nat, cls: nat, size: nat, ms: seq<Mapping>, m: Mapping, row: Row)
    requires size >= 8
    ensures (exists k :: 0 <= k < |ms + [m]| && RowOf(read, root, cls, size, (ms + [m])[k], row)) <==>
            (exists k :: 0 <= k < |ms| && RowOf(read, root, cls, size, ms[k], row)) || RowOf(read, root, cls, size, m, row)
  {
    hide RowOf;
    var all := ms + [m];
    if exists k :: 0 <= k < |ms| && RowOf(read, root, cls, size, ms[k], row) {
      var k :| 0 <= k < |ms| && RowOf(read, root, cls, size, ms[k], row);
      assert all[k] == ms[k];
    }
    if RowOf(read, root, cls, size, m, row) {
      assert all[|ms|] == m;
    }
  }

  /** The word read through the task's tables starts in one stretch, and so is the word the scan saw. */
  lemma ReadSeesHit(mem: Physical, regions: seq<Region>, root: nat, cls: nat, size: nat, a: nat, h: nat)
    requires Captured(mem, regions) && HitAt(regions, cls, h) && Walk(Dump(regions), root, a) == Some(h) && a % 8 == 0
    requires 8 <= size && User(Dump(regions), root, a, size).Some?
    ensures RawIsa(User(Dump(regions), root, a, size).value) == cls
  {
    hide ReadPhysical, Walk, WalkFrom, User, Little, Leaf, Capture, Sized;
    var raw := User(Dump(regions), root, a, size).value;
    var i :| 0 <= i < |regions| && HitIn(regions[i], cls, h);
    var s := h - regions[i].base;
    DumpIsSized(regions);
    FirstStretch(mem, regions, root, size, a, h);
    var piece := ReadPhysical(mem, h, 8).value;
    forall j | 0 <= j < 6
      ensures raw[j] == regions[i].data[s + j]
    {
      HeldByte(mem, regions[i], h + j);
      ReadAt(mem, h, 8, j);
      assert h + j == regions[i].base + (s + j);
    }
    assert raw[..6] == regions[i].data[s..s + 6];
    LowSix(raw);
  }

  /** An aligned read starts with eight bytes of physical memory. */
  lemma FirstStretch(mem: Physical, regions: seq<Region>, root: nat, size: nat, a: nat, h: nat)
    requires Captured(mem, regions) && Walk(Dump(regions), root, a) == Some(h) && a % 8 == 0
    requires 8 <= size && User(Dump(regions), root, a, size).Some?
    ensures ReadPhysical(mem, h, 8).Some? && |User(Dump(regions), root, a, size).value| == size
    ensures User(Dump(regions), root, a, size).value[..8] == ReadPhysical(mem, h, 8).value
  {
    hide ReadPhysical, WalkFrom, LeafFrom, Capture, Captured, Sized, Span, Offset;
    var read := Dump(regions);
    DumpIsSized(regions);
    UserSize(read, root, a, size);
    LeafIsWalk(read, RootAddress(root), a, 1);
    var (pa, level) := Leaf(read, root, a).value;
    var n := StretchLength(a, size, level);
    RoomForEight(a, level);
    CaptureIsPhysical(mem, regions, pa, n);
    SubRead(mem, pa, n, 0, 8);
    SubRead(mem, pa, n, 0, n);
  }

  lemma RoomForEight(a: nat, level: Level)
    requires a % 8 == 0
    ensures Span(level) - Offset(a, level) >= 8
  {
    match level case _ => EightLeft(a, Span(level));
  }

  lemma EightLeft(a: nat, span: nat)
    requires a % 8 == 0 && (span == 0x4000 || span == 0x200_0000 || span == 0x10_0000_0000)
    ensures span - a % span >= 8
  {
  }

  lemma LowSix(raw: seq<byte>)
    requires |raw| >= 8
    ensures Little(raw[..8]) % 0x1_0000_0000_0000 == Little(raw[..6])
  {
    var a, b := raw[..6], raw[6..8];
    assert raw[..8] == a + b;
    LeConcat6(a, b);
    Small6(a);
    Arithmetic.Unique(Little(a + b), 0x1_0000_0000_0000, Little(b), Little(a));
  }

  function Weight(n: nat): nat {
    if n == 0 then 1 else 0x100 * Weight(n - 1)
  }

  lemma {:induction false} LeConcat(a: seq<byte>, b: seq<byte>)
    ensures Little(a + b) == Little(a) + Weight(|a|) * Little(b)
    decreases |a|
  {
    if a == [] {
      assert a + b == b;
    } else {
      assert (a + b)[1..] == a[1..] + b;
      LeConcat(a[1..], b);
      Scale(Little(a[1..]), Weight(|a| - 1), Little(b));
    }
  }

  lemma Scale(y: nat, w: nat, v: nat)
    ensures 0x100 * (y + w * v) == 0x100 * y + 0x100 * w * v
  {
  }

  lemma Weight6()
    ensures Weight(6) == 0x1_0000_0000_0000
  {
    assert Weight(3) == 0x100_0000;
    assert Weight(4) == 0x1_0000_0000;
    assert Weight(5) == 0x100_0000_0000;
  }

  lemma LeConcat6(a: seq<byte>, b: seq<byte>)
    requires |a| == 6
    ensures Little(a + b) == Little(a) + 0x1_0000_0000_0000 * Little(b)
  {
    LeConcat(a, b);
    Weight6();
  }

  lemma {:induction false} Below(s: seq<byte>)
    ensures Little(s) < Weight(|s|)
  {
    if s != [] {
      Below(s[1..]);
    }
  }

  lemma Small6(a: seq<byte>)
    requires |a| == 6
    ensures Little(a) < 0x1_0000_0000_0000
  {
    Below(a);
    Weight6();
  }

  lemma HitAligned(mem: Physical, regions: seq<Region>, cls: nat, h: nat)
    requires Captured(mem, regions) && HitAt(regions, cls, h)
    ensures h % 8 == 0
  {
    hide MaskedIsa;
    var i :| 0 <= i < |regions| && HitIn(regions[i], cls, h);
    EightsAdd(regions[i].base, h - regions[i].base);
  }

  lemma EightsAdd(a: nat, b: nat)
    requires a % 8 == 0 && b % 8 == 0
    ensures (a + b) % 8 == 0
  {
  }

  lemma RowIsHit(mem: Physical, regions: seq<Region>, root: nat, cls: nat, size: nat, row: Row)
    requires Captured(mem, regions) && Mappings(Dump(regions), root).Some? && 8 <= size
    requires row in AllRows(Dump(regions), root, cls, size, Mappings(Dump(regions), root).value, AllHits(regions, cls))
    ensures HitAt(regions, cls, row.physical)
    ensures Lookup(Mappings(Dump(regions), root).value, row.address) == Some(row.physical)
    ensures User(Dump(regions), root, row.address, size).Some?
  {
    hide User, Mappings, AllRows, AllHits, HitAt, Captured, RawIsa, Capture;
    var read := Dump(regions);
    var ms, hits := Mappings(read, root).value, AllHits(regions, cls);
    MappingsTiled(read, root);
    AllHitsMembers(regions, cls, row.physical);
    AllRowsMembers(read, root, cls, size, ms, hits, row);
    var k :| 0 <= k < |ms| && RowOf(read, root, cls, size, ms[k], row);
    LookupHit(ms, 0, VA_LIMIT, k, row.address);
  }

  lemma HitIsRow(mem: Physical, regions: seq<Region>, root: nat, cls: nat, size: nat, a: nat, h: nat)
    requires Captured(mem, regions) && Mappings(Dump(regions), root).Some? && 8 <= size && a < VA_LIMIT
    requires HitAt(regions, cls, h) && Lookup(Mappings(Dump(regions), root).value, a) == Some(h)
    requires User(Dump(regions), root, a, size).Some?
    ensures Row(a, h, User(Dump(regions), root, a, size).value)
            in AllRows(Dump(regions), root, cls, size, Mappings(Dump(regions), root).value, AllHits(regions, cls))
  {
    hide User, Walk, Mappings, AllRows, AllHits, HitAt, Captured, RawIsa, Capture, Coherent, Lookup;
    var read := Dump(regions);
    var ms, hits := Mappings(read, root).value, AllHits(regions, cls);
    MappingsTiled(read, root);
    AllHitsMembers(regions, cls, h);
    DumpIsCoherent(mem, regions);
    EnumerationAgreesWithWalk(read, root, a);
    HitAligned(mem, regions, cls, h);
    var k := LookupWitness(ms, a);
    AlignedAlike(ms[k], a, h);
    ReadSeesHit(mem, regions, root, cls, size, a, h);
    var row := Row(a, h, User(read, root, a, size).value);
    assert RowOf(read, root, cls, size, ms[k], row);
    AllRowsMembers(read, root, cls, size, ms, hits, row);
  }

  /** An address is yielded with a physical word exactly when that word is a hit, the enumeration maps the
      address to it, and the whole object can be read there out of the captures. */
  lemma SearchIsSoundAndComplete(mem: Physical, regions: seq<Region>, root: nat, cls: nat, size: nat, a: nat, h: nat)
    requires Captured(mem, regions) && Mappings(Dump(regions), root).Some? && 8 <= size && a < VA_LIMIT
    ensures (exists row :: row in AllRows(Dump(regions), root, cls, size, Mappings(Dump(regions), root).value, AllHits(regions, cls))
                           && row.address == a && row.physical == h)
       <==> HitAt(regions, cls, h) && Lookup(Mappings(Dump(regions), root).value, a) == Some(h)
            && User(Dump(regions), root, a, size).Some?
  {
    hide User, Mappings, AllRows, AllHits, HitAt, Captured, Capture, Lookup;
    var rows := AllRows(Dump(regions), root, cls, size, Mappings(Dump(regions), root).value, AllHits(regions, cls));
    if exists row :: row in rows && row.address == a && row.physical == h {
      var row :| row in rows && row.address == a && row.physical == h;
      RowIsHit(mem, regions, root, cls, size, row);
    }
    if HitAt(regions, cls, h) && Lookup(Mappings(Dump(regions), root).value, a) == Some(h)
       && User(Dump(regions), root, a, size).Some? {
      HitIsRow(mem, regions, root, cls, size, a, h);
    }
  }

  lemma AlignedAlike(m: Mapping, a: nat, h: nat)
    requires m.va % 0x4000 == 0 && m.pa % 0x4000 == 0 && m.va <= a && h == m.pa + (a - m.va) && h % 8 == 0
    ensures a % 8 == 0
  {
    Eights(m.va);
    Eights(m.pa);
    assert a == h + m.va - m.pa;
  }

  lemma Eights(x: nat)
    ensures x % 0x4000 == 0 ==> x % 8 == 0
  {
  }
}
