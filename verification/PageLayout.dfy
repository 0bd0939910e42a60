/** The layout theorem of the task's page tables: they write down a map from pages to frames exactly when the
    walk translates by that map, in terms of the fields of their descriptors. */
module PageLayout {
  import opened Results
  import opened Bytes
  import opened PageTables
  import opened PageReaders
  import Arithmetic

  // ---------- words ----------

  /** The eight bytes there are this number, the least first. */
  ghost predicate Stores(read: Reader, at: nat, w: nat) {
    exists b :: read(at, 8) == Some(b) && |b| == 8 && Little(b) == w
  }

  predicate Unread(read: Reader, at: nat) { read(at, 8).None? || |read(at, 8).value| != 8 }

  lemma EntryIs(read: Reader, table: nat, i: nat)
    ensures EntryAt(read, table, i).None? <==> Unread(read, table + 8 * i)
    ensures forall w: nat :: EntryAt(read, table, i) == Some(w) <==> Stores(read, table + 8 * i, w)
  {
    hide Little;
    var raw := read(table + i * 8, 8);
    if raw.Some? && |raw.value| == 8 {
      LongsAreLittle(raw.value, 0, 0);
      assert raw.value[0..8] == raw.value;
    }
  }

  // ---------- what a descriptor says ----------

  const TOP := 0x1_0000_0000_0000

  /** A slot: nothing, the table of the next level, or memory. The address is in units of 16 KiB, or of what
      one slot covers; `hi` are the bits from 48 on, `mid` those between the kind and the address. */
  datatype Entry = Nothing | Below(t: nat, hi: nat, mid: nat) | Block(f: nat, hi: nat, mid: nat)

  ghost predicate Holds(read: Reader, table: nat, i: nat, level: Level, e: Entry) {
    var at := table + 8 * i;
    match e
    case Nothing => Unread(read, at) || exists w :: Stores(read, at, w) && (w % 2 == 0 || (level == 3 && w % 4 == 1))
    case Below(t, hi, mid) =>
      level < 3 && t * 0x4000 < TOP && mid < 0x1000 && Stores(read, at, hi * TOP + t * 0x4000 + mid * 4 + 3)
    case Block(f, hi, mid) =>
      f * Size(level) < TOP && mid * 4 < Size(level) && Stores(read, at, hi * TOP + f * Size(level) + mid * 4 + Kind(level))
  }

  /** The two low bits of a slot that maps memory. */
  function Kind(level: Level): nat { if level == 3 then 3 else 1 }

  /** Bytes, and pages, one slot covers. */
  function Size(level: Level): (s: nat)
    ensures s > 0
  {
    match level case 1 => 0x10_0000_0000 case 2 => 0x200_0000 case 3 => 0x4000
  }

  function Pages(level: Level): nat {
    match level case 1 => 0x40_0000 case 2 => 0x800 case 3 => 1
  }

  function Slots(level: Level): nat { if level == 1 then 0x80 else 0x800 }

  /** Slot `i` of this table writes down the part of the map it covers: the pages from
      (base * 0x800 + i) * Pages(level) on. */
  ghost predicate SlotWritten(read: Reader, table: nat, i: nat, level: Level, pages: map<nat, nat>, base: nat)
    decreases 3 - level, 1
  {
    exists e :: Holds(read, table, i, level, e) && EntryWritten(read, e, level, pages, base * 0x800 + i)
  }

  ghost predicate EntryWritten(read: Reader, e: Entry, level: Level, pages: map<nat, nat>, n: nat)
    decreases 3 - level, 0
  {
    match e
    case Nothing => forall p :: n * Pages(level) <= p < (n + 1) * Pages(level) ==> p !in pages
    case Below(t, _, _) => level < 3 && Written(read, t * 0x4000, level + 1, pages, n)
    case Block(f, _, _) =>
      forall p :: n * Pages(level) <= p < (n + 1) * Pages(level) ==>
        p in pages && pages[p] == f * Pages(level) + (p - n * Pages(level))
  }

  ghost predicate Written(read: Reader, table: nat, level: Level, pages: map<nat, nat>, base: nat)
    decreases 3 - level, 2
  {
    forall i :: 0 <= i < Slots(level) ==> SlotWritten(read, table, i, level, pages, base)
  }

  /** The map as a translation. */
  function Mapped(pages: map<nat, nat>, p: nat, o: nat): Option<nat> {
    if p in pages then Some(pages[p] * 0x4000 + o) else None
  }

  // ---------- the walk's arithmetic ----------

  /** Page `p`, whatever lies above 43 bits, is found in slot p / Pages of its level. */
  lemma Place(va: nat, high: nat, p: nat, o: nat, level: Level)
    requires va == high * VA_LIMIT + p * 0x4000 + o && p < 0x2000_0000 && o < 0x4000
    ensures Index(va, level) == p / Pages(level) % Slots(level)
    ensures Offset(va, level) == p % Pages(level) * 0x4000 + o
  {
    hide Pages, Slots, Span;
    match level
    case 1 => Place1(va, high, p, o);
    case 2 => Place2(va, high, p, o);
    case 3 => Place3(va, high, p, o);
  }

  lemma Place3(va: nat, high: nat, p: nat, o: nat)
    requires va == high * VA_LIMIT + p * 0x4000 + o && o < 0x4000
    ensures va / 0x4000 % 0x800 == p % 0x800 && va % 0x4000 == o
    ensures Index(va, 3) == p / Pages(3) % Slots(3) && Offset(va, 3) == p % Pages(3) * 0x4000 + o
  {
    Arithmetic.Unique(va, 0x4000, high * 0x2000_0000 + p, o);
    Arithmetic.Parts(p, 0x800);
    Arithmetic.Unique(high * 0x2000_0000 + p, 0x800, high * 0x4_0000 + p / 0x800, p % 0x800);
  }

  lemma Place2(va: nat, high: nat, p: nat, o: nat)
    requires va == high * VA_LIMIT + p * 0x4000 + o && o < 0x4000
    ensures Index(va, 2) == p / Pages(2) % Slots(2) && Offset(va, 2) == p % Pages(2) * 0x4000 + o
  {
    Arithmetic.Parts(p, 0x800);
    var q := high * 0x4_0000 + p / 0x800;
    Arithmetic.Unique(va, 0x200_0000, q, p % 0x800 * 0x4000 + o);
    Arithmetic.Parts(p / 0x800, 0x800);
    Arithmetic.Unique(q, 0x800, high * 0x80 + p / 0x800 / 0x800, p / 0x800 % 0x800);
  }

  lemma Place1(va: nat, high: nat, p: nat, o: nat)
    requires va == high * VA_LIMIT + p * 0x4000 + o && p < 0x2000_0000 && o < 0x4000
    ensures Index(va, 1) == p / Pages(1) % Slots(1) && Offset(va, 1) == p % Pages(1) * 0x4000 + o
  {
    Arithmetic.Parts(p, 0x40_0000);
    var q := high * 0x80 + p / 0x40_0000;
    Arithmetic.Unique(va, 0x10_0000_0000, q, p % 0x40_0000 * 0x4000 + o);
    Arithmetic.Unique(q, 0x80, high, p / 0x40_0000);
  }

  lemma BelowWord(hi: nat, t: nat, mid: nat)
    requires t * 0x4000 < TOP && mid < 0x1000
    ensures var w := hi * TOP + t * 0x4000 + mid * 4 + 3; w % 4 == 3 && w % 2 == 1 && TableAddress(w) == t * 0x4000
  {
    var w := hi * TOP + t * 0x4000 + mid * 4 + 3;
    Arithmetic.Unique(w, 4, hi * 0x4000_0000_0000 + t * 0x1000 + mid, 3);
    OddLow(w, 3);
    Arithmetic.Unique(w, TOP, hi, t * 0x4000 + mid * 4 + 3);
    Arithmetic.Unique(w % TOP, 0x4000, t, mid * 4 + 3);
  }

  lemma OddLow(w: nat, kind: nat)
    requires w % 4 == kind && (kind == 1 || kind == 3)
    ensures w % 2 == 1
  {
    var q := w / 4;
    assert w == 2 * (2 * q + kind / 2) + 1;
    Arithmetic.Unique(w, 2, 2 * q + kind / 2, 1);
  }

  lemma BlockWord(hi: nat, f: nat, mid: nat, level: Level)
    requires f * Size(level) < TOP && mid * 4 < Size(level)
    ensures var w := hi * TOP + f * Size(level) + mid * 4 + Kind(level);
            w % 4 == Kind(level) && w % 2 == 1 && Frame(Low48(w), level) == f * Size(level)
  {
    hide Frame, Size;
    var low := mid * 4 + Kind(level);
    LowBits(hi, f, mid, level);
    Room(f, low, level);
    Arithmetic.Unique(hi * TOP + f * Size(level) + low, TOP, hi, f * Size(level) + low);
    FrameIs(f, low, level);
  }

  lemma LowBits(hi: nat, f: nat, mid: nat, level: Level)
    requires mid * 4 < Size(level)
    ensures mid * 4 + Kind(level) < Size(level)
    ensures var w := hi * TOP + f * Size(level) + mid * 4 + Kind(level); w % 4 == Kind(level) && w % 2 == 1
  {
    var quarter := Size(level) / 4;
    var w := hi * TOP + f * Size(level) + mid * 4 + Kind(level);
    Quarter(f, level);
    Arithmetic.Unique(w, 4, hi * 0x4000_0000_0000 + f * quarter + mid, Kind(level));
    OddLow(w, Kind(level));
  }

  lemma Quarter(f: nat, level: Level)
    ensures f * Size(level) == f * (Size(level) / 4) * 4
  {
  }

  lemma Room(f: nat, low: nat, level: Level)
    requires f * Size(level) < TOP && low < Size(level)
    ensures f * Size(level) + low < TOP
  {
  }

  lemma FrameIs(f: nat, low: nat, level: Level)
    requires low < Size(level)
    ensures Frame(f * Size(level) + low, level) == f * Size(level)
  {
  }

  // ---------- written tables are walked by their map ----------

  /** One step of the walk over a slot. */
  lemma HeldStep(read: Reader, table: nat, va: nat, level: Level, e: Entry)
    requires Holds(read, table, Index(va, level), level, e)
    ensures WalkFrom(read, table, va, level) == match e
            case Nothing => None
            case Below(t, _, _) => if level < 3 then WalkFrom(read, t * 0x4000, va, level + 1) else None
            case Block(f, _, _) => Some(f * Size(level) + Offset(va, level))
  {
    hide Holds, Index, Offset, WalkFrom, Size;
    match e
    case Nothing => StepNothing(read, table, va, level);
    case Below(t, hi, mid) => StepTable(read, table, va, level, t, hi, mid);
    case Block(f, hi, mid) => StepMemory(read, table, va, level, f, hi, mid);
  }

  lemma StepNothing(read: Reader, table: nat, va: nat, level: Level)
    requires Holds(read, table, Index(va, level), level, Nothing)
    ensures WalkFrom(read, table, va, level) == None
  {
    hide Index, Offset, Frame, Low48, TableAddress, Stores, EntryAt, WalkFrom, Unread;
    var i := Index(va, level);
    EntryIs(read, table, i);
    WalkStep(read, table, va, level);
    if !Unread(read, table + 8 * i) {
      var w :| Stores(read, table + 8 * i, w) && (w % 2 == 0 || (level == 3 && w % 4 == 1));
      assert EntryAt(read, table, i) == Some(w);
      assert Absent(w, level);
    }
  }

  lemma StepTable(read: Reader, table: nat, va: nat, level: Level, t: nat, hi: nat, mid: nat)
    requires Holds(read, table, Index(va, level), level, Below(t, hi, mid))
    ensures level < 3 && WalkFrom(read, table, va, level) == WalkFrom(read, t * 0x4000, va, level + 1)
  {
    hide Index, TableAddress, Stores, EntryAt, WalkFrom;
    EntryIs(read, table, Index(va, level));
    BelowWord(hi, t, mid);
    StepBelow(read, table, va, level, hi * TOP + t * 0x4000 + mid * 4 + 3, t);
  }

  lemma StepMemory(read: Reader, table: nat, va: nat, level: Level, f: nat, hi: nat, mid: nat)
    requires Holds(read, table, Index(va, level), level, Block(f, hi, mid))
    ensures WalkFrom(read, table, va, level) == Some(f * Size(level) + Offset(va, level))
  {
    hide Index, Offset, Frame, Low48, Stores, EntryAt, WalkFrom, Size;
    EntryIs(read, table, Index(va, level));
    BlockWord(hi, f, mid, level);
    StepBlock(read, table, va, level, hi * TOP + f * Size(level) + mid * 4 + Kind(level), f);
  }

  lemma StepBelow(read: Reader, table: nat, va: nat, level: Level, w: nat, t: nat)
    requires EntryAt(read, table, Index(va, level)) == Some(w) && level < 3
    requires w % 4 == 3 && w % 2 == 1 && TableAddress(w) == t * 0x4000
    ensures WalkFrom(read, table, va, level) == WalkFrom(read, t * 0x4000, va, level + 1)
  {
    hide Index, Offset, Frame, Low48, TableAddress, EntryAt, WalkFrom;
    WalkStep(read, table, va, level);
  }

  lemma StepBlock(read: Reader, table: nat, va: nat, level: Level, w: nat, f: nat)
    requires EntryAt(read, table, Index(va, level)) == Some(w)
    requires w % 4 == Kind(level) && w % 2 == 1 && Frame(Low48(w), level) == f * Size(level)
    ensures WalkFrom(read, table, va, level) == Some(f * Size(level) + Offset(va, level))
  {
    hide Index, Offset, Frame, Low48, TableAddress, EntryAt, WalkFrom, Size;
    WalkStep(read, table, va, level);
  }

  /** Page `p` lies in slot `i` of the table with this base. */
  predicate Covers(base: nat, level: Level, p: nat) {
    base * 0x800 * Pages(level) <= p < (base * 0x800 + Slots(level)) * Pages(level)
  }

  lemma SlotOf(base: nat, level: Level, p: nat) returns (i: nat)
    requires Covers(base, level, p) && p < 0x2000_0000 && (level == 1 ==> base == 0)
    ensures i < Slots(level) && p / Pages(level) % Slots(level) == i && p / Pages(level) == base * 0x800 + i
    ensures (base * 0x800 + i) * Pages(level) <= p < (base * 0x800 + i + 1) * Pages(level)
    ensures p % Pages(level) == p - (base * 0x800 + i) * Pages(level)
    ensures level < 3 ==> Covers(base * 0x800 + i, level + 1, p)
  {
    i := p / Pages(level) - base * 0x800;
  }

  /** Tables that write down a map are walked by it. */
  lemma {:induction false} WrittenIsWalked(read: Reader, table: nat, level: Level, pages: map<nat, nat>, base: nat,
                                           va: nat, high: nat, p: nat, o: nat)
    requires Written(read, table, level, pages, base) && Covers(base, level, p) && (level == 1 ==> base == 0)
    requires va == high * VA_LIMIT + p * 0x4000 + o && p < 0x2000_0000 && o < 0x4000
    ensures WalkFrom(read, table, va, level) == Mapped(pages, p, o)
    decreases 3 - level
  {
    hide Index, Offset, Holds, Slots, Pages, Size, WalkFrom;
    var i := SlotOf(base, level, p);
    Place(va, high, p, o, level);
    assert SlotWritten(read, table, i, level, pages, base);
    var e :| Holds(read, table, i, level, e) && EntryWritten(read, e, level, pages, base * 0x800 + i);
    HeldStep(read, table, va, level, e);
    match e
    case Nothing =>
    case Below(t, _, _) => WrittenIsWalked(read, t * 0x4000, level + 1, pages, base * 0x800 + i, va, high, p, o);
    case Block(f, _, _) => SizeInPages(f, level);
  }

  lemma SizeInPages(f: nat, level: Level)
    ensures f * Size(level) == f * Pages(level) * 0x4000
  {
  }

  // ---------- and the walk's map is the one the tables write down ----------

  ghost predicate WalksBy(read: Reader, table: nat, level: Level, pages: map<nat, nat>, base: nat) {
    forall p: nat :: Covers(base, level, p) ==> WalkFrom(read, table, p * 0x4000, level) == Mapped(pages, p, 0)
  }

  /** The fields of whatever the slot holds. */
  lemma Fields(read: Reader, table: nat, i: nat, level: Level) returns (e: Entry)
    ensures Holds(read, table, i, level, e)
  {
    hide Stores, EntryAt, Unread, Size, Holds;
    EntryIs(read, table, i);
    var entry := EntryAt(read, table, i);
    if entry.None? {
      e := Nothing;
      NoWord(read, table, i, level);
    } else if Absent(entry.value, level) {
      e := Nothing;
      NothingThere(read, table, i, level, entry.value);
    } else if entry.value % 4 == 1 || level == 3 {
      e := BlockThere(read, table, i, level, entry.value);
    } else {
      e := TableThere(read, table, i, level, entry.value);
    }
  }

  lemma NoWord(read: Reader, table: nat, i: nat, level: Level)
    requires Unread(read, table + 8 * i)
    ensures Holds(read, table, i, level, Nothing)
  {
    hide Stores, Unread;
  }

  lemma NothingThere(read: Reader, table: nat, i: nat, level: Level, w: nat)
    requires Stores(read, table + 8 * i, w) && Absent(w, level)
    ensures Holds(read, table, i, level, Nothing)
  {
    hide Stores, Unread;
    if w % 2 != 0 { LowOne(w); }
    assert Stores(read, table + 8 * i, w) && (w % 2 == 0 || (level == 3 && w % 4 == 1));
  }

  lemma LowOne(w: nat)
    requires w % 2 != 0 && w % 4 != 3
    ensures w % 4 == 1
  {
    if w % 4 != 1 { LowThree(w); }
  }

  lemma BlockThere(read: Reader, table: nat, i: nat, level: Level, w: nat) returns (e: Entry)
    requires Stores(read, table + 8 * i, w) && !Absent(w, level) && (w % 4 == 1 || level == 3)
    ensures Holds(read, table, i, level, e)
  {
    hide Stores, Size;
    e := Block(w % TOP / Size(level), w / TOP, w % Size(level) / 4);
    BlockParts(w, level);
  }

  lemma TableThere(read: Reader, table: nat, i: nat, level: Level, w: nat) returns (e: Entry)
    requires Stores(read, table + 8 * i, w) && w % 2 != 0 && w % 4 != 1 && level < 3
    ensures Holds(read, table, i, level, e)
  {
    hide Stores;
    e := Below(w % TOP / 0x4000, w / TOP, w % 0x4000 / 4);
    BelowParts(w);
  }

  lemma BelowParts(w: nat)
    requires w % 2 != 0 && w % 4 != 1
    ensures var t, hi, mid := w % TOP / 0x4000, w / TOP, w % 0x4000 / 4;
            t * 0x4000 < TOP && mid < 0x1000 && w == hi * TOP + t * 0x4000 + mid * 4 + 3
  {
    Arithmetic.Parts(w, TOP);
    Arithmetic.Parts(w % TOP, 0x4000);
    Arithmetic.ModOfMultiple(w, 0x4000, 0x4_0000_0000);
    Arithmetic.Parts(w % 0x4000, 4);
    Arithmetic.ModOfMultiple(w, 4, 0x1000);
    LowThree(w);
  }

  lemma LowThree(w: nat)
    requires w % 2 != 0 && w % 4 != 1
    ensures w % 4 == 3
  {
    var q := w / 4;
    assert w == 4 * q + w % 4;
    if w % 4 == 0 { Arithmetic.Unique(w, 2, 2 * q, 0); }
    if w % 4 == 2 { Arithmetic.Unique(w, 2, 2 * q + 1, 0); }
  }

  lemma BlockParts(w: nat, level: Level)
    requires w % 4 == Kind(level)
    ensures var f, hi, mid := w % TOP / Size(level), w / TOP, w % Size(level) / 4;
            f * Size(level) < TOP && mid * 4 < Size(level) && w == hi * TOP + f * Size(level) + mid * 4 + Kind(level)
  {
    var size := Size(level);
    Arithmetic.Parts(w, TOP);
    Arithmetic.Parts(w % TOP, size);
    SizeDivides(w, level);
    Arithmetic.Parts(w % size, 4);
  }

  lemma SizeDivides(w: nat, level: Level)
    ensures w % TOP % Size(level) == w % Size(level) && w % Size(level) % 4 == w % 4
  {
    match level
    case 1 => Arithmetic.ModOfMultiple(w, 0x10_0000_0000, 0x1000); Arithmetic.ModOfMultiple(w, 4, 0x4_0000_0000);
    case 2 => Arithmetic.ModOfMultiple(w, 0x200_0000, 0x80_0000); Arithmetic.ModOfMultiple(w, 4, 0x80_0000);
    case 3 => Arithmetic.ModOfMultiple(w, 0x4000, 0x4_0000_0000); Arithmetic.ModOfMultiple(w, 4, 0x1000);
  }

  lemma {:induction false} WalkedIsWritten(read: Reader, table: nat, level: Level, pages: map<nat, nat>, base: nat)
    requires WalksBy(read, table, level, pages, base) && (level == 1 ==> base == 0)
    requires (base * 0x800 + Slots(level)) * Pages(level) <= 0x2000_0000
    ensures Written(read, table, level, pages, base)
    decreases 3 - level
  {
    hide Holds, WalkFrom, Slots, Pages, WalksBy, EntryWritten;
    forall i | 0 <= i < Slots(level) ensures SlotWritten(read, table, i, level, pages, base) {
      var e := Fields(read, table, i, level);
      SlotWalks(read, table, i, level, pages, base, e);
      match e {
        case Below(t, _, _) =>
          SlotBound(base, i, level);
          WalkedIsWritten(read, t * 0x4000, level + 1, pages, base * 0x800 + i);
          WrittenBelow(read, e, level, pages, base * 0x800 + i);
        case _ =>
      }
    }
  }

  lemma WrittenBelow(read: Reader, e: Entry, level: Level, pages: map<nat, nat>, n: nat)
    requires e.Below? && level < 3 && Written(read, e.t * 0x4000, level + 1, pages, n)
    ensures EntryWritten(read, e, level, pages, n)
  {
  }

  lemma SlotBound(base: nat, i: nat, level: Level)
    requires i < Slots(level) && level < 3 && (base * 0x800 + Slots(level)) * Pages(level) <= 0x2000_0000
    ensures ((base * 0x800 + i) * 0x800 + Slots(level + 1)) * Pages(level + 1) <= 0x2000_0000
  {
  }

  /** Page `p` of a slot, walked: what the slot holds decides. */
  lemma PageWalks(read: Reader, table: nat, i: nat, level: Level, base: nat, e: Entry, p: nat)
    requires Holds(read, table, i, level, e) && i < Slots(level) && (level == 1 ==> base == 0)
    requires (base * 0x800 + i) * Pages(level) <= p < (base * 0x800 + i + 1) * Pages(level) && p < 0x2000_0000
    ensures Covers(base, level, p) && (level < 3 ==> Covers(base * 0x800 + i, level + 1, p))
    ensures WalkFrom(read, table, p * 0x4000, level) == match e
            case Nothing => None
            case Below(t, _, _) => if level < 3 then WalkFrom(read, t * 0x4000, p * 0x4000, level + 1) else None
            case Block(f, _, _) => Some((f * Pages(level) + (p - (base * 0x800 + i) * Pages(level))) * 0x4000)
  {
    hide Index, Offset, Holds, WalkFrom;
    InCover(base, i, level, p);
    var k := SlotOf(base, level, p);
    SameSlot(base * 0x800, i, k, Pages(level), p);
    Place(p * 0x4000, 0, p, 0, level);
    HeldStep(read, table, p * 0x4000, level, e);
    if e.Block? { SizeInPages(e.f, level); }
  }

  lemma InCover(base: nat, i: nat, level: Level, p: nat)
    requires i < Slots(level) && (base * 0x800 + i) * Pages(level) <= p < (base * 0x800 + i + 1) * Pages(level)
    ensures Covers(base, level, p) && (level < 3 ==> Covers(base * 0x800 + i, level + 1, p))
  {
  }

  lemma SameSlot(first: nat, i: nat, k: nat, size: nat, p: nat)
    requires (first + i) * size <= p < (first + i + 1) * size && (first + k) * size <= p < (first + k + 1) * size
    ensures i == k
  {
    if i < k { Arithmetic.MulLe(first + i + 1, first + k, size); }
    if k < i { Arithmetic.MulLe(first + k + 1, first + i, size); }
  }

  lemma SlotWalks(read: Reader, table: nat, i: nat, level: Level, pages: map<nat, nat>, base: nat, e: Entry)
    requires WalksBy(read, table, level, pages, base) && Holds(read, table, i, level, e) && (level == 1 ==> base == 0)
    requires i < Slots(level) && (base * 0x800 + Slots(level)) * Pages(level) <= 0x2000_0000
    ensures !e.Below? ==> EntryWritten(read, e, level, pages, base * 0x800 + i)
    ensures e.Below? ==> level < 3 && WalksBy(read, e.t * 0x4000, level + 1, pages, base * 0x800 + i)
  {
    hide Holds, WalkFrom, Slots, Pages, Covers, Written, Mapped, WalksBy;
    var n := base * 0x800 + i;
    match e
    case Nothing =>
      forall p: nat | n * Pages(level) <= p < (n + 1) * Pages(level) ensures p !in pages {
        SlotPage(read, table, i, level, pages, base, e, p);
      }
    case Block(f, _, _) =>
      forall p: nat | n * Pages(level) <= p < (n + 1) * Pages(level)
        ensures p in pages && pages[p] == f * Pages(level) + (p - n * Pages(level))
      {
        SlotPage(read, table, i, level, pages, base, e, p);
      }
    case Below(t, _, _) =>
      BelowLevel(read, table, i, level, e);
      forall p: nat | Covers(n, level + 1, p)
        ensures WalkFrom(read, t * 0x4000, p * 0x4000, level + 1) == Mapped(pages, p, 0)
      {
        CoverIsSlot(n, level, p);
        SlotPage(read, table, i, level, pages, base, e, p);
      }
      CollectWalks(read, t * 0x4000, level + 1, pages, n);
  }

  lemma CollectWalks(read: Reader, table: nat, level: Level, pages: map<nat, nat>, base: nat)
    requires forall p: nat :: Covers(base, level, p) ==> WalkFrom(read, table, p * 0x4000, level) == Mapped(pages, p, 0)
    ensures WalksBy(read, table, level, pages, base)
  {
    hide WalkFrom, Covers, Mapped;
  }

  /** What the map says of a page is what its slot holds. */
  lemma SlotPage(read: Reader, table: nat, i: nat, level: Level, pages: map<nat, nat>, base: nat, e: Entry, p: nat)
    requires WalksBy(read, table, level, pages, base) && Holds(read, table, i, level, e) && (level == 1 ==> base == 0)
    requires i < Slots(level) && (base * 0x800 + Slots(level)) * Pages(level) <= 0x2000_0000
    requires (base * 0x800 + i) * Pages(level) <= p < (base * 0x800 + i + 1) * Pages(level)
    ensures match e
            case Nothing => p !in pages
            case Below(t, _, _) => level < 3 && WalkFrom(read, t * 0x4000, p * 0x4000, level + 1) == Mapped(pages, p, 0)
            case Block(f, _, _) => p in pages && pages[p] == f * Pages(level) + (p - (base * 0x800 + i) * Pages(level))
  {
    hide Holds, WalkFrom, Slots, Pages, Covers;
    Arithmetic.MulLe(base * 0x800 + i + 1, base * 0x800 + Slots(level), Pages(level));
    PageWalks(read, table, i, level, base, e, p);
    if e.Below? { BelowLevel(read, table, i, level, e); }
  }

  lemma BelowLevel(read: Reader, table: nat, i: nat, level: Level, e: Entry)
    requires Holds(read, table, i, level, e) && e.Below?
    ensures level < 3
  {
  }

  lemma CoverIsSlot(n: nat, level: Level, p: nat)
    requires level < 3 && Covers(n, level + 1, p)
    ensures n * Pages(level) <= p < (n + 1) * Pages(level)
  {
  }

  /** The root's word: any sixteen bits on top, the address of the first table in units of a kilobyte, any
      ten bits below. */
  lemma RootWord(root: nat, hi: nat, t: nat, low: nat)
    requires root == hi * TOP + t * 0x400 + low && t * 0x400 < TOP && low < 0x400
    ensures RootAddress(root) == t * 0x400
  {
    Arithmetic.Unique(root, TOP, hi, t * 0x400 + low);
    Arithmetic.Unique(root % TOP, 0x400, t, low);
  }

  /** The tables under a root write down a map from pages to frames if and only if every address, whatever its
      bits from 43 on, is walked to its place in the frame of its page, and to nothing where it has none. */
  lemma WrittenIff(read: Reader, root: nat, hi: nat, t: nat, low: nat, pages: map<nat, nat>)
    requires root == hi * TOP + t * 0x400 + low && t * 0x400 < TOP && low < 0x400
    ensures Written(read, t * 0x400, 1, pages, 0) <==>
              forall high: nat, p: nat, o: nat :: p < 0x2000_0000 && o < 0x4000 ==> WalksTo(read, root, pages, high, p, o)
  {
    hide Written, WalkFrom, Mapped;
    RootWord(root, hi, t, low);
    if Written(read, t * 0x400, 1, pages, 0) {
      forall high: nat, p: nat, o: nat | p < 0x2000_0000 && o < 0x4000 ensures WalksTo(read, root, pages, high, p, o) {
        WrittenIsWalked(read, t * 0x400, 1, pages, 0, high * VA_LIMIT + p * 0x4000 + o, high, p, o);
      }
    }
    if forall high: nat, p: nat, o: nat :: p < 0x2000_0000 && o < 0x4000 ==> WalksTo(read, root, pages, high, p, o) {
      forall p: nat | Covers(0, 1, p) ensures WalkFrom(read, t * 0x400, p * 0x4000, 1) == Mapped(pages, p, 0) {
        assert WalksTo(read, root, pages, 0, p, 0);
      }
      WalkedIsWritten(read, t * 0x400, 1, pages, 0);
    }
  }

  predicate WalksTo(read: Reader, root: nat, pages: map<nat, nat>, high: nat, p: nat, o: nat) {
    Walk(read, root, high * VA_LIMIT + p * 0x4000 + o) == Mapped(pages, p, o)
  }

  /** What the task sees through written tables: byte for byte the frames of the map. */
  lemma TaskSees(mem: Physical, root: nat, hi: nat, t: nat, low: nat, pages: map<nat, nat>, high: nat, p: nat, o: nat)
    requires root == hi * TOP + t * 0x400 + low && t * 0x400 < TOP && low < 0x400
    requires Written(Bytewise(mem), t * 0x400, 1, pages, 0) && p < 0x2000_0000 && o < 0x4000
    ensures Virtual(mem, root)(high * VA_LIMIT + p * 0x4000 + o) == if p in pages then mem(pages[p] * 0x4000 + o) else None
  {
    hide Written, Walk, Bytewise;
    WrittenIff(Bytewise(mem), root, hi, t, low, pages);
    assert WalksTo(Bytewise(mem), root, pages, high, p, o);
  }
}
