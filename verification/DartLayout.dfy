/** The layout theorem of the t8110 DART tables: they write down a map from pages to frames exactly when the
    walk translates by that map, in terms of the fields of their entries. */
module DartLayout {
  import opened Results
  import opened Bytes
  import opened PageTables
  import opened PageReaders
  import opened PageLayout
  import Arithmetic

  /** A slot: nothing, or a frame of 16 KiB, with any bits from 38 on and any nine between it and the valid bit. */
  datatype Slot = Void | Names(frame: nat, hi: nat, low: nat)

  ghost predicate SlotHolds(read: Reader, table: nat, i: nat, e: Slot) {
    var at := table + 8 * i;
    match e
    case Void => Unread(read, at) || exists w :: Stores(read, at, w) && w % 2 == 0
    case Names(frame, hi, low) =>
      frame < 0x1000_0000 && low < 0x200 && Stores(read, at, hi * 0x40_0000_0000 + frame * 0x400 + low * 2 + 1)
  }

  type DartLevel = l: nat | l <= 2

  /** Pages one slot of the level covers; a table has 2048 slots. */
  function Cover(level: DartLevel): (n: nat)
    ensures n > 0
  {
    match level case 0 => 1 case 1 => 0x800 case 2 => 0x40_0000
  }

  /** Slot `i` of this table writes down the pages from (base * 0x800 + i) * Cover(level) on. */
  ghost predicate SlotWrites(read: Reader, table: nat, i: nat, level: DartLevel, pages: map<nat, nat>, base: nat)
    decreases level, 1
  {
    exists e :: SlotHolds(read, table, i, e) && SlotMaps(read, e, level, pages, base * 0x800 + i)
  }

  ghost predicate SlotMaps(read: Reader, e: Slot, level: DartLevel, pages: map<nat, nat>, n: nat)
    decreases level, 0
  {
    match e
    case Void => forall p :: n * Cover(level) <= p < (n + 1) * Cover(level) ==> p !in pages
    case Names(frame, _, _) =>
      if level == 0 then n in pages && pages[n] == frame else Writes(read, frame * 0x4000, level - 1, pages, n)
  }

  ghost predicate Writes(read: Reader, table: nat, level: DartLevel, pages: map<nat, nat>, base: nat)
    decreases level, 2
  {
    forall i :: 0 <= i < 0x800 ==> SlotWrites(read, table, i, level, pages, base)
  }

  // ---------- the walk's arithmetic ----------

  lemma NamesWord(hi: nat, frame: nat, low: nat)
    requires frame < 0x1000_0000 && low < 0x200
    ensures var w := hi * 0x40_0000_0000 + frame * 0x400 + low * 2 + 1; w % 2 == 1 && PteTable(w) == frame * 0x4000
  {
    var w := hi * 0x40_0000_0000 + frame * 0x400 + low * 2 + 1;
    Arithmetic.Unique(w, 2, hi * 0x20_0000_0000 + frame * 0x200 + low, 1);
    Arithmetic.Unique(w, 0x400, hi * 0x1000_0000 + frame, low * 2 + 1);
    Arithmetic.Unique(hi * 0x1000_0000 + frame, 0x1000_0000, hi, frame);
  }

  lemma NamesParts(w: nat)
    requires w % 2 != 0
    ensures var q := w / 0x400; var frame, hi, low := q % 0x1000_0000, q / 0x1000_0000, w % 0x400 / 2;
            frame < 0x1000_0000 && low < 0x200 && w == hi * 0x40_0000_0000 + frame * 0x400 + low * 2 + 1
  {
    Arithmetic.Parts(w, 0x400);
    Arithmetic.Parts(w / 0x400, 0x1000_0000);
    Arithmetic.Parts(w % 0x400, 2);
    Arithmetic.ModOfMultiple(w, 2, 0x200);
  }

  /** Slot and base of a page: the page's eleven bits at this level, and those above them. */
  lemma PlaceInTable(p: nat, o: nat, level: DartLevel)
    requires o < 0x4000
    ensures DartIndex(p * 0x4000 + o, level) == p / Cover(level) % 0x800
    ensures (p * 0x4000 + o) % 0x4000 == o
  {
    Arithmetic.Unique(p * 0x4000 + o, 0x4000, p, o);
    match level
    case 0 =>
    case 1 =>
      Arithmetic.Parts(p, 0x800);
      Arithmetic.Unique(p * 0x4000 + o, 0x200_0000, p / 0x800, p % 0x800 * 0x4000 + o);
    case 2 =>
      Arithmetic.Parts(p, 0x40_0000);
      Arithmetic.Unique(p * 0x4000 + o, 0x10_0000_0000, p / 0x40_0000, p % 0x40_0000 * 0x4000 + o);
  }

  /** Page `p` lies below a table with this base. */
  predicate Under(base: nat, level: DartLevel, p: nat) {
    base * 0x800 * Cover(level) <= p < (base + 1) * 0x800 * Cover(level)
  }

  lemma SlotFor(base: nat, level: DartLevel, p: nat) returns (i: nat)
    requires Under(base, level, p)
    ensures i < 0x800 && i == p / Cover(level) % 0x800
    ensures (base * 0x800 + i) * Cover(level) <= p < (base * 0x800 + i + 1) * Cover(level)
    ensures level > 0 ==> Under(base * 0x800 + i, level - 1, p)
  {
    i := p / Cover(level) - base * 0x800;
    Arithmetic.Unique(p / Cover(level), 0x800, base, i);
  }

  /** One step of the walk over a slot. */
  lemma SlotStep(mem: Physical, table: nat, dva: nat, level: DartLevel, e: Slot)
    requires SlotHolds(Bytewise(mem), table, DartIndex(dva, level), e)
    ensures DartFrom(mem, table, dva, level) == match e
            case Void => None
            case Names(frame, _, _) =>
              if level == 0 then Some(frame * 0x4000 + dva % 0x4000) else DartFrom(mem, frame * 0x4000, dva, level - 1)
  {
    hide Stores, Unread, EntryAt, DartIndex, PteTable, Bytewise;
    var read, i := Bytewise(mem), DartIndex(dva, level);
    EntryIs(read, table, i);
    match e
    case Void =>
      if !Unread(read, table + 8 * i) {
        var w :| Stores(read, table + 8 * i, w) && w % 2 == 0;
        assert EntryAt(read, table, i) == Some(w);
      }
    case Names(frame, hi, low) =>
      NamesWord(hi, frame, low);
      StepOver(mem, table, dva, level, hi * 0x40_0000_0000 + frame * 0x400 + low * 2 + 1, frame);
  }

  lemma StepOver(mem: Physical, table: nat, dva: nat, level: DartLevel, w: nat, frame: nat)
    requires EntryAt(Bytewise(mem), table, DartIndex(dva, level)) == Some(w) && w % 2 == 1 && PteTable(w) == frame * 0x4000
    ensures DartFrom(mem, table, dva, level) ==
              if level == 0 then Some(frame * 0x4000 + dva % 0x4000) else DartFrom(mem, frame * 0x4000, dva, level - 1)
  {
    hide EntryAt, DartIndex, PteTable, Bytewise;
  }

  // ---------- written tables are walked by their map ----------

  lemma {:induction false} WrittenWalks(mem: Physical, table: nat, level: DartLevel, pages: map<nat, nat>, base: nat, p: nat, o: nat)
    requires Writes(Bytewise(mem), table, level, pages, base) && Under(base, level, p) && o < 0x4000
    ensures DartFrom(mem, table, p * 0x4000 + o, level) == Mapped(pages, p, o)
    decreases level
  {
    hide SlotHolds, DartIndex, DartFrom, Bytewise, Under;
    var i := SlotFor(base, level, p);
    PlaceInTable(p, o, level);
    assert SlotWrites(Bytewise(mem), table, i, level, pages, base);
    var e :| SlotHolds(Bytewise(mem), table, i, e) && SlotMaps(Bytewise(mem), e, level, pages, base * 0x800 + i);
    SlotStep(mem, table, p * 0x4000 + o, level, e);
    if e.Names? && level > 0 {
      WrittenWalks(mem, e.frame * 0x4000, level - 1, pages, base * 0x800 + i, p, o);
    }
  }

  // ---------- and the walk's map is the one the tables write down ----------

  ghost predicate DartWalksBy(mem: Physical, table: nat, level: DartLevel, pages: map<nat, nat>, base: nat) {
    forall p: nat :: Under(base, level, p) ==> DartFrom(mem, table, p * 0x4000, level) == Mapped(pages, p, 0)
  }

  lemma SlotFields(read: Reader, table: nat, i: nat) returns (e: Slot)
    ensures SlotHolds(read, table, i, e)
  {
    hide Stores, Unread, EntryAt;
    EntryIs(read, table, i);
    var entry := EntryAt(read, table, i);
    if entry.None? {
      e := Void;
    } else if entry.value % 2 == 0 {
      assert Stores(read, table + 8 * i, entry.value);
      e := Void;
    } else {
      var w := entry.value;
      var q := w / 0x400;
      NamesParts(w);
      e := Names(q % 0x1000_0000, q / 0x1000_0000, w % 0x400 / 2);
    }
  }

  /** What the map says of a page is what its slot holds. */
  lemma SlotSays(mem: Physical, table: nat, i: nat, level: DartLevel, pages: map<nat, nat>, base: nat, e: Slot, p: nat)
    requires DartWalksBy(mem, table, level, pages, base) && SlotHolds(Bytewise(mem), table, i, e) && i < 0x800
    requires (base * 0x800 + i) * Cover(level) <= p < (base * 0x800 + i + 1) * Cover(level)
    ensures match e
            case Void => p !in pages
            case Names(frame, _, _) =>
              if level == 0 then p in pages && pages[p] == frame
              else DartFrom(mem, frame * 0x4000, p * 0x4000, level - 1) == Mapped(pages, p, 0)
  {
    hide SlotHolds, DartIndex, DartFrom, Bytewise;
    SlotIsUnder(base, i, level, p);
    var k := SlotFor(base, level, p);
    SameSlot(base * 0x800, i, k, Cover(level), p);
    PlaceInTable(p, 0, level);
    SlotStep(mem, table, p * 0x4000, level, e);
  }

  lemma SlotIsUnder(base: nat, i: nat, level: DartLevel, p: nat)
    requires i < 0x800 && (base * 0x800 + i) * Cover(level) <= p < (base * 0x800 + i + 1) * Cover(level)
    ensures Under(base, level, p)
  {
  }

  lemma UnderIsSlot(n: nat, level: DartLevel, p: nat)
    requires level > 0 && Under(n, level - 1, p)
    ensures n * Cover(level) <= p < (n + 1) * Cover(level)
  {
  }

  lemma {:induction false} WalksAreWritten(mem: Physical, table: nat, level: DartLevel, pages: map<nat, nat>, base: nat)
    requires DartWalksBy(mem, table, level, pages, base)
    ensures Writes(Bytewise(mem), table, level, pages, base)
    decreases level
  {
    hide SlotHolds, DartFrom, Bytewise, DartWalksBy, Cover, Under, Mapped;
    forall i | 0 <= i < 0x800 ensures SlotWrites(Bytewise(mem), table, i, level, pages, base) {
      var e := SlotFields(Bytewise(mem), table, i);
      var n := base * 0x800 + i;
      if e.Void? {
        forall p | n * Cover(level) <= p < (n + 1) * Cover(level) ensures p !in pages {
          SlotSays(mem, table, i, level, pages, base, e, p);
        }
      } else if level == 0 {
        OnePage(n);
        SlotSays(mem, table, i, level, pages, base, e, n);
      } else {
        forall p: nat | Under(n, level - 1, p)
          ensures DartFrom(mem, e.frame * 0x4000, p * 0x4000, level - 1) == Mapped(pages, p, 0)
        {
          UnderIsSlot(n, level, p);
          SlotSays(mem, table, i, level, pages, base, e, p);
        }
        CollectDartWalks(mem, e.frame * 0x4000, level - 1, pages, n);
        WalksAreWritten(mem, e.frame * 0x4000, level - 1, pages, n);
      }
      assert SlotMaps(Bytewise(mem), e, level, pages, n);
    }
  }

  lemma OnePage(n: nat)
    ensures n * Cover(0) == n && (n + 1) * Cover(0) == n + 1
  {
  }

  lemma CollectDartWalks(mem: Physical, table: nat, level: DartLevel, pages: map<nat, nat>, base: nat)
    requires forall p: nat :: Under(base, level, p) ==> DartFrom(mem, table, p * 0x4000, level) == Mapped(pages, p, 0)
    ensures DartWalksBy(mem, table, level, pages, base)
  {
    hide DartFrom, Under, Mapped;
  }

  // ---------- the whole translation ----------

  /** Pages of the space a register's tables cover: eleven bits a level. */
  function SpacePages(levels: DartLevels): nat { if levels == 3 then 0x40_0000 else 0x2_0000_0000 }

  predicate DartWalksTo(mem: Physical, ttbr: nat, levels: DartLevels, pages: map<nat, nat>, high: nat, p: nat, o: nat) {
    DartWalk(mem, ttbr, levels, (high * SpacePages(levels) + p) * 0x4000 + o) == Mapped(pages, p, o)
  }

  lemma SpaceWraps(levels: DartLevels, high: nat, p: nat, o: nat)
    requires p < SpacePages(levels) && o < 0x4000
    ensures ((high * SpacePages(levels) + p) * 0x4000 + o) % DartMask(levels) == p * 0x4000 + o
    ensures Under(0, levels - 2, p)
  {
    Arithmetic.Unique((high * SpacePages(levels) + p) * 0x4000 + o, DartMask(levels), high, p * 0x4000 + o);
  }

  /** The tables at the register's address write down a map from pages to frames if and only if every device
      address, whatever its bits above the tables' reach, is walked to its place in the frame of its page, and
      to nothing where it has none. */
  lemma DartWrittenIff(mem: Physical, ttbr: nat, t: nat, low: nat, levels: DartLevels, pages: map<nat, nat>)
    requires ttbr == t * 4 + low && low < 4
    ensures Writes(Bytewise(mem), t * 0x4000, levels - 2, pages, 0) <==>
              forall high: nat, p: nat, o: nat :: p < SpacePages(levels) && o < 0x4000 ==>
                DartWalksTo(mem, ttbr, levels, pages, high, p, o)
  {
    hide Writes, DartFrom, Mapped, DartMask, SpacePages, Bytewise;
    var all := forall high: nat, p: nat, o: nat :: p < SpacePages(levels) && o < 0x4000 ==>
      DartWalksTo(mem, ttbr, levels, pages, high, p, o);
    if Writes(Bytewise(mem), t * 0x4000, levels - 2, pages, 0) {
      forall high: nat, p: nat, o: nat | p < SpacePages(levels) && o < 0x4000
        ensures DartWalksTo(mem, ttbr, levels, pages, high, p, o)
      {
        SpaceWraps(levels, high, p, o);
        WrittenWalks(mem, t * 0x4000, levels - 2, pages, 0, p, o);
      }
    }
    if all {
      forall p: nat | Under(0, levels - 2, p)
        ensures DartFrom(mem, t * 0x4000, p * 0x4000, levels - 2) == Mapped(pages, p, 0)
      {
        UnderSpace(levels, p);
        assert DartWalksTo(mem, ttbr, levels, pages, 0, p, 0);
        SpaceWraps(levels, 0, p, 0);
      }
      WalksAreWritten(mem, t * 0x4000, levels - 2, pages, 0);
    }
  }

  lemma UnderSpace(levels: DartLevels, p: nat)
    requires Under(0, levels - 2, p)
    ensures p < SpacePages(levels)
  {
  }

  /** What a device sees through written tables: byte for byte the frames of the map. */
  lemma DeviceSees(mem: Physical, ttbr: nat, t: nat, low: nat, levels: DartLevels, pages: map<nat, nat>, high: nat, p: nat, o: nat)
    requires ttbr == t * 4 + low && low < 4 && Writes(Bytewise(mem), t * 0x4000, levels - 2, pages, 0)
    requires p < SpacePages(levels) && o < 0x4000
    ensures DartVirtual(mem, ttbr, levels)((high * SpacePages(levels) + p) * 0x4000 + o) ==
              if p in pages then mem(pages[p] * 0x4000 + o) else None
  {
    hide Writes, DartFrom, DartMask, SpacePages, Bytewise;
    SpaceWraps(levels, high, p, o);
    WrittenWalks(mem, t * 0x4000, levels - 2, pages, 0, p, o);
  }
}
