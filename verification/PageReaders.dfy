/** The chunked readers: physical_task_memory.py over the task's page tables and dart_read.py over a
    DART, each returning exactly the memory translated byte by byte. */
module PageReaders {
  import opened Results
  import opened Bytes
  import opened PageTables
  import opened PageTableProofs
  import Arithmetic

  /** One byte of the task's address space. */
  function ByteAt(mem: Physical, root: nat, va: nat): Option<byte> {
    var pa :- Walk(Bytewise(mem), root, va);
    mem(pa)
  }

  /** The task's address space as a memory of its own. */
  function Virtual(mem: Physical, root: nat): Physical {
    (va: nat) => ByteAt(mem, root, va)
  }

  function Shifted(pa: Option<nat>, j: nat): Option<nat> {
    if pa.Some? then Some(pa.value + j) else None
  }

  lemma SpanBlock(va: nat, j: nat, level: Level)
    requires va % 0x4000 + j < 0x4000
    ensures Index(va + j, level) == Index(va, level) && Offset(va + j, level) == Offset(va, level) + j
  {
    Arithmetic.SameBlock(va, j, 0x4000, if level == 1 then 0x40_0000 else if level == 2 then 0x800 else 1, Span(level));
  }

  predicate Absent(entry: nat, level: Level) { entry % 2 == 0 || (level == 3 && entry % 4 != 3) }

  predicate Maps(entry: nat, level: Level) { entry % 4 == 1 || level == 3 }

  /** One step of the walk, given the entry it meets. */
  lemma WalkStep(read: Reader, table: nat, va: nat, level: Level)
    ensures EntryAt(read, table, Index(va, level)).Some? && !Maps(EntryAt(read, table, Index(va, level)).value, level) ==> level < 3
    ensures var entry := EntryAt(read, table, Index(va, level));
            WalkFrom(read, table, va, level) ==
            if entry.None? || Absent(entry.value, level) then None
            else if Maps(entry.value, level) then Some(Frame(Low48(entry.value), level) + Offset(va, level))
            else WalkFrom(read, TableAddress(entry.value), va, level + 1)
  {
    hide Span, Frame, EntryAt, Index, Offset, Low48, TableAddress;
  }

  /** Inside one 16 KiB page the walk is linear: it succeeds for all addresses or for none. */
  lemma {:induction false} WalkWithinPage(read: Reader, table: nat, va: nat, j: nat, level: Level)
    requires va % 0x4000 + j < 0x4000
    ensures WalkFrom(read, table, va + j, level) == Shifted(WalkFrom(read, table, va, level), j)
    decreases 3 - level
  {
    hide Span, Frame, EntryAt, Index, Offset, WalkFrom, Low48, TableAddress, Absent, Maps;
    SpanBlock(va, j, level);
    WalkStep(read, table, va, level);
    WalkStep(read, table, va + j, level);
    var entry := EntryAt(read, table, Index(va, level));
    if entry.Some? && level < 3 {
      WalkWithinPage(read, TableAddress(entry.value), va, j, level + 1);
    }
  }

  /** The index of level 1 has seven bits, so addresses beyond 43 bits repeat the space below. */
  lemma WalkWrapsAt43Bits(read: Reader, root: nat, va: nat)
    ensures Walk(read, root, va + VA_LIMIT) == Walk(read, root, va)
  {
    WrapLevels(read, RootAddress(root), va, 1);
  }

  lemma {:induction false} WrapLevels(read: Reader, table: nat, va: nat, level: Level)
    ensures WalkFrom(read, table, va + VA_LIMIT, level) == WalkFrom(read, table, va, level)
    decreases 3 - level
  {
    hide Frame, EntryAt, Index, Offset;
    WrapIndex(va, level);
    var entry := EntryAt(read, table, Index(va, level));
    if entry.Some? && level < 3 {
      WrapLevels(read, TableAddress(entry.value), va, level + 1);
    }
  }

  lemma WrapIndex(va: nat, level: Level)
    ensures Index(va + VA_LIMIT, level) == Index(va, level)
    ensures Offset(va + VA_LIMIT, level) == Offset(va, level)
  {
    var blocks := if level == 1 then 1 else if level == 2 then 128 else 0x4_0000;
    Arithmetic.AddBlocks(va, blocks * Count(level), Span(level));
    Arithmetic.AddBlocks(va / Span(level), blocks, Count(level));
  }

  /** The task's space repeats: what lies 2^43 higher is what lies here. */
  lemma SpaceRepeats(mem: Physical, root: nat, va: nat)
    ensures Virtual(mem, root)(va + VA_LIMIT) == Virtual(mem, root)(va)
  {
    hide Walk;
    WalkWrapsAt43Bits(Bytewise(mem), root, va);
  }

  datatype ReadError = OutOfBounds | Unreadable

  /** `v` at `va` shows the physical bytes at `pa`. */
  predicate Shows(v: Physical, mem: Physical, va: nat, pa: nat, length: nat) {
    forall a :: va <= a < va + length ==> v(a) == mem(pa + (a - va))
  }

  /** One page piece of the address space is the same piece of physical memory. */
  lemma PieceIsPhysical(v: Physical, mem: Physical, va: nat, pa: nat, length: nat)
    requires Shows(v, mem, va, pa, length)
    ensures ReadPhysical(v, va, length) == ReadPhysical(mem, pa, length)
  {
    hide ReadPhysical;
    if Readable(v, va, length) {
      forall a | pa <= a < pa + length
        ensures mem(a).Some?
      {
        var b := va + (a - pa);
        assert v(b) == mem(pa + (b - va)) && pa + (b - va) == a;
      }
      SameBytes(v, mem, va, pa, length);
    }
    if Readable(mem, pa, length) {
      forall a | va <= a < va + length
        ensures v(a).Some?
      {
        assert v(a) == mem(pa + (a - va));
      }
    }
  }

  lemma SameBytes(v: Physical, mem: Physical, va: nat, pa: nat, length: nat)
    requires ReadPhysical(v, va, length).Some? && ReadPhysical(mem, pa, length).Some?
    requires Shows(v, mem, va, pa, length)
    ensures ReadPhysical(v, va, length) == ReadPhysical(mem, pa, length)
  {
    hide ReadPhysical;
    var x, y := ReadPhysical(v, va, length).value, ReadPhysical(mem, pa, length).value;
    forall j | 0 <= j < length
      ensures x[j] == y[j]
    {
      ReadAt(v, va, length, j);
      ReadAt(mem, pa, length, j);
      var b := va + j;
      assert v(b) == mem(pa + (b - va)) && b - va == j;
    }
    assert x == y;
  }

  /** A read is the read of its first part followed by the read of the rest. */
  lemma ReadConcat(v: Physical, address: nat, n: nat, m: nat)
    ensures ReadPhysical(v, address, n + m) ==
            if ReadPhysical(v, address, n).Some? && ReadPhysical(v, address + n, m).Some?
            then Some(ReadPhysical(v, address, n).value + ReadPhysical(v, address + n, m).value) else None
  {
    hide ReadPhysical;
    assert Readable(v, address, n + m) <==> Readable(v, address, n) && Readable(v, address + n, m);
    if Readable(v, address, n + m) {
      SubRead(v, address, n + m, 0, n);
      SubRead(v, address, n + m, n, m);
      var whole := ReadPhysical(v, address, n + m).value;
      assert whole == whole[0..n] + whole[n..n + m];
    }
  }

  lemma ReadPrefixFails(v: Physical, address: nat, n: nat, size: nat)
    requires n <= size && ReadPhysical(v, address, n).None?
    ensures ReadPhysical(v, address, size).None?
  {
    ReadConcat(v, address, n, size - n);
  }

  lemma EmptyRead(v: Physical, address: nat)
    ensures ReadPhysical(v, address, 0) == Some([])
  {
  }

  /** The task's bytes from `va` to the end of its page, through one translation. */
  lemma TaskPiece(mem: Physical, root: nat, va: nat, length: nat)
    requires length <= 0x4000 - va % 0x4000
    ensures var pa := Walk(Bytewise(mem), root, va);
            ReadPhysical(Virtual(mem, root), va, length) ==
            if length == 0 then Some([]) else if pa.None? then None else ReadPhysical(mem, pa.value, length)
  {
    hide ReadPhysical, Walk;
    var v := Virtual(mem, root);
    if length > 0 {
      forall a | va <= a < va + length
        ensures Walk(Bytewise(mem), root, a) == Shifted(Walk(Bytewise(mem), root, va), a - va)
      {
        WalkIsLinear(Bytewise(mem), root, va, a - va);
      }
      if Walk(Bytewise(mem), root, va).None? {
        assert v(va).None?;
        assert !Readable(v, va, length);
      } else {
        PieceIsPhysical(v, mem, va, Walk(Bytewise(mem), root, va).value, length);
      }
    } else {
      EmptyRead(v, va);
    }
  }

  lemma WalkIsLinear(read: Reader, root: nat, va: nat, j: nat)
    requires va % 0x4000 + j < 0x4000
    ensures Walk(read, root, va + j) == Shifted(Walk(read, root, va), j)
  {
    WalkWithinPage(read, RootAddress(root), va, j, 1);
  }

  /** How much one translation serves: what is left, or up to the end of the page. */
  function PieceLength(va: nat, left: nat): (n: nat)
    ensures n <= left && n <= 0x4000 - va % 0x4000 && (left > 0 ==> n > 0)
  {
    if left < 0x4000 - va % 0x4000 then left else 0x4000 - va % 0x4000
  }

  /** PhysicalTaskMemory.read: the level loop inside the chunk loop. */
  method Read(mem: Physical, root: nat, address: int, size: int) returns (r: Result<seq<byte>, ReadError>)
    ensures r == Err(OutOfBounds) <==> !(0 <= address < VA_LIMIT && 0 <= size <= 0x10_0000)
    ensures 0 <= address < VA_LIMIT && 0 <= size <= 0x10_0000 ==>
              match ReadPhysical(Virtual(mem, root), address, size)
              case Some(bytes) => r == Ok(bytes)
              case None => r == Err(Unreadable)
  {
    hide ReadPhysical, Virtual;
    if !(0 <= address < VA_LIMIT && 0 <= size <= 0x10_0000) {
      return Err(OutOfBounds);
    }
    ghost var v := Virtual(mem, root);
    var output: seq<byte> := [];
    EmptyRead(v, address);
    while |output| < size
      invariant |output| <= size && ReadPhysical(v, address, |output|) == Some(output)
    {
      var va := address + |output|;
      var pa := Translate(Bytewise(mem), root, va);
      var length := PieceLength(va, size - |output|);
      TaskPiece(mem, root, va, length);
      ReadConcat(v, address, |output|, length);
      if pa.None? {
        ReadPrefixFails(v, address, |output| + length, size);
        return Err(Unreadable);
      }
      var piece := ReadPhysical(mem, pa.value, length);
      if piece.None? {
        ReadPrefixFails(v, address, |output| + length, size);
        return Err(Unreadable);
      }
      output := output + piece.value;
    }
    r := Ok(output);
  }

  method Translate(read: Reader, root: nat, va: nat) returns (pa: Option<nat>)
    ensures pa == Walk(read, root, va)
  {
    hide Frame, EntryAt, Index, Offset, Span, TableAddress;
    var table := RootAddress(root);
    var level: Level := 1;
    while true
      invariant Walk(read, root, va) == WalkFrom(read, table, va, level)
      decreases 3 - level
    {
      var entry := EntryAt(read, table, Index(va, level));
      if entry.None? || entry.value % 2 == 0 || (level == 3 && entry.value % 4 != 3) {
        return None;
      }
      if entry.value % 4 == 1 || level == 3 {
        return Some(Frame(Low48(entry.value), level) + Offset(va, level));
      }
      table := TableAddress(entry.value);
      level := level + 1;
    }
  }

  /** Only the start of a request is checked. One that runs past 2^43 gets the bytes up to there, and then those from
      address zero on. */
  lemma ReadCrossesLimit(mem: Physical, root: nat, address: nat, size: nat)
    requires address < VA_LIMIT < address + size
    ensures var v := Virtual(mem, root);
            var (high, low) := (ReadPhysical(v, address, VA_LIMIT - address), ReadPhysical(v, 0, address + size - VA_LIMIT));
            ReadPhysical(v, address, size) == if high.Some? && low.Some? then Some(high.value + low.value) else None
  {
    hide ReadPhysical, Virtual;
    var v := Virtual(mem, root);
    var (n, m) := (VA_LIMIT - address, address + size - VA_LIMIT);
    ReadConcat(v, address, n, m);
    forall a | VA_LIMIT <= a < VA_LIMIT + m
      ensures v(a) == v(0 + (a - VA_LIMIT))
    {
      SpaceRepeats(mem, root, a - VA_LIMIT);
    }
    PieceIsPhysical(v, v, VA_LIMIT, 0, m);
  }

  /** The task reader translates the heap ranges as the enumeration does. */
  lemma ReaderAgreesWithEnumeration(mem: Physical, root: nat, va: nat)
    requires Mappings(Bytewise(mem), root).Some? && va < VA_LIMIT && InHeaps(va)
    ensures var pa := Lookup(Mappings(Bytewise(mem), root).value, va);
            Virtual(mem, root)(va) == if pa.Some? then mem(pa.value) else None
  {
    hide Walk, Mappings, Lookup, Coherent;
    BytewiseIsCoherent(mem);
    EnumerationAgreesWithWalk(Bytewise(mem), root, va);
  }

  // ---------- DART ----------

  type DartLevels = n: int | 3 <= n <= 4 witness 3

  function DartSpan(level: nat): (s: nat)
    requires level <= 2
    ensures s > 0
  {
    match level case 0 => 0x4000 case 1 => 0x200_0000 case 2 => 0x10_0000_0000
  }

  function DartIndex(dva: nat, level: nat): nat
    requires level <= 2
  {
    dva / DartSpan(level) % 0x800
  }

  function DartMask(levels: DartLevels): (m: nat)
    ensures m > 0
  {
    if levels == 3 then 0x10_0000_0000 else 0x8000_0000_0000
  }

  /** ((pte >> 10) & ((1 << 28) - 1)) << 14 */
  function PteTable(pte: nat): nat { pte / 0x400 % 0x1000_0000 * 0x4000 }

  function DartFrom(mem: Physical, table: nat, dva: nat, level: nat): Option<nat>
    requires level <= 2
    decreases level
  {
    var pte :- EntryAt(Bytewise(mem), table, DartIndex(dva, level));
    if pte % 2 == 0 then None
    else if level == 0 then Some(PteTable(pte) + dva % 0x4000)
    else DartFrom(mem, PteTable(pte), dva, level - 1)
  }

  function DartWalk(mem: Physical, ttbr: nat, levels: DartLevels, dva: nat): Option<nat> {
    DartFrom(mem, ttbr / 4 * 0x4000, dva % DartMask(levels), levels - 2)
  }

  function DartByteAt(mem: Physical, ttbr: nat, levels: DartLevels, dva: nat): Option<byte> {
    var pa :- DartWalk(mem, ttbr, levels, dva);
    mem(pa)
  }

  function DartVirtual(mem: Physical, ttbr: nat, levels: DartLevels): Physical {
    (dva: nat) => DartByteAt(mem, ttbr, levels, dva)
  }

  lemma DartBlock(dva: nat, j: nat, level: nat)
    requires level <= 2 && dva % 0x4000 + j < 0x4000
    ensures DartIndex(dva + j, level) == DartIndex(dva, level)
  {
    Arithmetic.SameBlock(dva, j, 0x4000, if level == 2 then 0x40_0000 else if level == 1 then 0x800 else 1, DartSpan(level));
  }

  lemma {:induction false} DartWithinPage(mem: Physical, table: nat, dva: nat, j: nat, level: nat)
    requires level <= 2 && dva % 0x4000 + j < 0x4000
    ensures DartFrom(mem, table, dva + j, level) == Shifted(DartFrom(mem, table, dva, level), j)
    decreases level
  {
    hide DartIndex, EntryAt, PteTable;
    DartBlock(dva, j, level);
    Arithmetic.SameBlock(dva, j, 0x4000, 1, 0x4000);
    var pte := EntryAt(Bytewise(mem), table, DartIndex(dva, level));
    if pte.Some? && level > 0 {
      DartWithinPage(mem, PteTable(pte.value), dva, j, level - 1);
    }
  }

  lemma DartIsLinear(mem: Physical, ttbr: nat, levels: DartLevels, dva: nat, j: nat)
    requires dva % 0x4000 + j < 0x4000
    ensures DartWalk(mem, ttbr, levels, dva + j) == Shifted(DartWalk(mem, ttbr, levels, dva), j)
  {
    hide DartFrom;
    var k := if levels == 3 then 0x40_0000 else 0x2_0000_0000;
    Arithmetic.SameBlock(dva, j, 0x4000, k, DartMask(levels));
    Arithmetic.ModOfMultiple(dva, 0x4000, k);
    DartWithinPage(mem, ttbr / 4 * 0x4000, dva % DartMask(levels), j, levels - 2);
  }

  lemma DartPiece(mem: Physical, ttbr: nat, levels: DartLevels, dva: nat, length: nat)
    requires 0 < length <= 0x4000 - dva % 0x4000
    ensures var pa := DartWalk(mem, ttbr, levels, dva);
            ReadPhysical(DartVirtual(mem, ttbr, levels), dva, length) ==
            if pa.None? then None else ReadPhysical(mem, pa.value, length)
  {
    hide ReadPhysical, DartWalk;
    var v := DartVirtual(mem, ttbr, levels);
    forall a | dva <= a < dva + length
      ensures DartWalk(mem, ttbr, levels, a) == Shifted(DartWalk(mem, ttbr, levels, dva), a - dva)
    {
      DartIsLinear(mem, ttbr, levels, dva, a - dva);
    }
    if DartWalk(mem, ttbr, levels, dva).None? {
      assert v(dva).None?;
      assert !Readable(v, dva, length);
    } else {
      PieceIsPhysical(v, mem, dva, DartWalk(mem, ttbr, levels, dva).value, length);
    }
  }

  /** The monitor prints whole words: a read fails when the word holding its last byte cannot be read. */
  function ReadWords(mem: Physical, address: nat, size: nat): Option<seq<byte>> {
    var words :- ReadPhysical(mem, address, Aligned(size));
    Some(words[..size])
  }

  lemma WordsAreBytes(mem: Physical, address: nat, size: nat)
    ensures ReadWords(mem, address, size).Some? ==> ReadWords(mem, address, size) == ReadPhysical(mem, address, size)
    ensures size % 4 == 0 ==> ReadWords(mem, address, size) == ReadPhysical(mem, address, size)
  {
    hide ReadPhysical;
    if ReadPhysical(mem, address, Aligned(size)).Some? {
      SubRead(mem, address, Aligned(size), 0, size);
    }
    if size % 4 == 0 {
      assert Aligned(size) == size;
    }
  }

  method DartTranslate(mem: Physical, ttbr: nat, levels: DartLevels, dva: nat) returns (pa: Option<nat>)
    ensures pa == DartWalk(mem, ttbr, levels, dva)
  {
    hide EntryAt, DartIndex, PteTable;
    var table: nat := ttbr / 4 * 0x4000;
    var masked: nat := dva % DartMask(levels);
    var level: int := levels - 2;
    while level >= 0
      invariant -1 <= level <= 2
      invariant DartWalk(mem, ttbr, levels, dva) ==
                if level >= 0 then DartFrom(mem, table, masked, level) else Some(table + masked % 0x4000)
    {
      var pte := EntryAt(Bytewise(mem), table, DartIndex(masked, level));
      if pte.None? || pte.value % 2 == 0 {
        return None;
      }
      table := PteTable(pte.value);
      level := level - 1;
    }
    pa := Some(table + masked % 0x4000);
  }

  // ---------- when a DART request succeeds ----------

  /** A place where the loop translates: the start of the request, and each page after it. */
  predicate PieceStart(dva: nat, size: nat, p: nat) { p < size && (p == 0 || (dva + p) % 0x4000 == 0) }

  /** The piece from there on is mapped, and so is every word that holds a byte of it. */
  predicate PieceCovered(mem: Physical, ttbr: nat, levels: DartLevels, dva: nat, size: nat, p: nat)
    requires p < size
  {
    match DartWalk(mem, ttbr, levels, dva + p)
    case None => false
    case Some(pa) => ReadWords(mem, pa, PieceLength(dva + p, size - p)).Some?
  }

  ghost predicate Covered(mem: Physical, ttbr: nat, levels: DartLevels, dva: nat, size: nat) {
    forall p :: PieceStart(dva, size, p) ==> PieceCovered(mem, ttbr, levels, dva, size, p)
  }

  /** Between one place and the next nothing is translated. */
  lemma NextPiece(dva: nat, size: nat, p: nat, q: nat)
    requires p < size && p < q < p + PieceLength(dva + p, size - p)
    ensures !PieceStart(dva, size, q)
  {
    Arithmetic.SameBlock(dva + p, q - p, 0x4000, 1, 0x4000);
  }

  /** A piece ends with its page or with the request. */
  lemma PieceEnd(dva: nat, size: nat, p: nat)
    requires p < size
    ensures var q := p + PieceLength(dva + p, size - p); q == size || PieceStart(dva, size, q)
  {
    var left := 0x4000 - (dva + p) % 0x4000;
    if left <= size - p {
      PageEnd(dva + p);
      assert dva + (p + left) == dva + p + left;
    }
  }

  lemma PageEnd(x: nat)
    ensures (x + (0x4000 - x % 0x4000)) % 0x4000 == 0
  {
  }

  /** A word-aligned request is covered whenever all its bytes are mapped. */
  lemma AlignedIsCovered(mem: Physical, ttbr: nat, levels: DartLevels, dva: nat, size: nat)
    requires dva % 4 == 0 && size % 4 == 0 && ReadPhysical(DartVirtual(mem, ttbr, levels), dva, size).Some?
    ensures Covered(mem, ttbr, levels, dva, size)
  {
    hide ReadPhysical, DartVirtual, ReadWords, PieceLength, DartWalk;
    var v := DartVirtual(mem, ttbr, levels);
    forall p | PieceStart(dva, size, p)
      ensures PieceCovered(mem, ttbr, levels, dva, size, p)
    {
      var count := PieceLength(dva + p, size - p);
      WordPiece(dva, size, p);
      SubRead(v, dva, size, p, count);
      DartPiece(mem, ttbr, levels, dva + p, count);
      WordsAreBytes(mem, DartWalk(mem, ttbr, levels, dva + p).value, count);
    }
  }

  lemma WordPiece(dva: nat, size: nat, p: nat)
    requires dva % 4 == 0 && size % 4 == 0 && PieceStart(dva, size, p)
    ensures PieceLength(dva + p, size - p) % 4 == 0
  {
    Fours(dva + p);
  }

  lemma Fours(x: nat)
    ensures x % 0x4000 % 4 == x % 4
  {
  }

  /** dart_read.py's loop. What it returns is always the bytewise translation; it returns something if and only if every
      word that holds a byte of the request is mapped. */
  method DartRead(mem: Physical, ttbr: nat, levels: DartLevels, dva: nat, size: nat) returns (r: Option<seq<byte>>)
    ensures r.Some? <==> Covered(mem, ttbr, levels, dva, size)
    ensures r.Some? ==> r == ReadPhysical(DartVirtual(mem, ttbr, levels), dva, size)
    ensures dva % 4 == 0 && size % 4 == 0 ==> r == ReadPhysical(DartVirtual(mem, ttbr, levels), dva, size)
  {
    hide ReadPhysical, DartVirtual, ReadWords, PieceLength, DartWalk;
    ghost var v := DartVirtual(mem, ttbr, levels);
    var output: seq<byte> := [];
    EmptyRead(v, dva);
    if dva % 4 == 0 && size % 4 == 0 && ReadPhysical(v, dva, size).Some? {
      AlignedIsCovered(mem, ttbr, levels, dva, size);
    }
    while |output| < size
      invariant |output| <= size && ReadPhysical(v, dva, |output|) == Some(output)
      invariant |output| == size || PieceStart(dva, size, |output|)
      invariant forall p: nat :: p < |output| && PieceStart(dva, size, p) ==> PieceCovered(mem, ttbr, levels, dva, size, p)
    {
      var at := dva + |output|;
      var pa := DartTranslate(mem, ttbr, levels, at);
      var count := PieceLength(at, size - |output|);
      DartPiece(mem, ttbr, levels, at, count);
      ReadConcat(v, dva, |output|, count);
      if pa.None? {
        assert !PieceCovered(mem, ttbr, levels, dva, size, |output|);
        return None;
      }
      WordsAreBytes(mem, pa.value, count);
      var piece := ReadWords(mem, pa.value, count);
      if piece.None? {
        assert !PieceCovered(mem, ttbr, levels, dva, size, |output|);
        return None;
      }
      assert PieceCovered(mem, ttbr, levels, dva, size, |output|);
      forall p | |output| < p < |output| + count
        ensures !PieceStart(dva, size, p)
      {
        NextPiece(dva, size, |output|, p);
      }
      PieceEnd(dva, size, |output|);
      output := output + piece.value;
    }
    r := Some(output);
  }
}
