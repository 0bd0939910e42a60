/** The 3-level, 16 KiB, 43-bit page tables of a frozen task: the on-demand walk of
    tools/re/physical_task_memory.py and the pruned enumeration of tools/re/frozen_objc_instances.py,
    over any way of reading a fixed physical memory. */
module PageTables {
  import opened Results
  import opened Bytes

  /** The byte at each physical address; None where a physical read fails. */
  type Physical = nat -> Option<byte>

  const PAGE := 0x4000
  const VA_LIMIT := 0x800_0000_0000

  predicate Readable(mem: Physical, address: nat, size: nat) {
    forall a :: address <= a < address + size ==> mem(a).Some?
  }

  function ReadPhysical(mem: Physical, address: nat, size: nat): (r: Option<seq<byte>>)
    ensures r.Some? <==> Readable(mem, address, size)
    ensures r.Some? ==> |r.value| == size
    ensures r.Some? ==> forall a :: address <= a < address + size ==> mem(a) == Some(r.value[a - address])
  {
    if Readable(mem, address, size) then
      Some(seq(size, i requires 0 <= i < size && Readable(mem, address, size) => mem(address + i).value))
    else None
  }

  /** How a program reads ranges of physical memory: through a debugger, byte for byte, or out of captured files. */
  type Reader = (nat, nat) -> Option<seq<byte>>

  function Bytewise(mem: Physical): Reader { (address: nat, size: nat) => ReadPhysical(mem, address, size) }

  /** A read has the size asked for, and the part of it from `off` on reads the same on its own. */
  predicate PartReads(read: Reader, a: nat, n: nat, off: nat, m: nat) {
    read(a, n).Some? && off + m <= n ==>
      |read(a, n).value| == n && read(a + off, m) == Some(read(a, n).value[off..off + m])
  }

  ghost predicate Coherent(read: Reader) {
    forall a: nat, n: nat, off: nat, m: nat :: PartReads(read, a, n, off, m)
  }

  type Level = l: int | 1 <= l <= 3 witness 1

  /** Bytes of address space one entry covers, and entries per table. */
  function Span(level: Level): (s: nat)
    ensures s > 0 && s % 0x4000 == 0
  {
    match level case 1 => 0x10_0000_0000 case 2 => 0x200_0000 case 3 => 0x4000
  }

  function Count(level: Level): nat {
    if level == 1 then 128 else 2048
  }

  function Low48(entry: nat): nat { entry % 0x1_0000_0000_0000 }

  /** entry & 0x0000ffffffffc000 */
  function TableAddress(entry: nat): nat { entry % 0x1_0000_0000_0000 / 0x4000 * 0x4000 }

  /** root & 0x0000fffffffffc00 */
  function RootAddress(root: nat): nat { root % 0x1_0000_0000_0000 / 0x400 * 0x400 }

  /** x & ~(span - 1) */
  function Frame(x: nat, level: Level): nat { x / Span(level) * Span(level) }

  /** (va >> shift) & 0x7f on level 1, & 0x7ff below it */
  function Index(va: nat, level: Level): nat { va / Span(level) % Count(level) }

  /** va & (span - 1) */
  function Offset(va: nat, level: Level): nat { va % Span(level) }

  // ---------- the on-demand walk ----------

  function EntryAt(read: Reader, table: nat, index: nat): Option<nat> {
    var raw :- read(table + index * 8, 8);
    if |raw| == 8 then Some(U64(raw, 0)) else None
  }

  function WalkFrom(read: Reader, table: nat, va: nat, level: Level): Option<nat>
    decreases 3 - level
  {
    var entry :- EntryAt(read, table, Index(va, level));
    if entry % 2 == 0 || (level == 3 && entry % 4 != 3) then None
    else if entry % 4 == 1 || level == 3 then Some(Frame(Low48(entry), level) + Offset(va, level))
    else WalkFrom(read, TableAddress(entry), va, level + 1)
  }

  function Walk(read: Reader, root: nat, va: nat): Option<nat> {
    WalkFrom(read, RootAddress(root), va, 1)
  }

  // ---------- the pruned enumeration ----------

  datatype Mapping = Mapping(va: nat, pa: nat, size: nat)

  predicate Overlaps(lo: nat, hi: nat) {
    (lo < 0x1_1000_0000 && 0x1_0000_0000 < hi) || (lo < 0x80_0000_0000 && 0x70_0000_0000 < hi)
  }

  predicate InHeaps(va: nat) {
    0x1_0000_0000 <= va < 0x1_1000_0000 || 0x70_0000_0000 <= va < 0x80_0000_0000
  }

  function TableMappings(read: Reader, table: nat, level: Level, prefix: nat): Option<seq<Mapping>>
    decreases 3 - level, Count(level) + 2
  {
    var raw :- read(table, Count(level) * 8);
    if |raw| == Count(level) * 8 then EntriesFrom(read, raw, level, prefix, 0) else None
  }

  /** The first address entry `i` of a table covers. */
  function EntryAddress(prefix: nat, level: Level, i: nat): nat { prefix + i * Span(level) }

  function EntriesFrom(read: Reader, raw: seq<byte>, level: Level, prefix: nat, i: nat): Option<seq<Mapping>>
    requires |raw| == Count(level) * 8 && i <= Count(level)
    decreases 3 - level, Count(level) + 1 - i
  {
    if i == Count(level) then Some([])
    else
      var here :- EntryMappings(read, U64(raw, i * 8), level, EntryAddress(prefix, level, i));
      var rest :- EntriesFrom(read, raw, level, prefix, i + 1);
      Some(here + rest)
  }

  function EntryMappings(read: Reader, entry: nat, level: Level, va: nat): Option<seq<Mapping>>
    decreases 3 - level, 0
  {
    if entry % 2 == 0 || !Overlaps(va, va + Span(level)) then Some([])
    else if entry % 4 == 1 || level == 3 then
      if level == 3 && entry % 4 != 3 then Some([])
      else Some([Mapping(va, Frame(TableAddress(entry), level), Span(level))])
    else TableMappings(read, TableAddress(entry), level + 1, va)
  }

  /** The whole enumeration; None when reading a table raises. */
  function Mappings(read: Reader, root: nat): Option<seq<Mapping>> {
    TableMappings(read, RootAddress(root), 1, 0)
  }

  /** Translation through a list of intervals. */
  function Lookup(ms: seq<Mapping>, va: nat): Option<nat> {
    if ms == [] then None
    else if ms[0].va <= va < ms[0].va + ms[0].size then Some(ms[0].pa + (va - ms[0].va))
    else Lookup(ms[1..], va)
  }
}
