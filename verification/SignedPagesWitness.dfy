/** A signed file the tool accepts, and after which one page no longer hashes to its slot: the signature begins inside a
    patched page, so that the hash slot of another patched page lies in it. */
module SignedPagesWitness {
  import opened Results
  import opened Bytes
  import opened SignedPages
  import opened SignedPagesProofs
  import opened SignedPagesStaged

  const SIG_OFFSET := 32672
  const SIG_SIZE := 128

  /** The first page: the cache header with the place of the signature, and zeros. */
  function FirstPage(): (p: seq<byte>)
    ensures |p| == PAGE
  {
    HeaderFields() + Zeros(PAGE - 56)
  }

  function HeaderFields(): (f: seq<byte>)
    ensures |f| == 56
  {
    [100, 121, 108, 100] + Zeros(36) + (Le32(SIG_OFFSET) + Le32(0)) + (Le32(SIG_SIZE) + Le32(0))
  }

  /** struct.pack(">I", n) */
  function Be(n: nat): (b: seq<byte>)
    requires n < WORD_LIMIT
    ensures |b| == 4
  {
    [n / 0x100_0000, n / 0x1_0000 % 0x100, n / 0x100 % 0x100, n % 0x100]
  }

  function Four(a: seq<byte>, b: seq<byte>, c: seq<byte>, d: seq<byte>): (r: seq<byte>)
    requires |a| == |b| == |c| == |d| == 4
    ensures |r| == 16
  {
    a + b + c + d
  }

  /** A SuperBlob with one slot, and the header of a CodeDirectory with two page hashes behind it: hash size, hash type
      and page size stand in front of the last word. */
  function SignatureHead(): (h: seq<byte>)
    ensures |h| == 64
  {
    Four(Be(SUPERBLOB_MAGIC), Be(128), Be(1), Be(0)) + Four(Be(20), Be(CODEDIRECTORY_MAGIC), Be(108), Be(0))
    + Four(Be(2), Be(44), Be(0), Be(0)) + Four(Be(2), Be(SIG_OFFSET), [32, 2, 0, 14], Be(0))
  }

  /** The second page: code, the head of the signature, and last the hash of the first page. */
  function SecondPage(hash: Hash): (p: seq<byte>)
    ensures |p| == PAGE
  {
    Zeros(SIG_OFFSET - PAGE) + SignatureHead() + hash(FirstPage())
  }

  function Cache(hash: Hash): (c: seq<byte>)
    ensures |c| == 2 * PAGE + 32
  {
    FirstPage() + SecondPage(hash) + hash(SecondPage(hash))
  }

  const FIRST := Edit(4096, [0], [1])
  const SECOND := Edit(PAGE, [0], [1])

  /** One byte in each page. */
  function Edits(): seq<Edit> { [FIRST, SECOND] }

  function Items(): seq<Item> { [Item(4096, [0], [1]), Item(PAGE, [0], [1])] }

  lemma Pages(hash: Hash)
    ensures Cache(hash)[..PAGE] == FirstPage() && Cache(hash)[PAGE..2 * PAGE] == SecondPage(hash)
    ensures Cache(hash)[SIG_OFFSET..SIG_OFFSET + SIG_SIZE] == SignatureHead() + hash(FirstPage()) + hash(SecondPage(hash))
  {
    hide FirstPage, SignatureHead;
    var cache := Cache(hash);
    assert cache[PAGE..2 * PAGE] == SecondPage(hash);
    assert SecondPage(hash)[SIG_OFFSET - PAGE..] == SignatureHead() + hash(FirstPage());
    assert cache[SIG_OFFSET..2 * PAGE] == SecondPage(hash)[SIG_OFFSET - PAGE..];
    assert cache[2 * PAGE..] == hash(SecondPage(hash));
    assert cache[SIG_OFFSET..SIG_OFFSET + SIG_SIZE] == cache[SIG_OFFSET..2 * PAGE] + cache[2 * PAGE..];
  }

  lemma HeaderReads(hash: Hash)
    ensures Cache(hash)[..4] == [100, 121, 108, 100]
    ensures U64(Cache(hash), 0x28) == SIG_OFFSET && U64(Cache(hash), 0x30) == SIG_SIZE
  {
    hide SecondPage, Word, Le32, U32;
    var cache := Cache(hash);
    var magic, a, b := [100, 121, 108, 100], Le32(SIG_OFFSET) + Le32(0), Le32(SIG_SIZE) + Le32(0);
    assert HeaderFields() == magic + Zeros(36) + a + b;
    assert cache[0..56] == HeaderFields();
    AtConcat(cache, 0, magic + Zeros(36) + a, b);
    AtConcat(cache, 0, magic + Zeros(36), a);
    AtConcat(cache, 0, magic, Zeros(36));
    AtConcat(cache, 40, Le32(SIG_OFFSET), Le32(0));
    AtConcat(cache, 48, Le32(SIG_SIZE), Le32(0));
    U32At(cache, 40, SIG_OFFSET);
    U32At(cache, 44, 0);
    U32At(cache, 48, SIG_SIZE);
    U32At(cache, 52, 0);
  }

  // ---------- the review ----------

  lemma ZeroBytes(hash: Hash)
    ensures Cache(hash)[4096] == 0 && Cache(hash)[PAGE] == 0
    ensures ReadAt(Cache(hash), 4096, 1) == [0] && ReadAt(Cache(hash), PAGE, 1) == [0]
  {
    hide HeaderFields, SignatureHead;
    var cache := Cache(hash);
    assert cache[4096] == FirstPage()[4096] && cache[PAGE] == SecondPage(hash)[0];
    assert cache[4096..4097] == [cache[4096]] && cache[PAGE..PAGE + 1] == [cache[PAGE]];
  }

  lemma TwoItems(a: Item, b: Item, cache: seq<byte>, x: Edit, y: Edit)
    requires CheckItem(a, cache) == Ok(x) && CheckItem(b, cache) == Ok(y)
    ensures CheckItems([a, b], cache) == Ok([x, y])
  {
    hide CheckItem;
    var items := [a, b];
    assert items[..1] == [a] && items[..1][..0] == [];
    var none: seq<Edit> := [];
    assert CheckItems([], cache) == Ok(none) && none + [x] == [x];
    assert CheckItems([a], cache) == Ok([x]);
    assert [x] + [y] == [x, y];
  }

  lemma ReviewAccepts(hash: Hash)
    ensures ReviewedEdits(Items(), Cache(hash)) == Ok(Edits())
  {
    hide Cache, CheckItem, CheckItems, SortEdits, AdjacentApart;
    ItemsAccepted(hash);
    TwoItems(Items()[0], Items()[1], Cache(hash), FIRST, SECOND);
    assert Items() == [Items()[0], Items()[1]];
    Sorted();
  }

  lemma ItemsAccepted(hash: Hash)
    ensures CheckItem(Items()[0], Cache(hash)) == Ok(FIRST) && CheckItem(Items()[1], Cache(hash)) == Ok(SECOND)
  {
    hide Cache, ReadAt;
    ZeroBytes(hash);
  }

  lemma Sorted()
    ensures SortEdits(Edits()) == Edits() && AdjacentApart(Edits()) && LargestEnd(Edits()) == PAGE + 1
    ensures TouchedPages(Edits()) == [0, 1]
  {
    var es := Edits();
    assert es[1..] == [SECOND] && es[1..][1..] == [];
    assert SortEdits([]) == [] && SortEdits([SECOND]) == [SECOND];
    assert Insert(FIRST, [SECOND]) == [FIRST, SECOND];
    assert es[..1] == [FIRST] && es[..1][..0] == [];
    assert TouchedPages([]) == [] && TouchedPages([FIRST]) == [0];
    assert LargestEnd([FIRST]) == 4097;
  }

  // ---------- the signature ----------

  const DIRECTORY := CodeDirectory(20, 108, 44, 2, SIG_OFFSET)

  lemma Be32At(data: seq<byte>, off: nat, n: nat)
    requires n < WORD_LIMIT && At(data, off, Be(n))
    ensures off + 4 <= |data| && Be32(data, off) == n
  {
    hide Word;
    WordDigits(n);
    var b := data[off..off + 4];
    assert b[0] == data[off] && b[1] == data[off + 1] && b[2] == data[off + 2] && b[3] == data[off + 3];
  }

  lemma FourAt(data: seq<byte>, off: nat, a: seq<byte>, b: seq<byte>, c: seq<byte>, d: seq<byte>)
    requires |a| == |b| == |c| == |d| == 4 && At(data, off, Four(a, b, c, d))
    ensures At(data, off, a) && At(data, off + 4, b) && At(data, off + 8, c) && At(data, off + 12, d)
  {
    AtConcat(data, off, a + b + c, d);
    AtConcat(data, off, a + b, c);
    AtConcat(data, off, a, b);
  }

  lemma HeadBlocks(signature: seq<byte>)
    requires |signature| == SIG_SIZE && signature[..64] == SignatureHead()
    ensures At(signature, 0, Four(Be(SUPERBLOB_MAGIC), Be(128), Be(1), Be(0)))
    ensures At(signature, 16, Four(Be(20), Be(CODEDIRECTORY_MAGIC), Be(108), Be(0)))
    ensures At(signature, 32, Four(Be(2), Be(44), Be(0), Be(0)))
    ensures At(signature, 48, Four(Be(2), Be(SIG_OFFSET), [32, 2, 0, 14], Be(0)))
  {
    hide Be, Four;
    var a, b := Four(Be(SUPERBLOB_MAGIC), Be(128), Be(1), Be(0)), Four(Be(20), Be(CODEDIRECTORY_MAGIC), Be(108), Be(0));
    var c, d := Four(Be(2), Be(44), Be(0), Be(0)), Four(Be(2), Be(SIG_OFFSET), [32, 2, 0, 14], Be(0));
    assert signature[0..64] == signature[..64] && SignatureHead() == a + b + c + d;
    AtConcat(signature, 0, a + b + c, d);
    AtConcat(signature, 0, a + b, c);
    AtConcat(signature, 0, a, b);
  }

  lemma BlobFields(signature: seq<byte>)
    requires |signature| == SIG_SIZE && signature[..64] == SignatureHead()
    ensures Be32(signature, 0) == SUPERBLOB_MAGIC && Be32(signature, 4) == 128 && Be32(signature, 8) == 1
    ensures Be32(signature, 12) == 0 && Be32(signature, 16) == 20
  {
    hide Be, Four, Be32, At, SignatureHead;
    HeadBlocks(signature);
    FourAt(signature, 0, Be(SUPERBLOB_MAGIC), Be(128), Be(1), Be(0));
    FourAt(signature, 16, Be(20), Be(CODEDIRECTORY_MAGIC), Be(108), Be(0));
    Be32At(signature, 0, SUPERBLOB_MAGIC);
    Be32At(signature, 4, 128);
    Be32At(signature, 8, 1);
    Be32At(signature, 12, 0);
    Be32At(signature, 16, 20);
  }

  lemma DirectoryFields(signature: seq<byte>)
    requires |signature| == SIG_SIZE && signature[..64] == SignatureHead()
    ensures Be32(signature, 20) == CODEDIRECTORY_MAGIC && Be32(signature, 24) == 108 && Be32(signature, 32) == 2
    ensures Be32(signature, 36) == 44 && Be32(signature, 48) == 2 && Be32(signature, 52) == SIG_OFFSET
    ensures At(signature, 56, [32, 2, 0, 14])
  {
    hide Be, Four, Be32, At, SignatureHead;
    HeadBlocks(signature);
    FourAt(signature, 16, Be(20), Be(CODEDIRECTORY_MAGIC), Be(108), Be(0));
    FourAt(signature, 32, Be(2), Be(44), Be(0), Be(0));
    FourAt(signature, 48, Be(2), Be(SIG_OFFSET), [32, 2, 0, 14], Be(0));
    Be32At(signature, 20, CODEDIRECTORY_MAGIC);
    Be32At(signature, 24, 108);
    Be32At(signature, 32, 2);
    Be32At(signature, 36, 44);
    Be32At(signature, 48, 2);
    Be32At(signature, 52, SIG_OFFSET);
  }

  lemma DirectoryBytes(signature: seq<byte>)
    requires At(signature, 56, [32, 2, 0, 14])
    ensures |signature| >= 60 && signature[56] == 32 && signature[57] == 2 && signature[59] == 14
  {
    var b := signature[56..60];
    assert b[0] == signature[56] && b[1] == signature[57] && b[3] == signature[59];
  }

  lemma SignatureParses(signature: seq<byte>)
    requires |signature| == SIG_SIZE && signature[..64] == SignatureHead()
    ensures ParseCodeDirectory(signature, 0, PAGE + 1) == Ok(DIRECTORY)
  {
    hide Slots, ParseDirectory, SignatureHead, Be32;
    BlobFields(signature);
    OneSlot(signature);
    DirectoryParses(signature);
  }

  lemma OneSlot(signature: seq<byte>)
    requires |signature| == SIG_SIZE && signature[..64] == SignatureHead()
    ensures Slots(signature, 1) == Ok(map[0 := 20])
  {
    hide SignatureHead, Be32;
    BlobFields(signature);
    assert Slots(signature, 0) == Ok(map[]);
  }

  lemma DirectoryParses(signature: seq<byte>)
    requires |signature| == SIG_SIZE && signature[..64] == SignatureHead()
    ensures ParseDirectory(signature, 20, 128) == Ok(DIRECTORY)
  {
    hide SignatureHead, Be32, At;
    DirectoryFields(signature);
    DirectoryBytes(signature);
  }

  // ---------- the page loop ----------

  /** The first page as it will be. */
  function ChangedFirst(): seq<byte> {
    EditsFit();
    ChangedPage(FirstPage(), 0, Edits())
  }

  lemma EditsFit()
    ensures AllInOnePage(Edits())
  {
  }

  lemma PageReads(hash: Hash)
    ensures ReadAt(Cache(hash), 0 * PAGE, PAGE) == FirstPage() && ReadAt(Cache(hash), 1 * PAGE, PAGE) == SecondPage(hash)
  {
    hide Cache, FirstPage, SecondPage;
    Pages(hash);
    assert Cache(hash)[0..PAGE] == Cache(hash)[..PAGE];
  }

  /** Where the two hashes lie in the CodeDirectory. */
  lemma DirectorySlots(hash: Hash, signature: seq<byte>)
    requires signature == SignatureHead() + hash(FirstPage()) + hash(SecondPage(hash))
    ensures |signature| == SIG_SIZE && signature[..64] == SignatureHead()
    ensures signature[20..128][44..76] == hash(FirstPage()) && signature[20..128][76..108] == hash(SecondPage(hash))
  {
    hide SignatureHead, FirstPage, SecondPage;
    SliceOfSlice(signature, 20, 128, 44, 76);
    SliceOfSlice(signature, 20, 128, 76, 108);
  }

  lemma LoopAccepts(hash: Hash, directory: seq<byte>)
    requires |directory| == 108 && directory[44..76] == hash(FirstPage()) && directory[76..108] == hash(SecondPage(hash))
    ensures AllInOnePage(Edits())
    ensures var r := PagePayloads(hash, Cache(hash), DIRECTORY, directory, SIG_OFFSET, Edits(), [0, 1]);
            r.Ok? && |r.value.0| == 2 && r.value.0[0] == Edit(2 * PAGE - 32, hash(FirstPage()), hash(ChangedFirst()))
  {
    hide Cache, FirstPage, SecondPage, Edits, ChangedPage, ReadAt;
    EditsFit();
    PageReads(hash);
    var (cache, es, pages) := (Cache(hash), Edits(), [0, 1]);
    assert pages[..1] == [0] && pages[..1][..0] == [];
    var p := Edit(2 * PAGE - 32, hash(FirstPage()), hash(ChangedFirst()));
    assert DIRECTORY.SlotOf(0) == 44 && DIRECTORY.SlotOf(1) == 76;
    assert PagePayload(hash, cache, DIRECTORY, directory, SIG_OFFSET, es, 0) == Ok(p);
    var once := Splice(directory, 44, p.after);
    assert once[76..108] == directory[76..108];
    var none: seq<Edit> := [];
    assert PagePayloads(hash, cache, DIRECTORY, directory, SIG_OFFSET, es, []) == Ok((none, directory));
    assert none + [p] == [p];
    assert PagePayloads(hash, cache, DIRECTORY, directory, SIG_OFFSET, es, pages[..1]) == Ok(([p], once));
    assert PagePayload(hash, cache, DIRECTORY, once, SIG_OFFSET, es, 1).Ok?;
  }

  // ---------- the whole tool ----------

  /** The tool stages a patch of this file. */
  lemma ToolAccepts(hash: Hash)
    ensures Stage(hash, Cache(hash), Items()).Ok?
    ensures var s := Stage(hash, Cache(hash), Items()).value;
            s.edits == Edits() && SignatureAboveCode(s) && |s.hashes| == 2
            && s.hashes[0] == Edit(2 * PAGE - 32, hash(FirstPage()), hash(ChangedFirst()))
  {
    hide Cache, FirstPage, SecondPage, Edits, Items, SignatureHead, ParseCodeDirectory, ReviewedEdits, PagePayloads, TouchedPages,
         LargestEnd, ChangedPage, U64;
    var cache := Cache(hash);
    var signature := cache[SIG_OFFSET..SIG_OFFSET + SIG_SIZE];
    HeaderReads(hash);
    ReviewAccepts(hash);
    Sorted();
    EditsFit();
    Pages(hash);
    DirectorySlots(hash, signature);
    SignatureParses(signature);
    LoopAccepts(hash, signature[20..128]);
  }

  /** A slot payload that changes a byte of a page makes that page another than the one that was hashed. */
  lemma SlotChangesPage(cache: seq<byte>, es: seq<Edit>, hs: seq<Edit>, page: nat, k: nat, i: nat)
    requires Separated(|cache|, es, hs) && AllInOnePage(es) && AllPresent(cache, hs)
    requires |ReadAt(cache, page * PAGE, PAGE)| == PAGE && k < |hs| && i < |hs[k].before| && i < |hs[k].after|
    requires page * PAGE <= hs[k].offset + i < (page + 1) * PAGE && hs[k].before[i] != hs[k].after[i]
    ensures (page + 1) * PAGE <= |cache|
    ensures Patched(cache, es, hs)[page * PAGE..(page + 1) * PAGE] != Expected(cache, es, page)
  {
    hide Separated, AllInOnePage, AllPresent, Patched, Expected, ReadAt;
    PageAsHashedIff(cache, es, hs, page);
    assert SlotByte(hs[k], hs[k].offset + i);
  }

  /** For every hash that tells the first page from its changed form: the tool accepts the file, both pages are touched,
      and the second page of the patched file is not the page whose hash was written into its slot. */
  lemma SlotInAnotherPage(hash: Hash)
    requires hash(FirstPage()) != hash(ChangedFirst())
    ensures Stage(hash, Cache(hash), Items()).Ok?
    ensures var s := Stage(hash, Cache(hash), Items()).value;
            && EditsOf(Cache(hash), s) && HashesOf(hash, Cache(hash), s) && SignatureAboveCode(s)
            && 1 in TouchedPages(s.edits) && Separated(|Cache(hash)|, s.edits, s.hashes)
            && AllInOnePage(s.edits) && |ReadAt(Cache(hash), 1 * PAGE, PAGE)| == PAGE
            && Patched(Cache(hash), s.edits, s.hashes)[1 * PAGE..2 * PAGE] != Expected(Cache(hash), s.edits, 1)
  {
    hide Cache, FirstPage, SecondPage, Edits, Items, Stage, Separated, Patched, Expected, EditsOf, HashesOf, AllPresent, ReadAt,
         TouchedPages, ChangedPage, AllInOnePage, SignatureAboveCode;
    var cache := Cache(hash);
    ToolAccepts(hash);
    var s := Stage(hash, cache, Items()).value;
    StageParts(hash, cache, Items());
    StageSeparated(hash, cache, s);
    EditsFit();
    Sorted();
    PageReads(hash);
    HashesPresent(hash, cache, s);
    var i := DifferentByte(hash(FirstPage()), hash(ChangedFirst()));
    SlotChangesPage(cache, s.edits, s.hashes, 1, 0, i);
  }

  lemma DifferentByte(a: seq<byte>, b: seq<byte>) returns (i: nat)
    requires |a| == |b| && a != b
    ensures i < |a| && a[i] != b[i]
  {
    if forall k :: 0 <= k < |a| ==> a[k] == b[k] {
      assert false;
    }
    i :| i < |a| && a[i] != b[i];
  }

  lemma HashesPresent(hash: Hash, cache: seq<byte>, s: Staged)
    requires HashesOf(hash, cache, s)
    ensures AllPresent(cache, s.hashes)
  {
    hide HashesOf, At;
    forall k | 0 <= k < |s.hashes|
      ensures At(cache, s.hashes[k].offset, s.hashes[k].before)
    {
      HashAt(hash, cache, s, k);
    }
  }
}
