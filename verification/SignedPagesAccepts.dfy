/** Exactly which specifications and files are staged, said of their bytes. */
module SignedPagesAccepts {
  import opened Results
  import opened Bytes
  import opened SignedPages
  import opened SignedPagesProofs
  import opened SignedPagesStaged
  import Arithmetic

  // ---------- the reviewed edits ----------

  predicate InsidePage(item: Item, page: nat) {
    page * 0x4000 <= item.offset && item.offset + |item.before| <= (page + 1) * 0x4000
  }

  /** One item of the specification: behind the header, as long as what it replaces and different from it, inside
      one page, and met in the file. */
  ghost predicate Reviewable(item: Item, source: seq<byte>) {
    item.offset >= 4096 && 0 < |item.before| == |item.after| && item.before != item.after
    && (exists page: nat :: InsidePage(item, page))
    && item.offset + |item.before| <= |source| && source[item.offset..item.offset + |item.before|] == item.before
  }

  predicate ItemsMeet(a: Item, b: Item) { a.offset < b.offset + |b.before| && b.offset < a.offset + |a.before| }

  lemma PageOf(item: Item)
    requires item.offset >= 0 && |item.before| > 0
    ensures (exists page: nat :: InsidePage(item, page)) <==>
              item.offset / PAGE == (item.offset + |item.before| - 1) / PAGE
    ensures (exists page: nat :: InsidePage(item, page)) ==> |item.before| <= PAGE
  {
    var first, last := item.offset, item.offset + |item.before| - 1;
    Arithmetic.Parts(first, PAGE);
    Arithmetic.Parts(last, PAGE);
    if first / PAGE == last / PAGE {
      assert InsidePage(item, first / PAGE);
    }
    if page: nat :| InsidePage(item, page) {
      Arithmetic.Unique(first, PAGE, page, first - page * PAGE);
      Arithmetic.Unique(last, PAGE, page, last - page * PAGE);
    }
  }

  lemma CheckItemIff(item: Item, source: seq<byte>)
    ensures CheckItem(item, source).Ok? <==> Reviewable(item, source)
  {
    if item.offset >= 4096 && |item.before| > 0 {
      PageOf(item);
      ReadIs(item, source);
      hide InsidePage;
    }
  }

  lemma ReadIs(item: Item, source: seq<byte>)
    requires item.offset >= 0 && |item.before| > 0
    ensures ReadAt(source, item.offset, |item.before|) == item.before <==>
              item.offset + |item.before| <= |source| && source[item.offset..item.offset + |item.before|] == item.before
  {
  }

  lemma {:induction false} CheckItemsIff(items: seq<Item>, source: seq<byte>)
    ensures CheckItems(items, source).Ok? <==> forall i :: 0 <= i < |items| ==> Reviewable(items[i], source)
  {
    hide CheckItem, Reviewable;
    if items != [] {
      CheckItemsIff(items[..|items| - 1], source);
      CheckItemIff(items[|items| - 1], source);
      var init := items[..|items| - 1];
      assert forall i :: 0 <= i < |init| ==> init[i] == items[i];
    }
  }

  /** The edits that come back: one for each item, ascending by offset. */
  predicate Arranged(es: seq<Edit>, items: seq<Item>) {
    |es| == |items| && (forall i :: 0 <= i < |items| ==> HasEdit(es, items[i]))
    && (forall k :: 0 <= k < |es| ==> HasItem(items, es[k]))
    && forall i, j :: 0 <= i < j < |es| ==> es[i].offset + |es[i].before| <= es[j].offset
  }

  predicate HasEdit(es: seq<Edit>, item: Item) { exists k :: 0 <= k < |es| && item.Is(es[k]) }

  predicate HasItem(items: seq<Item>, e: Edit) { exists i :: 0 <= i < |items| && items[i].Is(e) }

  /** A specification is reviewed exactly when it has one to thirty-two items, each reviewable, no two of which
      meet; and the edits are its items in order. */
  lemma ReviewedIff(items: seq<Item>, source: seq<byte>)
    ensures ReviewedEdits(items, source).Ok? <==>
              1 <= |items| <= 32 && (forall i :: 0 <= i < |items| ==> Reviewable(items[i], source))
              && forall i, j :: 0 <= i < j < |items| ==> !ItemsMeet(items[i], items[j])
    ensures ReviewedEdits(items, source).Ok? ==> Arranged(ReviewedEdits(items, source).value, items)
  {
    hide Reviewable;
    CheckItemsIff(items, source);
    if CheckItems(items, source).Ok? {
      CheckedShape(items, source);
      if 1 <= |items| <= 32 {
        OverlapCheckIsExact(items, source);
        PairsIff(items, CheckItems(items, source).value);
        if ReviewedEdits(items, source).Ok? { ArrangedItems(items, source); }
      }
    }
  }

  lemma PairsIff(items: seq<Item>, es: seq<Edit>)
    requires |es| == |items| && forall i :: 0 <= i < |es| ==> items[i].Is(es[i])
    ensures PairsApart(es) <==> forall i, j :: 0 <= i < j < |items| ==> !ItemsMeet(items[i], items[j])
  {
    forall i, j | 0 <= i < |es| && 0 <= j < |es| ensures Meet(es[i], es[j]) <==> ItemsMeet(items[i], items[j]) {
    }
    assert forall i, j :: 0 <= i < |items| && 0 <= j < |items| ==> ItemsMeet(items[i], items[j]) == ItemsMeet(items[j], items[i]);
  }

  lemma ArrangedItems(items: seq<Item>, source: seq<byte>)
    requires ReviewedEdits(items, source).Ok?
    ensures Arranged(ReviewedEdits(items, source).value, items)
  {
    hide CheckItems, AllInOnePage, At, SortEdits, AdjacentApart, Apart;
    var es, checked := ReviewedEdits(items, source).value, CheckItems(items, source).value;
    CheckedShape(items, source);
    SortMembers(checked);
    AdjacentIsPairwise(es);
    SameItems(items, checked, es);
  }

  lemma SameItems(items: seq<Item>, checked: seq<Edit>, es: seq<Edit>)
    requires |checked| == |items| == |es| && (forall i :: 0 <= i < |items| ==> items[i].Is(checked[i]))
    requires (forall e :: e in es <==> e in checked) && Apart(es)
    ensures Arranged(es, items)
  {
    forall i | 0 <= i < |items| ensures HasEdit(es, items[i]) {
      assert checked[i] in es;
      var k :| 0 <= k < |es| && es[k] == checked[i];
      assert items[i].Is(es[k]);
    }
    forall k | 0 <= k < |es| ensures HasItem(items, es[k]) {
      assert es[k] in checked;
      var i :| 0 <= i < |checked| && checked[i] == es[k];
      assert items[i].Is(es[k]);
    }
  }

  // ---------- the CodeDirectory ----------

  /** The number whose digits to the base 256 these bytes are, the greatest first. */
  function Big(b: seq<byte>): nat {
    if b == [] then 0 else 0x100 * Big(b[..|b| - 1]) + b[|b| - 1] as nat
  }

  lemma BigFour(b: seq<byte>, off: nat)
    requires off + 4 <= |b|
    ensures Be32(b, off) == Big(b[off..off + 4])
  {
    var w := b[off..off + 4];
    var w3, w2, w1 := w[..3], w[..2], w[..1];
    assert w3[..2] == w2 && w2[..1] == w1 && w1[..0] == [];
    assert Big(w1) == w[0] as nat;
    assert Big(w2) == 0x100 * (w[0] as nat) + w[1] as nat;
    assert Big(w3) == 0x100 * (0x100 * (w[0] as nat) + w[1] as nat) + w[2] as nat;
    assert Big(w) == 0x100 * Big(w3) + w[3] as nat;
  }

  /** Four bytes are a magic number exactly when they are its bytes. */
  lemma MagicIs(b: seq<byte>, off: nat)
    requires off + 4 <= |b|
    ensures Be32(b, off) == SUPERBLOB_MAGIC <==> b[off..off + 4] == [0xFA, 0xDE, 0x0C, 0xC0]
    ensures Be32(b, off) == CODEDIRECTORY_MAGIC <==> b[off..off + 4] == [0xFA, 0xDE, 0x0C, 0x02]
    ensures Be32(b, off) == 2 <==> b[off..off + 4] == [0, 0, 0, 2]
  {
    var w := b[off..off + 4];
    assert w[0] == b[off] && w[1] == b[off + 1] && w[2] == b[off + 2] && w[3] == b[off + 3];
  }

  function FieldAt(b: seq<byte>, off: nat): nat
    requires off + 4 <= |b|
  {
    Big(b[off..off + 4])
  }

  /** The index of the SuperBlob: no slot twice, and slot zero at this offset. */
  ghost predicate IndexNames(signature: seq<byte>, count: nat, offset: nat)
    requires 12 + count * 8 <= |signature|
  {
    (forall i, j :: 0 <= i < j < count ==> FieldAt(signature, 12 + i * 8) != FieldAt(signature, 12 + j * 8))
    && exists k :: 0 <= k < count && FieldAt(signature, 12 + k * 8) == 0 && FieldAt(signature, 16 + k * 8) == offset
  }

  /** The fields of the CodeDirectory lying there. */
  predicate FieldsOf(signature: seq<byte>, cd: CodeDirectory)
    requires cd.offset + 44 <= |signature|
  {
    var at := cd.offset;
    && signature[at..at + 4] == [0xFA, 0xDE, 0x0C, 0x02] && signature[at + 12..at + 16] == [0, 0, 0, 2]
    && signature[at + 36] == 32 && signature[at + 37] == 2 && signature[at + 39] == 14
    && cd.length == FieldAt(signature, at + 4) && cd.hashOffset == FieldAt(signature, at + 16)
    && cd.codeSlots == FieldAt(signature, at + 28) && cd.limit == FieldAt(signature, at + 32)
  }

  /** A signature whose primary CodeDirectory is this one, an ad-hoc one of SHA-256 hashes over 16 KiB pages,
      whole inside the SuperBlob's declared length, and covers the code up to `required` and this page. */
  ghost predicate Describes(signature: seq<byte>, cd: CodeDirectory, page: nat, required: nat) {
    |signature| >= 12 && signature[0..4] == [0xFA, 0xDE, 0x0C, 0xC0]
    && var length, count := FieldAt(signature, 4), FieldAt(signature, 8);
       && 12 + count * 8 <= length <= |signature|
       && IndexNames(signature, count, cd.offset)
       && 12 + count * 8 <= cd.offset && cd.offset + 44 <= length && FieldsOf(signature, cd)
       && 44 <= cd.length && cd.offset + cd.length <= length
       && 44 <= cd.hashOffset && cd.hashOffset + cd.codeSlots * 32 <= cd.length
       && required <= cd.limit && page < cd.codeSlots
  }

  lemma {:induction false} SlotsAre(signature: seq<byte>, count: nat)
    requires 12 + count * 8 <= |signature|
    ensures Slots(signature, count).Ok? <==>
              forall i, j :: 0 <= i < j < count ==> Be32(signature, 12 + i * 8) != Be32(signature, 12 + j * 8)
    ensures Slots(signature, count).Ok? ==> var m := Slots(signature, count).value;
              (forall t :: t in m ==> exists k :: 0 <= k < count && Be32(signature, 12 + k * 8) == t)
              && forall k :: 0 <= k < count ==>
                   Be32(signature, 12 + k * 8) in m && m[Be32(signature, 12 + k * 8)] == Be32(signature, 16 + k * 8)
  {
    hide Be32;
    if count > 0 { SlotsAre(signature, count - 1); }
  }

  /** The slot table of a parsed index names slot zero's offset, and only that. */
  lemma IndexIff(signature: seq<byte>, count: nat, offset: nat)
    requires 12 + count * 8 <= |signature|
    ensures IndexNames(signature, count, offset) <==>
              Slots(signature, count).Ok? && 0 in Slots(signature, count).value && Slots(signature, count).value[0] == offset
  {
    hide Be32, Slots, FieldAt;
    SlotsAre(signature, count);
    IndexFields(signature, count);
    if IndexNames(signature, count, offset) {
      var k :| 0 <= k < count && FieldAt(signature, 12 + k * 8) == 0 && FieldAt(signature, 16 + k * 8) == offset;
      assert Be32(signature, 12 + k * 8) == 0;
    }
    if Slots(signature, count).Ok? && 0 in Slots(signature, count).value {
      var k :| 0 <= k < count && Be32(signature, 12 + k * 8) == 0;
      assert FieldAt(signature, 12 + k * 8) == 0;
    }
  }

  lemma IndexFields(signature: seq<byte>, count: nat)
    requires 12 + count * 8 <= |signature|
    ensures forall k :: 0 <= k < count ==> Be32(signature, 12 + k * 8) == FieldAt(signature, 12 + k * 8)
    ensures forall k :: 0 <= k < count ==> Be32(signature, 16 + k * 8) == FieldAt(signature, 16 + k * 8)
  {
    forall k | 0 <= k < count
      ensures Be32(signature, 12 + k * 8) == FieldAt(signature, 12 + k * 8)
      ensures Be32(signature, 16 + k * 8) == FieldAt(signature, 16 + k * 8)
    {
      FieldIs(signature, 12 + k * 8);
      FieldIs(signature, 16 + k * 8);
    }
  }

  lemma DirectoryIff(signature: seq<byte>, at: nat, length: nat, cd: CodeDirectory)
    requires at + 44 <= length <= |signature|
    ensures ParseDirectory(signature, at, length) == Ok(cd) <==>
              cd.offset == at && FieldsOf(signature, cd) && 44 <= cd.length && at + cd.length <= length
  {
    MagicIs(signature, at);
    MagicIs(signature, at + 12);
    BigFour(signature, at + 4);
    BigFour(signature, at + 16);
    BigFour(signature, at + 28);
    BigFour(signature, at + 32);
    hide Be32, Big;
  }

  /** The parser answers a CodeDirectory exactly when the signature describes it. */
  lemma ParseIff(signature: seq<byte>, page: nat, required: nat, cd: CodeDirectory)
    ensures ParseCodeDirectory(signature, page, required) == Ok(cd) <==> Describes(signature, cd, page, required)
  {
    hide Be32, Big, Slots, IndexNames, FieldsOf, ParseDirectory, FieldAt;
    if |signature| >= 12 {
      MagicIs(signature, 0);
      FieldIs(signature, 4);
      FieldIs(signature, 8);
      var length, count := Be32(signature, 4), Be32(signature, 8);
      if 12 + count * 8 <= length <= |signature| {
        IndexIff(signature, count, cd.offset);
        if Slots(signature, count).Ok? && 0 in Slots(signature, count).value {
          var at := Slots(signature, count).value[0];
          if at + 44 <= length { DirectoryIff(signature, at, length, cd); }
        }
      }
    }
  }

  lemma FieldIs(signature: seq<byte>, off: nat)
    requires off + 4 <= |signature|
    ensures Be32(signature, off) == FieldAt(signature, off)
  {
    BigFour(signature, off);
  }

  // ---------- the pages ----------

  /** The page is whole, covered, and hashes to its slot. */
  predicate PageSigned(hash: Hash, cache: seq<byte>, cd: CodeDirectory, directory: seq<byte>, page: nat) {
    (page + 1) * 0x4000 <= |cache| && page < cd.codeSlots
    && cd.hashOffset + page * 32 + 32 <= |directory|
    && hash(cache[page * 0x4000..(page + 1) * 0x4000]) == directory[cd.hashOffset + page * 32..cd.hashOffset + page * 32 + 32]
  }

  lemma PageIff(hash: Hash, cache: seq<byte>, cd: CodeDirectory, directory: seq<byte>, sigOffset: nat, es: seq<Edit>, page: nat)
    requires |directory| == cd.length && cd.hashOffset + cd.codeSlots * 32 <= cd.length && AllInOnePage(es)
    ensures PagePayload(hash, cache, cd, directory, sigOffset, es, page).Ok? <==> PageSigned(hash, cache, cd, directory, page)
  {
    hide AllInOnePage, ChangedPage, ReadAt;
    ReadPage(cache, page);
    if page < cd.codeSlots { SlotRoom(cd, page); }
  }

  lemma ReadPage(cache: seq<byte>, page: nat)
    ensures |ReadAt(cache, page * PAGE, PAGE)| == PAGE <==> (page + 1) * PAGE <= |cache|
    ensures (page + 1) * PAGE <= |cache| ==> ReadAt(cache, page * PAGE, PAGE) == cache[page * PAGE..(page + 1) * PAGE]
  {
  }

  lemma SameSigned(hash: Hash, cache: seq<byte>, cd: CodeDirectory, a: seq<byte>, b: seq<byte>, page: nat)
    requires |a| == |b| == cd.length && cd.hashOffset + cd.codeSlots * 32 <= cd.length
    requires page < cd.codeSlots ==> a[cd.SlotOf(page)..cd.SlotOf(page) + 32] == b[cd.SlotOf(page)..cd.SlotOf(page) + 32]
    ensures PageSigned(hash, cache, cd, a, page) <==> PageSigned(hash, cache, cd, b, page)
  {
  }

  /** The page loop succeeds exactly when every page it meets is signed as the file came. */
  lemma {:induction false} PagesIff(hash: Hash, cache: seq<byte>, cd: CodeDirectory, directory: seq<byte>, sigOffset: nat,
                                    es: seq<Edit>, pages: seq<nat>)
    requires |directory| == cd.length && cd.hashOffset + cd.codeSlots * 32 <= cd.length && AllInOnePage(es)
    requires StrictlyAscending(pages)
    ensures PagePayloads(hash, cache, cd, directory, sigOffset, es, pages).Ok? <==>
              forall k :: 0 <= k < |pages| ==> PageSigned(hash, cache, cd, directory, pages[k])
    decreases |pages|
  {
    hide AllInOnePage, PagePayload, PagePayloads, PageSigned, StrictlyAscending;
    if pages == [] {
      NoPages(hash, cache, cd, directory, sigOffset, es);
    } else {
      var n := |pages| - 1;
      AscendingPrefix(pages);
      PayloadsUnfold(hash, cache, cd, directory, sigOffset, es, pages);
      PagesIff(hash, cache, cd, directory, sigOffset, es, pages[..n]);
      assert forall k :: 0 <= k < n ==> pages[..n][k] == pages[k];
      if PagePayloads(hash, cache, cd, directory, sigOffset, es, pages[..n]).Ok? {
        LastPageIff(hash, cache, cd, directory, sigOffset, es, pages);
      }
    }
  }

  lemma PayloadsUnfold(hash: Hash, cache: seq<byte>, cd: CodeDirectory, directory: seq<byte>, sigOffset: nat, es: seq<Edit>,
                       pages: seq<nat>)
    requires |directory| == cd.length && cd.hashOffset + cd.codeSlots * 32 <= cd.length && AllInOnePage(es) && pages != []
    ensures var init := PagePayloads(hash, cache, cd, directory, sigOffset, es, pages[..|pages| - 1]);
            PagePayloads(hash, cache, cd, directory, sigOffset, es, pages).Ok? <==>
              init.Ok? && PagePayload(hash, cache, cd, init.value.1, sigOffset, es, pages[|pages| - 1]).Ok?
  {
    hide AllInOnePage, PagePayload, Splice;
  }

  lemma LastPageIff(hash: Hash, cache: seq<byte>, cd: CodeDirectory, directory: seq<byte>, sigOffset: nat, es: seq<Edit>,
                    pages: seq<nat>)
    requires |directory| == cd.length && cd.hashOffset + cd.codeSlots * 32 <= cd.length && AllInOnePage(es)
    requires pages != [] && StrictlyAscending(pages)
    requires PagePayloads(hash, cache, cd, directory, sigOffset, es, pages[..|pages| - 1]).Ok?
    ensures var mid := PagePayloads(hash, cache, cd, directory, sigOffset, es, pages[..|pages| - 1]).value.1;
            PagePayload(hash, cache, cd, mid, sigOffset, es, pages[|pages| - 1]).Ok? <==>
            PageSigned(hash, cache, cd, directory, pages[|pages| - 1])
  {
    hide AllInOnePage, PagePayload, PagePayloads, PageSigned, StrictlyAscending;
    var page := pages[|pages| - 1];
    var mid := PagePayloads(hash, cache, cd, directory, sigOffset, es, pages[..|pages| - 1]).value.1;
    PageIff(hash, cache, cd, mid, sigOffset, es, page);
    if page < cd.codeSlots {
      SlotRoom(cd, page);
      LaterSlotUntouched(hash, cache, cd, directory, sigOffset, es, pages);
    }
    SameSigned(hash, cache, cd, mid, directory, page);
  }

  lemma SlotRoom(cd: CodeDirectory, page: nat)
    requires page < cd.codeSlots && cd.hashOffset + cd.codeSlots * 32 <= cd.length
    ensures cd.SlotOf(page) + 32 <= cd.length
  {
  }

  // ---------- the whole program ----------

  /** Some edit of the specification lies in this page. */
  predicate TouchedBy(items: seq<Item>, page: nat) {
    exists i :: 0 <= i < |items| && InsidePage(items[i], page)
  }

  /** One to thirty-two reviewable items of which no two meet. */
  ghost predicate ReviewableSet(items: seq<Item>, cache: seq<byte>) {
    1 <= |items| <= 32 && (forall i :: 0 <= i < |items| ==> Reviewable(items[i], cache))
    && forall i, j :: 0 <= i < j < |items| ==> !ItemsMeet(items[i], items[j])
  }

  /** The signature's primary CodeDirectory covers every item, and the touched pages are as signed. */
  ghost predicate SignedFor(hash: Hash, cache: seq<byte>, items: seq<Item>, signature: seq<byte>, cd: CodeDirectory) {
    && Describes(signature, cd, 0, 0) && cd.offset + cd.length <= |signature|
    && AllEndBelow(items, cd.limit)
    && PagesSigned(hash, cache, items, signature[cd.offset..cd.offset + cd.length], cd)
  }

  predicate AllEndBelow(items: seq<Item>, limit: nat) {
    forall i :: 0 <= i < |items| ==> items[i].offset + |items[i].before| <= limit
  }

  ghost predicate PagesSigned(hash: Hash, cache: seq<byte>, items: seq<Item>, directory: seq<byte>, cd: CodeDirectory) {
    forall page: nat :: TouchedBy(items, page) ==> PageSigned(hash, cache, cd, directory, page)
  }

  /** The header of a cache file, which places its signature. */
  predicate HeaderPlaces(cache: seq<byte>, sigOffset: nat, sigSize: nat) {
    |cache| >= 4096 && cache[..4] == [0x64, 0x79, 0x6C, 0x64]
    && sigOffset == Little(cache[0x28..0x30]) && sigSize == Little(cache[0x30..0x38]) && sigOffset + sigSize <= |cache|
  }

  ghost predicate Patchable(hash: Hash, cache: seq<byte>, items: seq<Item>, sigOffset: nat, sigSize: nat, cd: CodeDirectory) {
    && HeaderPlaces(cache, sigOffset, sigSize) && ReviewableSet(items, cache)
    && SignedFor(hash, cache, items, cache[sigOffset..sigOffset + sigSize], cd)
  }

  lemma {:induction false} LargestEndIff(es: seq<Edit>, limit: nat)
    requires es != []
    ensures LargestEnd(es) <= limit <==> forall i :: 0 <= i < |es| ==> es[i].offset + |es[i].before| <= limit
    decreases |es|
  {
    var n := |es| - 1;
    if n > 0 {
      LargestEndIff(es[..n], limit);
      assert forall i :: 0 <= i < n ==> es[..n][i] == es[i];
    }
  }

  lemma DescribesMore(signature: seq<byte>, cd: CodeDirectory, required: nat)
    ensures Describes(signature, cd, 0, required) <==> Describes(signature, cd, 0, 0) && required <= cd.limit
  {
    hide FieldAt, IndexNames, FieldsOf;
  }

  lemma EndsIff(items: seq<Item>, es: seq<Edit>, limit: nat)
    requires Arranged(es, items)
    ensures (forall i :: 0 <= i < |items| ==> items[i].offset + |items[i].before| <= limit) <==>
            forall k :: 0 <= k < |es| ==> es[k].offset + |es[k].before| <= limit
  {
    if forall i :: 0 <= i < |items| ==> items[i].offset + |items[i].before| <= limit {
      forall k | 0 <= k < |es| ensures es[k].offset + |es[k].before| <= limit {
        assert HasItem(items, es[k]);
        var i :| 0 <= i < |items| && items[i].Is(es[k]);
      }
    }
    if forall k :: 0 <= k < |es| ==> es[k].offset + |es[k].before| <= limit {
      forall i | 0 <= i < |items| ensures items[i].offset + |items[i].before| <= limit {
        assert HasEdit(es, items[i]);
        var k :| 0 <= k < |es| && items[i].Is(es[k]);
      }
    }
  }

  lemma TouchedIff(items: seq<Item>, es: seq<Edit>, page: nat)
    requires Arranged(es, items) && AllInOnePage(es)
    ensures TouchedBy(items, page) <==> Touches(es, page)
  {
    hide AllInOnePage;
    if TouchedBy(items, page) {
      var i :| 0 <= i < |items| && InsidePage(items[i], page);
      assert HasEdit(es, items[i]);
      var k :| 0 <= k < |es| && items[i].Is(es[k]);
      InPage(es, k);
      EditPage(es[k], items[i], page);
    }
    if Touches(es, page) {
      var k :| 0 <= k < |es| && es[k].offset / PAGE == page;
      assert HasItem(items, es[k]);
      var i :| 0 <= i < |items| && items[i].Is(es[k]);
      InPage(es, k);
      EditPage(es[k], items[i], page);
    }
  }

  lemma InPage(es: seq<Edit>, k: nat)
    requires AllInOnePage(es) && k < |es|
    ensures InOnePage(es[k])
  {
  }

  lemma EditPage(e: Edit, item: Item, page: nat)
    requires InOnePage(e) && item.Is(e)
    ensures InsidePage(item, page) <==> e.offset / PAGE == page
  {
    var last := e.offset + |e.before| - 1;
    Arithmetic.Parts(e.offset, PAGE);
    Arithmetic.Parts(last, PAGE);
    if InsidePage(item, page) { Arithmetic.Unique(e.offset, PAGE, page, e.offset - page * PAGE); }
  }

  /** The parse, on the edits as reviewed. */
  lemma CoveredIff(items: seq<Item>, es: seq<Edit>, signature: seq<byte>, cd: CodeDirectory)
    requires es != [] && Arranged(es, items)
    ensures ParseCodeDirectory(signature, 0, LargestEnd(es)) == Ok(cd) <==>
              Describes(signature, cd, 0, 0) && AllEndBelow(items, cd.limit)
  {
    hide ParseCodeDirectory, Describes, Arranged, AllEndBelow, LargestEnd;
    var required := LargestEnd(es);
    ParseIff(signature, 0, required, cd);
    DescribesMore(signature, cd, required);
    EndsBelowIff(items, es, cd.limit);
  }

  lemma EndsBelowIff(items: seq<Item>, es: seq<Edit>, limit: nat)
    requires es != [] && Arranged(es, items)
    ensures LargestEnd(es) <= limit <==> AllEndBelow(items, limit)
  {
    hide LargestEnd, Arranged;
    LargestEndIff(es, limit);
    EndsIff(items, es, limit);
  }

  lemma LoopIff(hash: Hash, cache: seq<byte>, items: seq<Item>, es: seq<Edit>, sigOffset: nat, directory: seq<byte>,
                cd: CodeDirectory)
    requires |directory| == cd.length && cd.hashOffset + cd.codeSlots * 32 <= cd.length
    requires es != [] && Arranged(es, items) && AllInOnePage(es) && Ascending(es)
    ensures PagePayloads(hash, cache, cd, directory, sigOffset, es, TouchedPages(es)).Ok? <==>
              PagesSigned(hash, cache, items, directory, cd)
  {
    hide PagePayloads, TouchedPages, AllInOnePage, PageSigned, TouchedBy, Touches, Arranged, Ascending, StrictlyAscending;
    TouchedPagesExact(es);
    PagesIff(hash, cache, cd, directory, sigOffset, es, TouchedPages(es));
    SamePages(hash, cache, cd, directory, items, es, TouchedPages(es));
  }

  lemma SamePages(hash: Hash, cache: seq<byte>, cd: CodeDirectory, directory: seq<byte>, items: seq<Item>, es: seq<Edit>,
                  pages: seq<nat>)
    requires Arranged(es, items) && AllInOnePage(es) && forall p :: p in pages <==> Touches(es, p)
    ensures (forall k :: 0 <= k < |pages| ==> PageSigned(hash, cache, cd, directory, pages[k])) <==>
            forall page: nat :: TouchedBy(items, page) ==> PageSigned(hash, cache, cd, directory, page)
  {
    hide Arranged, AllInOnePage, PageSigned, TouchedBy, Touches;
    forall page: nat ensures TouchedBy(items, page) <==> page in pages { TouchedIff(items, es, page); }
    forall k | 0 <= k < |pages| ensures TouchedBy(items, pages[k]) { assert pages[k] in pages; }
    forall page: nat | TouchedBy(items, page) ensures exists k :: 0 <= k < |pages| && pages[k] == page {
      assert page in pages;
    }
  }

  /** The program behind the header answers with a CodeDirectory that covers the items and signs their pages. */
  lemma AnsweredIsSigned(hash: Hash, cache: seq<byte>, items: seq<Item>, sigOffset: nat, signature: seq<byte>)
    requires StageSigned(hash, cache, items, sigOffset, signature).Ok?
    ensures var s := StageSigned(hash, cache, items, sigOffset, signature).value;
            SignedFor(hash, cache, items, signature, s.cd) && s.sigOffset == sigOffset && Arranged(s.edits, items)
            && ReviewableSet(items, cache)
  {
    hide StageSigned, ParseCodeDirectory, PagePayloads, TouchedPages, ReviewedEdits, LargestEnd, AllInOnePage, Arranged,
         Describes, AllEndBelow, PagesSigned, Reviewable, ItemsMeet, Ascending, Apart, AllPresent, AllFit;
    var directory := SignedOpens(hash, cache, items, sigOffset, signature);
    var s := StageSigned(hash, cache, items, sigOffset, signature).value;
    ReviewedIff(items, cache);
    ReviewedShape(items, cache);
    CoveredIff(items, s.edits, signature, s.cd);
    LoopIff(hash, cache, items, s.edits, sigOffset, directory, s.cd);
  }

  lemma SignedIsAnswered(hash: Hash, cache: seq<byte>, items: seq<Item>, sigOffset: nat, signature: seq<byte>, cd: CodeDirectory)
    requires ReviewableSet(items, cache) && SignedFor(hash, cache, items, signature, cd)
    ensures var r := StageSigned(hash, cache, items, sigOffset, signature); r.Ok? && r.value.cd == cd
  {
    hide StageSigned, ParseCodeDirectory, PagePayloads, TouchedPages, ReviewedEdits, LargestEnd, AllInOnePage,
         ReviewableSet, SignedFor, Ascending, Arranged, PagesSigned;
    var es := EditsFor(items, cache);
    var directory := DirectoryFor(hash, cache, items, es, signature, cd);
    LoopIff(hash, cache, items, es, sigOffset, directory, cd);
    Answers(hash, cache, items, es, sigOffset, signature, cd, directory);
  }

  lemma EditsFor(items: seq<Item>, cache: seq<byte>) returns (es: seq<Edit>)
    requires ReviewableSet(items, cache)
    ensures ReviewedEdits(items, cache) == Ok(es)
    ensures es != [] && Arranged(es, items) && AllInOnePage(es) && Ascending(es)
  {
    hide ReviewedEdits, Reviewable, ItemsMeet, AllInOnePage, Ascending, Arranged, Apart, AllPresent, AllFit;
    ReviewedIff(items, cache);
    ReviewedShape(items, cache);
    es := ReviewedEdits(items, cache).value;
  }

  lemma DirectoryFor(hash: Hash, cache: seq<byte>, items: seq<Item>, es: seq<Edit>, signature: seq<byte>, cd: CodeDirectory)
    returns (directory: seq<byte>)
    requires es != [] && Arranged(es, items) && SignedFor(hash, cache, items, signature, cd)
    ensures ParseCodeDirectory(signature, 0, LargestEnd(es)) == Ok(cd)
    ensures cd.offset + cd.length <= |signature| && directory == signature[cd.offset..cd.offset + cd.length]
    ensures cd.hashOffset + cd.codeSlots * 32 <= cd.length && PagesSigned(hash, cache, items, directory, cd)
  {
    hide ParseCodeDirectory, LargestEnd, Arranged, Describes, AllEndBelow, PagesSigned;
    CoveredIff(items, es, signature, cd);
    directory := signature[cd.offset..cd.offset + cd.length];
  }

  lemma Answers(hash: Hash, cache: seq<byte>, items: seq<Item>, es: seq<Edit>, sigOffset: nat, signature: seq<byte>,
                cd: CodeDirectory, directory: seq<byte>)
    requires ReviewedEdits(items, cache) == Ok(es) && es != [] && AllInOnePage(es)
    requires ParseCodeDirectory(signature, 0, LargestEnd(es)) == Ok(cd)
    requires cd.offset + cd.length <= |signature| && directory == signature[cd.offset..cd.offset + cd.length]
    requires cd.hashOffset + cd.codeSlots * 32 <= cd.length
    requires PagePayloads(hash, cache, cd, directory, sigOffset, es, TouchedPages(es)).Ok?
    ensures var r := StageSigned(hash, cache, items, sigOffset, signature); r.Ok? && r.value.cd == cd
  {
    hide StageSigned, StagePages, ParseCodeDirectory, PagePayloads, TouchedPages, ReviewedEdits, LargestEnd, AllInOnePage;
    SignedUnfolds(hash, cache, items, es, sigOffset, signature, cd, directory);
    PagesOpen(hash, cache, es, sigOffset, cd, directory);
  }

  lemma SignedUnfolds(hash: Hash, cache: seq<byte>, items: seq<Item>, es: seq<Edit>, sigOffset: nat, signature: seq<byte>,
                      cd: CodeDirectory, directory: seq<byte>)
    requires ReviewedEdits(items, cache) == Ok(es) && es != [] && AllInOnePage(es)
    requires ParseCodeDirectory(signature, 0, LargestEnd(es)) == Ok(cd)
    requires cd.offset + cd.length <= |signature| && directory == signature[cd.offset..cd.offset + cd.length]
    requires cd.hashOffset + cd.codeSlots * 32 <= cd.length
    ensures StageSigned(hash, cache, items, sigOffset, signature) == StagePages(hash, cache, es, sigOffset, cd, directory)
  {
    hide StagePages, ParseCodeDirectory, ReviewedEdits, LargestEnd, AllInOnePage;
  }

  lemma SignedStageIff(hash: Hash, cache: seq<byte>, items: seq<Item>, sigOffset: nat, signature: seq<byte>, cd: CodeDirectory)
    ensures var r := StageSigned(hash, cache, items, sigOffset, signature);
            (r.Ok? && r.value.cd == cd <==> ReviewableSet(items, cache) && SignedFor(hash, cache, items, signature, cd))
            && (r.Ok? ==> r.value.sigOffset == sigOffset && Arranged(r.value.edits, items))
  {
    hide StageSigned, ReviewableSet, SignedFor, Arranged;
    if StageSigned(hash, cache, items, sigOffset, signature).Ok? {
      AnsweredIsSigned(hash, cache, items, sigOffset, signature);
    }
    if ReviewableSet(items, cache) && SignedFor(hash, cache, items, signature, cd) {
      SignedIsAnswered(hash, cache, items, sigOffset, signature, cd);
    }
  }

  lemma HeaderIs(cache: seq<byte>)
    requires |cache| >= 4096
    ensures U64(cache, 0x28) == Little(cache[0x28..0x30]) && U64(cache, 0x30) == Little(cache[0x30..0x38])
  {
    hide Little, U64;
    LongsAreLittle(cache, 0x28, 0);
    LongsAreLittle(cache, 0x30, 0);
  }

  /** A file and a specification are staged, with this signature and CodeDirectory, exactly when they are patchable;
      the staged edits are the items in order. */
  lemma StageIff(hash: Hash, cache: seq<byte>, items: seq<Item>, sigOffset: nat, sigSize: nat, cd: CodeDirectory)
    ensures Patchable(hash, cache, items, sigOffset, sigSize, cd) <==>
              HeaderPlaces(cache, sigOffset, sigSize)
              && Stage(hash, cache, items).Ok? && Stage(hash, cache, items).value.cd == cd
    ensures Stage(hash, cache, items).Ok? ==>
              var s := Stage(hash, cache, items).value;
              Arranged(s.edits, items) && HeaderPlaces(cache, s.sigOffset, Little(cache[0x30..0x38]))
  {
    hide StageSigned, ReviewableSet, SignedFor, Little, U64, Arranged;
    if |cache| >= 4096 {
      HeaderIs(cache);
      var so, ss := U64(cache, 0x28), U64(cache, 0x30);
      if so + ss <= |cache| {
        SignedStageIff(hash, cache, items, so, cache[so..so + ss], cd);
      }
    }
  }
}
