/** tools/input/prepare_guarded_cache_patch.py and the CodeDirectory parser it takes from
    prepare_display_policy.py: reviewed edits of a signed file and the page hashes that go with them. */
module SignedPages {
  import opened Results
  import opened Bytes

  const PAGE := 0x4000

  /** SHA-256 as a function about which only the digest length is known. */
  type Hash = h: seq<byte> -> seq<byte> | forall s :: |h(s)| == 32 witness (s: seq<byte>) => Zeros(32)

  datatype Error =
    | BadLengths | CrossesPage | Preimage | NoOp | EditCount | Overlapping   // reviewed_edits
    | BadHeader | BadSignatureRange                                          // the cache header
    | BadSuperBlob | BadCodeDirectory | OutsideCode                          // parse_code_directory
    | TruncatedPage | PageHash                                               // the page loop

  type Outcome<+T> = Result<T, Error>

  /** `before` and `after` at `offset`: a reviewed edit, and equally a page-hash payload. */
  datatype Edit = Edit(offset: nat, before: seq<byte>, after: seq<byte>) {
    predicate Covers(i: nat) { offset <= i < offset + |before| }
    function Undo(): Edit { Edit(offset, after, before) }
  }

  // ---------- reviewed edits ----------

  datatype Item = Item(offset: int, before: seq<byte>, after: seq<byte>) {
    predicate Is(e: Edit) { offset == e.offset && before == e.before && after == e.after }
  }

  /** source.seek(offset); source.read(n): short at the end of the file. */
  function ReadAt(file: seq<byte>, offset: nat, n: nat): seq<byte> {
    if offset >= |file| then [] else if offset + n > |file| then file[offset..] else file[offset..offset + n]
  }

  function CheckItem(item: Item, source: seq<byte>): (r: Outcome<Edit>)
    ensures r.Ok? ==> item.Is(r.value)
  {
    if item.offset < 4096 || item.before == [] || |item.before| != |item.after| then Err(BadLengths)
    else if |item.before| > PAGE || item.offset / PAGE != (item.offset + |item.before| - 1) / PAGE then Err(CrossesPage)
    else if ReadAt(source, item.offset, |item.before|) != item.before then Err(Preimage)
    else if item.before == item.after then Err(NoOp)
    else Ok(Edit(item.offset, item.before, item.after))
  }

  function CheckItems(items: seq<Item>, source: seq<byte>): Outcome<seq<Edit>> {
    if items == [] then Ok([])
    else
      var init :- CheckItems(items[..|items| - 1], source);
      var last :- CheckItem(items[|items| - 1], source);
      Ok(init + [last])
  }

  /** Lexicographic order on byte strings. */
  predicate BytesLe(a: seq<byte>, b: seq<byte>) {
    a == [] || (b != [] && (a[0] < b[0] || (a[0] == b[0] && BytesLe(a[1..], b[1..]))))
  }

  /** Python's order on (offset, before, after). */
  predicate EditLe(a: Edit, b: Edit) {
    a.offset < b.offset
    || (a.offset == b.offset && (if a.before == b.before then BytesLe(a.after, b.after) else BytesLe(a.before, b.before)))
  }

  function Insert(e: Edit, sorted: seq<Edit>): seq<Edit> {
    if sorted == [] || EditLe(e, sorted[0]) then [e] + sorted else [sorted[0]] + Insert(e, sorted[1..])
  }

  function SortEdits(es: seq<Edit>): seq<Edit> {
    if es == [] then [] else Insert(es[0], SortEdits(es[1..]))
  }

  predicate AdjacentApart(es: seq<Edit>) {
    forall i :: 0 <= i < |es| - 1 ==> es[i].offset + |es[i].before| <= es[i + 1].offset
  }

  function ReviewedEdits(items: seq<Item>, source: seq<byte>): Outcome<seq<Edit>> {
    var edits :- CheckItems(items, source);
    if edits == [] || |edits| > 32 then Err(EditCount)
    else
      var sorted := SortEdits(edits);
      if AdjacentApart(sorted) then Ok(sorted) else Err(Overlapping)
  }

  // ---------- the CodeDirectory ----------

  function Be32(b: seq<byte>, off: nat): (n: nat)
    requires off + 4 <= |b|
  {
    Word(b[off + 3], b[off + 2], b[off + 1], b[off])
  }

  const SUPERBLOB_MAGIC := 0xFADE0CC0
  const CODEDIRECTORY_MAGIC := 0xFADE0C02

  /** The slot dictionary of the SuperBlob index; a repeated slot is an error. */
  function Slots(signature: seq<byte>, count: nat): Outcome<map<nat, nat>>
    requires 12 + count * 8 <= |signature|
  {
    if count == 0 then Ok(map[])
    else
      var slots :- Slots(signature, count - 1);
      var at := 12 + (count - 1) * 8;
      var slot := Be32(signature, at);
      if slot in slots then Err(BadSuperBlob) else Ok(slots[slot := Be32(signature, at + 4)])
  }

  /** The primary CodeDirectory: where it lies in the signature and where its hash table lies in it. */
  datatype CodeDirectory = CodeDirectory(offset: nat, length: nat, hashOffset: nat, codeSlots: nat, limit: nat) {
    function SlotOf(page: nat): nat { hashOffset + page * 32 }
  }

  function ParseDirectory(signature: seq<byte>, cd: nat, length: nat): Outcome<CodeDirectory>
    requires cd + 44 <= length <= |signature|
  {
    var cdLength := Be32(signature, cd + 4);
    var hashOffset, codeSlots := Be32(signature, cd + 16), Be32(signature, cd + 28);
    if Be32(signature, cd) != CODEDIRECTORY_MAGIC then Err(BadCodeDirectory)
    else if cdLength < 44 || cd + cdLength > length then Err(BadCodeDirectory)
    else if Be32(signature, cd + 12) != 2 || signature[cd + 37] != 2 || signature[cd + 36] != 32
            || signature[cd + 39] != 14 then Err(BadCodeDirectory)
    else Ok(CodeDirectory(cd, cdLength, hashOffset, codeSlots, Be32(signature, cd + 32)))
  }

  function ParseCodeDirectory(signature: seq<byte>, page: nat, required: nat): (r: Outcome<CodeDirectory>)
    ensures r.Ok? ==> r.value.offset + r.value.length <= |signature| && required <= r.value.limit
                      && page < r.value.codeSlots && r.value.hashOffset + r.value.codeSlots * 32 <= r.value.length
  {
    if |signature| < 12 then Err(BadSuperBlob)
    else
      var length, count := Be32(signature, 4), Be32(signature, 8);
      if Be32(signature, 0) != SUPERBLOB_MAGIC || length < 12 || length > |signature| then Err(BadSuperBlob)
      else if 12 + count * 8 > length then Err(BadSuperBlob)
      else
        var slots :- Slots(signature, count);
        if 0 !in slots || slots[0] < 12 + count * 8 then Err(BadSuperBlob)
        else if slots[0] + 44 > length then Err(BadCodeDirectory)
        else
          var cd :- ParseDirectory(signature, slots[0], length);
          if required > cd.limit || page >= cd.codeSlots then Err(OutsideCode)
          else if cd.hashOffset < 44 || cd.hashOffset + cd.codeSlots * 32 > cd.length then Err(BadCodeDirectory)
          else Ok(cd)
  }

  // ---------- the page loop ----------

  function Splice(s: seq<byte>, off: nat, piece: seq<byte>): (r: seq<byte>)
    requires off + |piece| <= |s|
    ensures |r| == |s|
    ensures forall i :: 0 <= i < |s| ==> r[i] == if off <= i < off + |piece| then piece[i - off] else s[i]
  {
    s[..off] + piece + s[off + |piece|..]
  }

  /** Shape facts every accepted edit has. */
  predicate InOnePage(e: Edit) {
    0 < |e.before| == |e.after| && e.offset / PAGE == (e.offset + |e.before| - 1) / PAGE
  }

  predicate AllInOnePage(es: seq<Edit>) {
    forall i :: 0 <= i < |es| ==> InOnePage(es[i])
  }

  /** The page after the edits that lie in it, in list order. */
  function ChangedPage(original: seq<byte>, page: nat, es: seq<Edit>): (r: seq<byte>)
    requires |original| == PAGE && AllInOnePage(es)
    ensures |r| == PAGE
  {
    if es == [] then original
    else
      var so_far := ChangedPage(original, page, es[..|es| - 1]);
      var e := es[|es| - 1];
      if e.offset / PAGE != page then so_far
      else
        WithinPage(e);
        Splice(so_far, e.offset % PAGE, e.after)
  }

  lemma WithinPage(e: Edit)
    requires InOnePage(e)
    ensures e.offset % PAGE + |e.after| <= PAGE
  {
    assert (e.offset + |e.before| - 1) % 0x4000 == e.offset % 0x4000 + |e.before| - 1;
  }

  /** sorted({offset // PAGE_SIZE ...}) of edits sorted by offset. */
  function TouchedPages(es: seq<Edit>): seq<nat> {
    if es == [] then []
    else
      var init := TouchedPages(es[..|es| - 1]);
      var page := es[|es| - 1].offset / PAGE;
      if init != [] && init[|init| - 1] == page then init else init + [page]
  }

  function LargestEnd(es: seq<Edit>): nat
    requires es != []
  {
    var e := es[|es| - 1];
    if |es| == 1 then e.offset + |e.before|
    else
      var rest := LargestEnd(es[..|es| - 1]);
      if rest < e.offset + |e.before| then e.offset + |e.before| else rest
  }

  /** One page's hash payload, with the CodeDirectory bytes it was read from. */
  function PagePayload(hash: Hash, cache: seq<byte>, cd: CodeDirectory, directory: seq<byte>, sigOffset: nat,
                       es: seq<Edit>, page: nat): (r: Outcome<Edit>)
    requires |directory| == cd.length && cd.hashOffset + cd.codeSlots * 32 <= cd.length
    requires AllInOnePage(es)
    ensures r.Ok? ==> page < cd.codeSlots && |r.value.before| == |r.value.after| == 32
                      && r.value.offset == sigOffset + cd.offset + cd.SlotOf(page)
  {
    var original := ReadAt(cache, page * PAGE, PAGE);
    if |original| != PAGE then Err(TruncatedPage)
    else if page >= cd.codeSlots then Err(OutsideCode)
    else
      var slot := cd.SlotOf(page);
      var oldHash := directory[slot..slot + 32];
      if hash(original) != oldHash then Err(PageHash)
      else Ok(Edit(sigOffset + cd.offset + slot, oldHash, hash(ChangedPage(original, page, es))))
  }

  /** The payloads of all touched pages and the rewritten CodeDirectory. */
  function PagePayloads(hash: Hash, cache: seq<byte>, cd: CodeDirectory, directory: seq<byte>, sigOffset: nat,
                        es: seq<Edit>, pages: seq<nat>): (r: Outcome<(seq<Edit>, seq<byte>)>)
    requires |directory| == cd.length && cd.hashOffset + cd.codeSlots * 32 <= cd.length
    requires AllInOnePage(es)
    ensures r.Ok? ==> |r.value.0| == |pages| && |r.value.1| == cd.length
  {
    if pages == [] then Ok(([], directory))
    else
      var (payloads, rewritten) :- PagePayloads(hash, cache, cd, directory, sigOffset, es, pages[..|pages| - 1]);
      var p :- PagePayload(hash, cache, cd, rewritten, sigOffset, es, pages[|pages| - 1]);
      Ok((payloads + [p], Splice(rewritten, cd.SlotOf(pages[|pages| - 1]), p.after)))
  }

  /** What is staged for the restore guest. */
  datatype Staged = Staged(edits: seq<Edit>, hashes: seq<Edit>, directory: seq<byte>, sigOffset: nat, cd: CodeDirectory) {
    function Payloads(): seq<Edit> { edits + hashes }
  }

  lemma CheckedInOnePage(items: seq<Item>, source: seq<byte>)
    requires ReviewedEdits(items, source).Ok?
    ensures ReviewedEdits(items, source).value != []
    ensures AllInOnePage(ReviewedEdits(items, source).value)
  {
    var edits := CheckItems(items, source).value;
    CheckedShape(items, source);
    SortMembers(edits);
    var sorted := SortEdits(edits);
    forall i | 0 <= i < |sorted|
      ensures InOnePage(sorted[i])
    {
      assert sorted[i] in sorted;
      var k :| 0 <= k < |edits| && edits[k] == sorted[i];
    }
  }

  lemma {:induction false} CheckedShape(items: seq<Item>, source: seq<byte>)
    requires CheckItems(items, source).Ok?
    ensures var es := CheckItems(items, source).value;
            |es| == |items| && AllInOnePage(es)
            && forall i :: 0 <= i < |es| ==> At(source, es[i].offset, es[i].before) && es[i].before != es[i].after
                                             && items[i].Is(es[i])
  {
    if items != [] {
      CheckedShape(items[..|items| - 1], source);
    }
  }

  lemma {:induction false} InsertMembers(e: Edit, es: seq<Edit>)
    ensures |Insert(e, es)| == |es| + 1 && forall x :: x in Insert(e, es) <==> x == e || x in es
  {
    if es != [] && !EditLe(e, es[0]) {
      InsertMembers(e, es[1..]);
      assert es == [es[0]] + es[1..];
    }
  }

  lemma {:induction false} SortMembers(es: seq<Edit>)
    ensures |SortEdits(es)| == |es| && forall x :: x in SortEdits(es) <==> x in es
  {
    if es != [] {
      SortMembers(es[1..]);
      InsertMembers(es[0], SortEdits(es[1..]));
      assert es == [es[0]] + es[1..];
    }
  }

  function Stage(hash: Hash, cache: seq<byte>, items: seq<Item>): Outcome<Staged> {
    if |cache| < 4096 || cache[..4] != [100, 121, 108, 100] then Err(BadHeader)
    else
      var sigOffset, sigSize := U64(cache, 0x28), U64(cache, 0x30);
      if sigOffset + sigSize > |cache| then Err(BadSignatureRange)
      else StageSigned(hash, cache, items, sigOffset, cache[sigOffset..sigOffset + sigSize])
  }

  function StageSigned(hash: Hash, cache: seq<byte>, items: seq<Item>, sigOffset: nat, signature: seq<byte>)
    : Outcome<Staged>
  {
    var edits :- ReviewedEdits(items, cache);
    CheckedInOnePage(items, cache);
    var cd :- ParseCodeDirectory(signature, 0, LargestEnd(edits));
    StagePages(hash, cache, edits, sigOffset, cd, signature[cd.offset..cd.offset + cd.length])
  }

  function StagePages(hash: Hash, cache: seq<byte>, edits: seq<Edit>, sigOffset: nat, cd: CodeDirectory, directory: seq<byte>)
    : Outcome<Staged>
    requires |directory| == cd.length && cd.hashOffset + cd.codeSlots * 32 <= cd.length && AllInOnePage(edits)
  {
    var (hashes, rewritten) :- PagePayloads(hash, cache, cd, directory, sigOffset, edits, TouchedPages(edits));
    Ok(Staged(edits, hashes, rewritten, sigOffset, cd))
  }

  // ---------- writing payloads ----------

  /** dd conv=notrunc of one payload. */
  function Write(file: seq<byte>, e: Edit): (r: seq<byte>)
    requires e.offset + |e.after| <= |file|
    ensures |r| == |file|
  {
    Splice(file, e.offset, e.after)
  }

  predicate AllFit(size: nat, es: seq<Edit>) {
    forall i :: 0 <= i < |es| ==> es[i].offset + |es[i].after| <= size && |es[i].before| == |es[i].after|
  }

  function WriteAll(file: seq<byte>, es: seq<Edit>): (r: seq<byte>)
    requires AllFit(|file|, es)
    ensures |r| == |file|
  {
    if es == [] then file else Write(WriteAll(file, es[..|es| - 1]), es[|es| - 1])
  }
}
