/** What a staged patch does to the signed file. */
module SignedPagesStaged {
  import opened Results
  import opened Bytes
  import opened SignedPages
  import opened SignedPagesProofs

  // ---------- edits below, hash slots above ----------

  /** Edits lie apart, slots lie apart, and every edit ends before every slot starts. */
  predicate Separated(size: nat, es: seq<Edit>, hs: seq<Edit>) {
    && Apart(es) && Apart(hs)
    && (forall i, k :: 0 <= i < |es| && 0 <= k < |hs| ==> es[i].offset + |es[i].before| <= hs[k].offset)
    && AllFit(size, es) && AllFit(size, hs)
  }

  lemma SeparatedCompatible(size: nat, es: seq<Edit>, hs: seq<Edit>)
    requires Separated(size, es, hs)
    ensures AllFit(size, es + hs) && Compatible(es + hs)
  {
    var all := es + hs;
    forall i, j | 0 <= i < j < |all|
      ensures all[i].offset + |all[i].before| <= all[j].offset
    {
      if j >= |es| && i >= |es| {
        assert hs[i - |es|].offset + |hs[i - |es|].before| <= hs[j - |es|].offset;
      }
    }
    ApartCompatible(all);
  }

  lemma ApartCompatible(all: seq<Edit>)
    requires Apart(all)
    ensures Compatible(all)
  {
    forall i, j | 0 <= i < |all| && 0 <= j < |all|
      ensures all[i] == all[j] || !Meet(all[i], all[j])
    {
      if i < j {
        assert all[i].offset + |all[i].before| <= all[j].offset;
      } else if j < i {
        assert all[j].offset + |all[j].before| <= all[i].offset;
      }
    }
  }

  lemma BothPresent(file: seq<byte>, es: seq<Edit>, hs: seq<Edit>)
    requires AllPresent(file, es) && AllPresent(file, hs)
    ensures AllPresent(file, es + hs)
  {
  }

  /** The patched file: what any order of the writes leaves. */
  function Patched(cache: seq<byte>, es: seq<Edit>, hs: seq<Edit>): (f: seq<byte>)
    requires Separated(|cache|, es, hs)
    ensures |f| == |cache|
  {
    SeparatedCompatible(|cache|, es, hs);
    WriteAll(cache, es + hs)
  }

  /** One byte of the patched file. */
  lemma PatchedAt(cache: seq<byte>, es: seq<Edit>, hs: seq<Edit>, a: nat)
    requires Separated(|cache|, es, hs) && a < |cache|
    ensures Untouched(es, a) && Untouched(hs, a) ==> Patched(cache, es, hs)[a] == cache[a]
    ensures forall k :: 0 <= k < |es| && es[k].Covers(a) ==> Patched(cache, es, hs)[a] == es[k].after[a - es[k].offset]
    ensures forall k :: 0 <= k < |hs| && hs[k].Covers(a) ==> Patched(cache, es, hs)[a] == hs[k].after[a - hs[k].offset]
  {
    hide WriteAll, Separated, Compatible;
    Fits(|cache|, es, hs);
    SeparatedCompatible(|cache|, es, hs);
    var all := es + hs;
    WriteAllAt(cache, all, a);
    forall k | 0 <= k < |hs| && hs[k].Covers(a)
      ensures WriteAll(cache, all)[a] == hs[k].after[a - hs[k].offset]
    {
      assert all[|es| + k] == hs[k];
    }
    forall k | 0 <= k < |es| && es[k].Covers(a)
      ensures WriteAll(cache, all)[a] == es[k].after[a - es[k].offset]
    {
      assert all[k] == es[k];
    }
  }

  lemma Fits(size: nat, es: seq<Edit>, hs: seq<Edit>)
    requires Separated(size, es, hs)
    ensures AllFit(size, es) && AllFit(size, hs)
  {
  }

  /** The bytes a payload writes are in the patched file. */
  lemma PayloadWritten(cache: seq<byte>, es: seq<Edit>, hs: seq<Edit>, p: Edit)
    requires Separated(|cache|, es, hs) && (p in es || p in hs)
    ensures At(Patched(cache, es, hs), p.offset, p.after)
  {
    hide Separated, Patched;
    Fits(|cache|, es, hs);
    forall i | 0 <= i < |p.after|
      ensures p.offset + i < |cache| && Patched(cache, es, hs)[p.offset + i] == p.after[i]
    {
      PatchedAt(cache, es, hs, p.offset + i);
      assert p.Covers(p.offset + i);
    }
  }

  // ---------- pages ----------

  lemma EditInPage(e: Edit, page: nat, i: nat)
    requires InOnePage(e) && i < PAGE
    ensures e.Covers(page * PAGE + i) <==> e.offset / PAGE == page && e.offset % PAGE <= i < e.offset % PAGE + |e.before|
    ensures e.offset / PAGE == page ==> page * PAGE + i - e.offset == i - e.offset % PAGE
  {
    assert e.offset == e.offset / 0x4000 * 0x4000 + e.offset % 0x4000;
    if e.Covers(page * PAGE + i) {
      var last := e.offset + |e.before| - 1;
      assert (page * 0x4000 + i) / 0x4000 == page;
      PageMonotone(e.offset, page * PAGE + i);
      PageMonotone(page * PAGE + i, last);
    }
  }

  lemma AllInOnePagePrefix(es: seq<Edit>)
    requires AllInOnePage(es) && Apart(es) && es != []
    ensures AllInOnePage(es[..|es| - 1]) && Apart(es[..|es| - 1]) && InOnePage(es[|es| - 1])
  {
  }

  /** A byte outside the edits is the original's. */
  lemma {:induction false} ChangedPageMiss(original: seq<byte>, page: nat, es: seq<Edit>, i: nat)
    requires |original| == PAGE && i < PAGE && Apart(es) && AllInOnePage(es) && Untouched(es, page * PAGE + i)
    ensures ChangedPage(original, page, es)[i] == original[i]
    decreases |es|
  {
    if es != [] {
      var n := |es| - 1;
      AllInOnePagePrefix(es);
      assert forall k :: 0 <= k < n ==> es[..n][k] == es[k];
      ChangedPageMiss(original, page, es[..n], i);
      EditInPage(es[n], page, i);
      WithinPage(es[n]);
    }
  }

  /** A byte of an edit is the edit's. */
  lemma {:induction false} ChangedPageHit(original: seq<byte>, page: nat, es: seq<Edit>, i: nat, k: nat)
    requires |original| == PAGE && i < PAGE && Apart(es) && AllInOnePage(es)
    requires k < |es| && es[k].Covers(page * PAGE + i)
    ensures |es[k].after| == |es[k].before|
    ensures ChangedPage(original, page, es)[i] == es[k].after[page * PAGE + i - es[k].offset]
    decreases |es|
  {
    hide InOnePage, Apart;
    var n := |es| - 1;
    AllInOnePagePrefix(es);
    EditInPage(es[n], page, i);
    EqualLengths(es[n]);
    WithinPage(es[n]);
    if k < n {
      ApartAt(es, k, n);
      ChangedPageHit(original, page, es[..n], i, k);
    }
  }

  lemma ApartAt(es: seq<Edit>, i: nat, j: nat)
    requires Apart(es) && i < j < |es|
    ensures es[i].offset + |es[i].before| <= es[j].offset
  {
  }

  lemma EqualLengths(e: Edit)
    requires InOnePage(e)
    ensures |e.before| == |e.after|
  {
  }

  lemma WholePage(cache: seq<byte>, page: nat)
    requires |ReadAt(cache, page * PAGE, PAGE)| == PAGE
    ensures (page + 1) * PAGE <= |cache|
    ensures ReadAt(cache, page * PAGE, PAGE) == cache[page * PAGE..(page + 1) * PAGE]
  {
  }

  /** The page whose hash is staged. */
  function Expected(cache: seq<byte>, es: seq<Edit>, page: nat): (p: seq<byte>)
    requires |ReadAt(cache, page * PAGE, PAGE)| == PAGE && AllInOnePage(es)
    ensures |p| == PAGE
  {
    ChangedPage(ReadAt(cache, page * PAGE, PAGE), page, es)
  }

  /** One byte of it: the edit's, or the file's. */
  lemma ExpectedAt(cache: seq<byte>, es: seq<Edit>, page: nat, a: nat)
    requires |ReadAt(cache, page * PAGE, PAGE)| == PAGE && AllInOnePage(es) && Apart(es)
    requires page * PAGE <= a < (page + 1) * PAGE
    ensures a < |cache|
    ensures Untouched(es, a) ==> Expected(cache, es, page)[a - page * PAGE] == cache[a]
    ensures forall k :: 0 <= k < |es| && es[k].Covers(a) ==>
              a - es[k].offset < |es[k].after| && Expected(cache, es, page)[a - page * PAGE] == es[k].after[a - es[k].offset]
  {
    hide ChangedPage, ReadAt, AllInOnePage, Apart;
    WholePage(cache, page);
    var original := ReadAt(cache, page * PAGE, PAGE);
    assert original[a - page * PAGE] == cache[a];
    if Untouched(es, a) {
      ChangedPageMiss(original, page, es, a - page * PAGE);
    }
    forall k | 0 <= k < |es| && es[k].Covers(a)
      ensures a - es[k].offset < |es[k].after|
      ensures Expected(cache, es, page)[a - page * PAGE] == es[k].after[a - es[k].offset]
    {
      ChangedPageHit(original, page, es, a - page * PAGE, k);
    }
  }

  /** Every slot byte that falls in this page is rewritten with what it held. */
  predicate SlotsSilent(hs: seq<Edit>, page: nat) {
    forall k, a :: 0 <= k < |hs| && page * PAGE <= a < (page + 1) * PAGE && SlotByte(hs[k], a)
      ==> hs[k].after[a - hs[k].offset] == hs[k].before[a - hs[k].offset]
  }

  predicate SlotByte(h: Edit, a: nat) {
    h.Covers(a) && a - h.offset < |h.after|
  }

  lemma SlotOutsideEdits(size: nat, es: seq<Edit>, hs: seq<Edit>, k: nat, a: nat)
    requires Separated(size, es, hs) && k < |hs| && hs[k].Covers(a)
    ensures Untouched(es, a)
  {
  }

  lemma SeparatedApart(size: nat, es: seq<Edit>, hs: seq<Edit>)
    requires Separated(size, es, hs)
    ensures Apart(es)
  {
  }

  lemma PageByte(cache: seq<byte>, es: seq<Edit>, hs: seq<Edit>, page: nat, a: nat)
    requires Separated(|cache|, es, hs) && AllInOnePage(es) && AllPresent(cache, hs)
    requires |ReadAt(cache, page * PAGE, PAGE)| == PAGE && page * PAGE <= a < (page + 1) * PAGE
    ensures a < |cache|
    ensures Untouched(hs, a) ==> Patched(cache, es, hs)[a] == Expected(cache, es, page)[a - page * PAGE]
    ensures forall k :: 0 <= k < |hs| && SlotByte(hs[k], a) ==>
              Patched(cache, es, hs)[a] == hs[k].after[a - hs[k].offset]
              && Expected(cache, es, page)[a - page * PAGE] == hs[k].before[a - hs[k].offset]
  {
    hide Separated, AllInOnePage, Patched, Expected, ReadAt;
    SeparatedApart(|cache|, es, hs);
    ExpectedAt(cache, es, page, a);
    PatchedAt(cache, es, hs, a);
    forall k | 0 <= k < |hs| && SlotByte(hs[k], a)
      ensures Expected(cache, es, page)[a - page * PAGE] == hs[k].before[a - hs[k].offset]
    {
      SlotOutsideEdits(|cache|, es, hs, k, a);
      PresentByte(cache, hs[k], a);
    }
    if Untouched(hs, a) && !Untouched(es, a) {
      var k :| 0 <= k < |es| && es[k].Covers(a);
    }
  }

  /** A touched page of the patched file is the page its hash was taken over if and only if the hash slots
      that reach into it happen to be rewritten with what they held. */
  lemma PageAsHashedIff(cache: seq<byte>, es: seq<Edit>, hs: seq<Edit>, page: nat)
    requires Separated(|cache|, es, hs) && AllInOnePage(es) && AllPresent(cache, hs)
    requires |ReadAt(cache, page * PAGE, PAGE)| == PAGE
    ensures (page + 1) * PAGE <= |cache|
    ensures (Patched(cache, es, hs)[page * PAGE..(page + 1) * PAGE] == Expected(cache, es, page)) <==> SlotsSilent(hs, page)
  {
    hide Separated, AllInOnePage, AllPresent, Patched, Expected, ReadAt;
    WholePage(cache, page);
    Fits(|cache|, es, hs);
    var f := Patched(cache, es, hs)[page * PAGE..(page + 1) * PAGE];
    if SlotsSilent(hs, page) {
      forall i | 0 <= i < PAGE
        ensures f[i] == Expected(cache, es, page)[i]
      {
        var a := page * PAGE + i;
        PageByte(cache, es, hs, page, a);
        if !Untouched(hs, a) {
          var k :| 0 <= k < |hs| && hs[k].Covers(a);
          assert SlotByte(hs[k], a);
        }
      }
      assert f == Expected(cache, es, page);
    }
    if f == Expected(cache, es, page) {
      forall k, a | 0 <= k < |hs| && page * PAGE <= a < (page + 1) * PAGE && SlotByte(hs[k], a)
        ensures hs[k].after[a - hs[k].offset] == hs[k].before[a - hs[k].offset]
      {
        PageByte(cache, es, hs, page, a);
        assert f[a - page * PAGE] == Expected(cache, es, page)[a - page * PAGE];
      }
    }
  }

  /** No hash slot reaches into this page. */
  predicate PageClear(hs: seq<Edit>, page: nat) {
    forall k :: 0 <= k < |hs| ==> hs[k].offset + |hs[k].before| <= page * PAGE || (page + 1) * PAGE <= hs[k].offset
  }

  // ---------- the page loop ----------

  /** The payload of one page, against the CodeDirectory as it was read from the file. */
  predicate PayloadFor(hash: Hash, cache: seq<byte>, cd: CodeDirectory, directory: seq<byte>, sigOffset: nat,
                       es: seq<Edit>, page: nat, p: Edit)
    requires |directory| == cd.length && AllInOnePage(es)
  {
    var slot := cd.SlotOf(page);
    && slot + 32 <= cd.length && |ReadAt(cache, page * PAGE, PAGE)| == PAGE
    && p.offset == sigOffset + cd.offset + slot
    && p.before == directory[slot..slot + 32] && p.before == hash(ReadAt(cache, page * PAGE, PAGE))
    && p.after == hash(Expected(cache, es, page))
  }

  predicate InSlot(cd: CodeDirectory, page: nat, i: nat) { cd.SlotOf(page) <= i < cd.SlotOf(page) + 32 }

  /** Byte `i` of the rewritten CodeDirectory: the digest's where a slot lies, else the old one. */
  predicate ByteRule(cd: CodeDirectory, directory: seq<byte>, pages: seq<nat>, payloads: seq<Edit>, rewritten: seq<byte>, i: nat)
    requires |payloads| == |pages| && i < |rewritten| == |directory|
  {
    && ((forall k :: 0 <= k < |pages| ==> !InSlot(cd, pages[k], i)) ==> rewritten[i] == directory[i])
    && (forall k :: 0 <= k < |pages| && InSlot(cd, pages[k], i) ==>
          |payloads[k].after| == 32 && rewritten[i] == payloads[k].after[i - cd.SlotOf(pages[k])])
  }

  lemma ByteStep(cd: CodeDirectory, directory: seq<byte>, pages: seq<nat>, payloads: seq<Edit>, mid: seq<byte>, i: nat)
    requires pages != [] && |payloads| == |pages| && i < |mid| == |directory|
    requires ByteRule(cd, directory, pages[..|pages| - 1], payloads[..|pages| - 1], mid, i)
    requires var init := pages[..|pages| - 1]; forall p :: p in init ==> p < pages[|pages| - 1]
    requires cd.SlotOf(pages[|pages| - 1]) + 32 <= |mid| && |payloads[|pages| - 1].after| == 32
    ensures ByteRule(cd, directory, pages, payloads,
                     Splice(mid, cd.SlotOf(pages[|pages| - 1]), payloads[|pages| - 1].after), i)
  {
    hide InSlot, Splice;
    var n := |pages| - 1;
    var init := pages[..n];
    SplicedSlot(cd, mid, pages[n], payloads[n].after, i);
    SlotMeaning(cd, pages[n], i);
    forall k | 0 <= k < n
      ensures init[k] == pages[k] && payloads[..n][k] == payloads[k] && !(InSlot(cd, pages[k], i) && InSlot(cd, pages[n], i))
    {
      assert init[k] in init;
      SlotsApart(cd, pages[k], pages[n], i);
    }
  }

  lemma SlotMeaning(cd: CodeDirectory, page: nat, i: nat)
    ensures InSlot(cd, page, i) ==> 0 <= i - cd.SlotOf(page) < 32
  {
  }

  lemma {:induction false} RewrittenAt(hash: Hash, cache: seq<byte>, cd: CodeDirectory, directory: seq<byte>,
                                       sigOffset: nat, es: seq<Edit>, pages: seq<nat>, i: nat)
    requires |directory| == cd.length && cd.hashOffset + cd.codeSlots * 32 <= cd.length && AllInOnePage(es)
    requires StrictlyAscending(pages) && PagePayloads(hash, cache, cd, directory, sigOffset, es, pages).Ok?
    requires i < cd.length
    ensures var (payloads, rewritten) := PagePayloads(hash, cache, cd, directory, sigOffset, es, pages).value;
            ByteRule(cd, directory, pages, payloads, rewritten, i)
    decreases |pages|
  {
    hide PagePayloads, AllInOnePage, ByteRule, Splice;
    if pages == [] {
      NoPages(hash, cache, cd, directory, sigOffset, es);
      NothingRewritten(cd, directory, i);
    } else {
      AscendingPrefix(pages);
      var payloads, mid := LastPage(hash, cache, cd, directory, sigOffset, es, pages);
      RewrittenAt(hash, cache, cd, directory, sigOffset, es, pages[..|pages| - 1], i);
      ByteStep(cd, directory, pages, payloads, mid, i);
    }
  }

  lemma NothingRewritten(cd: CodeDirectory, directory: seq<byte>, i: nat)
    requires i < |directory|
    ensures ByteRule(cd, directory, [], [], directory, i)
  {
  }

  lemma NoPages(hash: Hash, cache: seq<byte>, cd: CodeDirectory, directory: seq<byte>, sigOffset: nat, es: seq<Edit>)
    requires |directory| == cd.length && cd.hashOffset + cd.codeSlots * 32 <= cd.length && AllInOnePage(es)
    ensures PagePayloads(hash, cache, cd, directory, sigOffset, es, []) == Ok(([], directory))
  {
  }

  /** The payloads of all pages, and the CodeDirectory before the last of them was written into it. */
  lemma LastPage(hash: Hash, cache: seq<byte>, cd: CodeDirectory, directory: seq<byte>, sigOffset: nat, es: seq<Edit>,
                 pages: seq<nat>) returns (payloads: seq<Edit>, mid: seq<byte>)
    requires |directory| == cd.length && cd.hashOffset + cd.codeSlots * 32 <= cd.length && AllInOnePage(es)
    requires pages != [] && PagePayloads(hash, cache, cd, directory, sigOffset, es, pages).Ok?
    ensures var n := |pages| - 1;
            && |payloads| == |pages| && |mid| == cd.length && cd.SlotOf(pages[n]) + 32 <= cd.length && |payloads[n].after| == 32
            && PagePayloads(hash, cache, cd, directory, sigOffset, es, pages[..n]) == Ok((payloads[..n], mid))
            && PagePayloads(hash, cache, cd, directory, sigOffset, es, pages)
               == Ok((payloads, Splice(mid, cd.SlotOf(pages[n]), payloads[n].after)))
  {
    hide PagePayload, AllInOnePage, Splice;
    var n := |pages| - 1;
    var (init, m) := PagePayloads(hash, cache, cd, directory, sigOffset, es, pages[..n]).value;
    mid := m;
    var p := PagePayload(hash, cache, cd, mid, sigOffset, es, pages[n]).value;
    SlotInside(cd, mid, hash, cache, sigOffset, es, pages[n]);
    payloads := init + [p];
    assert payloads[..n] == init;
  }

  lemma SplicedSlot(cd: CodeDirectory, mid: seq<byte>, page: nat, after: seq<byte>, i: nat)
    requires cd.SlotOf(page) + 32 <= |mid| && |after| == 32 && i < |mid|
    ensures Splice(mid, cd.SlotOf(page), after)[i] == if InSlot(cd, page, i) then after[i - cd.SlotOf(page)] else mid[i]
  {
  }

  lemma SlotsApart(cd: CodeDirectory, p: nat, q: nat, i: nat)
    requires p < q
    ensures !(InSlot(cd, p, i) && InSlot(cd, q, i))
  {
  }

  /** The loop reads every slot before it overwrites it, because the pages are distinct. */
  lemma {:induction false} PayloadShape(hash: Hash, cache: seq<byte>, cd: CodeDirectory, directory: seq<byte>,
                                        sigOffset: nat, es: seq<Edit>, pages: seq<nat>, k: nat)
    requires |directory| == cd.length && cd.hashOffset + cd.codeSlots * 32 <= cd.length && AllInOnePage(es)
    requires StrictlyAscending(pages) && PagePayloads(hash, cache, cd, directory, sigOffset, es, pages).Ok?
    requires k < |pages|
    ensures PayloadFor(hash, cache, cd, directory, sigOffset, es, pages[k],
                       PagePayloads(hash, cache, cd, directory, sigOffset, es, pages).value.0[k])
    decreases |pages|
  {
    hide AllInOnePage, ReadAt, Expected, PagePayload, PayloadFor, StrictlyAscending;
    var n := |pages| - 1;
    var init := pages[..n];
    AscendingPrefix(pages);
    if k < n {
      assert init[k] == pages[k];
      PayloadShape(hash, cache, cd, directory, sigOffset, es, init, k);
    } else {
      var mid := PagePayloads(hash, cache, cd, directory, sigOffset, es, init).value.1;
      LastPayload(hash, cache, cd, mid, sigOffset, es, pages[n]);
      SlotInside(cd, mid, hash, cache, sigOffset, es, pages[n]);
      LaterSlotUntouched(hash, cache, cd, directory, sigOffset, es, pages);
      SameSlot(hash, cache, cd, directory, mid, sigOffset, es, pages[n],
               PagePayload(hash, cache, cd, mid, sigOffset, es, pages[n]).value);
    }
  }

  lemma SlotInside(cd: CodeDirectory, mid: seq<byte>, hash: Hash, cache: seq<byte>, sigOffset: nat, es: seq<Edit>, page: nat)
    requires |mid| == cd.length && cd.hashOffset + cd.codeSlots * 32 <= cd.length && AllInOnePage(es)
    requires PagePayload(hash, cache, cd, mid, sigOffset, es, page).Ok?
    ensures cd.SlotOf(page) + 32 <= cd.length
  {
    hide ReadAt, ChangedPage;
  }

  lemma SameSlot(hash: Hash, cache: seq<byte>, cd: CodeDirectory, directory: seq<byte>, mid: seq<byte>, sigOffset: nat,
                 es: seq<Edit>, page: nat, p: Edit)
    requires |mid| == |directory| == cd.length && AllInOnePage(es) && cd.SlotOf(page) + 32 <= cd.length
    requires mid[cd.SlotOf(page)..cd.SlotOf(page) + 32] == directory[cd.SlotOf(page)..cd.SlotOf(page) + 32]
    requires PayloadFor(hash, cache, cd, mid, sigOffset, es, page, p)
    ensures PayloadFor(hash, cache, cd, directory, sigOffset, es, page, p)
  {
    hide ReadAt, Expected, AllInOnePage;
  }

  lemma LaterSlotUntouched(hash: Hash, cache: seq<byte>, cd: CodeDirectory, directory: seq<byte>, sigOffset: nat,
                           es: seq<Edit>, pages: seq<nat>)
    requires |directory| == cd.length && cd.hashOffset + cd.codeSlots * 32 <= cd.length && AllInOnePage(es)
    requires pages != [] && StrictlyAscending(pages)
    requires PagePayloads(hash, cache, cd, directory, sigOffset, es, pages[..|pages| - 1]).Ok?
    requires cd.SlotOf(pages[|pages| - 1]) + 32 <= cd.length
    ensures var mid := PagePayloads(hash, cache, cd, directory, sigOffset, es, pages[..|pages| - 1]).value.1;
            var slot := cd.SlotOf(pages[|pages| - 1]);
            mid[slot..slot + 32] == directory[slot..slot + 32]
  {
    hide AllInOnePage, PagePayloads, StrictlyAscending;
    var n := |pages| - 1;
    var init := pages[..n];
    AscendingPrefix(pages);
    var mid := PagePayloads(hash, cache, cd, directory, sigOffset, es, init).value.1;
    var slot := cd.SlotOf(pages[n]);
    forall i | slot <= i < slot + 32
      ensures mid[i] == directory[i]
    {
      RewrittenAt(hash, cache, cd, directory, sigOffset, es, init, i);
      forall j | 0 <= j < n
        ensures !InSlot(cd, init[j], i)
      {
        assert init[j] in init;
      }
    }
    assert mid[slot..slot + 32] == directory[slot..slot + 32];
  }

  lemma AscendingPrefix(pages: seq<nat>)
    requires pages != [] && StrictlyAscending(pages)
    ensures StrictlyAscending(pages[..|pages| - 1])
    ensures var init := pages[..|pages| - 1]; forall p :: p in init ==> p < pages[|pages| - 1]
  {
  }

  lemma LastPayload(hash: Hash, cache: seq<byte>, cd: CodeDirectory, mid: seq<byte>, sigOffset: nat,
                    es: seq<Edit>, page: nat)
    requires |mid| == cd.length && cd.hashOffset + cd.codeSlots * 32 <= cd.length && AllInOnePage(es)
    requires PagePayload(hash, cache, cd, mid, sigOffset, es, page).Ok?
    ensures PayloadFor(hash, cache, cd, mid, sigOffset, es, page,
                       PagePayload(hash, cache, cd, mid, sigOffset, es, page).value)
  {
    hide ReadAt, ChangedPage;
  }

  // ---------- a staged patch ----------

  /** The signature starts at or after the end of the code it covers. */
  predicate SignatureAboveCode(s: Staged) { s.cd.limit <= s.sigOffset }

  /** The CodeDirectory bytes of the unpatched file. */
  function Directory(cache: seq<byte>, s: Staged): (d: seq<byte>)
    requires s.sigOffset + s.cd.offset + s.cd.length <= |cache|
    ensures |d| == s.cd.length
  {
    cache[s.sigOffset + s.cd.offset..s.sigOffset + s.cd.offset + s.cd.length]
  }

  /** The edits of a staged patch. */
  predicate EditsOf(cache: seq<byte>, s: Staged) {
    && s.edits != [] && Ascending(s.edits) && Apart(s.edits) && AllPresent(cache, s.edits) && AllFit(|cache|, s.edits)
    && AllInOnePage(s.edits)
    && forall i :: 0 <= i < |s.edits| ==> s.edits[i].offset + |s.edits[i].before| <= s.cd.limit
  }

  /** The hash payloads of a staged patch. */
  predicate HashesOf(hash: Hash, cache: seq<byte>, s: Staged) {
    && AllInOnePage(s.edits) && Ascending(s.edits)
    && s.cd.hashOffset + s.cd.codeSlots * 32 <= s.cd.length
    && s.sigOffset + s.cd.offset + s.cd.length <= |cache|
    && PagePayloads(hash, cache, s.cd, Directory(cache, s), s.sigOffset, s.edits, TouchedPages(s.edits))
       == Ok((s.hashes, s.directory))
  }

  lemma {:induction false} LargestEndBounds(es: seq<Edit>, i: nat)
    requires i < |es|
    ensures es[i].offset + |es[i].before| <= LargestEnd(es)
    decreases |es|
  {
    if i < |es| - 1 {
      LargestEndBounds(es[..|es| - 1], i);
    }
  }

  lemma ReviewedShape(items: seq<Item>, cache: seq<byte>)
    requires ReviewedEdits(items, cache).Ok?
    ensures var es := ReviewedEdits(items, cache).value;
            es != [] && Ascending(es) && Apart(es) && AllPresent(cache, es) && AllFit(|cache|, es) && AllInOnePage(es)
  {
    hide InOnePage;
    var edits := CheckItems(items, cache).value;
    CheckedShape(items, cache);
    CheckedInOnePage(items, cache);
    SortAscending(edits);
    SortMembers(edits);
    var es := SortEdits(edits);
    AdjacentIsPairwise(es);
    forall i | 0 <= i < |es|
      ensures At(cache, es[i].offset, es[i].before) && |es[i].before| == |es[i].after|
    {
      assert es[i] in edits;
      EqualLengths(es[i]);
    }
  }

  /** What was checked and computed on the way to a staged patch, on the signature's own bytes. */
  ghost predicate Opened(hash: Hash, cache: seq<byte>, items: seq<Item>, s: Staged, signature: seq<byte>,
                         directory: seq<byte>) {
    && ReviewedEdits(items, cache) == Ok(s.edits) && s.edits != [] && AllInOnePage(s.edits)
    && ParseCodeDirectory(signature, 0, LargestEnd(s.edits)) == Ok(s.cd)
    && s.cd.offset + s.cd.length <= |signature| && s.cd.hashOffset + s.cd.codeSlots * 32 <= s.cd.length
    && directory == signature[s.cd.offset..s.cd.offset + s.cd.length]
    && PagePayloads(hash, cache, s.cd, directory, s.sigOffset, s.edits, TouchedPages(s.edits)) == Ok((s.hashes, s.directory))
  }

  /** The signature as it was read from the file. */
  function Region(cache: seq<byte>, off: nat, size: nat): (r: seq<byte>)
    requires off + size <= |cache|
    ensures |r| == size
  {
    cache[off..off + size]
  }

  lemma StageParts(hash: Hash, cache: seq<byte>, items: seq<Item>)
    requires Stage(hash, cache, items).Ok?
    ensures var s := Stage(hash, cache, items).value;
            ReviewedEdits(items, cache) == Ok(s.edits) && EditsOf(cache, s) && HashesOf(hash, cache, s)
  {
    hide Stage, Opened, EditsOf, HashesOf, Region;
    var s := Stage(hash, cache, items).value;
    var sigSize, directory := StageOpens(hash, cache, items);
    OpenedEdits(hash, cache, items, s, Region(cache, s.sigOffset, sigSize), directory);
    OpenedHashes(hash, cache, items, s, sigSize, directory);
  }

  lemma OpenedEdits(hash: Hash, cache: seq<byte>, items: seq<Item>, s: Staged, signature: seq<byte>,
                    directory: seq<byte>)
    requires Opened(hash, cache, items, s, signature, directory)
    ensures ReviewedEdits(items, cache) == Ok(s.edits) && EditsOf(cache, s)
  {
    hide ParseCodeDirectory, PagePayloads, TouchedPages, ReviewedEdits, AllInOnePage, LargestEnd;
    ReviewedShape(items, cache);
    forall i | 0 <= i < |s.edits|
      ensures s.edits[i].offset + |s.edits[i].before| <= s.cd.limit
    {
      LargestEndBounds(s.edits, i);
    }
  }

  lemma OpenedHashes(hash: Hash, cache: seq<byte>, items: seq<Item>, s: Staged, sigSize: nat, directory: seq<byte>)
    requires s.sigOffset + sigSize <= |cache|
    requires Opened(hash, cache, items, s, Region(cache, s.sigOffset, sigSize), directory)
    ensures HashesOf(hash, cache, s)
  {
    hide ParseCodeDirectory, PagePayloads, TouchedPages, ReviewedEdits, AllInOnePage, LargestEnd, Directory;
    ReviewedShape(items, cache);
    SameDirectory(cache, s, sigSize, directory);
  }

  lemma SameDirectory(cache: seq<byte>, s: Staged, sigSize: nat, directory: seq<byte>)
    requires s.sigOffset + sigSize <= |cache| && s.cd.offset + s.cd.length <= sigSize
    requires directory == Region(cache, s.sigOffset, sigSize)[s.cd.offset..s.cd.offset + s.cd.length]
    ensures directory == Directory(cache, s)
  {
    SliceOfSlice(cache, s.sigOffset, s.sigOffset + sigSize, s.cd.offset, s.cd.offset + s.cd.length);
  }

  lemma StageOpens(hash: Hash, cache: seq<byte>, items: seq<Item>) returns (sigSize: nat, directory: seq<byte>)
    requires Stage(hash, cache, items).Ok?
    ensures var s := Stage(hash, cache, items).value;
            s.sigOffset + sigSize <= |cache|
            && Opened(hash, cache, items, s, Region(cache, s.sigOffset, sigSize), directory)
  {
    hide Stage, StageSigned, Opened, Region;
    var sigOffset;
    sigOffset, sigSize := SignatureOf(hash, cache, items);
    var s := Stage(hash, cache, items).value;
    directory := SignedOpens(hash, cache, items, sigOffset, Region(cache, sigOffset, sigSize));
  }

  lemma SignatureOf(hash: Hash, cache: seq<byte>, items: seq<Item>) returns (sigOffset: nat, sigSize: nat)
    requires Stage(hash, cache, items).Ok?
    ensures sigOffset + sigSize <= |cache|
    ensures Stage(hash, cache, items) == StageSigned(hash, cache, items, sigOffset, Region(cache, sigOffset, sigSize))
  {
    hide StageSigned, U64;
    sigOffset, sigSize := U64(cache, 0x28), U64(cache, 0x30);
  }

  lemma SignedOpens(hash: Hash, cache: seq<byte>, items: seq<Item>, sigOffset: nat, signature: seq<byte>)
    returns (directory: seq<byte>)
    requires StageSigned(hash, cache, items, sigOffset, signature).Ok?
    ensures var s := StageSigned(hash, cache, items, sigOffset, signature).value;
            s.sigOffset == sigOffset && Opened(hash, cache, items, s, signature, directory)
  {
    hide ParseCodeDirectory, StagePages, ReviewedEdits, LargestEnd, AllInOnePage, PagePayloads, TouchedPages;
    CheckedInOnePage(items, cache);
    var edits := ReviewedEdits(items, cache).value;
    var cd := ParseCodeDirectory(signature, 0, LargestEnd(edits)).value;
    directory := signature[cd.offset..cd.offset + cd.length];
    PagesOpen(hash, cache, edits, sigOffset, cd, directory);
  }

  lemma PagesOpen(hash: Hash, cache: seq<byte>, edits: seq<Edit>, sigOffset: nat, cd: CodeDirectory, directory: seq<byte>)
    requires |directory| == cd.length && cd.hashOffset + cd.codeSlots * 32 <= cd.length && AllInOnePage(edits)
    ensures var r := StagePages(hash, cache, edits, sigOffset, cd, directory);
            var loop := PagePayloads(hash, cache, cd, directory, sigOffset, edits, TouchedPages(edits));
            (r.Ok? <==> loop.Ok?) && (r.Ok? ==> r.value == Staged(edits, loop.value.0, loop.value.1, sigOffset, cd))
  {
    hide PagePayloads, TouchedPages, AllInOnePage;
  }

  /** Everything about the k-th hash payload. */
  lemma HashAt(hash: Hash, cache: seq<byte>, s: Staged, k: nat)
    requires HashesOf(hash, cache, s) && k < |s.hashes|
    ensures k < |TouchedPages(s.edits)|
    ensures PayloadFor(hash, cache, s.cd, Directory(cache, s), s.sigOffset, s.edits, TouchedPages(s.edits)[k], s.hashes[k])
    ensures |s.hashes[k].before| == |s.hashes[k].after| == 32 && s.hashes[k].offset + 32 <= |cache|
    ensures At(cache, s.hashes[k].offset, s.hashes[k].before)
  {
    hide HashesOf, TouchedPages, PayloadFor, At, AllInOnePage, Directory;
    DirectoryFits(hash, cache, s);
    PayloadAt(hash, cache, s, k);
    PayloadPlaced(hash, cache, s, TouchedPages(s.edits)[k], s.hashes[k]);
  }

  lemma PayloadPlaced(hash: Hash, cache: seq<byte>, s: Staged, page: nat, p: Edit)
    requires AllInOnePage(s.edits) && s.sigOffset + s.cd.offset + s.cd.length <= |cache|
    requires PayloadFor(hash, cache, s.cd, Directory(cache, s), s.sigOffset, s.edits, page, p)
    ensures |p.before| == |p.after| == 32 && p.offset + 32 <= |cache| && At(cache, p.offset, p.before)
  {
    hide PayloadFor, AllInOnePage, At, Directory;
    var slot := PayloadSlot(hash, cache, s, page, p);
    DirectoryIs(cache, s);
    SlotPlaced(cache, s.sigOffset + s.cd.offset, Directory(cache, s), slot, p);
  }

  lemma SlotPlaced(cache: seq<byte>, base: nat, directory: seq<byte>, slot: nat, p: Edit)
    requires At(cache, base, directory) && slot + 32 <= |directory|
    requires p.offset == base + slot && p.before == directory[slot..slot + 32]
    ensures At(cache, p.offset, p.before)
  {
    hide At;
    SlotAt(cache, base, directory, slot);
  }

  lemma PayloadSlot(hash: Hash, cache: seq<byte>, s: Staged, page: nat, p: Edit) returns (slot: nat)
    requires AllInOnePage(s.edits) && s.sigOffset + s.cd.offset + s.cd.length <= |cache|
    requires PayloadFor(hash, cache, s.cd, Directory(cache, s), s.sigOffset, s.edits, page, p)
    ensures slot + 32 <= s.cd.length && p.offset == s.sigOffset + s.cd.offset + slot
    ensures p.before == Directory(cache, s)[slot..slot + 32] && |p.after| == 32
  {
    hide ReadAt, Expected, AllInOnePage, Directory;
    slot := s.cd.SlotOf(page);
  }

  lemma DirectoryIs(cache: seq<byte>, s: Staged)
    requires s.sigOffset + s.cd.offset + s.cd.length <= |cache|
    ensures At(cache, s.sigOffset + s.cd.offset, Directory(cache, s))
  {
  }

  lemma SlotAt(data: seq<byte>, base: nat, directory: seq<byte>, slot: nat)
    requires At(data, base, directory) && slot + 32 <= |directory|
    ensures At(data, base + slot, directory[slot..slot + 32])
  {
    SliceOfSlice(data, base, base + |directory|, slot, slot + 32);
  }

  lemma PayloadAt(hash: Hash, cache: seq<byte>, s: Staged, k: nat)
    requires HashesOf(hash, cache, s) && k < |s.hashes|
    ensures k < |TouchedPages(s.edits)|
    ensures PayloadFor(hash, cache, s.cd, Directory(cache, s), s.sigOffset, s.edits, TouchedPages(s.edits)[k], s.hashes[k])
  {
    hide PagePayloads, TouchedPages, ReadAt, AllInOnePage, Expected, PayloadFor;
    TouchedPagesExact(s.edits);
    PayloadShape(hash, cache, s.cd, Directory(cache, s), s.sigOffset, s.edits, TouchedPages(s.edits), k);
  }

  /** Hash slots of different pages lie apart. */
  lemma HashesApart(hash: Hash, cache: seq<byte>, s: Staged)
    requires HashesOf(hash, cache, s)
    ensures Apart(s.hashes) && AllFit(|cache|, s.hashes) && AllPresent(cache, s.hashes)
    ensures forall k :: 0 <= k < |s.hashes| ==> s.sigOffset <= s.hashes[k].offset
  {
    hide TouchedPages, HashesOf, At;
    forall k | 0 <= k < |s.hashes|
      ensures s.sigOffset <= s.hashes[k].offset && s.hashes[k].offset + |s.hashes[k].after| <= |cache|
      ensures |s.hashes[k].before| == |s.hashes[k].after| && At(cache, s.hashes[k].offset, s.hashes[k].before)
    {
      SlotPlace(hash, cache, s, k);
    }
    forall i, j | 0 <= i < j < |s.hashes|
      ensures s.hashes[i].offset + |s.hashes[i].before| <= s.hashes[j].offset
    {
      SlotPlace(hash, cache, s, i);
      SlotPlace(hash, cache, s, j);
      PagesAscend(hash, cache, s);
    }
  }

  lemma PagesAscend(hash: Hash, cache: seq<byte>, s: Staged)
    requires HashesOf(hash, cache, s)
    ensures StrictlyAscending(TouchedPages(s.edits)) && |s.hashes| == |TouchedPages(s.edits)|
  {
    hide PagePayloads, AllInOnePage;
    TouchedPagesExact(s.edits);
  }

  lemma SlotPlace(hash: Hash, cache: seq<byte>, s: Staged, k: nat)
    requires HashesOf(hash, cache, s) && k < |s.hashes|
    ensures k < |TouchedPages(s.edits)|
    ensures s.hashes[k].offset == s.sigOffset + s.cd.offset + s.cd.hashOffset + TouchedPages(s.edits)[k] * 32
    ensures |s.hashes[k].before| == |s.hashes[k].after| == 32 && s.hashes[k].offset + 32 <= |cache|
    ensures At(cache, s.hashes[k].offset, s.hashes[k].before)
  {
    hide TouchedPages, HashesOf, At;
    HashAt(hash, cache, s, k);
  }

  /** The payloads of a staged patch with the signature above the code. */
  lemma StageSeparated(hash: Hash, cache: seq<byte>, s: Staged)
    requires EditsOf(cache, s) && HashesOf(hash, cache, s) && SignatureAboveCode(s)
    ensures Separated(|cache|, s.edits, s.hashes) && AllPresent(cache, s.Payloads())
  {
    hide HashesOf;
    HashesApart(hash, cache, s);
    BothPresent(cache, s.edits, s.hashes);
  }

  /** For an accepted edit set with the signature above the code: every preimage check of the installer
      passes, the writes may come in any order, only payload bytes change, and undoing restores the source. */
  lemma PatchIsOrderFreeAndReversible(hash: Hash, cache: seq<byte>, items: seq<Item>, writes: seq<Edit>, undo: seq<Edit>)
    requires Stage(hash, cache, items).Ok? && SignatureAboveCode(Stage(hash, cache, items).value)
    requires SameMembers(Stage(hash, cache, items).value.Payloads(), writes)
    requires SameMembers(UndoAll(Stage(hash, cache, items).value.Payloads()), undo)
    ensures var s := Stage(hash, cache, items).value;
            && Separated(|cache|, s.edits, s.hashes) && AllPresent(cache, s.Payloads())
            && AllFit(|cache|, writes) && WriteAll(cache, writes) == Patched(cache, s.edits, s.hashes)
            && AllFit(|cache|, undo) && WriteAll(Patched(cache, s.edits, s.hashes), undo) == cache
            && forall i :: 0 <= i < |cache| && Untouched(s.edits, i) && Untouched(s.hashes, i) ==>
                 Patched(cache, s.edits, s.hashes)[i] == cache[i]
  {
    hide Stage, WriteAll, SameMembers, EditsOf, HashesOf, Separated, Compatible, AllPresent;
    var s := Stage(hash, cache, items).value;
    StageParts(hash, cache, items);
    StageSeparated(hash, cache, s);
    SeparatedCompatible(|cache|, s.edits, s.hashes);
    AnyOrderSameFile(cache, s.Payloads(), writes);
    UndoRestores(cache, s.Payloads(), undo);
    forall i | 0 <= i < |cache| && Untouched(s.edits, i) && Untouched(s.hashes, i)
      ensures Patched(cache, s.edits, s.hashes)[i] == cache[i]
    {
      PatchedAt(cache, s.edits, s.hashes, i);
    }
  }

  /** Each touched page that no slot reaches into hashes, in the patched file, to the slot written for it. */
  lemma TouchedPageMatchesSlot(hash: Hash, cache: seq<byte>, s: Staged, k: nat)
    requires EditsOf(cache, s) && HashesOf(hash, cache, s) && SignatureAboveCode(s)
    requires k < |TouchedPages(s.edits)| && PageClear(s.hashes, TouchedPages(s.edits)[k])
    ensures Separated(|cache|, s.edits, s.hashes)
    ensures var page := TouchedPages(s.edits)[k];
            var slot := s.sigOffset + s.cd.offset + s.cd.SlotOf(page);
            var f := Patched(cache, s.edits, s.hashes);
            && (page + 1) * PAGE <= |f| && slot + 32 <= |f| && f[slot..slot + 32] == hash(f[page * PAGE..(page + 1) * PAGE])
  {
    hide TouchedPages, EditsOf, HashesOf, Separated, Patched, Expected, AllPresent, At, PayloadFor, PageClear, SlotsSilent, ReadAt;
    PagesAscend(hash, cache, s);
    StageSeparated(hash, cache, s);
    HashesApart(hash, cache, s);
    InPages(cache, s);
    var page := TouchedPages(s.edits)[k];
    var expected := DigestOf(hash, cache, s, k);
    PageAsHashedIff(cache, s.edits, s.hashes, page);
    ClearIsSilent(s.hashes, page);
    PayloadWritten(cache, s.edits, s.hashes, s.hashes[k]);
    DigestInPlace(hash, Patched(cache, s.edits, s.hashes), s.hashes[k].offset, s.hashes[k].after, page * PAGE,
                  (page + 1) * PAGE, expected);
  }

  lemma ClearIsSilent(hs: seq<Edit>, page: nat)
    requires PageClear(hs, page)
    ensures SlotsSilent(hs, page)
  {
  }

  /** The k-th digest, where it goes, and of what it is. */
  lemma DigestOf(hash: Hash, cache: seq<byte>, s: Staged, k: nat) returns (expected: seq<byte>)
    requires HashesOf(hash, cache, s) && AllInOnePage(s.edits) && k < |s.hashes| && k < |TouchedPages(s.edits)|
    ensures var page := TouchedPages(s.edits)[k];
            && |ReadAt(cache, page * PAGE, PAGE)| == PAGE && expected == Expected(cache, s.edits, page)
            && s.hashes[k].offset == s.sigOffset + s.cd.offset + s.cd.SlotOf(page)
            && |s.hashes[k].after| == 32 && s.hashes[k].after == hash(expected) && s.hashes[k] in s.hashes
  {
    hide HashesOf, TouchedPages, Expected, At, AllInOnePage, ReadAt;
    HashAt(hash, cache, s, k);
    expected := Expected(cache, s.edits, TouchedPages(s.edits)[k]);
  }

  lemma DigestInPlace(hash: Hash, f: seq<byte>, slot: nat, digest: seq<byte>, a: nat, b: nat, expected: seq<byte>)
    requires At(f, slot, digest) && |digest| == 32 && digest == hash(expected)
    requires a <= b <= |f| && f[a..b] == expected
    ensures slot + 32 <= |f| && f[slot..slot + 32] == hash(f[a..b])
  {
  }

  lemma InPages(cache: seq<byte>, s: Staged)
    requires EditsOf(cache, s)
    ensures AllInOnePage(s.edits)
  {
  }

  /** A page-aligned signature at or above the code limit keeps every touched page clear of the slots. */
  lemma AlignedSignatureIsClear(hash: Hash, cache: seq<byte>, s: Staged, page: nat)
    requires EditsOf(cache, s) && HashesOf(hash, cache, s) && SignatureAboveCode(s)
    requires s.sigOffset % PAGE == 0 && Touches(s.edits, page)
    ensures PageClear(s.hashes, page)
  {
    hide HashesOf;
    HashesApart(hash, cache, s);
    var j :| 0 <= j < |s.edits| && s.edits[j].offset / PAGE == page;
    LastByteBelow(s.edits[j], s.sigOffset);
  }

  lemma LastByteBelow(e: Edit, limit: nat)
    requires e.offset + |e.before| <= limit && limit % 0x4000 == 0 && InOnePage(e)
    ensures (e.offset / PAGE + 1) * PAGE <= limit
  {
    PageMonotone(e.offset + |e.before| - 1, limit - 1);
    assert limit == limit / 0x4000 * 0x4000;
  }

  /** The CodeDirectory of the patched file is the one whose hash goes into the trust cache. */
  lemma PatchedDirectory(hash: Hash, cache: seq<byte>, s: Staged)
    requires EditsOf(cache, s) && HashesOf(hash, cache, s) && SignatureAboveCode(s)
    ensures Separated(|cache|, s.edits, s.hashes) && s.sigOffset + s.cd.offset + s.cd.length <= |cache|
    ensures var d := s.sigOffset + s.cd.offset;
            Patched(cache, s.edits, s.hashes)[d..d + s.cd.length] == s.directory
  {
    hide EditsOf, HashesOf, Patched, Separated;
    StageSeparated(hash, cache, s);
    DirectoryFits(hash, cache, s);
    var d := s.sigOffset + s.cd.offset;
    var f := Patched(cache, s.edits, s.hashes);
    forall i | 0 <= i < s.cd.length
      ensures f[d + i] == s.directory[i]
    {
      DirectoryByte(hash, cache, s, i);
    }
  }

  lemma DirectoryFits(hash: Hash, cache: seq<byte>, s: Staged)
    requires HashesOf(hash, cache, s)
    ensures s.sigOffset + s.cd.offset + s.cd.length <= |cache| && |s.directory| == s.cd.length && AllInOnePage(s.edits)
  {
  }

  lemma DirectoryByte(hash: Hash, cache: seq<byte>, s: Staged, i: nat)
    requires EditsOf(cache, s) && HashesOf(hash, cache, s) && SignatureAboveCode(s)
    requires i < s.cd.length && |s.directory| == s.cd.length && s.sigOffset + s.cd.offset + s.cd.length <= |cache|
    ensures Separated(|cache|, s.edits, s.hashes)
    ensures Patched(cache, s.edits, s.hashes)[s.sigOffset + s.cd.offset + i] == s.directory[i]
  {
    hide EditsOf, HashesOf, Patched, Separated, AllPresent;
    StageSeparated(hash, cache, s);
    var a := s.sigOffset + s.cd.offset + i;
    PatchedAt(cache, s.edits, s.hashes, a);
    SignatureUntouched(cache, s, a);
    if k :| 0 <= k < |s.hashes| && s.hashes[k].Covers(a) {
      WrittenByte(hash, cache, s, i, k);
    } else {
      KeptByte(hash, cache, s, i);
    }
  }

  lemma DirectoryRule(hash: Hash, cache: seq<byte>, s: Staged, i: nat)
    requires HashesOf(hash, cache, s) && i < s.cd.length && |s.directory| == s.cd.length
    ensures s.sigOffset + s.cd.offset + s.cd.length <= |cache| && |s.hashes| == |TouchedPages(s.edits)|
    ensures ByteRule(s.cd, Directory(cache, s), TouchedPages(s.edits), s.hashes, s.directory, i)
  {
    hide PagePayloads, TouchedPages, AllInOnePage, ByteRule;
    PagesAscend(hash, cache, s);
    RewrittenAt(hash, cache, s.cd, Directory(cache, s), s.sigOffset, s.edits, TouchedPages(s.edits), i);
  }

  lemma WrittenByte(hash: Hash, cache: seq<byte>, s: Staged, i: nat, k: nat)
    requires HashesOf(hash, cache, s) && i < s.cd.length && |s.directory| == s.cd.length && k < |s.hashes|
    requires s.hashes[k].Covers(s.sigOffset + s.cd.offset + i)
    ensures var at := s.sigOffset + s.cd.offset + i - s.hashes[k].offset;
            at < |s.hashes[k].after| && s.directory[i] == s.hashes[k].after[at]
  {
    hide HashesOf, TouchedPages, InSlot;
    DirectoryRule(hash, cache, s, i);
    SlotCovers(hash, cache, s, k, i);
    SlotMeaning(s.cd, TouchedPages(s.edits)[k], i);
  }

  lemma KeptByte(hash: Hash, cache: seq<byte>, s: Staged, i: nat)
    requires HashesOf(hash, cache, s) && i < s.cd.length && |s.directory| == s.cd.length
    requires forall k :: 0 <= k < |s.hashes| ==> !s.hashes[k].Covers(s.sigOffset + s.cd.offset + i)
    ensures Untouched(s.hashes, s.sigOffset + s.cd.offset + i)
    ensures s.sigOffset + s.cd.offset + i < |cache| && s.directory[i] == cache[s.sigOffset + s.cd.offset + i]
  {
    hide HashesOf, TouchedPages, InSlot;
    DirectoryRule(hash, cache, s, i);
    forall k | 0 <= k < |s.hashes|
      ensures !InSlot(s.cd, TouchedPages(s.edits)[k], i)
    {
      SlotCovers(hash, cache, s, k, i);
    }
  }

  lemma SlotCovers(hash: Hash, cache: seq<byte>, s: Staged, k: nat, i: nat)
    requires HashesOf(hash, cache, s) && k < |s.hashes|
    ensures k < |TouchedPages(s.edits)|
    ensures s.hashes[k].Covers(s.sigOffset + s.cd.offset + i) <==> InSlot(s.cd, TouchedPages(s.edits)[k], i)
    ensures s.sigOffset + s.cd.offset + i - s.hashes[k].offset == i - s.cd.SlotOf(TouchedPages(s.edits)[k])
  {
    hide HashesOf, TouchedPages;
    SlotPlace(hash, cache, s, k);
  }

  lemma SignatureUntouched(cache: seq<byte>, s: Staged, a: nat)
    requires EditsOf(cache, s) && SignatureAboveCode(s) && s.sigOffset <= a
    ensures Untouched(s.edits, a)
  {
  }

  lemma {:induction false} FirstFailureWins(items: seq<Item>, source: seq<byte>, e: Error)
    requires items != [] && CheckItem(items[0], source) == Err(e)
    ensures CheckItems(items, source) == Err(e)
    decreases |items|
  {
    hide CheckItem;
    if |items| > 1 {
      FirstFailureWins(items[..|items| - 1], source, e);
    } else {
      assert items[..0] == [];
    }
  }

  lemma FirstItem(items: seq<Item>, cache: seq<byte>) returns (e: Edit)
    requires ReviewedEdits(items, cache).Ok?
    ensures items != [] && items[0].Is(e) && e in ReviewedEdits(items, cache).value && e.before != e.after
    ensures |e.before| == |e.after| && CheckItem(items[0], cache).Ok?
  {
    hide CheckItem, InOnePage;
    CheckedShape(items, cache);
    var edits := CheckItems(items, cache).value;
    SortMembers(edits);
    e := edits[0];
    EqualLengths(e);
    if CheckItem(items[0], cache).Err? {
      FirstFailureWins(items, cache, CheckItem(items[0], cache).error);
    }
  }

  /** A second run over the patched file stops at the first edit's preimage. */
  lemma SecondRunStops(hash: Hash, cache: seq<byte>, items: seq<Item>)
    requires Stage(hash, cache, items).Ok? && SignatureAboveCode(Stage(hash, cache, items).value)
    ensures var s := Stage(hash, cache, items).value;
            Separated(|cache|, s.edits, s.hashes)
            && ReviewedEdits(items, Patched(cache, s.edits, s.hashes)) == Err(Preimage)
  {
    hide Stage, EditsOf, HashesOf, Separated, Patched, AllPresent, CheckItems;
    var s := Stage(hash, cache, items).value;
    StageParts(hash, cache, items);
    StageSeparated(hash, cache, s);
    var f := Patched(cache, s.edits, s.hashes);
    var e := FirstItem(items, cache);
    PayloadWritten(cache, s.edits, s.hashes, e);
    assert f[e.offset..e.offset + |e.after|] == e.after;
    FirstFailureWins(items, f, Preimage);
  }
}
