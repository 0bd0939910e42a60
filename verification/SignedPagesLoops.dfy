/** The loops of prepare_guarded_cache_patch.py and prepare_display_policy.py: growing lists, a slot
    dictionary, and page and CodeDirectory buffers overwritten in place. */
module SignedPagesLoops {
  import opened Results
  import opened Bytes
  import opened SignedPages

  method ReviewEdits(items: seq<Item>, source: seq<byte>) returns (r: Outcome<seq<Edit>>)
    ensures r == ReviewedEdits(items, source)
  {
    hide CheckItem;
    var edits: seq<Edit> := [];
    for i := 0 to |items|
      invariant CheckItems(items[..i], source) == Ok(edits)
    {
      assert items[..i + 1][..i] == items[..i];
      var e := CheckItem(items[i], source);
      if e.Err? {
        FailureStays(items, source, i + 1, e.error);
        return Err(e.error);
      }
      edits := edits + [e.value];
    }
    assert items[..|items|] == items;
    if edits == [] || |edits| > 32 {
      return Err(EditCount);
    }
    var sorted := SortEdits(edits);
    for i := 0 to |sorted| - 1
      invariant forall k :: 0 <= k < i ==> sorted[k].offset + |sorted[k].before| <= sorted[k + 1].offset
    {
      if sorted[i].offset + |sorted[i].before| > sorted[i + 1].offset {
        return Err(Overlapping);
      }
    }
    r := Ok(sorted);
  }

  lemma {:induction false} FailureStays(items: seq<Item>, source: seq<byte>, i: nat, e: Error)
    requires i <= |items| && CheckItems(items[..i], source) == Err(e)
    ensures CheckItems(items, source) == Err(e)
    decreases |items| - i
  {
    hide CheckItem;
    if i < |items| {
      assert items[..i + 1][..i] == items[..i];
      FailureStays(items, source, i + 1, e);
    } else {
      assert items[..i] == items;
    }
  }

  method ReadSlots(signature: seq<byte>, count: nat) returns (r: Outcome<map<nat, nat>>)
    requires 12 + count * 8 <= |signature|
    ensures r == Slots(signature, count)
  {
    hide Be32;
    var slots: map<nat, nat> := map[];
    for index := 0 to count
      invariant Slots(signature, index) == Ok(slots)
    {
      var at := 12 + index * 8;
      var slot := Be32(signature, at);
      if slot in slots {
        DuplicateStays(signature, index + 1, count);
        return Err(BadSuperBlob);
      }
      slots := slots[slot := Be32(signature, at + 4)];
    }
    r := Ok(slots);
  }

  lemma {:induction false} DuplicateStays(signature: seq<byte>, i: nat, count: nat)
    requires i <= count && 12 + count * 8 <= |signature| && Slots(signature, i) == Err(BadSuperBlob)
    ensures Slots(signature, count) == Err(BadSuperBlob)
    decreases count - i
  {
    hide Be32;
    if i < count {
      DuplicateStays(signature, i + 1, count);
    }
  }

  method Overwrite(a: array<byte>, off: nat, piece: seq<byte>)
    requires off + |piece| <= a.Length
    modifies a
    ensures a[..] == Splice(old(a[..]), off, piece)
  {
    forall i | 0 <= i < |piece| {
      a[off + i] := piece[i];
    }
    assert a[..] == Splice(old(a[..]), off, piece);
  }

  /** The page buffer after `changed[within:within + len] = after` for each edit of the page. */
  method ChangePage(changed: array<byte>, page: nat, es: seq<Edit>)
    requires changed.Length == PAGE && AllInOnePage(es)
    modifies changed
    ensures changed[..] == ChangedPage(old(changed[..]), page, es)
  {
    hide Splice;
    ghost var original := changed[..];
    for i := 0 to |es|
      invariant changed[..] == ChangedPage(original, page, es[..i])
    {
      assert es[..i + 1][..i] == es[..i];
      if es[i].offset / PAGE == page {
        WithinPage(es[i]);
        Overwrite(changed, es[i].offset % PAGE, es[i].after);
      }
    }
    assert es[..|es|] == es;
  }

  /** The loop over touched pages, with the CodeDirectory buffer updated slot by slot. */
  method RewriteSlots(hash: Hash, cache: seq<byte>, cd: CodeDirectory, directory: array<byte>, sigOffset: nat,
                      es: seq<Edit>, pages: seq<nat>) returns (r: Outcome<seq<Edit>>)
    requires directory.Length == cd.length && cd.hashOffset + cd.codeSlots * 32 <= cd.length && AllInOnePage(es)
    modifies directory
    ensures match PagePayloads(hash, cache, cd, old(directory[..]), sigOffset, es, pages)
            case Ok((payloads, rewritten)) => r == Ok(payloads) && directory[..] == rewritten
            case Err(e) => r == Err(e)
  {
    hide PagePayload, Splice, AllInOnePage;
    ghost var original := directory[..];
    var payloads: seq<Edit> := [];
    for i := 0 to |pages|
      invariant PagePayloads(hash, cache, cd, original, sigOffset, es, pages[..i]) == Ok((payloads, directory[..]))
    {
      assert pages[..i + 1][..i] == pages[..i];
      var p := PagePayload(hash, cache, cd, directory[..], sigOffset, es, pages[i]);
      if p.Err? {
        PageFailureStays(hash, cache, cd, original, sigOffset, es, pages, i + 1, p.error);
        return Err(p.error);
      }
      SlotFits(cd, pages[i]);
      Overwrite(directory, cd.SlotOf(pages[i]), p.value.after);
      payloads := payloads + [p.value];
    }
    assert pages[..|pages|] == pages;
    r := Ok(payloads);
  }

  lemma SlotFits(cd: CodeDirectory, page: nat)
    requires page < cd.codeSlots && cd.hashOffset + cd.codeSlots * 32 <= cd.length
    ensures cd.SlotOf(page) + 32 <= cd.length
  {
  }

  lemma {:induction false} PageFailureStays(hash: Hash, cache: seq<byte>, cd: CodeDirectory, directory: seq<byte>,
                                            sigOffset: nat, es: seq<Edit>, pages: seq<nat>, i: nat, e: Error)
    requires |directory| == cd.length && cd.hashOffset + cd.codeSlots * 32 <= cd.length && AllInOnePage(es)
    requires i <= |pages| && PagePayloads(hash, cache, cd, directory, sigOffset, es, pages[..i]) == Err(e)
    ensures PagePayloads(hash, cache, cd, directory, sigOffset, es, pages) == Err(e)
    decreases |pages| - i
  {
    hide PagePayload, Splice, AllInOnePage;
    if i < |pages| {
      assert pages[..i + 1][..i] == pages[..i];
      PageFailureStays(hash, cache, cd, directory, sigOffset, es, pages, i + 1, e);
    } else {
      assert pages[..i] == pages;
    }
  }
}
