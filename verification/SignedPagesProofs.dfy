/** Accepted edit sets commute, can be undone, and leave every touched page matching its hash slot. */
module SignedPagesProofs {
  import opened Results
  import opened Bytes
  import opened SignedPages
  import Arithmetic

  predicate Meet(a: Edit, b: Edit) {
    a.offset < b.offset + |b.before| && b.offset < a.offset + |a.before|
  }

  // ---------- sorting and the adjacent check ----------

  predicate Ascending(es: seq<Edit>) {
    forall i, j :: 0 <= i < j < |es| ==> es[i].offset <= es[j].offset
  }

  lemma {:induction false} InsertAscending(e: Edit, es: seq<Edit>)
    requires Ascending(es)
    ensures Ascending(Insert(e, es))
  {
    if es != [] && !EditLe(e, es[0]) {
      InsertAscending(e, es[1..]);
      InsertMembers(e, es[1..]);
      var rest := Insert(e, es[1..]);
      forall j | 0 <= j < |rest|
        ensures es[0].offset <= rest[j].offset
      {
        assert rest[j] in rest;
        if rest[j] != e {
          var k :| 0 <= k < |es[1..]| && es[1..][k] == rest[j];
          assert es[k + 1] == rest[j];
        }
      }
    }
  }

  lemma {:induction false} SortAscending(es: seq<Edit>)
    ensures Ascending(SortEdits(es))
  {
    if es != [] {
      SortAscending(es[1..]);
      InsertAscending(es[0], SortEdits(es[1..]));
    }
  }

  predicate Apart(es: seq<Edit>) {
    forall i, j :: 0 <= i < j < |es| ==> es[i].offset + |es[i].before| <= es[j].offset
  }

  /** The adjacent check on the sorted list is the check of all pairs. */
  lemma {:induction false} AdjacentIsPairwise(es: seq<Edit>)
    requires AdjacentApart(es)
    ensures Apart(es)
    decreases |es|
  {
    if |es| > 1 {
      var init := es[..|es| - 1];
      AdjacentIsPairwise(init);
      forall i | 0 <= i < |es| - 1
        ensures es[i].offset + |es[i].before| <= es[|es| - 1].offset
      {
        assert es[|es| - 2].offset + |es[|es| - 2].before| <= es[|es| - 1].offset;
        if i < |es| - 2 {
          assert init[i].offset + |init[i].before| <= init[|es| - 2].offset;
        }
      }
      forall i, j | 0 <= i < j < |es|
        ensures es[i].offset + |es[i].before| <= es[j].offset
      {
        if j < |es| - 1 {
          assert init[i].offset + |init[i].before| <= init[j].offset;
        }
      }
    }
  }

  predicate PairsApart(es: seq<Edit>) {
    forall i, j :: 0 <= i < |es| && 0 <= j < |es| && i != j ==> !Meet(es[i], es[j])
  }

  lemma {:induction false} InsertPairs(e: Edit, es: seq<Edit>)
    ensures PairsApart(Insert(e, es)) <==> PairsApart(es) && forall i :: 0 <= i < |es| ==> !Meet(e, es[i])
    decreases |es|
  {
    if es == [] || EditLe(e, es[0]) {
      ConsPairs(e, es);
    } else {
      var rest := Insert(e, es[1..]);
      InsertPairs(e, es[1..]);
      ConsPairs(es[0], rest);
      ConsPairs(es[0], es[1..]);
      assert [es[0]] + es[1..] == es;
      InsertMembers(e, es[1..]);
      MembersApart(es[0], rest, e, es[1..]);
    }
  }

  lemma ConsPairs(x: Edit, es: seq<Edit>)
    ensures PairsApart([x] + es) <==> PairsApart(es) && forall i :: 0 <= i < |es| ==> !Meet(x, es[i])
  {
    var all := [x] + es;
    if PairsApart(all) {
      forall i, j | 0 <= i < |es| && 0 <= j < |es| && i != j
        ensures !Meet(es[i], es[j])
      {
        assert !Meet(all[i + 1], all[j + 1]);
      }
      forall i | 0 <= i < |es|
        ensures !Meet(x, es[i])
      {
        assert !Meet(all[0], all[i + 1]);
      }
    }
  }

  lemma MembersApart(x: Edit, rest: seq<Edit>, e: Edit, es: seq<Edit>)
    requires forall y :: y in rest <==> y == e || y in es
    ensures (forall i :: 0 <= i < |rest| ==> !Meet(x, rest[i])) <==>
            !Meet(x, e) && forall i :: 0 <= i < |es| ==> !Meet(x, es[i])
  {
    if forall i :: 0 <= i < |rest| ==> !Meet(x, rest[i]) {
      assert e in rest;
      forall i | 0 <= i < |es|
        ensures !Meet(x, es[i])
      {
        assert es[i] in rest;
      }
    }
    if !Meet(x, e) && forall i :: 0 <= i < |es| ==> !Meet(x, es[i]) {
      forall i | 0 <= i < |rest|
        ensures !Meet(x, rest[i])
      {
        assert rest[i] in rest;
      }
    }
  }

  lemma {:induction false} SortPairs(es: seq<Edit>)
    ensures PairsApart(SortEdits(es)) <==> PairsApart(es)
    decreases |es|
  {
    if es != [] {
      SortPairs(es[1..]);
      var sorted := SortEdits(es[1..]);
      InsertPairs(es[0], sorted);
      ConsPairs(es[0], es[1..]);
      assert [es[0]] + es[1..] == es;
      SortMembers(es[1..]);
      SameMembersApart(es[0], sorted, es[1..]);
    }
  }

  lemma SameMembersApart(x: Edit, a: seq<Edit>, b: seq<Edit>)
    requires forall y :: y in a <==> y in b
    ensures (forall i :: 0 <= i < |a| ==> !Meet(x, a[i])) <==> (forall i :: 0 <= i < |b| ==> !Meet(x, b[i]))
  {
    if forall i :: 0 <= i < |a| ==> !Meet(x, a[i]) {
      forall i | 0 <= i < |b|
        ensures !Meet(x, b[i])
      {
        assert b[i] in a;
      }
    }
    if forall i :: 0 <= i < |b| ==> !Meet(x, b[i]) {
      forall i | 0 <= i < |a|
        ensures !Meet(x, a[i])
      {
        assert a[i] in b;
      }
    }
  }

  lemma SortedApartIff(es: seq<Edit>)
    requires Ascending(es) && AllInOnePage(es)
    ensures AdjacentApart(es) <==> PairsApart(es)
  {
    if AdjacentApart(es) {
      AdjacentIsPairwise(es);
    }
    if PairsApart(es) {
      forall i | 0 <= i < |es| - 1
        ensures es[i].offset + |es[i].before| <= es[i + 1].offset
      {
        assert !Meet(es[i], es[i + 1]);
      }
    }
  }

  /** A checked set of 1 to 32 edits is rejected as overlapping exactly when two of them share a byte. */
  lemma OverlapCheckIsExact(items: seq<Item>, source: seq<byte>)
    requires CheckItems(items, source).Ok? && 1 <= |items| <= 32
    ensures ReviewedEdits(items, source).Ok? <==> PairsApart(CheckItems(items, source).value)
    ensures ReviewedEdits(items, source).Err? ==> ReviewedEdits(items, source) == Err(Overlapping)
  {
    hide Meet, InOnePage;
    var es := CheckItems(items, source).value;
    CheckedShape(items, source);
    SortMembers(es);
    var sorted := SortEdits(es);
    SortAscending(es);
    SortPairs(es);
    forall i | 0 <= i < |sorted|
      ensures InOnePage(sorted[i])
    {
      assert sorted[i] in es;
    }
    SortedApartIff(sorted);
  }

  // ---------- writes ----------

  /** Any two different payloads of the list lie apart; repeating one is harmless. */
  predicate Compatible(es: seq<Edit>) {
    forall i, j :: 0 <= i < |es| && 0 <= j < |es| ==> es[i] == es[j] || !Meet(es[i], es[j])
  }

  predicate Untouched(es: seq<Edit>, i: nat) {
    forall k :: 0 <= k < |es| ==> !es[k].Covers(i)
  }

  /** Byte `i` of a file after some writes: a covered byte is its payload's and any other byte is the source's. */
  predicate Written(file: seq<byte>, es: seq<Edit>, after: seq<byte>, i: nat)
    requires i < |file| == |after| && AllFit(|file|, es)
  {
    && (Untouched(es, i) ==> after[i] == file[i])
    && (forall k :: 0 <= k < |es| && es[k].Covers(i) ==> after[i] == es[k].after[i - es[k].offset])
  }

  lemma {:induction false} WriteAllAt(file: seq<byte>, es: seq<Edit>, i: nat)
    requires AllFit(|file|, es) && Compatible(es) && i < |file|
    ensures Written(file, es, WriteAll(file, es), i)
    decreases |es|
  {
    hide Written, Compatible, AllFit;
    if es == [] {
      NothingWritten(file, i);
    } else {
      InitCompatible(|file|, es);
      WriteAllAt(file, es[..|es| - 1], i);
      LastWritten(file, es, i);
      WrittenStep(file, es, WriteAll(file, es[..|es| - 1]), WriteAll(file, es), i);
    }
  }

  lemma NothingWritten(file: seq<byte>, i: nat)
    requires i < |file|
    ensures AllFit(|file|, []) && Written(file, [], WriteAll(file, []), i)
  {
  }

  lemma WrittenStep(file: seq<byte>, es: seq<Edit>, before: seq<byte>, after: seq<byte>, i: nat)
    requires es != [] && AllFit(|file|, es) && AllFit(|file|, es[..|es| - 1]) && Compatible(es)
    requires i < |file| == |before| == |after| && Written(file, es[..|es| - 1], before, i)
    requires var e := es[|es| - 1];
             |e.before| == |e.after| && after[i] == if e.Covers(i) then e.after[i - e.offset] else before[i]
    ensures Written(file, es, after, i)
  {
    var n := |es| - 1;
    var init := es[..n];
    InitUntouched(es, i);
    forall k | 0 <= k < |es| && es[k].Covers(i)
      ensures after[i] == es[k].after[i - es[k].offset]
    {
      if es[n].Covers(i) {
        assert Meet(es[k], es[n]);
      } else {
        assert init[k] == es[k];
      }
    }
  }

  lemma InitCompatible(size: nat, es: seq<Edit>)
    requires es != [] && AllFit(size, es) && Compatible(es)
    ensures AllFit(size, es[..|es| - 1]) && Compatible(es[..|es| - 1])
  {
  }

  lemma InitUntouched(es: seq<Edit>, i: nat)
    requires es != []
    ensures Untouched(es, i) ==> Untouched(es[..|es| - 1], i)
  {
  }

  lemma LastWritten(file: seq<byte>, es: seq<Edit>, i: nat)
    requires es != [] && AllFit(|file|, es) && AllFit(|file|, es[..|es| - 1]) && i < |file|
    ensures var e := es[|es| - 1];
            |e.before| == |e.after|
            && WriteAll(file, es)[i] == if e.Covers(i) then e.after[i - e.offset] else WriteAll(file, es[..|es| - 1])[i]
  {
    hide WriteAll, AllFit;
    WriteAllUnfolds(file, es);
    WriteAt(WriteAll(file, es[..|es| - 1]), es[|es| - 1], i);
  }

  lemma WriteAllUnfolds(file: seq<byte>, es: seq<Edit>)
    requires es != [] && AllFit(|file|, es)
    ensures AllFit(|file|, es[..|es| - 1]) && es[|es| - 1].offset + |es[|es| - 1].after| <= |file|
    ensures |es[|es| - 1].before| == |es[|es| - 1].after|
    ensures WriteAll(file, es) == Write(WriteAll(file, es[..|es| - 1]), es[|es| - 1])
  {
    hide Write;
  }

  lemma WriteAt(file: seq<byte>, e: Edit, i: nat)
    requires e.offset + |e.after| <= |file| && |e.before| == |e.after| && i < |file|
    ensures Write(file, e)[i] == if e.Covers(i) then e.after[i - e.offset] else file[i]
  {
  }

  predicate SameMembers(a: seq<Edit>, b: seq<Edit>) {
    (forall i :: 0 <= i < |a| ==> a[i] in b) && (forall i :: 0 <= i < |b| ==> b[i] in a)
  }

  lemma MembersCompatible(size: nat, a: seq<Edit>, b: seq<Edit>)
    requires SameMembers(a, b) && Compatible(a) && AllFit(size, a)
    ensures Compatible(b) && AllFit(size, b)
  {
    forall i | 0 <= i < |b|
      ensures b[i].offset + |b[i].after| <= size && |b[i].before| == |b[i].after|
    {
      assert b[i] in a;
    }
    forall i, j | 0 <= i < |b| && 0 <= j < |b|
      ensures b[i] == b[j] || !Meet(b[i], b[j])
    {
      var k :| 0 <= k < |a| && a[k] == b[i];
      var l :| 0 <= l < |a| && a[l] == b[j];
      assert a[k] == a[l] || !Meet(a[k], a[l]);
    }
  }

  /** The order, and even the repetition, of the writes does not matter. */
  lemma AnyOrderSameFile(file: seq<byte>, a: seq<Edit>, b: seq<Edit>)
    requires SameMembers(a, b) && Compatible(a) && AllFit(|file|, a)
    ensures AllFit(|file|, b) && WriteAll(file, a) == WriteAll(file, b)
  {
    MembersCompatible(|file|, a, b);
    forall i | 0 <= i < |file|
      ensures WriteAll(file, a)[i] == WriteAll(file, b)[i]
    {
      WriteAllAt(file, a, i);
      WriteAllAt(file, b, i);
      if Untouched(a, i) {
        UntouchedAlike(b, a, i);
      } else {
        var k :| 0 <= k < |a| && a[k].Covers(i);
        var l :| 0 <= l < |b| && b[l] == a[k];
      }
    }
  }

  lemma UntouchedAlike(b: seq<Edit>, a: seq<Edit>, i: nat)
    requires SameMembers(a, b) && Untouched(a, i)
    ensures Untouched(b, i)
  {
    forall l | 0 <= l < |b|
      ensures !b[l].Covers(i)
    {
      assert b[l] in a;
    }
  }

  function UndoAll(es: seq<Edit>): seq<Edit> {
    seq(|es|, i requires 0 <= i < |es| => es[i].Undo())
  }

  predicate AllPresent(file: seq<byte>, es: seq<Edit>) {
    forall i :: 0 <= i < |es| ==> At(file, es[i].offset, es[i].before)
  }

  lemma UndoCompatible(size: nat, es: seq<Edit>)
    requires AllFit(size, es) && Compatible(es)
    ensures AllFit(size, UndoAll(es)) && Compatible(UndoAll(es))
  {
    var u := UndoAll(es);
    forall i, j | 0 <= i < |u| && 0 <= j < |u|
      ensures u[i] == u[j] || !Meet(u[i], u[j])
    {
      assert es[i] == es[j] || !Meet(es[i], es[j]);
    }
  }

  /** Writing the `before` bytes back, in any order, restores the source. */
  lemma UndoRestores(file: seq<byte>, es: seq<Edit>, undo: seq<Edit>)
    requires AllFit(|file|, es) && Compatible(es) && AllPresent(file, es) && SameMembers(UndoAll(es), undo)
    ensures AllFit(|file|, undo) && WriteAll(WriteAll(file, es), undo) == file
  {
    var changed := WriteAll(file, es);
    var u := UndoAll(es);
    UndoCompatible(|file|, es);
    AnyOrderSameFile(changed, u, undo);
    forall i | 0 <= i < |file|
      ensures WriteAll(changed, u)[i] == file[i]
    {
      UndoneByte(file, es, i);
    }
  }

  lemma UndoneByte(file: seq<byte>, es: seq<Edit>, i: nat)
    requires AllFit(|file|, es) && Compatible(es) && AllPresent(file, es) && i < |file|
    requires AllFit(|file|, UndoAll(es)) && Compatible(UndoAll(es))
    ensures WriteAll(WriteAll(file, es), UndoAll(es))[i] == file[i]
  {
    hide WriteAll, Compatible;
    var u := UndoAll(es);
    WriteAllAt(file, es, i);
    WriteAllAt(WriteAll(file, es), u, i);
    if Untouched(u, i) {
      forall k | 0 <= k < |es|
        ensures !es[k].Covers(i)
      {
        assert !u[k].Covers(i);
      }
    } else {
      var k :| 0 <= k < |u| && u[k].Covers(i);
      PresentByte(file, es[k], i);
    }
  }

  lemma PresentByte(file: seq<byte>, e: Edit, i: nat)
    requires At(file, e.offset, e.before) && e.Covers(i)
    ensures file[i] == e.before[i - e.offset]
  {
    assert file[e.offset..e.offset + |e.before|][i - e.offset] == e.before[i - e.offset];
  }

  // ---------- the touched pages ----------

  predicate StrictlyAscending(pages: seq<nat>) {
    forall i, j :: 0 <= i < j < |pages| ==> pages[i] < pages[j]
  }

  lemma PageMonotone(a: nat, b: nat)
    requires a <= b
    ensures a / PAGE <= b / PAGE
  {
  }

  predicate Touches(es: seq<Edit>, p: nat) {
    exists i :: 0 <= i < |es| && es[i].offset / PAGE == p
  }

  lemma TouchesAppend(es: seq<Edit>, e: Edit, p: nat)
    ensures Touches(es + [e], p) <==> Touches(es, p) || e.offset / PAGE == p
  {
    var all := es + [e];
    if Touches(es, p) {
      var i :| 0 <= i < |es| && es[i].offset / PAGE == p;
      assert all[i].offset / PAGE == p;
    }
    if e.offset / PAGE == p {
      assert all[|es|].offset / PAGE == p;
    }
    if Touches(all, p) && e.offset / PAGE != p {
      var i :| 0 <= i < |all| && all[i].offset / PAGE == p;
      assert es[i] == all[i];
    }
  }

  /** The page list holds each touched page once, in ascending order. */
  lemma {:induction false} TouchedPagesExact(es: seq<Edit>)
    requires Ascending(es)
    ensures StrictlyAscending(TouchedPages(es))
    ensures forall p :: p in TouchedPages(es) <==> Touches(es, p)
    ensures es != [] ==> TouchedPages(es) != [] && TouchedPages(es)[|TouchedPages(es)| - 1] == es[|es| - 1].offset / PAGE
    decreases |es|
  {
    hide Touches, TouchedPages, StrictlyAscending;
    if es == [] {
      NothingTouched();
    } else {
      var n := |es| - 1;
      TouchedPagesExact(es[..n]);
      PagesUnfold(es);
      NothingTouched();
      if n > 0 {
        assert es[..n][n - 1] == es[n - 1];
        PageMonotone(es[n - 1].offset, es[n].offset);
      } else {
        assert es[..n] == [];
      }
      OnePageMore(TouchedPages(es[..n]), es[n].offset / PAGE);
      forall p
        ensures p in TouchedPages(es) <==> Touches(es, p)
      {
        TouchesUnfold(es, p);
      }
    }
  }

  lemma TouchesUnfold(es: seq<Edit>, p: nat)
    requires es != []
    ensures Touches(es, p) <==> Touches(es[..|es| - 1], p) || es[|es| - 1].offset / PAGE == p
  {
    hide Touches;
    assert es == es[..|es| - 1] + [es[|es| - 1]];
    TouchesAppend(es[..|es| - 1], es[|es| - 1], p);
  }

  function WithPage(pages: seq<nat>, page: nat): seq<nat> {
    if pages != [] && pages[|pages| - 1] == page then pages else pages + [page]
  }

  lemma PagesUnfold(es: seq<Edit>)
    requires es != []
    ensures TouchedPages(es) == WithPage(TouchedPages(es[..|es| - 1]), es[|es| - 1].offset / PAGE)
  {
  }

  lemma OnePageMore(pages: seq<nat>, page: nat)
    requires StrictlyAscending(pages) && (pages != [] ==> pages[|pages| - 1] <= page)
    ensures StrictlyAscending(WithPage(pages, page)) && WithPage(pages, page)[|WithPage(pages, page)| - 1] == page
    ensures forall p :: p in WithPage(pages, page) <==> p in pages || p == page
  {
  }

  lemma NothingTouched()
    ensures TouchedPages([]) == [] && StrictlyAscending([]) && forall p :: !Touches([], p)
  {
  }
}
