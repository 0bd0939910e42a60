/** The join: which files the guest's glob meets, and when they are the Base64 text. */
module SerialUploadJoin {
  import opened Results
  import opened SerialUpload
  import opened SerialUploadProofs
  import opened SerialUploadTransfer

  /** cat of the files in the order the names are given. */
  function Cat(files: Files, names: seq<string>): string
    requires forall i :: 0 <= i < |names| ==> names[i] in files
  {
    if names == [] then "" else files[names[0]] + Cat(files, names[1..])
  }

  /** Two ascending lists of the same names are the same list. */
  lemma {:induction false} AscendingIsUnique(a: seq<string>, b: seq<string>)
    requires Ascending(a) && Ascending(b) && forall p :: p in a <==> p in b
    ensures a == b
    decreases |a|
  {
    hide Less;
    if a == [] {
      SomeName(b);
    } else {
      assert a[0] in b && b != [] && b[0] in a;
      var j :| 0 <= j < |b| && b[j] == a[0];
      var i :| 0 <= i < |a| && a[i] == b[0];
      LessIsAsymmetric(a[0], b[0]);
      assert a[0] == b[0];
      TailNames(a, b);
      TailNames(b, a);
      AscendingIsUnique(a[1..], b[1..]);
      assert a == [a[0]] + a[1..] && b == [b[0]] + b[1..];
    }
  }

  lemma SomeName(names: seq<string>)
    ensures names != [] ==> exists p :: p in names
  {
    if names != [] {
      assert names[0] in names;
    }
  }

  lemma TailNames(a: seq<string>, b: seq<string>)
    requires a != [] && b != [] && a[0] == b[0] && Ascending(a) && forall p :: p in a ==> p in b
    ensures forall p :: p in a[1..] ==> p in b[1..]
  {
    hide Less;
    forall p | p in a[1..]
      ensures p in b[1..]
    {
      var i :| 0 <= i < |a[1..]| && a[1..][i] == p;
      assert a[i + 1] == p && Less(a[0], a[i + 1]);
      LessIsAsymmetric(p, p);
      assert p in b && p != b[0];
    }
  }

  function Chunks(entries: seq<Part>): seq<string> {
    if entries == [] then [] else [entries[0].chunk] + Chunks(entries[1..])
  }

  lemma {:induction false} ChunksOfParts(dir: string, pieces: seq<string>, first: nat)
    ensures Chunks(Parts(dir, pieces, first)) == pieces
    decreases |pieces|
  {
    hide PartPath;
    if pieces != [] {
      ChunksOfParts(dir, pieces[1..], first + 1);
      assert Parts(dir, pieces, first)[1..] == Parts(dir, pieces[1..], first + 1);
    }
  }

  lemma {:induction false} CatIsJoined(files: Files, entries: seq<Part>)
    requires forall i :: 0 <= i < |entries| ==> entries[i].path in files && files[entries[i].path] == entries[i].chunk
    ensures Cat(files, Paths(entries)) == Joined(Chunks(entries))
    decreases |entries|
  {
    if entries != [] {
      assert Paths(entries)[1..] == Paths(entries[1..]) && Chunks(entries)[1..] == Chunks(entries[1..]);
      CatIsJoined(files, entries[1..]);
    }
  }

  // ---------- the glob ----------

  /** A name directly in the directory that the shell's star matches. */
  predicate Glob(dir: string, path: string) {
    && |path| > |dir| + 1 && path[..|dir| + 1] == dir + "/" && path[|dir| + 1] != '.'
    && forall i :: |dir| + 1 <= i < |path| ==> path[i] != '/'
  }

  lemma {:induction false} DecimalDigits(n: nat)
    ensures Decimal(n) != "" && forall i :: 0 <= i < |Decimal(n)| ==> '0' <= Decimal(n)[i] <= '9'
  {
    if n >= 10 {
      DecimalDigits(n / 10);
    }
  }

  /** Every part file is met by the glob. */
  lemma PartsAreGlobbed(dir: string, n: nat)
    ensures Glob(dir, PartPath(dir, n))
  {
    hide Decimal;
    DecimalDigits(n);
    var path := PartPath(dir, n);
    assert path[..|dir| + 1] == dir + "/";
    assert forall i :: |dir| + 1 <= i < |path| ==> path[i] == SixDigits(n)[i - |dir| - 1];
  }

  /** The glob's answer: the names it matches among the files, in order. */
  ghost predicate Globbed(h: Trace, dir: string, names: seq<string>) {
    Ascending(names) && forall p :: p in names <==> p in Contents(h) && Glob(dir, p)
  }

  /** Text that the join meets although it belongs to no part. */
  predicate Stray(h: Trace, dir: string, parts: seq<Part>, path: string) {
    Glob(dir, path) && path !in Paths(parts) && LastWrite(h, path).Some? && LastWrite(h, path) != Some("")
  }

  ghost predicate NoStray(h: Trace, dir: string, parts: seq<Part>) {
    forall path :: !Stray(h, dir, parts, path)
  }

  lemma {:induction false} LessIsTotal(a: string, b: string)
    ensures a == b || Less(a, b) || Less(b, a)
  {
    if a != "" && b != "" {
      LessIsTotal(a[1..], b[1..]);
      assert a == [a[0]] + a[1..] && b == [b[0]] + b[1..];
    }
  }

  lemma {:induction false} LessIsTransitive(a: string, b: string, c: string)
    requires Less(a, b) && Less(b, c)
    ensures Less(a, c)
  {
    if a != "" && a[0] == b[0] == c[0] {
      LessIsTransitive(a[1..], b[1..], c[1..]);
    }
  }

  /** Some name of a non-empty set comes before all others. */
  lemma {:induction false} FirstName(names: set<string>) returns (first: string)
    requires names != {}
    ensures first in names && forall p :: p in names && p != first ==> Less(first, p)
    decreases |names|
  {
    hide Less;
    var p :| p in names;
    var rest := names - {p};
    if rest == {} {
      first := p;
      assert names == {p};
    } else {
      var least := FirstName(rest);
      LessIsTotal(p, least);
      if Less(p, least) {
        first := p;
        forall q | q in names && q != p
          ensures Less(p, q)
        {
          if q != least {
            LessIsTransitive(p, least, q);
          }
        }
      } else {
        first := least;
      }
    }
  }

  lemma {:induction false} InOrder(names: set<string>) returns (sorted: seq<string>)
    ensures Ascending(sorted) && forall p :: p in sorted <==> p in names
    decreases |names|
  {
    hide Less;
    if names == {} {
      sorted := [];
    } else {
      var first := FirstName(names);
      var rest := InOrder(names - {first});
      sorted := [first] + rest;
      forall i, j | 0 <= i < j < |sorted|
        ensures Less(sorted[i], sorted[j])
      {
        if i == 0 {
          assert sorted[j] == rest[j - 1] && rest[j - 1] in rest;
        }
      }
    }
  }

  /** Whatever the guest did, the glob has an answer. */
  lemma GlobAnswers(h: Trace, dir: string) returns (names: seq<string>)
    ensures Globbed(h, dir, names)
  {
    hide Contents, Glob, Less;
    names := InOrder(set p | p in Contents(h) && Glob(dir, p));
  }

  // ---------- the join ----------

  function Only(names: seq<string>, keep: set<string>): seq<string> {
    if names == [] then [] else (if names[0] in keep then [names[0]] else []) + Only(names[1..], keep)
  }

  lemma {:induction false} OnlyMembers(names: seq<string>, keep: set<string>, p: string)
    ensures p in Only(names, keep) <==> p in names && p in keep
  {
    if names != [] {
      OnlyMembers(names[1..], keep, p);
    }
  }

  lemma {:induction false} OnlyAscends(names: seq<string>, keep: set<string>)
    requires Ascending(names)
    ensures Ascending(Only(names, keep))
  {
    hide Less;
    if names != [] {
      var rest := Only(names[1..], keep);
      OnlyAscends(names[1..], keep);
      forall j | 0 <= j < |rest|
        ensures Less(names[0], rest[j])
      {
        OnlyMembers(names[1..], keep, rest[j]);
        var i :| 0 <= i < |names[1..]| && names[1..][i] == rest[j];
        assert names[i + 1] == rest[j];
      }
    }
  }

  /** Names left out shorten the join unless their files are empty. */
  lemma {:induction false} CatOnly(files: Files, names: seq<string>, keep: set<string>)
    requires forall p :: p in names ==> p in files
    ensures forall p :: p in Only(names, keep) ==> p in files
    ensures |Cat(files, Only(names, keep))| <= |Cat(files, names)|
    ensures Cat(files, Only(names, keep)) == Cat(files, names) <==> forall p :: p in names && p !in keep ==> files[p] == ""
  {
    forall p | p in Only(names, keep)
      ensures p in files
    {
      OnlyMembers(names, keep, p);
    }
    if names != [] {
      assert names == [names[0]] + names[1..];
      var rest := Only(names[1..], keep);
      CatOnly(files, names[1..], keep);
      if names[0] in keep {
        assert Only(names, keep)[1..] == rest;
        SamePrefix(files[names[0]], Cat(files, rest), Cat(files, names[1..]));
      } else {
        assert Only(names, keep) == rest;
        if files[names[0]] == "" {
          assert Cat(files, names) == Cat(files, names[1..]);
        }
      }
    }
  }

  lemma SamePrefix(p: string, a: string, b: string)
    ensures p + a == p + b <==> a == b
  {
    if p + a == p + b {
      assert (p + a)[|p|..] == (p + b)[|p|..];
    }
  }

  lemma HeldIsWritten(h: Trace, path: string)
    ensures At(Contents(h), path) == LastWrite(h, path)
  {
    HoldsLastWrite([], h, path);
    assert [] + h == h;
  }

  /** With every part right, the join is the Base64 text, which decodes to the blob, if and only if no stray text lies
      among the parts. */
  lemma JoinGivesTheBlobIff(h: Trace, dir: string, blob: seq<byte>, n: nat, names: seq<string>)
    requires n > 0 && |Pieces(Encode(blob), n)| <= 999999 && Globbed(h, dir, names)
    requires var parts := Parts(dir, Pieces(Encode(blob), n), 1); forall i :: 0 <= i < |parts| ==> Right(h, parts[i])
    ensures forall p :: p in names ==> p in Contents(h)
    ensures Cat(Contents(h), names) == Encode(blob) <==> NoStray(h, dir, Parts(dir, Pieces(Encode(blob), n), 1))
    ensures Decode(Encode(blob)) == Some(blob)
  {
    hide Encode, Pieces, PartPath, Less, Parts, Decode, Cat, Contents, LastWrite, Glob;
    var pieces := Pieces(Encode(blob), n);
    var parts := Parts(dir, pieces, 1);
    var keep := set p | p in Paths(parts);
    Base64RoundTrip(blob);
    PiecesLaws(Encode(blob), n);
    NamesAscendIff(dir, pieces);
    forall p
      ensures p in Only(names, keep) <==> p in Paths(parts)
    {
      OnlyMembers(names, keep, p);
      if p in Paths(parts) {
        PartIsNamed(h, dir, pieces, names, p);
      }
    }
    OnlyAscends(names, keep);
    AscendingIsUnique(Only(names, keep), Paths(parts));
    CatIsJoined(Contents(h), parts);
    ChunksOfParts(dir, pieces, 1);
    CatOnly(Contents(h), names, keep);
    StrayNames(h, dir, parts, names, keep);
  }

  lemma PartIsNamed(h: Trace, dir: string, pieces: seq<string>, names: seq<string>, p: string)
    requires Globbed(h, dir, names) && p in Paths(Parts(dir, pieces, 1))
    requires forall i :: 0 <= i < |pieces| ==> Right(h, Parts(dir, pieces, 1)[i])
    ensures p in names
  {
    hide PartPath, Parts, Contents, Glob, Less, Paths;
    var parts := Parts(dir, pieces, 1);
    var i :| 0 <= i < |parts| && Paths(parts)[i] == p;
    PartsAreGlobbed(dir, 1 + i);
    assert Right(h, parts[i]);
  }

  lemma StrayNames(h: Trace, dir: string, parts: seq<Part>, names: seq<string>, keep: set<string>)
    requires Globbed(h, dir, names) && keep == set p | p in Paths(parts)
    ensures (forall p :: p in names && p !in keep ==> Contents(h)[p] == "") <==> NoStray(h, dir, parts)
  {
    hide Contents, LastWrite, Glob, Less, Paths;
    forall p
      ensures Stray(h, dir, parts, p) <==> p in names && p !in keep && Contents(h)[p] != ""
    {
      HeldIsWritten(h, p);
    }
  }

  // ---------- the whole upload ----------

  /** Behind no marker of a part was its file written with anything else. */
  predicate NoneDisturbed(sum: Cksum, h: Trace, parts: seq<Part>) {
    forall k, i :: 0 <= k < |h| && 0 <= i < |parts| && Prints(sum, h, k, parts[i]) ==> Undisturbed(h, k, parts[i])
  }

  /** What an accepted upload delivers once its last marker arrived and none of them was a collision. Its parts are all
      right if and only if nothing was written over one behind its marker; and then the guest's join is the blob's
      Base64 text if and only if nothing stray lies in the part directory. */
  lemma UploadDelivers(sum: Cksum, remote: string, blob: seq<byte>, batches: seq<seq<Part>>, tries: seq<seq<Option<Trace>>>,
                       names: seq<string>)
    requires Accepted(remote) && |Pieces(Encode(blob), ChunkBytes(remote))| <= 999999 && |batches| == |tries|
    requires Flatten(batches) == Parts(PartDir(remote), Pieces(Encode(blob), ChunkBytes(remote)), 1)
    requires Transfer(sum, [], batches, tries).Done?
    requires Genuine(sum, Transfer(sum, [], batches, tries).trace, Flatten(batches))
    requires Globbed(Transfer(sum, [], batches, tries).trace, PartDir(remote), names)
    ensures var (h, parts) := (Transfer(sum, [], batches, tries).trace, Flatten(batches));
            && ((forall i :: 0 <= i < |parts| ==> Right(h, parts[i])) <==> NoneDisturbed(sum, h, parts))
            && (forall p :: p in names ==> p in Contents(h))
            && (NoneDisturbed(sum, h, parts) ==>
                (Cat(Contents(h), names) == Encode(blob) <==> NoStray(h, PartDir(remote), parts)))
            && Decode(Encode(blob)) == Some(blob)
  {
    hide Transfer, Encode, Pieces, Parts, Less, Decode, Cat, Flatten, PartDir, ChunkBytes, Prints, Right,
         Undisturbed, Contents, Stray;
    var (h, parts) := (Transfer(sum, [], batches, tries).trace, Flatten(batches));
    TransferWitnessed(sum, [], batches, tries);
    RightIffNoneDisturbed(sum, h, parts);
    Base64RoundTrip(blob);
    if NoneDisturbed(sum, h, parts) {
      JoinGivesTheBlobIff(h, PartDir(remote), blob, ChunkBytes(remote), names);
    }
  }

  lemma RightIffNoneDisturbed(sum: Cksum, h: Trace, parts: seq<Part>)
    requires AllWitnessed(sum, h, 0, parts) && Genuine(sum, h, parts)
    ensures (forall i :: 0 <= i < |parts| ==> Right(h, parts[i])) <==> NoneDisturbed(sum, h, parts)
  {
    hide Prints, Right, Undisturbed, Contents;
    forall k, i | 0 <= k < |h| && 0 <= i < |parts| && Prints(sum, h, k, parts[i])
      ensures Right(h, parts[i]) <==> Undisturbed(h, k, parts[i])
    {
      RightIffUndisturbed(sum, h, k, parts[i]);
    }
    assert forall i :: 0 <= i < |parts| ==> Witnessed(sum, h, 0, parts[i]);
  }

  // ---------- a line that loses a character of its path ----------

  /** What the guest did when the redirect of a part's first line lost the path's last digit, and the batch was sent
      again undamaged. */
  function Shortened(part: Part): Trace
    requires part.path != ""
  {
    [Wrote(part.path[..|part.path| - 1], part.chunk), Wrote(part.path, part.chunk), Summed(part.path)]
  }

  lemma ShortenedPrints(sum: Cksum, part: Part, k: nat)
    requires part.path != "" && k <= 3
    ensures Prints(sum, Shortened(part), k, part) <==> k == 2
    ensures At(Contents(Shortened(part)[..2]), part.path) == Some(part.chunk)
    ensures LastWrite(Shortened(part)[2..], part.path) == None
    ensures LastWrite(Shortened(part), part.path[..|part.path| - 1]) == Some(part.chunk)
  {
    var h := Shortened(part);
    assert h[..2][..1] == h[..1] && h[..2][1] == h[1] && h[2..] == [h[2]] && h[2..][..0] == [];
    var short := part.path[..|part.path| - 1];
    assert |short| < |part.path| && h[..|h| - 1] == h[..2];
    assert LastWrite(h[..1], short) == Some(part.chunk);
    assert LastWrite(h[..2], short) == LastWrite(h[..2][..1], short);
  }

  lemma ShortenedIsDone(sum: Cksum, part: Part)
    requires part.path != ""
    ensures var h := Shortened(part);
            CheckedBatch(sum, [], [part], [Some(h[..1]), Some(h[1..])]) == Done(h)
  {
    hide Contents, LastWrite, Prints;
    var h := Shortened(part);
    var tries := [Some(h[..1]), Some(h[1..])];
    assert [] + h[..1] == h[..1] && h[..1] + h[1..] == h && tries[1..] == [Some(h[1..])];
    ShortenedPrints(sum, part, 0);
    PrintsStays(sum, h[..1], h, 0, part);
    assert !Witnessed(sum, h[..1], 0, part);
    assert [part][0] == part;
    assert !AllWitnessed(sum, h[..1], 0, [part]);
    ShortenedPrints(sum, part, 2);
    assert Witnessed(sum, h, 1, part);
    assert AllWitnessed(sum, h, 1, [part]);
    assert CheckedBatch(sum, h[..1], [part], tries[1..]) == Done(h);
  }

  /** Every marker genuine, nothing disturbed, the transfer done: and the join still meets stray text, in front of the
      part it was meant for. */
  lemma ShortenedPathIsStray(sum: Cksum, dir: string, text: string)
    requires text != ""
    ensures var part := Part(PartPath(dir, 1), text);
            var h := Shortened(part);
            && CheckedBatch(sum, [], [part], [Some(h[..1]), Some(h[1..])]) == Done(h)
            && Genuine(sum, h, [part]) && NoneDisturbed(sum, h, [part])
            && Stray(h, dir, [part], part.path[..|part.path| - 1])
  {
    hide Contents, LastWrite, Prints, SixDigits;
    var part := Part(PartPath(dir, 1), text);
    var h := Shortened(part);
    SixDigitsIsFixed(1);
    PartsAreGlobbed(dir, 1);
    ShortenedIsDone(sum, part);
    forall k | 0 <= k < |h|
      ensures Prints(sum, h, k, part) <==> k == 2
    {
      ShortenedPrints(sum, part, k);
    }
    ShortenedPrints(sum, part, 2);
    assert Paths([part]) == [part.path];
  }
}
