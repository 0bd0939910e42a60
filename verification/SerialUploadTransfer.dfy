/** The transfer: line lengths, where parts lie, and batches sent until their witnesses arrive. */
module SerialUploadTransfer {
  import opened Results
  import opened SerialUpload
  import opened SerialUploadProofs

  // ---------- line lengths ----------

  lemma CommandLength(chunk: string, a: string, b: string)
    requires |a| == |b|
    ensures |Line(Command(chunk, a))| == |Line(Command("", b))| + |chunk|
  {
  }

  lemma PartPathLength(dir: string, n: nat)
    requires n <= 999999
    ensures |PartPath(dir, n)| == |PartPath(dir, 1)|
  {
    hide SixDigits, Fixed;
    SixDigitsIsFixed(n);
    SixDigitsIsFixed(1);
  }

  /** Every line of an accepted upload of at most 999999 parts fits, and every chunk is whole Base64 groups. */
  lemma LinesFit(remote: string, blob: seq<byte>, k: nat)
    requires Accepted(remote)
    requires k < |Pieces(Encode(blob), ChunkBytes(remote))| <= 999999
    ensures var chunk := Pieces(Encode(blob), ChunkBytes(remote))[k];
            0 < |chunk| && |chunk| % 4 == 0 && |Line(Command(chunk, PartPath(PartDir(remote), k + 1)))| <= LINE_LIMIT
  {
    hide Encode, Pieces, PartPath, PartDir, Line, Command, Safe;
    var n, dir := ChunkBytes(remote), PartDir(remote);
    Base64RoundTrip(blob);
    PiecesLaws(Encode(blob), n);
    PartPathLength(dir, k + 1);
    CommandLength(Pieces(Encode(blob), n)[k], PartPath(dir, k + 1), PartPath(dir, 1));
  }

  // ---------- the staging directory ----------

  lemma {:induction false} LastSlashAtLeast(path: string, k: nat)
    requires 0 < k <= |path| && path[k - 1] == '/'
    ensures LastSlash(path) >= k
  {
    if path[|path| - 1] != '/' {
      LastSlashAtLeast(path[..|path| - 1], k);
    }
  }

  lemma {:induction false} StripKeeps(s: string, k: nat)
    requires 0 < k <= |s| && s[k - 1] != '/'
    ensures |StripSlashes(s)| >= k && StripSlashes(s)[..k] == s[..k]
  {
    if s[|s| - 1] == '/' {
      StripKeeps(s[..|s| - 1], k);
      assert s[..|s| - 1][..k] == s[..k];
    }
  }

  /** Parts of an accepted upload lie below the staging root the path names. */
  lemma PartsStayInStaging(remote: string, n: nat, root: string)
    requires (root == DATA_ROOT || root == USER_ROOT) && root <= remote
    ensures root <= PartPath(PartDir(remote), n)
  {
    var r := |root|;
    assert remote[r - 1] == '/' && remote[r - 2] != '/';
    LastSlashAtLeast(remote, r);
    var head := remote[..LastSlash(remote)];
    StripKeeps(head, r - 1);
    BelowRoot(remote, root, StripSlashes(head), n);
  }

  lemma BelowRoot(remote: string, root: string, dir: string, n: nat)
    requires |root| > 1 && root[|root| - 1] == '/' && root <= remote && dir <= remote && |dir| >= |root| - 1
    ensures root <= PartPath(dir + "/.upload-parts", n)
  {
    hide SixDigits;
    var path := PartPath(dir + "/.upload-parts", n);
    forall i | 0 <= i < |root|
      ensures path[i] == root[i]
    {
      if i < |dir| {
        assert path[i] == dir[i] == remote[i] == root[i];
      } else {
        assert i == |root| - 1 == |dir| && path[i] == '/';
      }
    }
  }

  // ---------- what a line can do to the guest ----------

  type Files = map<string, string>

  /** Everything the guest shell did, in order. The line may reach it with characters missing anywhere, so any text may
      land in any file, and the sum of any file may be printed. */
  datatype Effect = Wrote(path: string, text: string) | Summed(path: string)

  type Trace = seq<Effect>

  type Cksum(!new) = string -> int

  /** The files after a trace, from an emptied part directory on. */
  function Contents(h: Trace): Files {
    if h == [] then map[]
    else
      var before := Contents(h[..|h| - 1]);
      match h[|h| - 1]
      case Wrote(path, text) => before[path := text]
      case Summed(_) => before
  }

  function LastWrite(h: Trace, path: string): Option<string> {
    if h == [] then None
    else match h[|h| - 1]
      case Wrote(p, text) => if p == path then Some(text) else LastWrite(h[..|h| - 1], path)
      case Summed(_) => LastWrite(h[..|h| - 1], path)
  }

  function At(files: Files, path: string): Option<string> { if path in files then Some(files[path]) else None }

  /** A file holds what was written to it last. */
  lemma {:induction false} HoldsLastWrite(before: Trace, h: Trace, path: string)
    ensures At(Contents(before + h), path) == if LastWrite(h, path).Some? then LastWrite(h, path) else At(Contents(before), path)
    decreases |h|
  {
    if h == [] {
      assert before + h == before;
    } else {
      var n := |h| - 1;
      assert (before + h)[..|before| + n] == before + h[..n];
      HoldsLastWrite(before, h[..n], path);
    }
  }

  /** At step k the guest prints the marker "cksum length path" of this part. */
  predicate Prints(sum: Cksum, h: Trace, k: nat, part: Part) {
    && k < |h| && h[k] == Summed(part.path)
    && match At(Contents(h[..k]), part.path)
       case None => false
       case Some(text) => sum(text) == sum(part.chunk) && |text| == |part.chunk|
  }

  /** The marker appears from step `from` on. */
  predicate Witnessed(sum: Cksum, h: Trace, from: nat, part: Part) {
    exists k :: from <= k < |h| && Prints(sum, h, k, part)
  }

  predicate AllWitnessed(sum: Cksum, h: Trace, from: nat, entries: seq<Part>) {
    forall i :: 0 <= i < |entries| ==> Witnessed(sum, h, from, entries[i])
  }

  // ---------- batches ----------

  datatype Outcome = Done(trace: Trace) | GaveUp(trace: Trace)

  const ATTEMPTS := 8

  /** checked_batch: send the batch again until all its markers appear; `None` is a prompt that did not. */
  function CheckedBatch(sum: Cksum, h: Trace, entries: seq<Part>, tries: seq<Option<Trace>>): Outcome
    decreases |tries|
  {
    if tries == [] then GaveUp(h)
    else if tries[0].None? then CheckedBatch(sum, h, entries, tries[1..])
    else
      var now := h + tries[0].value;
      if AllWitnessed(sum, now, |h|, entries) then Done(now) else CheckedBatch(sum, now, entries, tries[1..])
  }

  /** The attempts as a loop over one guest. */
  method RunBatch(sum: Cksum, h: Trace, entries: seq<Part>, tries: seq<Option<Trace>>) returns (r: Outcome)
    requires |tries| == ATTEMPTS
    ensures r == CheckedBatch(sum, h, entries, tries)
  {
    hide AllWitnessed;
    var now := h;
    assert tries[0..] == tries;
    for attempt := 0 to ATTEMPTS
      invariant CheckedBatch(sum, h, entries, tries) == CheckedBatch(sum, now, entries, tries[attempt..])
    {
      assert tries[attempt..][1..] == tries[attempt + 1..];
      if tries[attempt].Some? {
        var before := |now|;
        now := now + tries[attempt].value;
        if AllWitnessed(sum, now, before, entries) {
          return Done(now);
        }
      }
    }
    r := GaveUp(now);
  }

  /** The batches one after the other; the first that gives up ends the upload. */
  function Transfer(sum: Cksum, h: Trace, batches: seq<seq<Part>>, tries: seq<seq<Option<Trace>>>): Outcome
    requires |batches| == |tries|
    decreases |batches|
  {
    if batches == [] then Done(h)
    else match CheckedBatch(sum, h, batches[0], tries[0])
      case GaveUp(now) => GaveUp(now)
      case Done(now) => Transfer(sum, now, batches[1..], tries[1..])
  }

  datatype Refusal = UnsafePath | NotAscii | NoRoom

  /** upload, from the path check to the last batch. `attempts` is what happens to each batch. */
  method Upload(sum: Cksum, remote: string, blob: seq<byte>, batch: nat, attempts: nat -> seq<Option<Trace>>)
    returns (r: Result<Outcome, Refusal>, batches: seq<seq<Part>>)
    requires batch > 0 && forall i :: |attempts(i)| == ATTEMPTS
    ensures r.Ok? <==> Accepted(remote)
    ensures r == Err(UnsafePath) <==> !Safe(remote)
    ensures r == Err(NotAscii) <==> Safe(remote) && !AsciiOnly(PartDir(remote))
    ensures r.Ok? ==> Flatten(batches) == Parts(PartDir(remote), Pieces(Encode(blob), ChunkBytes(remote)), 1)
    ensures r.Ok? ==> r.value == Transfer(sum, [], batches, seq(|batches|, i requires 0 <= i < |batches| => attempts(i)))
  {
    hide CheckedBatch, Safe, AsciiOnly, ChunkBytes, PartDir, Encode, Pieces, Parts, Flatten;
    batches := [];
    if !Safe(remote) {
      return Err(UnsafePath), [];
    }
    if !AsciiOnly(PartDir(remote)) {
      return Err(NotAscii), [];
    }
    var n := ChunkBytes(remote);
    if n <= 0 {
      return Err(NoRoom), [];
    }
    batches := Send(Encode(blob), PartDir(remote), n, batch);
    ghost var tries := seq(|batches|, i requires 0 <= i < |batches| => attempts(i));
    var h: Trace := [];
    assert batches[0..] == batches && tries[0..] == tries;
    for i := 0 to |batches|
      invariant Transfer(sum, [], batches, tries) == Transfer(sum, h, batches[i..], tries[i..])
    {
      assert batches[i..][1..] == batches[i + 1..] && tries[i..][1..] == tries[i + 1..];
      var done := RunBatch(sum, h, batches[i], attempts(i));
      if done.GaveUp? {
        return Ok(done), batches;
      }
      h := done.trace;
    }
    r := Ok(Done(h));
  }

  // ---------- what the markers prove ----------

  lemma PrintsStays(sum: Cksum, h: Trace, more: Trace, k: nat, part: Part)
    requires h <= more && k < |h|
    ensures Prints(sum, more, k, part) <==> Prints(sum, h, k, part)
  {
    hide Contents;
    assert more[..k] == h[..k];
  }

  /** No marker of these parts is a checksum collision. */
  predicate Genuine(sum: Cksum, h: Trace, parts: seq<Part>) {
    forall k, i :: 0 <= k < |h| && 0 <= i < |parts| && Prints(sum, h, k, parts[i]) ==>
                     At(Contents(h[..k]), parts[i].path) == Some(parts[i].chunk)
  }

  predicate Right(h: Trace, part: Part) { At(Contents(h), part.path) == Some(part.chunk) }

  /** Nothing else was written over the part after its marker at step k. */
  predicate Undisturbed(h: Trace, k: nat, part: Part)
    requires k <= |h|
  {
    LastWrite(h[k..], part.path) == None || LastWrite(h[k..], part.path) == Some(part.chunk)
  }

  /** A part whose genuine marker appeared is right at the end if and only if it was not disturbed since. */
  lemma RightIffUndisturbed(sum: Cksum, h: Trace, k: nat, part: Part)
    requires k < |h| && At(Contents(h[..k]), part.path) == Some(part.chunk)
    ensures Right(h, part) <==> Undisturbed(h, k, part)
  {
    hide Contents, LastWrite;
    assert h[..k] + h[k..] == h;
    HoldsLastWrite(h[..k], h[k..], part.path);
  }

  lemma {:induction false} BatchGrows(sum: Cksum, h: Trace, entries: seq<Part>, tries: seq<Option<Trace>>)
    ensures h <= CheckedBatch(sum, h, entries, tries).trace
    decreases |tries|
  {
    hide AllWitnessed;
    if tries != [] {
      BatchGrows(sum, if tries[0].None? then h else h + tries[0].value, entries, tries[1..]);
    }
  }

  /** A batch is only done when the marker of each entry appeared in its last attempt. */
  lemma {:induction false} BatchWitnessed(sum: Cksum, h: Trace, entries: seq<Part>, tries: seq<Option<Trace>>)
    requires CheckedBatch(sum, h, entries, tries).Done?
    ensures AllWitnessed(sum, CheckedBatch(sum, h, entries, tries).trace, |h|, entries)
    decreases |tries|
  {
    hide Prints;
    if tries[0].None? {
      BatchWitnessed(sum, h, entries, tries[1..]);
    } else if !AllWitnessed(sum, h + tries[0].value, |h|, entries) {
      BatchWitnessed(sum, h + tries[0].value, entries, tries[1..]);
    }
  }

  /** However often a batch was lost, cut short or damaged: once it is done, each of its parts is right if and only if
      nothing else was written over it behind its genuine marker, and files no effect wrote to are as before. */
  lemma RetriesLeaveNoTrace(sum: Cksum, h: Trace, entries: seq<Part>, tries: seq<Option<Trace>>, i: nat, path: string)
    returns (k: nat)
    requires CheckedBatch(sum, h, entries, tries).Done? && i < |entries|
    requires Genuine(sum, CheckedBatch(sum, h, entries, tries).trace, entries)
    ensures var now := CheckedBatch(sum, h, entries, tries).trace;
            && h <= now && |h| <= k < |now| && Prints(sum, now, k, entries[i])
            && (Right(now, entries[i]) <==> Undisturbed(now, k, entries[i]))
            && (LastWrite(now[|h|..], path) == None ==> At(Contents(now), path) == At(Contents(h), path))
  {
    hide Contents, Prints, LastWrite, CheckedBatch, Right, Undisturbed;
    var now := CheckedBatch(sum, h, entries, tries).trace;
    BatchGrows(sum, h, entries, tries);
    BatchWitnessed(sum, h, entries, tries);
    assert Witnessed(sum, now, |h|, entries[i]);
    k :| |h| <= k < |now| && Prints(sum, now, k, entries[i]);
    RightIffUndisturbed(sum, now, k, entries[i]);
    assert h + now[|h|..] == now;
    HoldsLastWrite(h, now[|h|..], path);
  }

  lemma {:induction false} TransferGrows(sum: Cksum, h: Trace, batches: seq<seq<Part>>, tries: seq<seq<Option<Trace>>>)
    requires |batches| == |tries|
    ensures h <= Transfer(sum, h, batches, tries).trace
    decreases |batches|
  {
    hide CheckedBatch;
    if batches != [] {
      BatchGrows(sum, h, batches[0], tries[0]);
      if CheckedBatch(sum, h, batches[0], tries[0]).Done? {
        TransferGrows(sum, CheckedBatch(sum, h, batches[0], tries[0]).trace, batches[1..], tries[1..]);
      }
    }
  }

  lemma WitnessedStays(sum: Cksum, h: Trace, more: Trace, from: nat, part: Part)
    requires h <= more && Witnessed(sum, h, from, part)
    ensures Witnessed(sum, more, 0, part)
  {
    hide Prints;
    var k :| from <= k < |h| && Prints(sum, h, k, part);
    PrintsStays(sum, h, more, k, part);
  }

  /** When the transfer is done, every part of every batch has been witnessed. */
  lemma {:induction false} TransferWitnessed(sum: Cksum, h: Trace, batches: seq<seq<Part>>, tries: seq<seq<Option<Trace>>>)
    requires |batches| == |tries| && Transfer(sum, h, batches, tries).Done?
    ensures AllWitnessed(sum, Transfer(sum, h, batches, tries).trace, 0, Flatten(batches))
    decreases |batches|
  {
    hide CheckedBatch, Witnessed;
    if batches != [] {
      var now := CheckedBatch(sum, h, batches[0], tries[0]).trace;
      var last := Transfer(sum, now, batches[1..], tries[1..]).trace;
      BatchWitnessed(sum, h, batches[0], tries[0]);
      TransferGrows(sum, now, batches[1..], tries[1..]);
      TransferWitnessed(sum, now, batches[1..], tries[1..]);
      var all := Flatten(batches);
      forall i | 0 <= i < |all|
        ensures Witnessed(sum, last, 0, all[i])
      {
        if i < |batches[0]| {
          WitnessedStays(sum, now, last, |h|, batches[0][i]);
        } else {
          assert all[i] == Flatten(batches[1..])[i - |batches[0]|];
        }
      }
    }
  }
}
