/** Exactly when the disk-only boot command does not see a restore. */
module RestoreArgvBoot {
  import opened Results
  import opened RestoreArgv
  import opened RestoreArgvProofs
  import opened RestoreArgvTheorems

  // ---------- what the boot command keeps ----------

  function BothKept(a: Outcome<seq<string>>, b: Outcome<seq<string>>): Outcome<seq<string>> {
    if a.Err? then a else if b.Err? then b else Ok(a.value + b.value)
  }

  function KeepStep(argv: seq<string>, dir: string): Outcome<seq<string>>
    requires argv != [] && Width(argv) <= |argv|
  {
    if Removed(argv[0]) || argv[0] == "-S" || argv[0] == "-s" then Ok([])
    else if argv[0] == "-drive" then
      if Contains(argv[1], "id=ans,") then Ok([argv[0], BootDrive(dir)]) else Err(NonAnsDrive)
    else Ok(argv[..Width(argv)])
  }

  /** How the two programs see an option: what takes a value, what is removed with it. */
  lemma OptionKinds(arg: string)
    ensures Removed(arg) || arg == "-drive" || arg == "-pidfile" <==> TakesValue(arg)
    ensures Removed(arg) ==> arg != "-drive" && arg != "-pidfile"
    ensures arg == "-S" || arg == "-s" || arg == "-daemonize" ==> !TakesValue(arg)
  {
  }

  lemma ValueIsNoOption(value: string)
    requires !Dash(value)
    ensures !TakesValue(value) && value != "-S" && value != "-s" && value != "-daemonize"
  {
  }

  lemma KeptUnfolds(argv: seq<string>, dir: string)
    requires Formed(argv) && argv != []
    ensures Width(argv) <= |argv| && Formed(argv[Width(argv)..]) && Formed(argv[..Width(argv)])
    ensures Kept(argv, dir) == BothKept(KeepStep(argv, dir), Kept(argv[Width(argv)..], dir))
  {
    hide Formed, Contains, BootDrive, Removed, TakesValue, Dash, Handled;
    FirstToken(argv);
    FormedTail(argv, Width(argv));
    FormedPrefix(argv);
    OptionKinds(argv[0]);
    var rest := Kept(argv[Width(argv)..], dir);
    if rest.Ok? {
      assert [] + rest.value == rest.value;
    }
    if argv[0] == "-pidfile" {
      ValueIsNoOption(argv[1]);
      OptionKinds(argv[1]);
      KeptValue(argv, dir);
    } else {
      assert argv[..1] == [argv[0]];
    }
  }

  lemma KeptValue(argv: seq<string>, dir: string)
    requires |argv| > 1 && !Removed(argv[0]) && argv[0] != "-S" && argv[0] != "-s" && argv[0] != "-drive"
    requires !Removed(argv[1]) && argv[1] != "-S" && argv[1] != "-s" && argv[1] != "-drive"
    ensures Kept(argv, dir) == BothKept(Ok(argv[..2]), Kept(argv[2..], dir))
  {
    hide Contains, BootDrive, Removed;
    assert argv[1..][1..] == argv[2..] && argv[1..][0] == argv[1] && argv[..2] == [argv[0], argv[1]];
    var rest := Kept(argv[2..], dir);
    if rest.Ok? {
      assert [argv[0]] + ([argv[1]] + rest.value) == [argv[0], argv[1]] + rest.value;
    }
  }

  lemma {:induction false} KeptConcat(a: seq<string>, b: seq<string>, dir: string)
    requires Formed(a) && Formed(b)
    ensures Kept(a + b, dir) == BothKept(Kept(a, dir), Kept(b, dir))
    decreases |a|
  {
    hide Formed, Contains, BootDrive, Kept;
    if a == [] {
      KeptNothing(dir);
      assert a + b == b;
      if Kept(b, dir).Ok? {
        assert [] + Kept(b, dir).value == Kept(b, dir).value;
      }
    } else {
      var n := Width(a);
      FormedConcat(a, b);
      KeptUnfolds(a, dir);
      KeptUnfolds(a + b, dir);
      assert (a + b)[n..] == a[n..] + b && (a + b)[..n] == a[..n];
      KeptConcat(a[n..], b, dir);
      BothKeptAssociates(KeepStep(a, dir), Kept(a[n..], dir), Kept(b, dir));
    }
  }

  lemma KeptNothing(dir: string)
    ensures Kept([], dir) == Ok([])
  {
  }

  lemma BothKeptAssociates(x: Outcome<seq<string>>, y: Outcome<seq<string>>, z: Outcome<seq<string>>)
    ensures BothKept(x, BothKept(y, z)) == BothKept(BothKept(x, y), z)
  {
    if x.Ok? && y.Ok? && z.Ok? {
      assert x.value + (y.value + z.value) == x.value + y.value + z.value;
    }
  }

  /** What one step of a line keeps, as a line of its own. */
  lemma KeptAlone(argv: seq<string>, dir: string)
    requires Formed(argv) && argv != [] && Width(argv) == |argv|
    ensures Kept(argv, dir) == KeepStep(argv, dir)
  {
    hide Formed, Contains, BootDrive, Kept, KeepStep;
    KeptUnfolds(argv, dir);
    KeptNothing(dir);
    assert argv[|argv|..] == [];
    var x := KeepStep(argv, dir);
    if x.Ok? {
      assert x.value + [] == x.value;
    }
  }

  /** The command line without -pidfile and -daemonize. */
  function Strip(argv: seq<string>): seq<string> {
    if argv == [] then []
    else if argv[0] == "-pidfile" && |argv| > 1 then Strip(argv[2..])
    else if argv[0] == "-daemonize" then Strip(argv[1..])
    else [argv[0]] + Strip(argv[1..])
  }

  function StripStep(argv: seq<string>): seq<string>
    requires argv != [] && Width(argv) <= |argv|
  {
    if argv[0] == "-pidfile" || argv[0] == "-daemonize" then [] else argv[..Width(argv)]
  }

  lemma StripUnfolds(argv: seq<string>)
    requires Formed(argv) && argv != []
    ensures Width(argv) <= |argv| && Formed(StripStep(argv))
    ensures Strip(argv) == StripStep(argv) + Strip(argv[Width(argv)..])
  {
    hide Formed, Strip, TakesValue, Handled, Dash, Removed;
    FirstToken(argv);
    FormedPrefix(argv);
    EmptyDevices();
    StripOne(argv);
    OptionKinds(argv[0]);
    if argv[0] == "-pidfile" || argv[0] == "-daemonize" {
      assert [] + Strip(argv[Width(argv)..]) == Strip(argv[Width(argv)..]);
    } else if TakesValue(argv[0]) {
      ValueIsNoOption(argv[1]);
      OptionKinds(argv[1]);
      StripTwo(argv);
    } else {
      assert argv[..1] == [argv[0]];
    }
  }

  lemma StripOne(argv: seq<string>)
    requires argv != []
    ensures Strip(argv) == if argv[0] == "-pidfile" && |argv| > 1 then Strip(argv[2..])
                           else if argv[0] == "-daemonize" then Strip(argv[1..])
                           else [argv[0]] + Strip(argv[1..])
  {
  }

  lemma StripTwo(argv: seq<string>)
    requires |argv| > 1 && argv[0] != "-pidfile" && argv[0] != "-daemonize" && argv[1] != "-pidfile" && argv[1] != "-daemonize"
    ensures Strip(argv) == argv[..2] + Strip(argv[2..])
  {
    assert argv[1..][1..] == argv[2..] && argv[1..][0] == argv[1];
    var rest := Strip(argv[2..]);
    assert [argv[0]] + ([argv[1]] + rest) == argv[..2] + rest;
  }

  /** An ANS drive whose marker is not its last part. */
  predicate Marked(value: string) {
    ANS in Split(value) ==> exists i :: 0 <= i < |Split(value)| - 1 && Split(value)[i] == ANS
  }

  predicate DrivesMarked(argv: seq<string>) {
    forall i :: 0 <= i < |argv| - 1 && argv[i] == "-drive" ==> Marked(argv[i + 1])
  }

  lemma {:induction false} MarkedContains(parts: seq<string>, i: nat)
    requires i + 1 < |parts| && parts[i] == ANS
    ensures Contains(Join(parts), "id=ans,")
  {
    var whole := Join(parts);
    if i == 0 {
      assert whole[0..] == whole && whole == "id=ans," + Join(parts[1..]);
    } else {
      MarkedContains(parts[1..], i - 1);
      var rest := Join(parts[1..]);
      var j :| 0 <= j <= |rest| && StartsWith(rest[j..], "id=ans,");
      assert whole == parts[0] + "," + rest;
      assert whole[|parts[0]| + 1 + j..] == rest[j..];
    }
  }

  lemma DriveStaysMarked(value: string, was: string, now: string, resolve: Resolver)
    requires Marked(value) && ReplaceDriveFile(value, was, now, resolve).Ok?
    ensures Contains(value, "id=ans,") == Contains(ReplaceDriveFile(value, was, now, resolve).value, "id=ans,")
  {
    hide Split, Join, FirstFile, Contains;
    if ANS in Split(value) {
      var k := DriveParts(value, was, now, resolve);
      var i :| 0 <= i < |Split(value)| - 1 && Split(value)[i] == ANS;
      AnsIsNoFile();
      JoinSplit(value);
      MarkedContains(Split(value), i);
      MarkedContains(Split(value)[k := FILE + now], i);
    }
  }

  lemma MarkedTail(argv: seq<string>, n: nat)
    requires DrivesMarked(argv) && n <= |argv|
    ensures DrivesMarked(argv[n..])
  {
    hide Marked;
    var rest := argv[n..];
    forall i | 0 <= i < |rest| - 1 && rest[i] == "-drive"
      ensures Marked(rest[i + 1])
    {
      assert argv[n + i] == "-drive" && argv[n + i + 1] == rest[i + 1];
    }
  }

  lemma {:induction false} StripForms(argv: seq<string>)
    requires Formed(argv)
    ensures Formed(Strip(argv))
    decreases |argv|
  {
    hide Formed, Strip, StripStep, TakesValue;
    if argv == [] {
      StripNothing();
    } else {
      StripUnfolds(argv);
      FormedTail(argv, Width(argv));
      StripForms(argv[Width(argv)..]);
      FormedConcat(StripStep(argv), Strip(argv[Width(argv)..]));
    }
  }

  lemma StripNothing()
    ensures Strip([]) == [] && Formed([])
  {
  }

  // ---------- which lines boot ----------

  /** Every drive of the line has the marker the boot command looks for. */
  predicate AllMarked(argv: seq<string>) {
    forall i :: 0 <= i < |argv| - 1 && argv[i] == "-drive" ==> Contains(argv[i + 1], "id=ans,")
  }

  lemma MarksUnfold(argv: seq<string>)
    requires Formed(argv) && argv != []
    ensures Width(argv) <= |argv|
    ensures AllMarked(argv) <==> (argv[0] == "-drive" ==> Contains(argv[1], "id=ans,")) && AllMarked(argv[Width(argv)..])
  {
    hide Formed, Contains;
    FirstToken(argv);
    var n := Width(argv);
    var rest := argv[n..];
    assert forall i :: 0 <= i < |rest| ==> rest[i] == argv[n + i];
    if AllMarked(argv) {
      forall i | 0 <= i < |rest| - 1 && rest[i] == "-drive"
        ensures Contains(rest[i + 1], "id=ans,")
      {
        assert argv[n + i] == "-drive" && argv[n + i + 1] == rest[i + 1];
      }
    }
    if (argv[0] == "-drive" ==> Contains(argv[1], "id=ans,")) && AllMarked(rest) {
      forall i | 0 <= i < |argv| - 1 && argv[i] == "-drive"
        ensures Contains(argv[i + 1], "id=ans,")
      {
        if i >= n {
          assert rest[i - n] == "-drive" && rest[i - n + 1] == argv[i + 1];
        }
      }
    }
  }

  /** A line boots if and only if all its drives are marked; there is one way to fail. */
  lemma {:induction false} KeptIff(argv: seq<string>, dir: string)
    requires Formed(argv)
    ensures Kept(argv, dir).Ok? <==> AllMarked(argv)
    ensures Kept(argv, dir).Err? ==> Kept(argv, dir) == Err(NonAnsDrive)
    decreases |argv|
  {
    hide Formed, Contains, BootDrive, Kept, AllMarked;
    if argv == [] {
      KeptNothing(dir);
      NothingMarked();
    } else {
      KeptUnfolds(argv, dir);
      MarksUnfold(argv);
      FirstToken(argv);
      KeptIff(argv[Width(argv)..], dir);
    }
  }

  lemma NothingMarked()
    ensures AllMarked([])
  {
  }

  /** Leaving out the pid file and the daemon option changes nothing about that. */
  lemma {:induction false} StripSameOutcome(argv: seq<string>, dir: string)
    requires Formed(argv)
    ensures Kept(Strip(argv), dir).Ok? <==> Kept(argv, dir).Ok?
    decreases |argv|
  {
    hide Formed, Contains, BootDrive, Kept, Strip;
    if argv == [] {
      StripNothing();
    } else {
      var n := Width(argv);
      KeptUnfolds(argv, dir);
      StripUnfolds(argv);
      FirstToken(argv);
      StripSameOutcome(argv[n..], dir);
      StripForms(argv[n..]);
      KeptConcat(StripStep(argv), Strip(argv[n..]), dir);
      KeptNothing(dir);
      KeptAlone(argv[..n], dir);
      assert argv[..n] == if n == 2 then [argv[0], argv[1]] else [argv[0]];
    }
  }

  // ---------- booting a restored line ----------

  /** Where both keep something, restoring one option is invisible to the boot command. */
  predicate Alike(a: Outcome<seq<string>>, b: Outcome<seq<string>>) { a.Ok? && b.Ok? ==> a == b }

  lemma StepBoots(argv: seq<string>, disk: string, to: Target, devices: set<string>, resolve: Resolver, dir: string)
    requires Formed(argv) && argv != []
    requires Width(argv) <= |argv| && Step(argv, disk, to, devices, resolve).Ok?
    ensures Formed(Step(argv, disk, to, devices, resolve).value.out)
    ensures Alike(Kept(Step(argv, disk, to, devices, resolve).value.out, dir), Kept(StripStep(argv), dir))
  {
    hide Formed, RestorePair, Kept, Contains, BootDrive;
    FirstToken(argv);
    FormedPrefix(argv);
    StepKeepsForm(argv, disk, to, devices, resolve);
    KeptNothing(dir);
    var n, out := Width(argv), Step(argv, disk, to, devices, resolve).value.out;
    KeptAlone(argv[..n], dir);
    if Handled(argv[0]) {
      PairOut(argv[0], argv[1], disk, to, devices, resolve);
    }
    if out != [] {
      KeptAlone(out, dir);
      assert argv[..n] == if n == 2 then [argv[0], argv[1]] else [argv[0]];
    }
  }

  lemma BothAlike(a: Outcome<seq<string>>, b: Outcome<seq<string>>, x: Outcome<seq<string>>, y: Outcome<seq<string>>)
    requires Alike(a, x) && Alike(b, y)
    ensures Alike(BothKept(a, b), BothKept(x, y))
  {
  }

  lemma {:induction false} WalkBoots(argv: seq<string>, disk: string, to: Target, devices: set<string>, resolve: Resolver, dir: string)
    requires Formed(argv) && Walk(argv, disk, to, devices, resolve).Ok?
    ensures Alike(Kept(Walk(argv, disk, to, devices, resolve).value.out, dir), Kept(Strip(argv), dir))
    decreases |argv|
  {
    hide Formed, Step, StripStep, Walk, Strip, Kept, TakesValue, Alike, BothKept;
    if argv == [] {
      EmptyWalk(disk, to, devices, resolve);
      StripNothing();
      KeptNothing(dir);
      SameIsAlike(Kept([], dir));
    } else {
      var n := Width(argv);
      WalkUnfolds(argv, disk, to, devices, resolve);
      var first, rest := Step(argv, disk, to, devices, resolve), Walk(argv[n..], disk, to, devices, resolve);
      StripUnfolds(argv);
      StepBoots(argv, disk, to, devices, resolve, dir);
      WalkBoots(argv[n..], disk, to, devices, resolve, dir);
      WalkKeepsForm(argv[n..], disk, to, devices, resolve);
      StripForms(argv[n..]);
      KeptConcat(first.value.out, rest.value.out, dir);
      KeptConcat(StripStep(argv), Strip(argv[n..]), dir);
      BothAlike(Kept(first.value.out, dir), Kept(rest.value.out, dir), Kept(StripStep(argv), dir), Kept(Strip(argv[n..]), dir));
    }
  }

  lemma SameIsAlike(a: Outcome<seq<string>>)
    ensures Alike(a, a)
  {
  }

  lemma TailBoots(monitor: bool, paused: bool, to: Target, dir: string)
    ensures Kept(Tail(monitor, paused, to), dir) == Ok([])
  {
    hide Formed, Kept;
    var (a, b, c, d) := TailPieces(monitor, paused, to);
    Letters(to);
    KeptNothing(dir);
    EmptyDevices();
    SingleFormed("-S");
    KeptAlone(["-S"], dir);
    FormedPair("-monitor", MonitorValue(to));
    KeptAlone(["-monitor", MonitorValue(to)], dir);
    if to.gdb.Some? {
      FormedPair("-gdb", "tcp::" + to.gdb.value);
      KeptAlone(["-gdb", "tcp::" + to.gdb.value], dir);
    }
    FormedPair("-incoming", "file:" + to.state);
    KeptAlone(["-incoming", "file:" + to.state], dir);
    FormedConcat(a, b);
    FormedConcat(a + b, c);
    KeptConcat(a, b, dir);
    KeptConcat(a + b, c, dir);
    KeptConcat(a + b + c, d, dir);
    var none: seq<string> := [];
    assert none + none == none;
  }

  /** What the boot command keeps of the restored and of the stripped line, where it keeps anything. */
  lemma RestoredAlike(source: seq<string>, disk: string, to: Target, resolve: Resolver, dir: string)
    requires WellFormed(source) && Restore(source, disk, to, resolve).Ok?
    ensures Formed(Restore(source, disk, to, resolve).value)
    ensures Alike(Kept(Restore(source, disk, to, resolve).value, dir), Kept(Strip(source), dir))
  {
    hide Formed, Walk, Tail, Closing, SerialDevices, Restore, Kept, Strip, BootEndpoints;
    var seen := RestoredLine(source, disk, to, resolve);
    var tail := Tail(seen.monitor, "-S" in seen.out, to);
    var program := [source[0]];
    SingleFormed(source[0]);
    WalkBoots(source[1..], disk, to, SerialDevices(source), resolve, dir);
    TailBoots(seen.monitor, "-S" in seen.out, to, dir);
    TailFormed(seen.monitor, "-S" in seen.out, to);
    FormedConcat(seen.out, tail);
    KeptConcat(seen.out, tail, dir);
    KeptConcat(program, seen.out + tail, dir);
    StripUnfolds(source);
    assert source[..1] == program;
    StripForms(source[1..]);
    KeptConcat(program, Strip(source[1..]), dir);
    var walked := Kept(seen.out, dir);
    if walked.Ok? {
      assert walked.value + [] == walked.value;
    }
  }

  /** Booting a restored line is booting the captured one without its pid file and daemon option if and only if both
      lines boot or neither does: all drives are marked before exactly when all are after. */
  lemma BootOfRestoredIff(source: seq<string>, disk: string, to: Target, resolve: Resolver, dir: string)
    requires WellFormed(source) && Restore(source, disk, to, resolve).Ok?
    ensures var r := Restore(source, disk, to, resolve).value;
            BootCommand(r, dir) == BootCommand(Strip(source), dir) <==> (AllMarked(source) <==> AllMarked(r))
  {
    hide Formed, Restore, Kept, AllMarked, Strip, BootEndpoints;
    var r := Restore(source, disk, to, resolve).value;
    RestoredAlike(source, disk, to, resolve, dir);
    StripForms(source);
    KeptIff(source, dir);
    KeptIff(Strip(source), dir);
    KeptIff(r, dir);
    StripSameOutcome(source, dir);
  }

  /** Stripping takes something away exactly when there is something to strip. */
  lemma {:induction false} StripShortens(argv: seq<string>, dir: string)
    requires Formed(argv) && Kept(argv, dir).Ok?
    ensures Kept(Strip(argv), dir).Ok? && |Kept(Strip(argv), dir).value| <= |Kept(argv, dir).value|
    ensures if "-pidfile" in argv || "-daemonize" in argv then |Kept(Strip(argv), dir).value| < |Kept(argv, dir).value|
            else Strip(argv) == argv
    decreases |argv|
  {
    hide Formed, Kept, Strip, Contains, BootDrive;
    if argv == [] {
      StripNothing();
    } else {
      var n := Width(argv);
      FirstToken(argv);
      KeptUnfolds(argv, dir);
      StripUnfolds(argv);
      StripShortens(argv[n..], dir);
      StripForms(argv[n..]);
      KeptConcat(StripStep(argv), Strip(argv[n..]), dir);
      KeptNothing(dir);
      KeptAlone(argv[..n], dir);
      assert argv == argv[..n] + argv[n..];
      assert argv[..n] == if n == 2 then [argv[0], argv[1]] else [argv[0]];
    }
  }

  /** A checkpoint boots as its captured line does if and only if, where that line boots, it has neither -pidfile nor
      -daemonize and the restored one boots; and where it does not, neither does the restored one. */
  lemma BootUnchangedIff(source: seq<string>, disk: string, to: Target, resolve: Resolver, dir: string)
    requires WellFormed(source) && Restore(source, disk, to, resolve).Ok?
    ensures var r := Restore(source, disk, to, resolve).value;
            BootCommand(r, dir) == BootCommand(source, dir) <==>
            if AllMarked(source) then AllMarked(r) && "-pidfile" !in source && "-daemonize" !in source else !AllMarked(r)
  {
    hide Formed, Restore, Kept, AllMarked, Strip, BootEndpoints;
    var r := Restore(source, disk, to, resolve).value;
    RestoredAlike(source, disk, to, resolve, dir);
    KeptIff(source, dir);
    KeptIff(r, dir);
    if AllMarked(source) {
      StripShortens(source, dir);
    }
  }

  // ---------- lines whose drives stay marked ----------

  lemma {:induction false} WalkStaysMarked(argv: seq<string>, disk: string, to: Target, devices: set<string>, resolve: Resolver)
    requires Formed(argv) && DrivesMarked(argv) && Walk(argv, disk, to, devices, resolve).Ok?
    ensures AllMarked(Walk(argv, disk, to, devices, resolve).value.out) <==> AllMarked(argv)
    decreases |argv|
  {
    hide Formed, Walk, RestorePair, AllMarked, DrivesMarked, Contains;
    if argv == [] {
      EmptyWalk(disk, to, devices, resolve);
    } else {
      var n := Width(argv);
      WalkUnfolds(argv, disk, to, devices, resolve);
      MarksUnfold(argv);
      MarkedTail(argv, n);
      WalkStaysMarked(argv[n..], disk, to, devices, resolve);
      WalkKeepsForm(argv[n..], disk, to, devices, resolve);
      StepKeepsForm(argv, disk, to, devices, resolve);
      StepStaysMarked(argv, disk, to, devices, resolve);
      MarksConcat(Step(argv, disk, to, devices, resolve).value.out, Walk(argv[n..], disk, to, devices, resolve).value.out);
    }
  }

  lemma {:induction false} MarksConcat(a: seq<string>, b: seq<string>)
    requires Formed(a) && Formed(b)
    ensures AllMarked(a + b) <==> AllMarked(a) && AllMarked(b)
    decreases |a|
  {
    hide Formed, AllMarked, Contains;
    if a == [] {
      NothingMarked();
      assert a + b == b;
    } else {
      var n := Width(a);
      FormedConcat(a, b);
      FirstToken(a);
      MarksUnfold(a);
      MarksUnfold(a + b);
      FormedTail(a, n);
      assert (a + b)[n..] == a[n..] + b;
      MarksConcat(a[n..], b);
    }
  }

  lemma StepStaysMarked(argv: seq<string>, disk: string, to: Target, devices: set<string>, resolve: Resolver)
    requires Formed(argv) && argv != [] && DrivesMarked(argv)
    requires Width(argv) <= |argv| && Step(argv, disk, to, devices, resolve).Ok?
    ensures AllMarked(Step(argv, disk, to, devices, resolve).value.out) <==>
            (argv[0] == "-drive" ==> Contains(argv[1], "id=ans,"))
  {
    hide Formed, Contains, Marked, ReplaceDriveFile, RedirectChardev, SerialSocket;
    FirstToken(argv);
    var out := Step(argv, disk, to, devices, resolve).value.out;
    if argv[0] == "-drive" {
      assert Marked(argv[0 + 1]);
      DriveStaysMarked(argv[1], disk, to.disk, resolve);
    }
    if Handled(argv[0]) {
      PairOut(argv[0], argv[1], disk, to, devices, resolve);
    }
  }

  /** What a caller can check on the captured line: behind each ANS drive's marker there is another part. Then a restored
      line boots as the captured one does without pid file and daemon option. */
  lemma BootOfRestored(source: seq<string>, disk: string, to: Target, resolve: Resolver, dir: string)
    requires WellFormed(source) && DrivesMarked(source) && Restore(source, disk, to, resolve).Ok?
    ensures BootCommand(Restore(source, disk, to, resolve).value, dir) == BootCommand(Strip(source), dir)
  {
    hide Formed, Walk, Tail, Closing, SerialDevices, Restore, AllMarked, DrivesMarked, Strip;
    var seen := RestoredLine(source, disk, to, resolve);
    var tail := Tail(seen.monitor, "-S" in seen.out, to);
    MarkedTail(source, 1);
    WalkStaysMarked(source[1..], disk, to, SerialDevices(source), resolve);
    TailFormed(seen.monitor, "-S" in seen.out, to);
    TailBoots(seen.monitor, "-S" in seen.out, to, dir);
    KeptIff(tail, dir);
    SingleFormed(source[0]);
    OneMarked(source[0]);
    MarksConcat(seen.out, tail);
    FormedConcat(seen.out, tail);
    MarksConcat([source[0]], seen.out + tail);
    MarksConcat([source[0]], source[1..]);
    assert source == [source[0]] + source[1..];
    BootOfRestoredIff(source, disk, to, resolve, dir);
  }

  lemma OneMarked(program: string)
    ensures AllMarked([program])
  {
  }

  // ---------- a marker that is the last part ----------

  /** A line with one ANS drive whose marker comes last. */
  function LastMarker(file: string): seq<string> {
    ["qemu", "-drive", "file=" + file + ",id=ans", "-serial", "file:log"]
  }

  lemma LastMarkerForm(file: string)
    ensures WellFormed(LastMarker(file)) && SerialDevices(LastMarker(file)) == {}
    ensures AllMarked(LastMarker(file)) <==> Contains("file=" + file + ",id=ans", "id=ans,")
  {
    hide Contains;
    var argv := LastMarker(file);
    assert argv[1] == "-drive" && argv[2][0] == 'f' && argv[4][0] == 'f' && CHARDEV_REF[0] == 'c';
    assert !Dash(argv[2]) && !Dash(argv[4]);
    assert argv[1..][1..] == argv[2..] && argv[2..][1..] == argv[3..] && argv[3..][1..] == argv[4..];
    Devices(argv[3..]);
    assert SerialDevices(argv[3..]) == {} && SerialDevices(argv[2..]) == {} && SerialDevices(argv[1..]) == {};
  }

  lemma LastMarkerParts(file: string)
    requires NoComma(file)
    ensures Split("file=" + file + ",id=ans") == ["file=" + file, ANS] && Join(["file=" + file, ANS]) == "file=" + file + ",id=ans"
  {
    hide NoComma;
    FilePart(file);
    assert FILE + file == "file=" + file;
    assert NoComma(ANS) by { AnsHasNoComma(); }
    assert "," + ANS == ",id=ans";
    Regroup("file=" + file, ",", ANS);
    SplitConcat("file=" + file, ANS);
    SplitOne("file=" + file);
    SplitOne(ANS);
    assert ["file=" + file, ANS][1..] == [ANS] && Join([ANS]) == ANS;
  }

  lemma AnsHasNoComma()
    ensures NoComma(ANS)
  {
  }

  lemma LastMarkerDrive(was: string, now: string, resolve: Resolver)
    requires NoComma(was) && NoComma(now)
    ensures ReplaceDriveFile("file=" + was + ",id=ans", was, now, resolve) == Ok("file=" + now + ",id=ans")
  {
    hide NoComma, Split, Join;
    LastMarkerParts(was);
    LastMarkerParts(now);
    FilePart(was);
    var parts := ["file=" + was, ANS];
    assert parts[0] == FILE + was;
    assert FirstFile(parts) == 0 && ANS in parts;
    assert parts[0 := FILE + now] == ["file=" + now, ANS];
  }

  lemma LastMarkerRestores(was: string, to: Target, resolve: Resolver)
    requires NoComma(was) && NoComma(to.disk) && was != to.disk
    ensures Restore(LastMarker(was), was, to, resolve).Ok?
    ensures AllMarked(Restore(LastMarker(was), was, to, resolve).value) <==> Contains("file=" + to.disk + ",id=ans", "id=ans,")
  {
    hide NoComma, ReplaceDriveFile, Contains, AllMarked, Closing, Tail;
    var argv := LastMarker(was);
    var v := "file=" + to.disk + ",id=ans";
    LastMarkerForm(was);
    LastMarkerDrive(was, to.disk, resolve);
    Differ(was, to.disk);
    var tail := argv[1..];
    assert tail[0] == "-drive" && tail[1] == "file=" + was + ",id=ans" && tail[2..] == ["-serial", "file:log"];
    var serial := ["-serial", "file:log"];
    assert StartsWith("file:log", "file:") && serial[2..] == [];
    EmptyWalk(was, to, {}, resolve);
    WalkPair("-serial", "file:log", was, to, {}, resolve);
    assert Walk(serial, was, to, {}, resolve) == Ok(Seen(["-serial", "file:" + to.serial], false, false, true));
    assert RestorePair("-drive", tail[1], was, to, {}, resolve) == Ok(Seen(["-drive", v], false, true, false));
    var out := ["-drive", v] + ["-serial", "file:" + to.serial];
    assert Walk(tail, was, to, {}, resolve) == Ok(Seen(out, false, true, true));
    var seen := RestoredLine(argv, was, to, resolve);
    assert seen.out == out;
    LineMarks("qemu", v, to, "-S" in out);
  }

  lemma Differ(a: string, b: string)
    ensures "file=" + a + ",id=ans" == "file=" + b + ",id=ans" ==> a == b
  {
    if "file=" + a + ",id=ans" == "file=" + b + ",id=ans" {
      assert ("file=" + a + ",id=ans")[5..5 + |a|] == a && ("file=" + b + ",id=ans")[5..5 + |b|] == b;
    }
  }

  lemma LineMarks(program: string, value: string, to: Target, paused: bool)
    requires !Dash(program) && !Dash(value)
    ensures AllMarked([program] + (["-drive", value] + ["-serial", "file:" + to.serial] + Tail(false, paused, to)))
            <==> Contains(value, "id=ans,")
  {
    hide AllMarked, Formed, Contains, Tail;
    var (drive, serial, tail) := (["-drive", value], ["-serial", "file:" + to.serial], Tail(false, paused, to));
    Letters(to);
    TailFormed(false, paused, to);
    TailBoots(false, paused, to, "");
    KeptIff(tail, "");
    SingleFormed(program);
    OneMarked(program);
    FormedPair("-drive", value);
    FormedPair("-serial", "file:" + to.serial);
    PairMarks("-drive", value);
    PairMarks("-serial", "file:" + to.serial);
    FormedConcat(drive, serial);
    FormedConcat(drive + serial, tail);
    MarksConcat(drive, serial);
    MarksConcat(drive + serial, tail);
    MarksConcat([program], drive + serial + tail);
  }

  lemma PairMarks(arg: string, value: string)
    ensures AllMarked([arg, value]) <==> (arg == "-drive" ==> Contains(value, "id=ans,"))
  {
    hide Contains;
    var argv := [arg, value];
    assert argv[0] == arg && argv[0 + 1] == value;
  }

  /** A captured line that does not boot, and boots once it is restored to a disk named like the marker; and the other
      way round. Both are restored without complaint. */
  lemma LastMarkerChangesBoot(to: Target, resolve: Resolver, dir: string)
    ensures var (plain, marker) := (to.(disk := "a"), to.(disk := ANS));
            && Restore(LastMarker("a"), "a", marker, resolve).Ok? && Restore(LastMarker(ANS), ANS, plain, resolve).Ok?
            && BootCommand(LastMarker("a"), dir).Err? && BootCommand(Restore(LastMarker("a"), "a", marker, resolve).value, dir).Ok?
            && BootCommand(LastMarker(ANS), dir).Ok? && BootCommand(Restore(LastMarker(ANS), ANS, plain, resolve).value, dir).Err?
  {
    hide Formed, AllMarked, Contains, Kept, Restore, BootEndpoints, NoComma;
    var (plain, marker) := (to.(disk := "a"), to.(disk := ANS));
    AnsHasNoComma();
    PlainHasNoComma();
    LastMarkerForm("a");
    LastMarkerForm(ANS);
    LastMarkerRestores("a", marker, resolve);
    LastMarkerRestores(ANS, plain, resolve);
    PlainIsUnmarked();
    KeptIff(LastMarker("a"), dir);
    KeptIff(LastMarker(ANS), dir);
    RestoredAlike(LastMarker("a"), "a", marker, resolve, dir);
    RestoredAlike(LastMarker(ANS), ANS, plain, resolve, dir);
    KeptIff(Restore(LastMarker("a"), "a", marker, resolve).value, dir);
    KeptIff(Restore(LastMarker(ANS), ANS, plain, resolve).value, dir);
  }

  lemma PlainHasNoComma()
    ensures NoComma("a") && "a" != ANS
  {
    assert |ANS| != |"a"|;
  }

  lemma PlainIsUnmarked()
    ensures !Contains("file=a,id=ans", "id=ans,") && "file=" + "a" + ",id=ans" == "file=a,id=ans"
    ensures Contains("file=" + ANS + ",id=ans", "id=ans,")
  {
    var plain, marked := "file=a,id=ans", "file=" + ANS + ",id=ans";
    assert "file=" + "a" + ",id=ans" == plain;
    forall i | 0 <= i <= |plain|
      ensures !StartsWith(plain[i..], "id=ans,")
    {
      CommaSeventh(plain, i);
    }
    assert marked[5..] == "id=ans,id=ans" && StartsWith(marked[5..], "id=ans,");
  }

  /** A place where the marker stands holds its letters. */
  lemma CommaSeventh(s: string, i: nat)
    requires i <= |s|
    ensures StartsWith(s[i..], "id=ans,") ==> i + 6 < |s| && s[i] == 'i' && s[i + 6] == ','
  {
    if StartsWith(s[i..], "id=ans,") {
      assert s[i..][0] == "id=ans,"[0] && s[i..][6] == "id=ans,"[6];
    }
  }
}
