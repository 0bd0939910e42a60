/** Exactly when one restore after another is one restore, for whole command lines. */
module RestoreArgvCompose {
  import opened Results
  import opened RestoreArgv
  import opened RestoreArgvProofs
  import opened RestoreArgvTheorems

  // ---------- what a line holds ----------

  /** The line has a serial socket. */
  predicate HasSocket(argv: seq<string>, devices: set<string>) {
    exists i :: 0 <= i < |argv| - 1 && argv[i] == "-chardev" && SerialSocket(argv[i + 1], devices)
  }

  /** The line has an ANS drive. */
  predicate HasAns(argv: seq<string>) {
    exists i :: 0 <= i < |argv| - 1 && argv[i] == "-drive" && ANS in Split(argv[i + 1])
  }

  /** Whatever is asked of ANS drives and of serial sockets holds of this option. */
  predicate Meets(arg: string, value: string, devices: set<string>, drives: bool, sockets: bool) {
    (arg == "-drive" && ANS in Split(value) ==> drives) && (arg == "-chardev" && SerialSocket(value, devices) ==> sockets)
  }

  /** And of every option of the line. */
  predicate AllMeet(argv: seq<string>, devices: set<string>, drives: bool, sockets: bool) {
    (HasAns(argv) ==> drives) && (HasSocket(argv, devices) ==> sockets)
  }

  lemma HasAnsUnfolds(argv: seq<string>)
    requires Formed(argv) && argv != []
    ensures Width(argv) <= |argv|
    ensures HasAns(argv) <==> (argv[0] == "-drive" && ANS in Split(argv[1])) || HasAns(argv[Width(argv)..])
  {
    hide Formed, Split, TakesValue, Handled, Dash;
    FirstToken(argv);
    OptionsTakeValues(argv[0]);
    var n := Width(argv);
    var rest := argv[n..];
    if HasAns(argv) {
      var i :| 0 <= i < |argv| - 1 && argv[i] == "-drive" && ANS in Split(argv[i + 1]);
      SecondIsNoOption(argv, i);
      if i >= n {
        assert rest[i - n] == "-drive" && rest[i - n + 1] == argv[i + 1];
      }
    }
    if HasAns(rest) {
      var i :| 0 <= i < |rest| - 1 && rest[i] == "-drive" && ANS in Split(rest[i + 1]);
      assert argv[n + i] == "-drive" && argv[n + i + 1] == rest[i + 1];
    }
  }

  lemma HasSocketUnfolds(argv: seq<string>, devices: set<string>)
    requires Formed(argv) && argv != []
    ensures Width(argv) <= |argv|
    ensures HasSocket(argv, devices) <==>
            (argv[0] == "-chardev" && SerialSocket(argv[1], devices)) || HasSocket(argv[Width(argv)..], devices)
  {
    hide Formed, SerialSocket, TakesValue, Handled, Dash;
    FirstToken(argv);
    OptionsTakeValues(argv[0]);
    var n := Width(argv);
    var rest := argv[n..];
    if HasSocket(argv, devices) {
      var i :| 0 <= i < |argv| - 1 && argv[i] == "-chardev" && SerialSocket(argv[i + 1], devices);
      SecondIsNoOption(argv, i);
      if i >= n {
        assert rest[i - n] == "-chardev" && rest[i - n + 1] == argv[i + 1];
      }
    }
    if HasSocket(rest, devices) {
      var i :| 0 <= i < |rest| - 1 && rest[i] == "-chardev" && SerialSocket(rest[i + 1], devices);
      assert argv[n + i] == "-chardev" && argv[n + i + 1] == rest[i + 1];
    }
  }

  lemma OptionsTakeValues(arg: string)
    ensures arg == "-drive" || arg == "-chardev" ==> TakesValue(arg)
  {
  }

  /** No drive and no device is named by an option's value. */
  lemma SecondIsNoOption(argv: seq<string>, i: nat)
    requires Formed(argv) && i < |argv| && (argv[i] == "-drive" || argv[i] == "-chardev")
    ensures i == 0 || i >= Width(argv)
  {
    FirstToken(argv);
  }

  lemma HasUnfolds(argv: seq<string>, devices: set<string>)
    requires Formed(argv) && argv != []
    ensures Width(argv) <= |argv|
    ensures HasAns(argv) <==> (argv[0] == "-drive" && ANS in Split(argv[1])) || HasAns(argv[Width(argv)..])
    ensures HasSocket(argv, devices) <==>
            (argv[0] == "-chardev" && SerialSocket(argv[1], devices)) || HasSocket(argv[Width(argv)..], devices)
  {
    hide Formed, Split, SerialSocket, HasAns, HasSocket;
    FirstToken(argv);
    HasAnsUnfolds(argv);
    HasSocketUnfolds(argv, devices);
  }

  lemma MeetUnfolds(argv: seq<string>, devices: set<string>, drives: bool, sockets: bool)
    requires Formed(argv) && argv != []
    ensures Width(argv) <= |argv|
    ensures AllMeet(argv, devices, drives, sockets) <==>
            (Handled(argv[0]) ==> Meets(argv[0], argv[1], devices, drives, sockets))
            && AllMeet(argv[Width(argv)..], devices, drives, sockets)
  {
    hide Formed, Split, SerialSocket, HasAns, HasSocket;
    FirstToken(argv);
    HasUnfolds(argv, devices);
  }

  /** A line in which a drive was found has one. */
  lemma {:induction false} DriveSeen(argv: seq<string>, disk: string, to: Target, devices: set<string>, resolve: Resolver)
    requires Formed(argv) && Walk(argv, disk, to, devices, resolve).Ok? && Walk(argv, disk, to, devices, resolve).value.drive
    ensures HasAns(argv)
    decreases |argv|
  {
    hide Formed, Walk, Split, SerialSocket, HasAns, HasSocket;
    if argv == [] {
      EmptyWalk(disk, to, devices, resolve);
    } else {
      WalkUnfolds(argv, disk, to, devices, resolve);
      HasUnfolds(argv, devices);
      FirstToken(argv);
      if !HasAns(argv) {
        DriveSeen(argv[Width(argv)..], disk, to, devices, resolve);
      }
    }
  }

  // ---------- one option, twice ----------

  lemma DriveTwiceIff(value: string, disk: string, mid: Target, to: Target, resolve: Resolver)
    requires Distinct(disk, mid, to, resolve) && ReplaceDriveFile(value, disk, mid.disk, resolve).Ok?
    ensures var once := ReplaceDriveFile(value, disk, mid.disk, resolve).value;
            var twice, direct := ReplaceDriveFile(once, mid.disk, to.disk, resolve), ReplaceDriveFile(value, disk, to.disk, resolve);
            && direct.Ok? && (twice == direct <==> (ANS in Split(value) ==> NoComma(mid.disk)))
            && (twice == direct ==> ((twice.value != once) <==> (direct.value != value)))
  {
    hide Split, Join, FirstFile, NoComma;
    var once := ReplaceDriveFile(value, disk, mid.disk, resolve).value;
    if ANS in Split(value) {
      DriveComposesIff(value, disk, mid.disk, to.disk, resolve);
      var k := DriveParts(value, disk, to.disk, resolve);
      if NoComma(mid.disk) {
        DriveSplits(value, disk, mid.disk, resolve);
        var l := DriveParts(once, mid.disk, to.disk, resolve);
      }
    }
  }

  lemma PairTwiceIff(arg: string, value: string, disk: string, mid: Target, to: Target, devices: set<string>, resolve: Resolver)
    requires Handled(arg) && Distinct(disk, mid, to, resolve) && RestorePair(arg, value, disk, mid, devices, resolve).Ok?
    requires |RestorePair(arg, value, disk, mid, devices, resolve).value.out| == 2
    ensures var once := RestorePair(arg, value, disk, mid, devices, resolve).value.out;
            var twice := RestorePair(arg, once[1], mid.disk, to, devices, resolve);
            var direct := RestorePair(arg, value, disk, to, devices, resolve);
            && direct.Ok? && |direct.value.out| == 2
            && (twice.Ok? ==> |twice.value.out| == 2 && twice.value.monitor == direct.value.monitor)
            && (Meets(arg, value, devices, NoComma(mid.disk), Vanishes(mid)) ==> twice == direct)
            && (twice.Ok? && twice.value.out == direct.value.out ==> Meets(arg, value, devices, NoComma(mid.disk), Vanishes(mid)))
  {
    hide Split, SerialSocket, RedirectChardev, ReplaceDriveFile, NoComma, Vanishes, Distinct;
    if arg == "-drive" {
      DriveTwiceIff(value, disk, mid, to, resolve);
    } else if arg == "-chardev" && SerialSocket(value, devices) {
      RedirectKeepsSocket(value, mid, devices);
      ChardevComposesIff(value, mid, to);
    } else if arg == "-serial" {
      Letters(mid);
    }
  }

  // ---------- one line, twice ----------

  /** Two walks of equal length, one of which may fail. */
  predicate Parallel(twice: Outcome<Seen>, direct: Outcome<Seen>, same: bool) {
    && direct.Ok?
    && (twice.Ok? ==> |twice.value.out| == |direct.value.out| && twice.value.monitor == direct.value.monitor)
    && (same ==> twice == direct)
    && (twice.Ok? && twice.value.out == direct.value.out ==> same)
  }

  lemma BothParallel(a: Outcome<Seen>, b: Outcome<Seen>, x: Outcome<Seen>, y: Outcome<Seen>, first: bool, rest: bool)
    requires Parallel(a, x, first) && Parallel(b, y, rest)
    ensures Parallel(Both(a, b), Both(x, y), first && rest)
  {
    if a.Ok? && b.Ok? && a.value.out + b.value.out == x.value.out + y.value.out {
      var n := |a.value.out|;
      assert (a.value.out + b.value.out)[..n] == a.value.out && (x.value.out + y.value.out)[..n] == x.value.out;
      assert (a.value.out + b.value.out)[n..] == b.value.out && (x.value.out + y.value.out)[n..] == y.value.out;
    }
  }

  lemma StepTwiceIff(argv: seq<string>, disk: string, mid: Target, to: Target, devices: set<string>, resolve: Resolver)
    requires Formed(argv) && argv != [] && Distinct(disk, mid, to, resolve)
    requires Width(argv) <= |argv| && Step(argv, disk, mid, devices, resolve).Ok?
    ensures Formed(Step(argv, disk, mid, devices, resolve).value.out)
    ensures Parallel(Walk(Step(argv, disk, mid, devices, resolve).value.out, mid.disk, to, devices, resolve),
                     Step(argv, disk, to, devices, resolve),
                     Handled(argv[0]) ==> Meets(argv[0], argv[1], devices, NoComma(mid.disk), Vanishes(mid)))
  {
    hide Formed, Walk, RestorePair, Distinct, NoComma, Vanishes, Meets;
    FirstToken(argv);
    StepKeepsForm(argv, disk, mid, devices, resolve);
    var out := Step(argv, disk, mid, devices, resolve).value.out;
    EmptyWalk(mid.disk, to, devices, resolve);
    if Handled(argv[0]) {
      PairOut(argv[0], argv[1], disk, mid, devices, resolve);
      DroppedPair(argv[0], argv[1], disk, to, devices, resolve);
      if out == [] {
        MeetsAnyway(argv[0], argv[1], devices, NoComma(mid.disk), Vanishes(mid));
      } else {
        PairTwiceIff(argv[0], argv[1], disk, mid, to, devices, resolve);
        WalkPair(argv[0], out[1], mid.disk, to, devices, resolve);
        assert out == [argv[0], out[1]];
      }
    } else if out != [] {
      WalkUnfolds(out, mid.disk, to, devices, resolve);
      assert out[Width(out)..] == [];
      ThenNothing(Step(out, mid.disk, to, devices, resolve));
    }
  }

  lemma MeetsAnyway(arg: string, value: string, devices: set<string>, drives: bool, sockets: bool)
    requires Meets(arg, value, devices, false, false)
    ensures Meets(arg, value, devices, drives, sockets)
  {
  }

  lemma DroppedPair(arg: string, value: string, disk: string, to: Target, devices: set<string>, resolve: Resolver)
    ensures arg in {"-incoming", "-gdb", "-pidfile", "-qmp"} ==>
              RestorePair(arg, value, disk, to, devices, resolve) == Ok(NOTHING) && Meets(arg, value, devices, false, false)
  {
  }

  lemma {:induction false} WalkTwiceIff(argv: seq<string>, disk: string, mid: Target, to: Target, devices: set<string>,
                                        resolve: Resolver)
    requires Formed(argv) && Distinct(disk, mid, to, resolve) && Walk(argv, disk, mid, devices, resolve).Ok?
    ensures Parallel(Walk(Walk(argv, disk, mid, devices, resolve).value.out, mid.disk, to, devices, resolve),
                     Walk(argv, disk, to, devices, resolve),
                     AllMeet(argv, devices, NoComma(mid.disk), Vanishes(mid)))
    decreases |argv|
  {
    hide Formed, Walk, Step, Distinct, NoComma, Vanishes, AllMeet, Meets, Parallel;
    if argv == [] {
      EmptyWalk(disk, mid, devices, resolve);
      EmptyWalk(disk, to, devices, resolve);
      EmptyWalk(mid.disk, to, devices, resolve);
      NothingParallel(devices, NoComma(mid.disk), Vanishes(mid));
    } else {
      var n := Width(argv);
      WalkUnfolds(argv, disk, mid, devices, resolve);
      WalkUnfolds(argv, disk, to, devices, resolve);
      var first, rest := Step(argv, disk, mid, devices, resolve).value.out, Walk(argv[n..], disk, mid, devices, resolve).value.out;
      StepTwiceIff(argv, disk, mid, to, devices, resolve);
      WalkTwiceIff(argv[n..], disk, mid, to, devices, resolve);
      WalkKeepsForm(argv[n..], disk, mid, devices, resolve);
      WalkConcat(first, rest, mid.disk, to, devices, resolve);
      MeetUnfolds(argv, devices, NoComma(mid.disk), Vanishes(mid));
      BothParallel(Walk(first, mid.disk, to, devices, resolve), Walk(rest, mid.disk, to, devices, resolve),
                   Step(argv, disk, to, devices, resolve), Walk(argv[n..], disk, to, devices, resolve),
                   Handled(argv[0]) ==> Meets(argv[0], argv[1], devices, NoComma(mid.disk), Vanishes(mid)),
                   AllMeet(argv[n..], devices, NoComma(mid.disk), Vanishes(mid)));
    }
  }

  lemma NothingParallel(devices: set<string>, drives: bool, sockets: bool)
    ensures Parallel(Ok(NOTHING), Ok(NOTHING), AllMeet([], devices, drives, sockets))
  {
  }

  // ---------- whole lines ----------

  /** Distinct disks are accepted or refused alike, wherever the restore goes. */
  lemma RestoreSameOutcome(source: seq<string>, disk: string, a: Target, b: Target, resolve: Resolver)
    requires WellFormed(source) && Distinct(disk, a, b, resolve)
    ensures Restore(source, disk, a, resolve).Ok? <==> Restore(source, disk, b, resolve).Ok?
  {
    hide Formed, Walk, Closing, SerialDevices, Distinct;
    FormedTail(source, 1);
    WalkSameOutcome(source[1..], disk, a, b, SerialDevices(source), resolve);
  }

  /** The second restore, from the walks of the first line. */
  lemma SecondRestore(source: seq<string>, disk: string, mid: Target, to: Target, resolve: Resolver, seen: Seen)
    requires WellFormed(source) && Restore(source, disk, mid, resolve).Ok?
    requires Walk(source[1..], disk, mid, SerialDevices(source), resolve) == Ok(seen)
    ensures var twice := Walk(seen.out, mid.disk, to, SerialDevices(source), resolve);
            var r := Restore(Restore(source, disk, mid, resolve).value, mid.disk, to, resolve);
            && (r.Ok? ==> twice.Ok?)
            && (twice.Ok? && twice.value.monitor == seen.monitor ==>
                (r.Ok? <==> twice.value.drive && twice.value.serial)
                && (r.Ok? ==> r.value == [source[0]] + (twice.value.out + Tail(seen.monitor, "-S" in seen.out, to))))
  {
    hide Formed, Walk, Tail, Closing, SerialDevices;
    var devices := SerialDevices(source);
    var again := RestoredLine(source, disk, mid, resolve);
    var once := Restore(source, disk, mid, resolve).value;
    var paused := "-S" in seen.out;
    var tail := Tail(seen.monitor, paused, mid);
    assert once[1..] == seen.out + tail && once[0] == source[0];
    TailFormed(seen.monitor, paused, mid);
    TailAgain(seen.monitor, paused, mid, to, devices, resolve);
    WalkConcat(seen.out, tail, mid.disk, to, devices, resolve);
    var twice := Walk(seen.out, mid.disk, to, devices, resolve);
    if twice.Ok? && twice.value.monitor == seen.monitor {
      WalkKeepsForm(seen.out, mid.disk, to, devices, resolve);
      ClosedTwice(source[0], twice.value, paused, to);
    }
  }

  /** Restoring a restored line is restoring the captured one, straight to the final disk and endpoints, if and only if
      the disk in between has no comma in its path and, should the line have a serial socket, the paths in between leave
      nothing behind that a second redirection would keep. */
  lemma RestoresComposeIff(source: seq<string>, disk: string, mid: Target, to: Target, resolve: Resolver)
    requires WellFormed(source) && Distinct(disk, mid, to, resolve) && Restore(source, disk, mid, resolve).Ok?
    ensures Restore(Restore(source, disk, mid, resolve).value, mid.disk, to, resolve) == Restore(source, disk, to, resolve)
            <==> NoComma(mid.disk) && (HasSocket(source[1..], SerialDevices(source)) ==> Vanishes(mid))
  {
    hide Formed, Walk, Tail, Closing, SerialDevices, Distinct, NoComma, Vanishes, Restore, HasAns, HasSocket;
    var devices := SerialDevices(source);
    RestoreSameOutcome(source, disk, mid, to, resolve);
    var seen := RestoredLine(source, disk, mid, resolve);
    var direct := RestoredLine(source, disk, to, resolve);
    var twice := Walk(seen.out, mid.disk, to, devices, resolve);
    DriveSeen(source[1..], disk, mid, devices, resolve);
    WalkSameOutcome(source[1..], disk, mid, to, devices, resolve);
    WalkTwiceIff(source[1..], disk, mid, to, devices, resolve);
    SecondRestore(source, disk, mid, to, resolve, seen);
    if twice.Ok? {
      var tail := Tail(seen.monitor, "-S" in seen.out, to);
      SameLine(source[0], twice.value.out, direct.out, tail);
    }
  }

  lemma SameLine(program: string, a: seq<string>, b: seq<string>, tail: seq<string>)
    requires |a| == |b|
    ensures [program] + (a + tail) == [program] + (b + tail) <==> a == b
  {
    if [program] + (a + tail) == [program] + (b + tail) {
      assert ([program] + (a + tail))[1..][..|a|] == a && ([program] + (b + tail))[1..][..|b|] == b;
    }
  }

  /** What a caller can ask of the endpoints in between: no commas. Then the second restore is also accepted alike. */
  lemma RestoresCompose(source: seq<string>, disk: string, mid: Target, to: Target, resolve: Resolver)
    requires WellFormed(source) && Distinct(disk, mid, to, resolve) && Writable(mid)
    ensures Restore(source, disk, mid, resolve).Ok? <==> Restore(source, disk, to, resolve).Ok?
    ensures Restore(source, disk, mid, resolve).Ok? ==>
              Restore(Restore(source, disk, mid, resolve).value, mid.disk, to, resolve) == Restore(source, disk, to, resolve)
  {
    hide Restore, Distinct, HasSocket, NoComma, Vanishes;
    RestoreSameOutcome(source, disk, mid, to, resolve);
    WritableVanishes(mid);
    if Restore(source, disk, mid, resolve).Ok? {
      RestoresComposeIff(source, disk, mid, to, resolve);
    }
  }
}
