/** What a restore leaves alone, and where it points the rest. */
module RestoreArgvFrame {
  import opened Results
  import opened RestoreArgv
  import opened RestoreArgvProofs
  import opened RestoreArgvTheorems
  import opened RestoreArgvCompose

  // ---------- what stays ----------

  /** Option and value that no restore has business with. */
  predicate Untouched(arg: string, value: string, devices: set<string>) {
    || (arg == "-drive" && ANS !in Split(value))
    || (arg == "-chardev" && !SerialSocket(value, devices))
    || (arg == "-serial" && !StartsWith(value, "file:"))
  }

  /** The command line without the ANS drives, the serial and monitor endpoints and the run-control options. */
  function Others(argv: seq<string>, devices: set<string>): seq<string> {
    if argv == [] then []
    else if Handled(argv[0]) && |argv| > 1 then
      (if Untouched(argv[0], argv[1], devices) then [argv[0], argv[1]] else []) + Others(argv[2..], devices)
    else
      (if argv[0] == "-daemonize" || argv[0] == "-S" then [] else [argv[0]]) + Others(argv[1..], devices)
  }

  /** What the first option leaves, and how many tokens it takes. */
  function OthersHead(argv: seq<string>, devices: set<string>): (seq<string>, nat)
    requires argv != []
  {
    if Handled(argv[0]) && |argv| > 1 then
      (if Untouched(argv[0], argv[1], devices) then [argv[0], argv[1]] else [], 2)
    else (if argv[0] == "-daemonize" || argv[0] == "-S" then [] else [argv[0]], 1)
  }

  lemma OthersUnfold(argv: seq<string>, devices: set<string>)
    requires argv != []
    ensures 1 <= OthersHead(argv, devices).1 <= |argv|
    ensures Others(argv, devices) == OthersHead(argv, devices).0 + Others(argv[OthersHead(argv, devices).1..], devices)
  {
    hide Untouched, Handled;
  }

  lemma SameHead(a: seq<string>, b: seq<string>, devices: set<string>)
    requires a != [] && (Handled(a[0]) ==> |a| > 1)
    ensures OthersHead(a + b, devices) == OthersHead(a, devices)
  {
    hide Untouched, Handled;
    assert (a + b)[0] == a[0] && (|a| > 1 ==> (a + b)[1] == a[1]);
  }

  lemma {:induction false} OthersConcat(a: seq<string>, b: seq<string>, devices: set<string>)
    requires Formed(a)
    ensures Others(a + b, devices) == Others(a, devices) + Others(b, devices)
    decreases |a|
  {
    hide Formed, Untouched, Handled, Others, OthersHead, TakesValue;
    if a == [] {
      OthersSmall(a, devices);
      assert a + b == b;
    } else {
      FirstToken(a);
      SameHead(a, b, devices);
      OthersUnfold(a, devices);
      OthersUnfold(a + b, devices);
      var n := OthersHead(a, devices).1;
      assert (a + b)[n..] == a[n..] + b;
      FormedTail(a, n);
      OthersConcat(a[n..], b, devices);
    }
  }

  lemma OthersSmall(argv: seq<string>, devices: set<string>)
    ensures argv == [] ==> Others(argv, devices) == []
    ensures |argv| == 1 ==> Others(argv, devices) == if argv[0] == "-daemonize" || argv[0] == "-S" then [] else argv
    ensures |argv| == 2 && Handled(argv[0]) ==>
              Others(argv, devices) == if Untouched(argv[0], argv[1], devices) then argv else []
    ensures |argv| == 2 && argv[0] == "-loadvm" && !Dash(argv[1]) ==> Others(argv, devices) == argv
  {
    hide Untouched;
    if |argv| == 2 {
      assert argv[2..] == [] && argv == [argv[0], argv[1]];
      assert argv[1..][1..] == [] && argv[1..][0] == argv[1] && Others(argv[1..][1..], devices) == [];
    }
  }

  lemma PairOthers(arg: string, value: string, disk: string, to: Target, devices: set<string>, resolve: Resolver)
    requires Handled(arg) && RestorePair(arg, value, disk, to, devices, resolve).Ok?
    ensures var out := RestorePair(arg, value, disk, to, devices, resolve).value.out;
            out == [] || (|out| == 2 && out[0] == arg)
    ensures var out := RestorePair(arg, value, disk, to, devices, resolve).value.out;
            if out == [] then !Untouched(arg, value, devices)
            else if Untouched(arg, value, devices) then out[1] == value
            else !Untouched(arg, out[1], devices)
  {
    hide Split, Join, FirstFile, SerialSocket, RedirectChardev, NoComma;
    Letters(to);
    if arg == "-drive" && ANS in Split(value) {
      DriveKeepsAns(value, disk, to.disk, resolve);
    } else if arg == "-chardev" && SerialSocket(value, devices) {
      RedirectKeepsSocket(value, to, devices);
    }
  }

  lemma StepOthers(argv: seq<string>, disk: string, to: Target, devices: set<string>, resolve: Resolver)
    requires Formed(argv) && argv != []
    requires Width(argv) <= |argv| && Step(argv, disk, to, devices, resolve).Ok?
    ensures Others(Step(argv, disk, to, devices, resolve).value.out, devices) == Others(argv[..Width(argv)], devices)
  {
    hide Formed, RestorePair, Others, Untouched;
    FirstToken(argv);
    var n, out := Width(argv), Step(argv, disk, to, devices, resolve).value.out;
    OthersSmall(out, devices);
    OthersSmall(argv[..n], devices);
    if Handled(argv[0]) {
      PairOthers(argv[0], argv[1], disk, to, devices, resolve);
      assert argv[..2] == [argv[0], argv[1]];
      if out != [] {
        assert out == [argv[0], out[1]];
      }
    } else {
      assert argv[..n] == if n == 2 then [argv[0], argv[1]] else [argv[0]];
    }
  }

  lemma {:induction false} WalkOthers(argv: seq<string>, disk: string, to: Target, devices: set<string>, resolve: Resolver)
    requires Formed(argv) && Walk(argv, disk, to, devices, resolve).Ok?
    ensures Others(Walk(argv, disk, to, devices, resolve).value.out, devices) == Others(argv, devices)
    decreases |argv|
  {
    hide Formed, Step, Walk, Others, TakesValue;
    if argv == [] {
      EmptyWalk(disk, to, devices, resolve);
    } else {
      var n := Width(argv);
      WalkUnfolds(argv, disk, to, devices, resolve);
      StepOthers(argv, disk, to, devices, resolve);
      StepKeepsForm(argv, disk, to, devices, resolve);
      WalkOthers(argv[n..], disk, to, devices, resolve);
      OthersConcat(Step(argv, disk, to, devices, resolve).value.out, Walk(argv[n..], disk, to, devices, resolve).value.out, devices);
      OthersConcat(argv[..n], argv[n..], devices);
      assert argv == argv[..n] + argv[n..];
    }
  }

  lemma TailOthers(monitor: bool, paused: bool, to: Target, devices: set<string>)
    ensures Others(Tail(monitor, paused, to), devices) == []
  {
    hide Formed, Others;
    var (a, b, c, d) := TailPieces(monitor, paused, to);
    Letters(to);
    TailParts(monitor, paused, to);
    OthersSmall(a, devices);
    OthersSmall(b, devices);
    OthersSmall(c, devices);
    OthersSmall(d, devices);
    OthersConcat(a, b, devices);
    OthersConcat(a + b, c, devices);
    OthersConcat(a + b + c, d, devices);
  }

  /** Every other option keeps its value and its place among the others. */
  lemma OthersAreKept(source: seq<string>, disk: string, to: Target, resolve: Resolver)
    requires WellFormed(source) && Restore(source, disk, to, resolve).Ok?
    ensures Others(Restore(source, disk, to, resolve).value, SerialDevices(source)) == Others(source, SerialDevices(source))
  {
    hide Formed, Walk, Tail, Closing, Others, SerialDevices, Restore;
    var devices := SerialDevices(source);
    var seen := RestoredLine(source, disk, to, resolve);
    var tail := Tail(seen.monitor, "-S" in seen.out, to);
    SingleFormed(source[0]);
    OthersConcat([source[0]], seen.out + tail, devices);
    OthersConcat(seen.out, tail, devices);
    TailOthers(seen.monitor, "-S" in seen.out, to, devices);
    WalkOthers(source[1..], disk, to, devices, resolve);
    OthersConcat([source[0]], source[1..], devices);
    assert source == [source[0]] + source[1..];
  }

  // ---------- where the rest points ----------

  ghost predicate PairDirected(arg: string, value: string, to: Target, devices: set<string>) {
    && (arg == "-drive" && ANS in Split(value) ==>
          FirstFile(Split(value)) < |Split(value)| && Split(value)[FirstFile(Split(value))] == FILE + to.disk)
    && (arg == "-chardev" && SerialSocket(value, devices) ==>
          forall p :: (p in Split(value) && Endpoint(p)) <==> p in NewEndpoints(to))
    && (arg == "-serial" && StartsWith(value, "file:") ==> value == "file:" + to.serial)
    && (arg == "-monitor" ==> value == MonitorValue(to))
    && (arg == "-incoming" ==> value == "file:" + to.state)
    && (arg == "-gdb" ==> to.gdb.Some? && value == "tcp::" + to.gdb.value)
    && arg != "-pidfile" && arg != "-qmp"
  }

  ghost predicate Directed(argv: seq<string>, to: Target, devices: set<string>) {
    forall i :: 0 <= i < |argv| && Handled(argv[i]) ==> i + 1 < |argv| && PairDirected(argv[i], argv[i + 1], to, devices)
  }

  lemma DirectedConcat(a: seq<string>, b: seq<string>, to: Target, devices: set<string>)
    requires Formed(a)
    ensures Directed(a + b, to, devices) <==> Directed(a, to, devices) && Directed(b, to, devices)
  {
    hide PairDirected, Handled, TakesValue;
    var whole := a + b;
    forall i | 0 <= i < |a| && Handled(a[i])
      ensures i + 1 < |a| && whole[i] == a[i] && whole[i + 1] == a[i + 1]
    {
      ValueFollows(a, i);
    }
    assert forall i :: 0 <= i < |b| ==> whole[|a| + i] == b[i];
    if Directed(whole, to, devices) {
      forall i | 0 <= i < |b| && Handled(b[i])
        ensures i + 1 < |b| && PairDirected(b[i], b[i + 1], to, devices)
      {
        assert Handled(whole[|a| + i]) && whole[|a| + i + 1] == b[i + 1];
      }
      forall i | 0 <= i < |a| && Handled(a[i])
        ensures i + 1 < |a| && PairDirected(a[i], a[i + 1], to, devices)
      {
        assert Handled(whole[i]);
      }
    }
    if Directed(a, to, devices) && Directed(b, to, devices) {
      forall i | 0 <= i < |whole| && Handled(whole[i])
        ensures i + 1 < |whole| && PairDirected(whole[i], whole[i + 1], to, devices)
      {
        if i < |a| {
          assert Handled(a[i]);
        } else {
          assert Handled(b[i - |a|]);
        }
      }
    }
  }

  lemma ValueFollows(argv: seq<string>, i: nat)
    requires Formed(argv) && i < |argv| && Handled(argv[i])
    ensures i + 1 < |argv|
  {
    assert TakesValue(argv[i]);
  }

  lemma DirectedSmall(argv: seq<string>, to: Target, devices: set<string>)
    ensures argv == [] ==> Directed(argv, to, devices)
    ensures |argv| == 1 && !Handled(argv[0]) ==> Directed(argv, to, devices)
    ensures |argv| == 2 && !Dash(argv[1]) && (Handled(argv[0]) ==> PairDirected(argv[0], argv[1], to, devices)) ==>
              Directed(argv, to, devices)
  {
    hide PairDirected;
  }

  /** An option of a restored line points where it should if and only if the paths written into it have no commas. */
  lemma PairIsDirectedIff(arg: string, value: string, disk: string, to: Target, devices: set<string>, resolve: Resolver)
    requires Handled(arg) && RestorePair(arg, value, disk, to, devices, resolve).Ok?
    requires |RestorePair(arg, value, disk, to, devices, resolve).value.out| == 2
    ensures PairDirected(arg, RestorePair(arg, value, disk, to, devices, resolve).value.out[1], to, devices)
            <==> Meets(arg, value, devices, NoComma(to.disk), NoComma(to.serial) && NoComma(to.uart))
  {
    hide Split, Join, FirstFile, SerialSocket, RedirectChardev, NoComma, Endpoint, WithoutEndpoints, NewEndpoints;
    if arg == "-drive" && ANS in Split(value) {
      DriveIsDirectedIff(value, disk, to, resolve);
    } else if arg == "-chardev" && SerialSocket(value, devices) {
      RedirectKeepsSocket(value, to, devices);
      ChardevIsDirectedIff(value, to, devices);
    }
  }

  lemma DriveIsDirectedIff(value: string, disk: string, to: Target, resolve: Resolver)
    requires ANS in Split(value) && ReplaceDriveFile(value, disk, to.disk, resolve).Ok?
    ensures var parts := Split(ReplaceDriveFile(value, disk, to.disk, resolve).value);
            && ANS in parts
            && (FirstFile(parts) < |parts| && parts[FirstFile(parts)] == FILE + to.disk <==> NoComma(to.disk))
  {
    hide Split, Join, FirstFile, NoComma;
    DriveKeepsAns(value, disk, to.disk, resolve);
    if NoComma(to.disk) {
      DriveSplits(value, disk, to.disk, resolve);
    } else {
      SplitParts(ReplaceDriveFile(value, disk, to.disk, resolve).value);
      CommaStays(FILE, to.disk);
    }
  }

  lemma CommaStays(prefix: string, s: string)
    requires !NoComma(s)
    ensures !NoComma(prefix + s)
  {
    var i :| 0 <= i < |s| && s[i] == ',';
    assert (prefix + s)[|prefix| + i] == ',';
  }

  lemma ChardevIsDirectedIff(value: string, to: Target, devices: set<string>)
    requires SerialSocket(value, devices)
    ensures (forall p :: (p in Split(RedirectChardev(value, to)) && Endpoint(p)) <==> p in NewEndpoints(to))
            <==> NoComma(to.serial) && NoComma(to.uart)
  {
    hide Split, SerialSocket, RedirectChardev, NoComma, Endpoint, WithoutEndpoints;
    var parts := Split(RedirectChardev(value, to));
    if NoComma(to.serial) && NoComma(to.uart) {
      NothingNoComma();
      ChardevIsDirected(value, to.(disk := ""), devices);
      assert RedirectChardev(value, to) == RedirectChardev(value, to.(disk := "")) by { SameRedirect(value, to); }
      assert NewEndpoints(to) == NewEndpoints(to.(disk := ""));
    } else {
      SplitParts(RedirectChardev(value, to));
      CommaEndpoint(to);
      var p :| p in NewEndpoints(to) && !NoComma(p);
      assert p !in parts;
    }
  }

  lemma NothingNoComma()
    ensures NoComma("")
  {
  }

  lemma CommaEndpoint(to: Target)
    requires !(NoComma(to.serial) && NoComma(to.uart))
    ensures exists p :: p in NewEndpoints(to) && !NoComma(p)
  {
    hide NoComma;
    var parts := NewEndpoints(to);
    if !NoComma(to.uart) {
      CommaStays("path=", to.uart);
      assert parts[0] in parts && !NoComma(parts[0]);
    } else {
      CommaStays("logfile=", to.serial);
      assert parts[1] in parts && !NoComma(parts[1]);
    }
  }

  lemma SameRedirect(value: string, to: Target)
    ensures RedirectChardev(value, to) == RedirectChardev(value, to.(disk := ""))
  {
  }

  lemma ChardevIsDirected(value: string, to: Target, devices: set<string>)
    requires SerialSocket(value, devices) && Writable(to)
    ensures forall p :: (p in Split(RedirectChardev(value, to)) && Endpoint(p)) <==> p in NewEndpoints(to)
  {
    hide Split, SerialSocket, RedirectChardev, NoComma, Endpoint, WithoutEndpoints, NewEndpoints;
    ChardevSplits(value, to, devices);
    WithoutEndpointsLaws(Split(value));
    EndpointParts(to);
    var parts, base := Split(RedirectChardev(value, to)), WithoutEndpoints(Split(value));
    forall p
      ensures p in parts && Endpoint(p) <==> p in NewEndpoints(to)
    {
      assert p in parts <==> p in base || p in NewEndpoints(to);
    }
  }

  lemma {:induction false} WalkIsDirectedIff(argv: seq<string>, disk: string, to: Target, devices: set<string>, resolve: Resolver)
    requires Formed(argv) && Walk(argv, disk, to, devices, resolve).Ok?
    ensures Directed(Walk(argv, disk, to, devices, resolve).value.out, to, devices)
            <==> AllMeet(argv, devices, NoComma(to.disk), NoComma(to.serial) && NoComma(to.uart))
    decreases |argv|
  {
    hide Formed, RestorePair, Step, Walk, Directed, PairDirected, NoComma, Meets, AllMeet;
    if argv == [] {
      EmptyWalk(disk, to, devices, resolve);
      DirectedSmall([], to, devices);
      NothingMeets(devices, NoComma(to.disk), NoComma(to.serial) && NoComma(to.uart));
    } else {
      var n := Width(argv);
      WalkUnfolds(argv, disk, to, devices, resolve);
      WalkIsDirectedIff(argv[n..], disk, to, devices, resolve);
      StepIsDirectedIff(argv, disk, to, devices, resolve);
      StepKeepsForm(argv, disk, to, devices, resolve);
      MeetUnfolds(argv, devices, NoComma(to.disk), NoComma(to.serial) && NoComma(to.uart));
      DirectedConcat(Step(argv, disk, to, devices, resolve).value.out,
                     Walk(argv[n..], disk, to, devices, resolve).value.out, to, devices);
    }
  }

  lemma NothingMeets(devices: set<string>, drives: bool, sockets: bool)
    ensures AllMeet([], devices, drives, sockets)
  {
  }

  lemma StepIsDirectedIff(argv: seq<string>, disk: string, to: Target, devices: set<string>, resolve: Resolver)
    requires Formed(argv) && argv != []
    requires Width(argv) <= |argv| && Step(argv, disk, to, devices, resolve).Ok?
    ensures Directed(Step(argv, disk, to, devices, resolve).value.out, to, devices) <==>
            (Handled(argv[0]) ==> Meets(argv[0], argv[1], devices, NoComma(to.disk), NoComma(to.serial) && NoComma(to.uart)))
  {
    hide Formed, RestorePair, Directed, PairDirected, NoComma, Meets;
    FirstToken(argv);
    var out := Step(argv, disk, to, devices, resolve).value.out;
    DirectedSmall(out, to, devices);
    if Handled(argv[0]) {
      PairOut(argv[0], argv[1], disk, to, devices, resolve);
      DroppedPair(argv[0], argv[1], disk, to, devices, resolve);
      if out == [] {
        MeetsAnyway(argv[0], argv[1], devices, NoComma(to.disk), NoComma(to.serial) && NoComma(to.uart));
      } else {
        PairIsDirectedIff(argv[0], argv[1], disk, to, devices, resolve);
        DirectedPair(out, to, devices);
      }
    }
  }

  lemma DirectedPair(out: seq<string>, to: Target, devices: set<string>)
    requires |out| == 2 && Handled(out[0]) && !Dash(out[1])
    ensures Directed(out, to, devices) <==> PairDirected(out[0], out[1], to, devices)
  {
    hide PairDirected;
    assert Handled(out[0]) && 0 + 1 < |out|;
  }

  /** What the walk drops is gone, and a monitor it saw is there. */
  lemma {:induction false} WalkLeaves(argv: seq<string>, disk: string, to: Target, devices: set<string>, resolve: Resolver)
    requires Formed(argv) && Walk(argv, disk, to, devices, resolve).Ok?
    ensures var s := Walk(argv, disk, to, devices, resolve).value;
            "-incoming" !in s.out && "-daemonize" !in s.out && (s.monitor ==> "-monitor" in s.out)
    decreases |argv|
  {
    hide Formed, RestorePair, Walk;
    if argv == [] {
      EmptyWalk(disk, to, devices, resolve);
    } else {
      WalkUnfolds(argv, disk, to, devices, resolve);
      WalkLeaves(argv[Width(argv)..], disk, to, devices, resolve);
      FirstToken(argv);
      if Handled(argv[0]) {
        PairOut(argv[0], argv[1], disk, to, devices, resolve);
        MonitorPair(argv[0], argv[1], disk, to, devices, resolve);
      }
    }
  }

  lemma MonitorPair(arg: string, value: string, disk: string, to: Target, devices: set<string>, resolve: Resolver)
    requires Handled(arg) && RestorePair(arg, value, disk, to, devices, resolve).Ok?
    ensures RestorePair(arg, value, disk, to, devices, resolve).value.monitor <==> arg == "-monitor"
  {
  }

  lemma TailParts(monitor: bool, paused: bool, to: Target)
    ensures var (a, b, c, _) := TailPieces(monitor, paused, to); Formed(a) && Formed(a + b) && Formed(a + b + c)
  {
    hide Formed;
    var (a, b, c, _) := TailPieces(monitor, paused, to);
    Letters(to);
    EmptyDevices();
    SingleFormed("-S");
    FormedPair("-monitor", MonitorValue(to));
    if to.gdb.Some? {
      FormedPair("-gdb", "tcp::" + to.gdb.value);
    }
    FormedConcat(a, b);
    FormedConcat(a + b, c);
  }

  lemma TailDirected(monitor: bool, paused: bool, to: Target, devices: set<string>)
    ensures Directed(Tail(monitor, paused, to), to, devices) && (!monitor ==> "-monitor" in Tail(monitor, paused, to))
    ensures "-daemonize" !in Tail(monitor, paused, to)
    ensures |Tail(monitor, paused, to)| >= 2
    ensures Tail(monitor, paused, to)[|Tail(monitor, paused, to)| - 2..] == ["-incoming", "file:" + to.state]
    ensures "-incoming" !in Tail(monitor, paused, to)[..|Tail(monitor, paused, to)| - 2]
  {
    hide Directed, Formed;
    var (a, b, c, d) := TailPieces(monitor, paused, to);
    Letters(to);
    DirectedSmall(a, to, devices);
    DirectedSmall(b, to, devices);
    DirectedSmall(c, to, devices);
    DirectedSmall(d, to, devices);
    TailParts(monitor, paused, to);
    DirectedConcat(a, b, to, devices);
    DirectedConcat(a + b, c, to, devices);
    DirectedConcat(a + b + c, d, to, devices);
    assert Tail(monitor, paused, to)[..|a + b + c|] == a + b + c;
  }

  /** A restored line starts paused, under the new monitor, from the one saved state; and every endpoint in it is the one
      asked for if and only if the disk's path has no comma and, should the line have a serial socket, neither have the
      socket's and the log's. */
  lemma RestoredIsDirected(source: seq<string>, disk: string, to: Target, resolve: Resolver)
    requires WellFormed(source) && Restore(source, disk, to, resolve).Ok?
    ensures var r := Restore(source, disk, to, resolve).value;
            && "-S" in r && "-monitor" in r && "-daemonize" !in r
            && |r| > 2 && r[|r| - 2..] == ["-incoming", "file:" + to.state] && "-incoming" !in r[..|r| - 2]
    ensures Directed(Restore(source, disk, to, resolve).value, to, SerialDevices(source)) <==>
            NoComma(to.disk) && (HasSocket(source[1..], SerialDevices(source)) ==> NoComma(to.serial) && NoComma(to.uart))
  {
    hide Formed, Walk, Tail, Closing, SerialDevices, Restore, NoComma, Directed, HasSocket, HasAns;
    var devices := SerialDevices(source);
    var seen := RestoredLine(source, disk, to, resolve);
    var paused := "-S" in seen.out;
    var tail := Tail(seen.monitor, paused, to);
    TailDirected(seen.monitor, paused, to, devices);
    TailFormed(seen.monitor, paused, to);
    WalkLeaves(source[1..], disk, to, devices, resolve);
    WalkIsDirectedIff(source[1..], disk, to, devices, resolve);
    DriveSeen(source[1..], disk, to, devices, resolve);
    DirectedSmall([source[0]], to, devices);
    SingleFormed(source[0]);
    DirectedConcat(seen.out, tail, to, devices);
    DirectedConcat([source[0]], seen.out + tail, to, devices);
    var r := [source[0]] + (seen.out + tail);
    assert r[..|r| - 2] == [source[0]] + (seen.out + tail[..|tail| - 2]);
  }
}
