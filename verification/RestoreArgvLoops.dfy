/** restore_argv, replace_drive_file and boot_command as their loops run. */
module RestoreArgvLoops {
  import opened Results
  import opened RestoreArgv
  import P = RestoreArgvProofs

  method ReplaceFile(spec: string, was: string, now: string, resolve: Resolver) returns (r: Outcome<string>)
    ensures r == ReplaceDriveFile(spec, was, now, resolve)
  {
    hide Split, Join;
    var parts := Split(spec);
    if ANS !in parts {
      return Ok(spec);
    }
    for i := 0 to |parts|
      invariant parts == Split(spec) && forall j :: 0 <= j < i ==> !StartsWith(parts[j], FILE)
    {
      if StartsWith(parts[i], FILE) {
        P.FirstFileIs(parts, i);
        if resolve(parts[i][5..]) != resolve(was) {
          return Err(WrongDrive);
        }
        parts := parts[i := FILE + now];
        return Ok(Join(parts));
      }
    }
    r := Err(NoFileComponent);
  }

  method FindSerialDevices(source: seq<string>) returns (devices: set<string>)
    ensures devices == SerialDevices(source)
  {
    devices := {};
    var n := 0;
    while n + 1 < |source|
      invariant n <= |source| && devices + SerialDevices(source[n..]) == SerialDevices(source)
    {
      assert source[n..][1..] == source[n + 1..];
      if source[n] == "-serial" && StartsWith(source[n + 1], CHARDEV_REF) {
        devices := devices + {source[n + 1][8..]};
      }
      n := n + 1;
    }
  }

  /** What the loop still has to do after `i` tokens with `seen` behind it. */
  ghost predicate Underway(source: seq<string>, i: nat, seen: Seen, disk: string, to: Target, devices: set<string>,
                           resolve: Resolver)
    requires 0 < i <= |source|
  {
    Walk(source[1..], disk, to, devices, resolve) == P.Both(Ok(seen), Walk(source[i..], disk, to, devices, resolve))
  }

  lemma Advance(source: seq<string>, i: nat, n: nat, seen: Seen, step: Outcome<Seen>, disk: string, to: Target,
                devices: set<string>, resolve: Resolver)
    requires 0 < i < i + n <= |source| && Underway(source, i, seen, disk, to, devices, resolve)
    requires Walk(source[i..], disk, to, devices, resolve) == P.Both(step, Walk(source[i + n..], disk, to, devices, resolve))
    ensures if step.Err? then Walk(source[1..], disk, to, devices, resolve) == step
            else Underway(source, i + n, Then(seen, step.value), disk, to, devices, resolve)
  {
    hide Walk;
    P.BothAssociates(Ok(seen), step, Walk(source[i + n..], disk, to, devices, resolve));
  }

  lemma PairStep(source: seq<string>, i: nat, disk: string, to: Target, devices: set<string>, resolve: Resolver)
    requires i + 1 < |source| && Handled(source[i])
    ensures Walk(source[i..], disk, to, devices, resolve)
         == P.Both(RestorePair(source[i], source[i + 1], disk, to, devices, resolve),
                   Walk(source[i + 2..], disk, to, devices, resolve))
  {
    hide RestorePair, Handled;
    assert source[i..][2..] == source[i + 2..];
  }

  lemma TokenStep(source: seq<string>, i: nat, disk: string, to: Target, devices: set<string>, resolve: Resolver)
    requires i < |source| && !(Handled(source[i]) && i + 1 < |source|)
    ensures Walk(source[i..], disk, to, devices, resolve)
         == P.Both(Ok(Seen(if source[i] == "-daemonize" then [] else [source[i]], false, false, false)),
                   Walk(source[i + 1..], disk, to, devices, resolve))
  {
    hide RestorePair, Handled;
    assert source[i..][1..] == source[i + 1..];
  }

  lemma Finished(source: seq<string>, seen: Seen, disk: string, to: Target, devices: set<string>, resolve: Resolver)
    requires source != [] && Underway(source, |source|, seen, disk, to, devices, resolve)
    ensures Walk(source[1..], disk, to, devices, resolve) == Ok(seen)
  {
    P.EmptyWalk(disk, to, devices, resolve);
    assert source[|source|..] == [];
    P.ThenNothing(Ok(seen));
  }

  lemma Started(source: seq<string>, disk: string, to: Target, devices: set<string>, resolve: Resolver)
    requires source != []
    ensures Underway(source, 1, NOTHING, disk, to, devices, resolve)
  {
    P.NothingThen(Walk(source[1..], disk, to, devices, resolve));
  }

  /** The branches of the loop body for an option with its value. */
  method OnePair(arg: string, value: string, disk: string, to: Target, devices: set<string>, resolve: Resolver)
    returns (r: Outcome<Seen>)
    requires Handled(arg)
    ensures r == RestorePair(arg, value, disk, to, devices, resolve)
  {
    hide SerialSocket, RedirectChardev, ReplaceDriveFile;
    if arg in {"-incoming", "-gdb", "-pidfile", "-qmp"} {
      return Ok(NOTHING);
    }
    if arg == "-monitor" {
      return Ok(Seen([arg, MonitorValue(to)], true, false, false));
    }
    if arg == "-drive" {
      var rewritten := ReplaceFile(value, disk, to.disk, resolve);
      if rewritten.Err? {
        return Err(rewritten.error);
      }
      return Ok(Seen([arg, rewritten.value], false, rewritten.value != value, false));
    }
    var spec, saw := value, false;
    if arg == "-chardev" {
      if SerialSocket(spec, devices) {
        spec, saw := RedirectChardev(spec, to), true;
      }
    } else if StartsWith(spec, "file:") {
      spec, saw := "file:" + to.serial, true;
    }
    r := Ok(Seen([arg, spec], false, false, saw));
  }

  method RestoreCommandLine(source: seq<string>, disk: string, to: Target, resolve: Resolver) returns (r: Outcome<seq<string>>)
    ensures r == Restore(source, disk, to, resolve)
  {
    hide Walk, RestorePair, Underway, Handled, SerialDevices;
    if source == [] {
      return Err(EmptyArgv);
    }
    var devices := FindSerialDevices(source);
    var out := [source[0]];
    var sawMonitor, sawDrive, sawSerial := false, false, false;
    var i := 1;
    ghost var seen := NOTHING;
    Started(source, disk, to, devices, resolve);
    while i < |source|
      invariant 0 < i <= |source| && Underway(source, i, seen, disk, to, devices, resolve)
      invariant out == [source[0]] + seen.out && sawMonitor == seen.monitor && sawDrive == seen.drive && sawSerial == seen.serial
    {
      var arg := source[i];
      if Handled(arg) && i + 1 < |source| {
        var pair := OnePair(arg, source[i + 1], disk, to, devices, resolve);
        PairStep(source, i, disk, to, devices, resolve);
        Advance(source, i, 2, seen, pair, disk, to, devices, resolve);
        if pair.Err? {
          return Err(pair.error);
        }
        var now := pair.value;
        Append(source[0], seen, now);
        seen := Then(seen, now);
        out := out + now.out;
        sawMonitor, sawDrive, sawSerial := sawMonitor || now.monitor, sawDrive || now.drive, sawSerial || now.serial;
        i := i + 2;
      } else {
        ghost var now := Seen(if arg == "-daemonize" then [] else [arg], false, false, false);
        TokenStep(source, i, disk, to, devices, resolve);
        Advance(source, i, 1, seen, Ok(now), disk, to, devices, resolve);
        Append(source[0], seen, now);
        seen := Then(seen, now);
        if arg != "-daemonize" {
          out := out + [arg];
        }
        i := i + 1;
      }
    }
    Finished(source, seen, disk, to, devices, resolve);
    if !sawDrive {
      return Err(MissingAnsDisk);
    }
    if !sawMonitor {
      out := out + ["-monitor", MonitorValue(to)];
    }
    if !sawSerial {
      return Err(NoSerialLogfile);
    }
    if "-S" !in out {
      out := out + ["-S"];
    }
    if to.gdb.Some? {
      out := out + ["-gdb", "tcp::" + to.gdb.value];
    }
    out := out + ["-incoming", "file:" + to.state];
    ClosingSame([source[0]] + seen.out, seen.monitor, to, out);
    r := Ok(out);
  }

  lemma Append(program: string, seen: Seen, now: Seen)
    ensures [program] + Then(seen, now).out == [program] + seen.out + now.out
  {
  }

  lemma ClosingSame(out: seq<string>, monitor: bool, to: Target, done: seq<string>)
    requires var watched := if monitor then out else out + ["-monitor", MonitorValue(to)];
             var paused := if "-S" in watched then watched else watched + ["-S"];
             var debugged := if to.gdb.Some? then paused + ["-gdb", "tcp::" + to.gdb.value] else paused;
             done == debugged + ["-incoming", "file:" + to.state]
    ensures done == Closing(out, monitor, to)
  {
    var watched := if monitor then out else out + ["-monitor", MonitorValue(to)];
    assert watched == out + (if monitor then [] else ["-monitor", MonitorValue(to)]);
    var paused := if "-S" in watched then watched else watched + ["-S"];
    assert paused == watched + (if "-S" in watched then [] else ["-S"]);
    var debugged := if to.gdb.Some? then paused + ["-gdb", "tcp::" + to.gdb.value] else paused;
    assert debugged == paused + (if to.gdb.Some? then ["-gdb", "tcp::" + to.gdb.value] else []);
  }

  method Boot(argv: seq<string>, dir: string) returns (r: Outcome<seq<string>>)
    ensures r == BootCommand(argv, dir)
  {
    hide Contains, BootDrive, BootEndpoints, Removed;
    var command: seq<string> := [];
    var i := 0;
    NothingYet(argv, Kept(argv, dir));
    while i < |argv|
      invariant 0 <= i && (i > |argv| ==> Kept(argv, dir) == Ok(command))
      invariant i <= |argv| ==> match Kept(argv[i..], dir)
                                case Ok(rest) => Kept(argv, dir) == Ok(command + rest)
                                case Err(e) => Kept(argv, dir) == Err(e)
      decreases |argv| - i
    {
      var key, rest := argv[i], argv[i..];
      assert rest[1..] == argv[i + 1..];
      assert i + 2 <= |argv| ==> rest[2..] == argv[i + 2..];
      if Removed(key) {
        assert i + 2 > |argv| ==> command + [] == command;
        i := i + 2;
      } else if key == "-S" || key == "-s" {
        i := i + 1;
      } else if key == "-drive" {
        if i + 1 == |argv| {
          return Err(MissingValue);
        }
        if !Contains(argv[i + 1], "id=ans,") {
          return Err(NonAnsDrive);
        }
        Regroup(command, [key, BootDrive(dir)], Kept(argv[i + 2..], dir));
        command := command + [key, BootDrive(dir)];
        i := i + 2;
      } else {
        Regroup(command, [key], Kept(argv[i + 1..], dir));
        command := command + [key];
        i := i + 1;
      }
    }
    assert i == |argv| ==> argv[i..] == [] && command + [] == command;
    r := Ok(command + BootEndpoints(dir));
  }

  lemma NothingYet(argv: seq<string>, rest: Outcome<seq<string>>)
    ensures argv[0..] == argv && (rest.Ok? ==> [] + rest.value == rest.value)
  {
  }

  lemma Regroup(done: seq<string>, piece: seq<string>, rest: Outcome<seq<string>>)
    ensures rest.Ok? ==> done + (piece + rest.value) == (done + piece) + rest.value
  {
  }
}
