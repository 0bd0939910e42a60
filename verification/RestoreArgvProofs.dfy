/** Restores compose, touch only the endpoints, and leave the disk-only boot command alone. */
module RestoreArgvProofs {
  import opened Results
  import opened RestoreArgv

  // ---------- well-formed command lines ----------

  predicate TakesValue(arg: string) { Handled(arg) || arg == "-loadvm" }

  predicate Dash(s: string) { s != "" && s[0] == '-' }

  /** Every option that takes a value has one, and it does not look like an option. */
  predicate Formed(argv: seq<string>) {
    forall i :: 0 <= i < |argv| && TakesValue(argv[i]) ==> i + 1 < |argv| && !Dash(argv[i + 1])
  }

  predicate WellFormed(argv: seq<string>) {
    argv != [] && !Dash(argv[0]) && Formed(argv)
  }

  predicate NoComma(s: string) { ',' !in s }

  /** Texts that stay one part when written into a comma-separated value. */
  predicate Writable(to: Target) {
    NoComma(to.disk) && NoComma(to.serial) && NoComma(to.uart)
  }

  lemma FormedTail(argv: seq<string>, n: nat)
    requires Formed(argv) && n <= |argv|
    ensures Formed(argv[n..])
  {
    hide TakesValue;
    forall i | 0 <= i < |argv| - n && TakesValue(argv[n..][i])
      ensures i + 1 < |argv| - n && !Dash(argv[n..][i + 1])
    {
      assert TakesValue(argv[n + i]);
    }
  }

  lemma FormedConcat(a: seq<string>, b: seq<string>)
    requires Formed(a) && Formed(b)
    ensures Formed(a + b)
  {
    hide TakesValue;
    forall i | 0 <= i < |a + b| && TakesValue((a + b)[i])
      ensures i + 1 < |a + b| && !Dash((a + b)[i + 1])
    {
      if i < |a| {
        assert TakesValue(a[i]);
      } else {
        assert TakesValue(b[i - |a|]);
      }
    }
  }

  lemma FormedPair(arg: string, value: string)
    requires !Dash(value)
    ensures Formed([arg, value])
  {
    assert !TakesValue(value);
  }

  // ---------- comma-separated values ----------

  lemma {:induction false} JoinSplit(s: string)
    ensures Join(Split(s)) == s
  {
    if s != "" {
      JoinSplit(s[1..]);
      if s[0] != ',' {
        JoinHead(s[0], Split(s[1..]));
      }
    }
  }

  lemma JoinHead(c: char, parts: seq<string>)
    requires |parts| > 0
    ensures Join([[c] + parts[0]] + parts[1..]) == [c] + Join(parts)
  {
    hide Join;
    var longer := [[c] + parts[0]] + parts[1..];
    assert longer[1..] == parts[1..];
    JoinUnfolds(longer);
    JoinUnfolds(parts);
    Regroup([c], parts[0], ",");
    if |parts| > 1 {
      Regroup([c], parts[0] + ",", Join(parts[1..]));
    }
  }

  lemma JoinUnfolds(parts: seq<string>)
    requires |parts| > 0
    ensures Join(parts) == if |parts| == 1 then parts[0] else parts[0] + "," + Join(parts[1..])
  {
  }

  lemma Regroup(a: string, b: string, c: string)
    ensures a + (b + c) == a + b + c
  {
  }

  lemma {:induction false} SplitParts(s: string)
    ensures forall i :: 0 <= i < |Split(s)| ==> NoComma(Split(s)[i])
  {
    if s != "" {
      SplitParts(s[1..]);
    }
  }

  lemma {:induction false} SplitPrefix(part: string, s: string)
    requires NoComma(part)
    ensures Split(part + "," + s) == [part] + Split(s)
  {
    var whole := part + "," + s;
    if part == "" {
      assert whole[1..] == s;
    } else {
      assert part == [part[0]] + part[1..] && part[0] in part;
      SplitPrefix(part[1..], s);
      assert whole[1..] == part[1..] + "," + s;
    }
  }

  lemma {:induction false} SplitOne(part: string)
    requires NoComma(part)
    ensures Split(part) == [part]
  {
    if part != "" {
      assert part == [part[0]] + part[1..] && part[0] in part;
      SplitOne(part[1..]);
    }
  }

  lemma {:induction false} SplitJoin(parts: seq<string>)
    requires |parts| > 0 && forall i :: 0 <= i < |parts| ==> NoComma(parts[i])
    ensures Split(Join(parts)) == parts
  {
    hide NoComma;
    if |parts| == 1 {
      SplitOne(parts[0]);
    } else {
      SplitJoin(parts[1..]);
      SplitPrefix(parts[0], Join(parts[1..]));
    }
  }

  /** Changing one part changes the value. */
  lemma {:induction false} JoinInjective(parts: seq<string>, k: nat, x: string)
    requires k < |parts| && Join(parts[k := x]) == Join(parts)
    ensures x == parts[k]
  {
    var changed := parts[k := x];
    if |parts| > 1 {
      if k == 0 {
        assert changed[1..] == parts[1..];
        var tail := "," + Join(parts[1..]);
        Regroup(x, ",", Join(parts[1..]));
        Regroup(parts[0], ",", Join(parts[1..]));
        SameSuffix(x, parts[0], tail);
      } else {
        assert changed[1..] == parts[1..][k - 1 := x];
        var head := parts[0] + ",";
        SamePrefix(head, Join(changed[1..]), Join(parts[1..]));
        JoinInjective(parts[1..], k - 1, x);
      }
    }
  }

  lemma SameSuffix(a: string, b: string, t: string)
    requires a + t == b + t
    ensures a == b
  {
    assert |a| == |b|;
    assert (a + t)[..|a|] == a && (b + t)[..|b|] == b;
  }

  lemma SamePrefix(h: string, a: string, b: string)
    requires h + a == h + b
    ensures a == b
  {
    assert (h + a)[|h|..] == a && (h + b)[|h|..] == b;
  }

  lemma JoinDash(parts: seq<string>)
    requires |parts| > 0
    ensures Dash(Join(parts)) <==> Dash(parts[0])
  {
  }

  lemma SplitDash(s: string)
    ensures Dash(s) <==> Dash(Split(s)[0])
  {
    JoinSplit(s);
    JoinDash(Split(s));
  }

  // ---------- one drive ----------

  lemma {:induction false} FirstFileIs(parts: seq<string>, k: nat)
    requires k < |parts| && StartsWith(parts[k], FILE) && forall i :: 0 <= i < k ==> !StartsWith(parts[i], FILE)
    ensures FirstFile(parts) == k
  {
    if k > 0 {
      FirstFileIs(parts[1..], k - 1);
    }
  }

  lemma FilePart(disk: string)
    ensures StartsWith(FILE + disk, FILE) && (FILE + disk)[5..] == disk && FILE + disk != ANS
    ensures NoComma(disk) ==> NoComma(FILE + disk)
  {
    assert (FILE + disk)[0] == 'f' && ANS[0] == 'i';
  }

  /** A rewritten ANS drive has the same parts, except its first file. */
  lemma DriveParts(spec: string, was: string, now: string, resolve: Resolver) returns (k: nat)
    requires ANS in Split(spec) && ReplaceDriveFile(spec, was, now, resolve).Ok?
    ensures k < |Split(spec)| && k == FirstFile(Split(spec)) && resolve(Split(spec)[k][5..]) == resolve(was)
    ensures ReplaceDriveFile(spec, was, now, resolve).value == Join(Split(spec)[k := FILE + now])
    ensures resolve(now) != resolve(was) ==> ReplaceDriveFile(spec, was, now, resolve).value != spec
  {
    hide Split, Join, FirstFile;
    k := FirstFile(Split(spec));
    JoinSplit(spec);
    FilePart(now);
    if Join(Split(spec)[k := FILE + now]) == spec {
      JoinInjective(Split(spec), k, FILE + now);
    }
  }

  lemma DriveSplits(spec: string, was: string, now: string, resolve: Resolver)
    requires ANS in Split(spec) && ReplaceDriveFile(spec, was, now, resolve).Ok? && NoComma(now)
    ensures var k, written := FirstFile(Split(spec)), ReplaceDriveFile(spec, was, now, resolve).value;
            k < |Split(spec)| && Split(written) == Split(spec)[k := FILE + now]
            && ANS in Split(written) && FirstFile(Split(written)) == k
  {
    hide Split, Join, FirstFile, NoComma;
    var k := DriveParts(spec, was, now, resolve);
    var parts := Split(spec)[k := FILE + now];
    FilePart(now);
    SplitParts(spec);
    SplitJoin(parts);
    FirstFileIs(parts, k);
    var i :| 0 <= i < |Split(spec)| && Split(spec)[i] == ANS;
    assert parts[i] == ANS by { AnsIsNoFile(); }
  }

  lemma AnsIsNoFile()
    ensures !StartsWith(ANS, FILE)
  {
    assert ANS[0] == 'i' && FILE[0] == 'f';
  }

  lemma DriveTwice(spec: string, was: string, mid: string, now: string, resolve: Resolver)
    requires ReplaceDriveFile(spec, was, mid, resolve).Ok? && NoComma(mid)
    ensures ReplaceDriveFile(ReplaceDriveFile(spec, was, mid, resolve).value, mid, now, resolve)
         == ReplaceDriveFile(spec, was, now, resolve)
  {
    hide Split, Join, FirstFile, NoComma;
    if ANS in Split(spec) {
      DriveSplits(spec, was, mid, resolve);
      FilePart(mid);
      var k, parts := FirstFile(Split(spec)), Split(spec);
      assert parts[k := FILE + mid][k := FILE + now] == parts[k := FILE + now];
    }
  }

  lemma DriveDash(spec: string, was: string, now: string, resolve: Resolver)
    requires ReplaceDriveFile(spec, was, now, resolve).Ok? && !Dash(spec)
    ensures !Dash(ReplaceDriveFile(spec, was, now, resolve).value)
  {
    hide Split, Join, FirstFile;
    if ANS in Split(spec) {
      var k := DriveParts(spec, was, now, resolve);
      SplitDash(spec);
      JoinDash(Split(spec)[k := FILE + now]);
    }
  }

  // ---------- one character device ----------

  lemma {:induction false} WithoutEndpointsLaws(parts: seq<string>)
    ensures forall i :: 0 <= i < |WithoutEndpoints(parts)| ==>
              WithoutEndpoints(parts)[i] in parts && !Endpoint(WithoutEndpoints(parts)[i])
    ensures forall p :: p in parts && !Endpoint(p) ==> p in WithoutEndpoints(parts)
    ensures parts != [] && !Endpoint(parts[0]) ==> WithoutEndpoints(parts) != [] && WithoutEndpoints(parts)[0] == parts[0]
  {
    hide Endpoint;
    if parts != [] {
      WithoutEndpointsLaws(parts[1..]);
    }
  }

  lemma {:induction false} WithoutEndpointsConcat(a: seq<string>, b: seq<string>)
    ensures WithoutEndpoints(a + b) == WithoutEndpoints(a) + WithoutEndpoints(b)
  {
    hide Endpoint;
    if a == [] {
      assert a + b == b;
    } else {
      assert (a + b)[1..] == a[1..] + b;
      WithoutEndpointsConcat(a[1..], b);
    }
  }

  lemma {:induction false} WithoutEndpointsTwice(parts: seq<string>)
    ensures WithoutEndpoints(WithoutEndpoints(parts)) == WithoutEndpoints(parts)
  {
    hide Endpoint;
    if parts != [] {
      WithoutEndpointsTwice(parts[1..]);
      var rest := WithoutEndpoints(parts[1..]);
      if Endpoint(parts[0]) {
        assert WithoutEndpoints(parts) == rest;
      } else {
        assert WithoutEndpoints(parts) == [parts[0]] + rest && ([parts[0]] + rest)[1..] == rest;
      }
    }
  }

  function NewEndpoints(to: Target): (parts: seq<string>)
    ensures |parts| == 2
  {
    ["path=" + to.uart, "logfile=" + to.serial]
  }

  lemma EndpointParts(to: Target)
    requires Writable(to)
    ensures WithoutEndpoints(NewEndpoints(to)) == []
    ensures forall i :: 0 <= i < 2 ==> NoComma(NewEndpoints(to)[i]) && Endpoint(NewEndpoints(to)[i])
  {
    assert StartsWith("path=" + to.uart, "path=") && StartsWith("logfile=" + to.serial, "logfile=");
    assert NewEndpoints(to)[1..] == ["logfile=" + to.serial] && NewEndpoints(to)[1..][1..] == [];
    assert WithoutEndpoints(NewEndpoints(to)[1..]) == [];
  }

  lemma IdIsNoEndpoint(device: string)
    ensures !Endpoint("id=" + device) && !Endpoint("socket")
  {
    assert ("id=" + device)[0] == 'i' && "path="[0] == 'p' && "logfile="[0] == 'l' && "socket"[0] == 's';
  }

  lemma ChardevSplits(spec: string, to: Target, devices: set<string>)
    requires SerialSocket(spec, devices) && Writable(to)
    ensures Split(RedirectChardev(spec, to)) == WithoutEndpoints(Split(spec)) + NewEndpoints(to)
    ensures SerialSocket(RedirectChardev(spec, to), devices)
  {
    hide Split, Join, WithoutEndpoints, Endpoint, NoComma;
    var parts := Split(spec);
    var base := WithoutEndpoints(parts);
    WithoutEndpointsLaws(parts);
    SplitParts(spec);
    EndpointParts(to);
    forall i | 0 <= i < |base + NewEndpoints(to)|
      ensures NoComma((base + NewEndpoints(to))[i])
    {
      if i < |base| {
        var j :| 0 <= j < |parts| && parts[j] == base[i];
      }
    }
    SplitJoin(base + NewEndpoints(to));
    var d :| d in devices && "id=" + d in parts;
    IdIsNoEndpoint(d);
    assert "id=" + d in base;
  }

  lemma {:induction false} SplitConcat(x: string, y: string)
    ensures Split(x + "," + y) == Split(x) + Split(y)
  {
    var whole := x + "," + y;
    if x == "" {
      assert whole[1..] == y;
    } else {
      assert whole[1..] == x[1..] + "," + y;
      SplitConcat(x[1..], y);
    }
  }

  lemma {:induction false} SplitJoinThen(base: seq<string>, x: string, y: string)
    requires forall i :: 0 <= i < |base| ==> NoComma(base[i])
    ensures Split(Join(base + [x, y])) == base + (Split(x) + Split(y))
  {
    hide NoComma, Split;
    if base == [] {
      assert base + [x, y] == [x, y] && [x, y][1..] == [y] && Join([y]) == y;
      SplitConcat(x, y);
      assert base + (Split(x) + Split(y)) == Split(x) + Split(y);
    } else {
      assert (base + [x, y])[1..] == base[1..] + [x, y];
      SplitJoinThen(base[1..], x, y);
      SplitPrefix(base[0], Join(base[1..] + [x, y]));
      assert [base[0]] + (base[1..] + (Split(x) + Split(y))) == base + (Split(x) + Split(y));
    }
  }

  /** The pieces the two endpoint parts are read back as. */
  function EndpointPieces(to: Target): seq<string> { Split("path=" + to.uart) + Split("logfile=" + to.serial) }

  /** A second redirection drops all of them. */
  predicate Vanishes(to: Target) { WithoutEndpoints(EndpointPieces(to)) == [] }

  lemma RedirectSplits(spec: string, to: Target)
    ensures Split(RedirectChardev(spec, to)) == WithoutEndpoints(Split(spec)) + EndpointPieces(to)
  {
    hide Split, Join, WithoutEndpoints, Endpoint, NoComma;
    var parts := Split(spec);
    var base := WithoutEndpoints(parts);
    WithoutEndpointsLaws(parts);
    SplitParts(spec);
    forall i | 0 <= i < |base|
      ensures NoComma(base[i])
    {
      var j :| 0 <= j < |parts| && parts[j] == base[i];
    }
    SplitJoinThen(base, "path=" + to.uart, "logfile=" + to.serial);
  }

  lemma RedirectKeepsSocket(spec: string, to: Target, devices: set<string>)
    requires SerialSocket(spec, devices)
    ensures SerialSocket(RedirectChardev(spec, to), devices)
  {
    hide Split, Join, WithoutEndpoints, Endpoint;
    RedirectSplits(spec, to);
    WithoutEndpointsLaws(Split(spec));
    var d :| d in devices && "id=" + d in Split(spec);
    IdIsNoEndpoint(d);
    assert "id=" + d in WithoutEndpoints(Split(spec));
  }

  lemma ChardevTwice(spec: string, mid: Target, to: Target)
    requires Vanishes(mid)
    ensures RedirectChardev(RedirectChardev(spec, mid), to) == RedirectChardev(spec, to)
  {
    hide Split, Join, WithoutEndpoints, Endpoint, EndpointPieces;
    RedirectSplits(spec, mid);
    var base := WithoutEndpoints(Split(spec));
    WithoutEndpointsConcat(base, EndpointPieces(mid));
    WithoutEndpointsTwice(Split(spec));
    assert base + [] == base;
  }

  lemma ChardevDash(spec: string, to: Target, devices: set<string>)
    requires SerialSocket(spec, devices)
    ensures !Dash(RedirectChardev(spec, to))
  {
    hide Split, Join, WithoutEndpoints, Endpoint;
    IdIsNoEndpoint("");
    WithoutEndpointsLaws(Split(spec));
    JoinDash(WithoutEndpoints(Split(spec)) + NewEndpoints(to));
  }

  // ---------- one option ----------

  lemma Letters(to: Target)
    ensures !Dash(MonitorValue(to)) && !Dash("file:" + to.serial) && !Dash("file:" + to.state)
    ensures to.gdb.Some? ==> !Dash("tcp::" + to.gdb.value)
    ensures StartsWith("file:" + to.serial, "file:") && !StartsWith("file:" + to.serial, CHARDEV_REF)
  {
    assert ("file:" + to.serial)[0] == 'f' && CHARDEV_REF[0] == 'c';
  }

  predicate SameReference(a: string, b: string) {
    StartsWith(a, CHARDEV_REF) == StartsWith(b, CHARDEV_REF) && (StartsWith(a, CHARDEV_REF) ==> a == b)
  }

  /** An option is dropped, or kept with a value that is no option and refers to the same device. */
  lemma PairOut(arg: string, value: string, disk: string, to: Target, devices: set<string>, resolve: Resolver)
    requires Handled(arg) && !Dash(value) && RestorePair(arg, value, disk, to, devices, resolve).Ok?
    ensures var out := RestorePair(arg, value, disk, to, devices, resolve).value.out;
            if arg in {"-incoming", "-gdb", "-pidfile", "-qmp"} then out == []
            else |out| == 2 && out[0] == arg && !Dash(out[1]) && (arg == "-serial" ==> SameReference(out[1], value))
  {
    hide ReplaceDriveFile, RedirectChardev, SerialSocket;
    Letters(to);
    if arg == "-drive" {
      DriveDash(value, disk, to.disk, resolve);
    } else if arg == "-chardev" && SerialSocket(value, devices) {
      ChardevDash(value, to, devices);
    } else if arg == "-serial" && StartsWith(value, "file:") {
      assert value[0] == 'f' && CHARDEV_REF[0] == 'c';
    }
  }

  predicate Distinct(disk: string, a: Target, b: Target, resolve: Resolver) {
    resolve(disk) != resolve(a.disk) && resolve(disk) != resolve(b.disk) && resolve(a.disk) != resolve(b.disk)
  }

  function Flags(s: Seen): (bool, bool, bool) { (s.monitor, s.drive, s.serial) }

  lemma PairSameOutcome(arg: string, value: string, disk: string, a: Target, b: Target, devices: set<string>, resolve: Resolver)
    requires Handled(arg) && Distinct(disk, a, b, resolve)
    ensures var x, y := RestorePair(arg, value, disk, a, devices, resolve), RestorePair(arg, value, disk, b, devices, resolve);
            x.Ok? == y.Ok? && (x.Ok? ==> Flags(x.value) == Flags(y.value))
  {
    hide Split, Join, FirstFile, SerialSocket, RedirectChardev;
    if arg == "-drive" && ANS in Split(value) && ReplaceDriveFile(value, disk, a.disk, resolve).Ok? {
      var k := DriveParts(value, disk, a.disk, resolve);
      var l := DriveParts(value, disk, b.disk, resolve);
    }
  }

  // ---------- the whole line ----------

  function Both(a: Outcome<Seen>, b: Outcome<Seen>): Outcome<Seen> {
    if a.Err? then a else if b.Err? then b else Ok(Then(a.value, b.value))
  }

  /** How many tokens the first step of a well-formed line takes. */
  function Width(argv: seq<string>): nat
    requires argv != []
  {
    if TakesValue(argv[0]) then 2 else 1
  }

  /** What the first step makes of them. */
  function Step(argv: seq<string>, disk: string, to: Target, devices: set<string>, resolve: Resolver): Outcome<Seen>
    requires argv != [] && Width(argv) <= |argv|
  {
    if Handled(argv[0]) then RestorePair(argv[0], argv[1], disk, to, devices, resolve)
    else if TakesValue(argv[0]) then Ok(Seen([argv[0], argv[1]], false, false, false))
    else Ok(Seen(if argv[0] == "-daemonize" then [] else [argv[0]], false, false, false))
  }

  lemma WalkUnfolds(argv: seq<string>, disk: string, to: Target, devices: set<string>, resolve: Resolver)
    requires Formed(argv) && argv != []
    ensures Width(argv) <= |argv| && Formed(argv[Width(argv)..]) && Formed(argv[..Width(argv)])
    ensures Walk(argv, disk, to, devices, resolve)
         == Both(Step(argv, disk, to, devices, resolve), Walk(argv[Width(argv)..], disk, to, devices, resolve))
  {
    hide RestorePair, Formed;
    FirstToken(argv);
    FormedTail(argv, Width(argv));
    FormedPrefix(argv);
    if argv[0] == "-loadvm" {
      assert argv[1..][1..] == argv[2..] && argv[1..][0] == argv[1] && [argv[0]] + [argv[1]] == [argv[0], argv[1]];
      assert !Handled(argv[1]) && argv[1] != "-daemonize";
      var rest := Walk(argv[2..], disk, to, devices, resolve);
      if rest.Ok? {
        ThenAssociates(Seen([argv[0]], false, false, false), Seen([argv[1]], false, false, false), rest.value);
      }
    }
  }

  lemma FormedPrefix(argv: seq<string>)
    requires Formed(argv) && argv != []
    ensures Width(argv) <= |argv| && Formed(argv[..Width(argv)])
  {
    hide Formed;
    FirstToken(argv);
    if TakesValue(argv[0]) {
      FormedPair(argv[0], argv[1]);
      assert argv[..2] == [argv[0], argv[1]];
    } else {
      SingleFormed(argv[0]);
      assert argv[..1] == [argv[0]];
    }
  }

  lemma SingleFormed(arg: string)
    requires !TakesValue(arg)
    ensures Formed([arg])
  {
  }

  /** A line in two parts is walked part by part. */
  lemma {:induction false} WalkConcat(a: seq<string>, b: seq<string>, disk: string, to: Target, devices: set<string>,
                                      resolve: Resolver)
    requires Formed(a) && Formed(b)
    ensures Walk(a + b, disk, to, devices, resolve)
         == Both(Walk(a, disk, to, devices, resolve), Walk(b, disk, to, devices, resolve))
    decreases |a|
  {
    hide RestorePair, Formed, Walk;
    if a == [] {
      EmptyWalk(disk, to, devices, resolve);
      assert a + b == b;
      NothingThen(Walk(b, disk, to, devices, resolve));
    } else {
      var n := Width(a);
      FormedConcat(a, b);
      WalkUnfolds(a, disk, to, devices, resolve);
      WalkUnfolds(a + b, disk, to, devices, resolve);
      assert (a + b)[n..] == a[n..] + b;
      WalkConcat(a[n..], b, disk, to, devices, resolve);
      BothAssociates(Step(a, disk, to, devices, resolve), Walk(a[n..], disk, to, devices, resolve),
                     Walk(b, disk, to, devices, resolve));
    }
  }

  lemma NothingThen(x: Outcome<Seen>)
    ensures Both(Ok(NOTHING), x) == x
  {
    if x.Ok? {
      assert [] + x.value.out == x.value.out;
    }
  }

  lemma BothAssociates(x: Outcome<Seen>, y: Outcome<Seen>, z: Outcome<Seen>)
    ensures Both(x, Both(y, z)) == Both(Both(x, y), z)
  {
    if x.Ok? && y.Ok? && z.Ok? {
      ThenAssociates(x.value, y.value, z.value);
    }
  }

  lemma FirstToken(a: seq<string>)
    requires Formed(a) && a != []
    ensures TakesValue(a[0]) ==> |a| > 1 && !Dash(a[1])
    ensures Handled(a[0]) ==> |a| > 1 && !Dash(a[1])
  {
    assert TakesValue(a[0]) ==> 0 + 1 < |a| && !Dash(a[0 + 1]);
  }

  lemma ThenAssociates(x: Seen, y: Seen, z: Seen)
    ensures Then(x, Then(y, z)) == Then(Then(x, y), z)
  {
    assert x.out + (y.out + z.out) == (x.out + y.out) + z.out;
  }

  lemma {:induction false} SerialDevicesConcat(a: seq<string>, b: seq<string>)
    requires Formed(a)
    ensures SerialDevices(a + b) == SerialDevices(a) + SerialDevices(b)
    decreases |a|
  {
    hide Formed;
    if a == [] {
      assert a + b == b;
    } else {
      FirstToken(a);
      assert (a + b)[1..] == a[1..] + b;
      FormedTail(a, 1);
      SerialDevicesConcat(a[1..], b);
    }
  }

  lemma EmptyWalk(disk: string, to: Target, devices: set<string>, resolve: Resolver)
    ensures Walk([], disk, to, devices, resolve) == Ok(NOTHING) && Formed([])
  {
  }

  lemma Devices(argv: seq<string>)
    ensures |argv| < 2 ==> SerialDevices(argv) == {}
    ensures |argv| == 2 ==> SerialDevices(argv) ==
                            if argv[0] == "-serial" && StartsWith(argv[1], CHARDEV_REF) then {argv[1][8..]} else {}
  {
  }

  /** What one step yields is again well formed, names the same serial device and pauses or not as before. */
  lemma StepKeepsForm(argv: seq<string>, disk: string, to: Target, devices: set<string>, resolve: Resolver)
    requires Formed(argv) && argv != []
    requires Width(argv) <= |argv| && Step(argv, disk, to, devices, resolve).Ok?
    ensures var out := Step(argv, disk, to, devices, resolve).value.out;
            Formed(out) && SerialDevices(out) == SerialDevices(argv[..Width(argv)])
            && ("-S" in out <==> "-S" in argv[..Width(argv)])
  {
    hide RestorePair, Formed, SerialDevices;
    FirstToken(argv);
    FormedPrefix(argv);
    var n, out := Width(argv), Step(argv, disk, to, devices, resolve).value.out;
    EmptyWalk(disk, to, devices, resolve);
    Devices(argv[..n]);
    Devices(out);
    if Handled(argv[0]) {
      PairOut(argv[0], argv[1], disk, to, devices, resolve);
      if |out| == 2 {
        FormedPair(out[0], out[1]);
        assert out == [out[0], out[1]];
      }
    } else {
      assert argv[..n] == if n == 2 then [argv[0], argv[1]] else [argv[0]];
    }
  }

  lemma {:induction false} WalkKeepsForm(argv: seq<string>, disk: string, to: Target, devices: set<string>, resolve: Resolver)
    requires Formed(argv) && Walk(argv, disk, to, devices, resolve).Ok?
    ensures var out := Walk(argv, disk, to, devices, resolve).value.out;
            Formed(out) && SerialDevices(out) == SerialDevices(argv) && ("-S" in out <==> "-S" in argv)
    decreases |argv|
  {
    hide Formed, Step, Walk, SerialDevices, TakesValue;
    if argv == [] {
      EmptyWalk(disk, to, devices, resolve);
    } else {
      var n := Width(argv);
      WalkUnfolds(argv, disk, to, devices, resolve);
      StepKeepsForm(argv, disk, to, devices, resolve);
      WalkKeepsForm(argv[n..], disk, to, devices, resolve);
      var head, rest := Step(argv, disk, to, devices, resolve).value.out, Walk(argv[n..], disk, to, devices, resolve).value.out;
      FormedConcat(head, rest);
      SerialDevicesConcat(head, rest);
      SerialDevicesConcat(argv[..n], argv[n..]);
      assert argv == argv[..n] + argv[n..];
    }
  }

  // ---------- restores compose ----------

  lemma {:induction false} WalkSameOutcome(argv: seq<string>, disk: string, a: Target, b: Target, devices: set<string>,
                                           resolve: Resolver)
    requires Formed(argv) && Distinct(disk, a, b, resolve)
    ensures var x, y := Walk(argv, disk, a, devices, resolve), Walk(argv, disk, b, devices, resolve);
            x.Ok? == y.Ok? && (x.Ok? ==> Flags(x.value) == Flags(y.value))
    decreases |argv|
  {
    hide Formed, Walk, RestorePair, Distinct;
    if argv == [] {
      EmptyWalk(disk, a, devices, resolve);
      EmptyWalk(disk, b, devices, resolve);
    } else {
      WalkUnfolds(argv, disk, a, devices, resolve);
      WalkUnfolds(argv, disk, b, devices, resolve);
      WalkSameOutcome(argv[Width(argv)..], disk, a, b, devices, resolve);
      if Handled(argv[0]) {
        PairSameOutcome(argv[0], argv[1], disk, a, b, devices, resolve);
      }
    }
  }

  lemma ThenNothing(x: Outcome<Seen>)
    ensures Both(x, Ok(NOTHING)) == x
  {
    if x.Ok? {
      assert x.value.out + [] == x.value.out;
    }
  }

  /** What Closing adds behind the walked options. */
  function Tail(monitor: bool, paused: bool, to: Target): seq<string> {
    (if monitor then [] else ["-monitor", MonitorValue(to)])
    + (if paused then [] else ["-S"])
    + (if to.gdb.Some? then ["-gdb", "tcp::" + to.gdb.value] else [])
    + ["-incoming", "file:" + to.state]
  }

  lemma ClosingIsTail(out: seq<string>, monitor: bool, to: Target)
    ensures Closing(out, monitor, to) == out + Tail(monitor, "-S" in out, to)
  {
    assert MonitorValue(to)[0] == 'u';
    var m := if monitor then [] else ["-monitor", MonitorValue(to)];
    assert "-S" in out + m <==> "-S" in out;
    assert Closing(out, monitor, to) == out + Tail(monitor, "-S" in out, to);
  }
}
