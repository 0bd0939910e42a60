/** What a restore promises about whole command lines. */
module RestoreArgvTheorems {
  import opened Results
  import opened RestoreArgv
  import opened RestoreArgvProofs

  // ---------- composition ----------

  lemma TailFormed(monitor: bool, paused: bool, to: Target)
    ensures Formed(Tail(monitor, paused, to)) && SerialDevices(Tail(monitor, paused, to)) == {}
    ensures "-S" in Tail(monitor, paused, to) <==> !paused
  {
    hide Formed, SerialDevices;
    var (a, b, c, d) := TailPieces(monitor, paused, to);
    Letters(to);
    EmptyDevices();
    PieceFormed("-monitor", MonitorValue(to));
    SingleFormed("-S");
    Devices(["-S"]);
    if to.gdb.Some? {
      PieceFormed("-gdb", "tcp::" + to.gdb.value);
    }
    PieceFormed("-incoming", "file:" + to.state);
    FormedConcat(a, b);
    FormedConcat(a + b, c);
    FormedConcat(a + b + c, d);
    SerialDevicesConcat(a, b);
    SerialDevicesConcat(a + b, c);
    SerialDevicesConcat(a + b + c, d);
  }

  function TailPieces(monitor: bool, paused: bool, to: Target): (p: (seq<string>, seq<string>, seq<string>, seq<string>))
    ensures p.0 + p.1 + p.2 + p.3 == Tail(monitor, paused, to)
  {
    (if monitor then [] else ["-monitor", MonitorValue(to)],
     if paused then [] else ["-S"],
     if to.gdb.Some? then ["-gdb", "tcp::" + to.gdb.value] else [],
     ["-incoming", "file:" + to.state])
  }

  lemma EmptyDevices()
    ensures SerialDevices([]) == {} && Formed([])
  {
  }

  lemma PieceFormed(arg: string, value: string)
    requires !Dash(value) && arg != "-serial"
    ensures Formed([arg, value]) && SerialDevices([arg, value]) == {}
  {
    FormedPair(arg, value);
  }

  /** One option with its value, or one token, walked alone. */
  lemma WalkPair(arg: string, value: string, disk: string, to: Target, devices: set<string>, resolve: Resolver)
    requires Handled(arg)
    ensures Walk([arg, value], disk, to, devices, resolve) == RestorePair(arg, value, disk, to, devices, resolve)
  {
    hide RestorePair;
    assert [arg, value][2..] == [];
    ThenNothing(RestorePair(arg, value, disk, to, devices, resolve));
  }

  lemma WalkPause(disk: string, to: Target, devices: set<string>, resolve: Resolver)
    ensures Walk(["-S"], disk, to, devices, resolve) == Ok(Seen(["-S"], false, false, false))
  {
    assert ["-S"][1..] == [] && ["-S"] + [] == ["-S"];
  }

  function Pieces(monitor: bool, paused: bool, to: Target): seq<string> {
    (if monitor then [] else ["-monitor", MonitorValue(to)]) + (if paused then [] else ["-S"])
  }

  /** The added tail, restored again, is the new monitor and the pause; the old port and state go. */
  lemma TailAgain(monitor: bool, paused: bool, mid: Target, to: Target, devices: set<string>, resolve: Resolver)
    ensures Walk(Tail(monitor, paused, mid), mid.disk, to, devices, resolve)
         == Ok(Seen(Pieces(monitor, paused, to), !monitor, false, false))
  {
    hide Formed, Walk;
    var (a, b, c, d) := TailPieces(monitor, paused, mid);
    Letters(mid);
    EmptyWalk(mid.disk, to, devices, resolve);
    PieceFormed("-monitor", MonitorValue(mid));
    WalkPair("-monitor", MonitorValue(mid), mid.disk, to, devices, resolve);
    SingleFormed("-S");
    WalkPause(mid.disk, to, devices, resolve);
    if mid.gdb.Some? {
      PieceFormed("-gdb", "tcp::" + mid.gdb.value);
      WalkPair("-gdb", "tcp::" + mid.gdb.value, mid.disk, to, devices, resolve);
    }
    PieceFormed("-incoming", "file:" + mid.state);
    WalkPair("-incoming", "file:" + mid.state, mid.disk, to, devices, resolve);
    FormedConcat(a, b);
    FormedConcat(a + b, c);
    WalkConcat(a, b, mid.disk, to, devices, resolve);
    WalkConcat(a + b, c, mid.disk, to, devices, resolve);
    WalkConcat(a + b + c, d, mid.disk, to, devices, resolve);
    ThenNothing(Walk(a + b, mid.disk, to, devices, resolve));
    ThenNothing(Walk(a + b + c, mid.disk, to, devices, resolve));
  }

  /** A restored line: the program, the walked options and the tail. */
  lemma RestoredLine(source: seq<string>, disk: string, to: Target, resolve: Resolver) returns (seen: Seen)
    requires WellFormed(source) && Restore(source, disk, to, resolve).Ok?
    ensures Walk(source[1..], disk, to, SerialDevices(source), resolve) == Ok(seen) && seen.drive && seen.serial
    ensures Restore(source, disk, to, resolve).value == [source[0]] + (seen.out + Tail(seen.monitor, "-S" in seen.out, to))
    ensures Formed(source[1..]) && Formed(seen.out) && WellFormed(Restore(source, disk, to, resolve).value)
    ensures SerialDevices(Restore(source, disk, to, resolve).value) == SerialDevices(source)
    ensures "-S" in seen.out <==> "-S" in source[1..]
  {
    hide Formed, Walk, Tail, Closing, SerialDevices;
    var devices := SerialDevices(source);
    seen := Walk(source[1..], disk, to, devices, resolve).value;
    FormedTail(source, 1);
    WalkKeepsForm(source[1..], disk, to, devices, resolve);
    var paused := "-S" in seen.out;
    assert "-S" in [source[0]] + seen.out <==> paused;
    ClosingIsTail([source[0]] + seen.out, seen.monitor, to);
    var tail := Tail(seen.monitor, paused, to);
    assert [source[0]] + seen.out + tail == [source[0]] + (seen.out + tail);
    TailFormed(seen.monitor, paused, to);
    FormedConcat(seen.out, tail);
    SerialDevicesConcat(seen.out, tail);
    SingleFormed(source[0]);
    FormedConcat([source[0]], seen.out + tail);
    SerialDevicesConcat([source[0]], seen.out + tail);
    Devices([source[0]]);
    assert source == [source[0]] + source[1..];
    SerialDevicesConcat([source[0]], source[1..]);
  }

  lemma ClosedTwice(program: string, direct: Seen, paused: bool, to: Target)
    requires paused == ("-S" in direct.out) && !Dash(program)
    ensures Closing([program] + (direct.out + Pieces(direct.monitor, paused, to)), direct.monitor || !direct.monitor, to)
         == [program] + (direct.out + Tail(direct.monitor, paused, to))
  {
    var out := [program] + (direct.out + Pieces(direct.monitor, paused, to));
    ClosingIsTail(out, true, to);
    if !paused {
      assert Pieces(direct.monitor, paused, to)[|Pieces(direct.monitor, paused, to)| - 1] == "-S";
      assert out[|out| - 1] == "-S";
    }
    assert "-S" in out;
    assert out + Tail(true, true, to) == [program] + (direct.out + Tail(direct.monitor, paused, to));
  }

  // ---------- a comma in the disk's path ----------

  lemma {:induction false} SplitHead(prefix: string, s: string)
    requires NoComma(prefix)
    ensures Split(prefix + s) == [prefix + Split(s)[0]] + Split(s)[1..]
  {
    if prefix == "" {
      assert prefix + s == s && prefix + Split(s)[0] == Split(s)[0];
      assert [Split(s)[0]] + Split(s)[1..] == Split(s);
    } else {
      assert prefix == [prefix[0]] + prefix[1..] && prefix[0] in prefix;
      assert (prefix + s)[1..] == prefix[1..] + s;
      SplitHead(prefix[1..], s);
      Regroup([prefix[0]], prefix[1..], Split(s)[0]);
    }
  }

  /** Writing a part that has commas in it splices its pieces in. */
  lemma {:induction false} SplitSpliced(parts: seq<string>, k: nat, x: string)
    requires k < |parts| && forall i :: 0 <= i < |parts| ==> NoComma(parts[i])
    ensures Split(Join(parts[k := x])) == parts[..k] + Split(x) + parts[k + 1..]
  {
    hide NoComma, Split;
    var changed := parts[k := x];
    if |parts| == 1 {
      assert parts[..k] == [] && parts[k + 1..] == [] && [] + Split(x) + [] == Split(x);
    } else if k == 0 {
      assert changed[1..] == parts[1..] && parts[..0] == [];
      SplitJoin(parts[1..]);
      SplitConcat(x, Join(parts[1..]));
    } else {
      assert changed[1..] == parts[1..][k - 1 := x];
      SplitSpliced(parts[1..], k - 1, x);
      SplitConcat(parts[0], Join(changed[1..]));
      SplitOne(parts[0]);
      assert parts[..k] == [parts[0]] + parts[1..][..k - 1] && parts[1..][k..] == parts[k + 1..];
    }
  }

  function Total(parts: seq<string>): nat {
    if parts == [] then 0 else |parts[0]| + 1 + Total(parts[1..])
  }

  lemma {:induction false} JoinLength(parts: seq<string>)
    requires |parts| > 0
    ensures |Join(parts)| == Total(parts) - 1
  {
    if |parts| > 1 {
      JoinLength(parts[1..]);
    }
  }

  lemma {:induction false} TotalConcat(a: seq<string>, b: seq<string>)
    ensures Total(a + b) == Total(a) + Total(b)
  {
    if a == [] {
      assert a + b == b;
    } else {
      assert (a + b)[1..] == a[1..] + b;
      TotalConcat(a[1..], b);
    }
  }

  lemma {:induction false} OnePart(s: string)
    ensures |Split(s)| == 1 <==> NoComma(s)
  {
    if s != "" {
      OnePart(s[1..]);
      assert s == [s[0]] + s[1..];
    }
  }

  /** An ANS drive can be restored through a disk in between if and only if that disk's path has no comma. */
  lemma DriveComposesIff(spec: string, was: string, mid: string, now: string, resolve: Resolver)
    requires ANS in Split(spec) && ReplaceDriveFile(spec, was, mid, resolve).Ok?
    ensures var direct := ReplaceDriveFile(spec, was, now, resolve);
            ReplaceDriveFile(ReplaceDriveFile(spec, was, mid, resolve).value, mid, now, resolve) == direct <==> NoComma(mid)
  {
    if NoComma(mid) {
      DriveTwice(spec, was, mid, now, resolve);
    } else {
      CommaLeavesPieces(spec, was, mid, now, resolve);
    }
  }

  lemma CommaLeavesPieces(spec: string, was: string, mid: string, now: string, resolve: Resolver)
    requires ANS in Split(spec) && ReplaceDriveFile(spec, was, mid, resolve).Ok? && !NoComma(mid)
    ensures ReplaceDriveFile(ReplaceDriveFile(spec, was, mid, resolve).value, mid, now, resolve)
         != ReplaceDriveFile(spec, was, now, resolve)
  {
    hide Split, Join, FirstFile, NoComma, Total;
    var parts := Split(spec);
    var k := DriveParts(spec, was, mid, resolve);
    var l := DriveParts(spec, was, now, resolve);
    var once := Join(parts[k := FILE + mid]);
    var pieces := Split(mid);
    OnePart(mid);
    SplitParts(spec);
    SplitSpliced(parts, k, FILE + mid);
    FilePart(mid);
    FilePart(now);
    FileHasNoComma();
    SplitHead(FILE, mid);
    var again := parts[..k] + ([FILE + pieces[0]] + pieces[1..]) + parts[k + 1..];
    assert Split(once) == again && |again| > k && again[k] == FILE + pieces[0];
    FilePart(pieces[0]);
    FirstFileIs(again, k);
    if ReplaceDriveFile(once, mid, now, resolve).Ok? && ANS in again {
      Spliced(parts, k, pieces, FILE + pieces[0], FILE + now);
      LongerJoin(parts[..k] + [FILE + now], pieces[1..], parts[k + 1..]);
    } else if ANS !in again {
      AnsStays(parts, k, again);
    }
  }

  lemma Spliced(parts: seq<string>, k: nat, pieces: seq<string>, x: string, y: string)
    requires k < |parts| && pieces != []
    ensures (parts[..k] + ([x] + pieces[1..]) + parts[k + 1..])[k := y] == parts[..k] + [y] + pieces[1..] + parts[k + 1..]
    ensures parts[k := y] == parts[..k] + [y] + parts[k + 1..]
  {
  }

  lemma FileHasNoComma()
    ensures NoComma(FILE)
  {
  }

  lemma AnsStays(parts: seq<string>, k: nat, again: seq<string>)
    requires k < |parts| && StartsWith(parts[k], FILE) && |again| >= |parts| && ANS in parts
    requires again[..k] == parts[..k] && again[|again| - (|parts| - k - 1)..] == parts[k + 1..]
    ensures ANS in again
  {
    AnsIsNoFile();
    var i :| 0 <= i < |parts| && parts[i] == ANS;
    if i < k {
      assert again[..k][i] == ANS;
    } else {
      assert parts[k + 1..][i - k - 1] == ANS;
    }
  }

  lemma LongerJoin(a: seq<string>, b: seq<string>, c: seq<string>)
    requires a != [] && b != []
    ensures |Join(a + b + c)| > |Join(a + c)|
  {
    hide Join;
    JoinLength(a + b + c);
    JoinLength(a + c);
    TotalConcat(a + b, c);
    TotalConcat(a, b);
    TotalConcat(a, c);
  }

  /** A rewritten ANS drive keeps its marker, whatever the path. */
  lemma DriveKeepsAns(spec: string, was: string, now: string, resolve: Resolver)
    requires ANS in Split(spec) && ReplaceDriveFile(spec, was, now, resolve).Ok?
    ensures ANS in Split(ReplaceDriveFile(spec, was, now, resolve).value)
  {
    hide Split, Join, FirstFile, NoComma;
    var k := DriveParts(spec, was, now, resolve);
    var parts := Split(spec);
    SplitParts(spec);
    SplitSpliced(parts, k, FILE + now);
    FirstFileStarts(parts);
    AnsStays(parts, k, parts[..k] + Split(FILE + now) + parts[k + 1..]);
  }

  lemma FirstFileStarts(parts: seq<string>)
    requires FirstFile(parts) < |parts|
    ensures StartsWith(parts[FirstFile(parts)], FILE)
  {
  }

  // ---------- a comma in a socket's or log's path ----------

  /** A serial socket can be redirected through endpoints in between if and only if every piece that their paths leave
      behind a comma reads as an endpoint itself. */
  lemma ChardevComposesIff(spec: string, mid: Target, to: Target)
    ensures RedirectChardev(RedirectChardev(spec, mid), to) == RedirectChardev(spec, to) <==> Vanishes(mid)
  {
    hide Split, Join, WithoutEndpoints, Endpoint;
    if Vanishes(mid) {
      ChardevTwice(spec, mid, to);
    } else {
      var base, left := WithoutEndpoints(Split(spec)), WithoutEndpoints(EndpointPieces(mid));
      RedirectSplits(spec, mid);
      WithoutEndpointsConcat(base, EndpointPieces(mid));
      WithoutEndpointsTwice(Split(spec));
      JoinLength(base + left + NewEndpoints(to));
      JoinLength(base + NewEndpoints(to));
      TotalConcat(base + left, NewEndpoints(to));
      TotalConcat(base, left);
      TotalConcat(base, NewEndpoints(to));
    }
  }

  /** Paths without commas leave nothing behind. */
  lemma WritableVanishes(to: Target)
    requires Writable(to)
    ensures NoComma(to.disk) && Vanishes(to)
  {
    hide Split, WithoutEndpoints, Endpoint, NoComma;
    EndpointParts(to);
    var parts := NewEndpoints(to);
    assert NoComma(parts[0]) && NoComma(parts[1]);
    SplitOne(parts[0]);
    SplitOne(parts[1]);
    assert EndpointPieces(to) == NewEndpoints(to);
  }
}
