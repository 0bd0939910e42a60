/** Which files and sockets a rewritten command line names, option by option. */
module RestoreArgvEndpoints {
  import opened Results
  import opened RestoreArgv
  import opened RestoreArgvProofs
  import opened RestoreArgvTheorems
  import opened RestoreArgvCompose
  import opened RestoreArgvFrame
  import opened RestoreArgvBoot

  // ---------- the parts of the boot command's values ----------

  lemma MonitorParts(dir: string, name: string)
    requires NoComma(dir) && NoComma(name)
    ensures Split("unix:" + dir + name + ",server=on,wait=off") == ["unix:" + dir + name, "server=on", "wait=off"]
  {
    hide Split;
    var first := "unix:" + dir + name;
    var last := "server=on" + "," + "wait=off";
    assert "unix:" + dir + name + ",server=on,wait=off" == first + "," + last;
    NoCommas();
    SplitPrefix(first, last);
    SplitPrefix("server=on", "wait=off");
    SplitOne("wait=off");
  }

  lemma NoCommas()
    ensures NoComma("unix:") && NoComma("server=on") && NoComma("wait=off") && NoComma("socket") && NoComma("id=warm_uart")
    ensures NoComma("/uart.sock") && NoComma("/serial.log") && NoComma("path=") && NoComma("logfile=")
  {
  }

  lemma NoDriveCommas()
    ensures NoComma("if=none") && NoComma("id=ans") && NoComma("file=") && NoComma("/disk.qcow2") && NoComma("format=qcow2")
    ensures NoComma("/monitor.sock") && NoComma("/qmp.sock")
  {
  }

  function UartParts(dir: string): seq<string> {
    ["socket", "id=warm_uart", "path=" + dir + "/uart.sock", "server=on", "wait=off", "logfile=" + dir + "/serial.log"]
  }

  function UartValue(dir: string): string {
    "socket,id=warm_uart,path=" + dir + "/uart.sock,server=on,wait=off,logfile=" + dir + "/serial.log"
  }

  lemma UartLiterals()
    ensures "socket,id=warm_uart,path=" == "socket" + "," + "id=warm_uart" + "," + "path="
    ensures "/uart.sock,server=on,wait=off,logfile=" == "/uart.sock" + "," + "server=on" + "," + "wait=off" + "," + "logfile="
  {
  }

  lemma Nest(a: string, b: string, p: string, dir: string, u: string, c: string, d: string, l: string, log: string)
    ensures (a + "," + b + "," + p) + dir + (u + "," + c + "," + d + "," + l) + dir + log
         == a + "," + (b + "," + ((p + dir + u) + "," + (c + "," + (d + "," + (l + dir + log)))))
  {
  }

  lemma Split6(a: string, b: string, c: string, d: string, e: string, f: string)
    requires NoComma(a) && NoComma(b) && NoComma(c) && NoComma(d) && NoComma(e) && NoComma(f)
    ensures Split(a + "," + (b + "," + (c + "," + (d + "," + (e + "," + f))))) == [a, b, c, d, e, f]
  {
    hide Split, NoComma;
    var e' := e + "," + f;
    var d' := d + "," + e';
    var c' := c + "," + d';
    var b' := b + "," + c';
    SplitPrefix(a, b');
    SplitPrefix(b, c');
    SplitPrefix(c, d');
    SplitPrefix(d, e');
    SplitPrefix(e, f);
    SplitOne(f);
  }

  lemma UartSplits(dir: string)
    requires NoComma(dir)
    ensures Split(UartValue(dir)) == UartParts(dir)
  {
    hide Split;
    NoCommas();
    UartLiterals();
    Nest("socket", "id=warm_uart", "path=", dir, "/uart.sock", "server=on", "wait=off", "logfile=", "/serial.log");
    NoCommaAround("path=", dir, "/uart.sock");
    NoCommaAround("logfile=", dir, "/serial.log");
    Split6("socket", "id=warm_uart", "path=" + dir + "/uart.sock", "server=on", "wait=off", "logfile=" + dir + "/serial.log");
  }

  lemma NoCommaAround(a: string, b: string, c: string)
    requires NoComma(a) && NoComma(b) && NoComma(c)
    ensures NoComma(a + b + c)
  {
  }

  lemma DriveParts(dir: string)
    requires NoComma(dir)
    ensures Split(BootDrive(dir)) == ["if=none", "id=ans", "file=" + dir + "/disk.qcow2", "format=qcow2"]
  {
    hide Split;
    NoDriveCommas();
    var file := "file=" + dir + "/disk.qcow2";
    var c := file + "," + "format=qcow2";
    var b := "id=ans" + "," + c;
    assert BootDrive(dir) == "if=none" + "," + b;
    SplitPrefix("if=none", b);
    SplitPrefix("id=ans", c);
    SplitPrefix(file, "format=qcow2");
    SplitOne("format=qcow2");
  }

  // ---------- the whole boot command ----------

  predicate FirstFileIs(value: string, file: string) {
    var parts := Split(value);
    exists k :: 0 <= k < |parts| && parts[k] == "file=" + file && forall i :: 0 <= i < k ==> !("file=" <= parts[i])
  }

  /** The eight tokens at the end of a boot command: a monitor, a QMP socket, and a serial line on a socket
      with a log, each in the directory of the run. */
  predicate NamesEndpoints(tail: seq<string>, dir: string) {
    |tail| == 8
    && tail[0] == "-monitor" && Split(tail[1]) == ["unix:" + dir + "/monitor.sock", "server=on", "wait=off"]
    && tail[2] == "-qmp" && Split(tail[3]) == ["unix:" + dir + "/qmp.sock", "server=on", "wait=off"]
    && tail[4] == "-chardev"
    && Split(tail[5]) == ["socket", "id=warm_uart", "path=" + dir + "/uart.sock", "server=on", "wait=off",
                          "logfile=" + dir + "/serial.log"]
    && tail[6] == "-serial" && tail[7] == "chardev:warm_uart"
  }

  /** The one disk: the copy in the directory of the run, under the identifier of the boot disk. */
  predicate NamesDisk(value: string, dir: string) {
    Split(value) == ["if=none", "id=ans", "file=" + dir + "/disk.qcow2", "format=qcow2"]
  }

  lemma EndpointsAreNamedIff(dir: string)
    ensures NamesEndpoints(BootEndpoints(dir), dir) && NamesDisk(BootDrive(dir), dir) <==> NoComma(dir)
  {
    hide Split, NoComma;
    var tail := BootEndpoints(dir);
    if NoComma(dir) {
      NoDriveCommas();
      MonitorParts(dir, "/monitor.sock");
      MonitorParts(dir, "/qmp.sock");
      MonitorText(dir);
      UartSplits(dir);
      assert tail[5] == UartValue(dir);
      DriveParts(dir);
    } else if NamesDisk(BootDrive(dir), dir) {
      NamedDiskIsPlain(dir);
    }
  }

  lemma NamedDiskIsPlain(dir: string)
    requires NamesDisk(BootDrive(dir), dir)
    ensures NoComma(dir)
  {
    hide Split, NoComma;
    SplitParts(BootDrive(dir));
    assert NoComma(Split(BootDrive(dir))[2]);
    if !NoComma(dir) { CommaInside("file=", dir, "/disk.qcow2"); }
  }

  lemma MonitorText(dir: string)
    ensures "unix:" + dir + "/monitor.sock,server=on,wait=off" == "unix:" + dir + "/monitor.sock" + ",server=on,wait=off"
    ensures "unix:" + dir + "/qmp.sock,server=on,wait=off" == "unix:" + dir + "/qmp.sock" + ",server=on,wait=off"
  {
    assert "/monitor.sock,server=on,wait=off" == "/monitor.sock" + ",server=on,wait=off";
    assert "/qmp.sock,server=on,wait=off" == "/qmp.sock" + ",server=on,wait=off";
  }

  lemma CommaInside(a: string, b: string, c: string)
    requires !NoComma(b)
    ensures !NoComma(a + b + c)
  {
    assert ',' in b;
    var i :| 0 <= i < |b| && b[i] == ',';
    assert (a + b + c)[|a| + i] == ',';
  }

  /** A token that may stand in front of the endpoints: no option of those that go, and a drive only in front
      of its new value. */
  predicate KeptToken(argv: seq<string>, i: nat, dir: string)
    requires i < |argv|
  {
    argv[i] != "-incoming" && argv[i] != "-loadvm" && argv[i] != "-monitor" && argv[i] != "-qmp" && argv[i] != "-gdb"
    && argv[i] != "-chardev" && argv[i] != "-serial" && argv[i] != "-S" && argv[i] != "-s"
    && (argv[i] == "-drive" ==> i + 1 < |argv| && argv[i + 1] == BootDrive(dir))
  }

  lemma PassesOn(arg: string, rest: seq<string>, dir: string)
    requires !Removed(arg) && arg != "-S" && arg != "-s" && arg != "-drive"
    ensures KeptToken([arg] + rest, 0, dir)
  {
  }

  lemma NewDrive(rest: seq<string>, dir: string)
    ensures KeptToken(["-drive", BootDrive(dir)] + rest, 0, dir) && KeptToken(["-drive", BootDrive(dir)] + rest, 1, dir)
  {
    assert BootDrive(dir)[0] == 'i';
    hide BootDrive;
    DriveIsNoOption(BootDrive(dir));
  }

  lemma DriveIsNoOption(value: string)
    requires value != "" && value[0] == 'i'
    ensures value != "-incoming" && value != "-loadvm" && value != "-monitor" && value != "-qmp" && value != "-gdb"
         && value != "-chardev" && value != "-serial" && value != "-S" && value != "-s" && value != "-drive"
  {
  }

  lemma LaterTokens(first: seq<string>, rest: seq<string>, dir: string)
    requires forall i :: 0 <= i < |rest| ==> KeptToken(rest, i, dir)
    requires forall i :: 0 <= i < |first| ==> KeptToken(first + rest, i, dir)
    ensures forall i :: 0 <= i < |first + rest| ==> KeptToken(first + rest, i, dir)
  {
    hide BootDrive;
    forall i | 0 <= i < |first + rest| ensures KeptToken(first + rest, i, dir) {
      if i >= |first| {
        assert KeptToken(rest, i - |first|, dir);
      }
    }
  }

  lemma {:induction false} KeptTokens(argv: seq<string>, dir: string)
    requires Kept(argv, dir).Ok?
    ensures var kept := Kept(argv, dir).value; forall i :: 0 <= i < |kept| ==> KeptToken(kept, i, dir)
    decreases |argv|
  {
    hide KeptToken, BootDrive, Contains, Removed;
    if argv != [] {
      if Removed(argv[0]) {
        KeptTokens(if |argv| > 1 then argv[2..] else [], dir);
      } else if argv[0] == "-S" || argv[0] == "-s" {
        KeptTokens(argv[1..], dir);
      } else if argv[0] == "-drive" {
        KeptTokens(argv[2..], dir);
        var rest := Kept(argv[2..], dir).value;
        NewDrive(rest, dir);
        LaterTokens(["-drive", BootDrive(dir)], rest, dir);
      } else {
        KeptTokens(argv[1..], dir);
        var rest := Kept(argv[1..], dir).value;
        PassesOn(argv[0], rest, dir);
        LaterTokens([argv[0]], rest, dir);
      }
    }
  }

  /** A boot command, from whatever command line: in front no saved state, no debugger, no pause and no older
      endpoint, every drive replaced by the copy of the run; at the end the endpoints of the run. They name
      what they should if and only if the directory has no comma. */
  lemma BootNames(argv: seq<string>, dir: string)
    requires BootCommand(argv, dir).Ok?
    ensures var line := BootCommand(argv, dir).value;
            |line| >= 8 && var front := line[..|line| - 8]; var tail := line[|line| - 8..];
            (forall i :: 0 <= i < |front| ==> KeptToken(front, i, dir))
            && (NamesEndpoints(tail, dir) && NamesDisk(BootDrive(dir), dir) <==> NoComma(dir))
  {
    hide Kept, KeptToken, NamesEndpoints, NamesDisk, BootDrive, NoComma, BootEndpoints;
    KeptTokens(argv, dir);
    EndpointsAreNamedIff(dir);
    EightTokens(dir);
    var kept := Kept(argv, dir).value;
    var line := kept + BootEndpoints(dir);
    assert line[..|line| - 8] == kept && line[|line| - 8..] == BootEndpoints(dir);
  }

  lemma EightTokens(dir: string)
    ensures |BootEndpoints(dir)| == 8
  {
  }

  // ---------- restored lines, spelled out ----------

  /** The endpoints of a restored line, by the options themselves. */
  ghost predicate NamesTarget(line: seq<string>, to: Target, devices: set<string>) {
    "-pidfile" !in line && "-qmp" !in line
    && forall i :: 0 <= i < |line| ==> OptionNames(line, i, to, devices)
  }

  ghost predicate OptionNames(line: seq<string>, i: nat, to: Target, devices: set<string>)
    requires i < |line|
  {
    (line[i] in {"-monitor", "-incoming", "-gdb", "-drive", "-chardev", "-serial"} ==> i + 1 < |line|)
    && (line[i] == "-monitor" ==> line[i + 1] == "unix:" + to.monitor + ",server,nowait")
    && (line[i] == "-incoming" ==> line[i + 1] == "file:" + to.state)
    && (line[i] == "-gdb" ==> to.gdb.Some? && line[i + 1] == "tcp::" + to.gdb.value)
    && (line[i] == "-serial" && "file:" <= line[i + 1] ==> line[i + 1] == "file:" + to.serial)
    && (line[i] == "-drive" && "id=ans" in Split(line[i + 1]) ==> FirstFileIs(line[i + 1], to.disk))
    && (line[i] == "-chardev" ==> SocketNames(Split(line[i + 1]), to, devices))
  }

  /** The socket of a serial line has the new socket and log among its parts, and no other. */
  ghost predicate SocketNames(parts: seq<string>, to: Target, devices: set<string>)
    requires |parts| > 0
  {
    parts[0] == "socket" && (exists d :: d in devices && "id=" + d in parts) ==>
      "path=" + to.uart in parts && "logfile=" + to.serial in parts
      && forall p :: p in parts && ("path=" <= p || "logfile=" <= p) ==> p == "path=" + to.uart || p == "logfile=" + to.serial
  }

  lemma DirectedNamesIff(line: seq<string>, to: Target, devices: set<string>)
    ensures Directed(line, to, devices) <==> NamesTarget(line, to, devices)
  {
    hide OptionNames, PairDirected, Handled;
    if Directed(line, to, devices) {
      forall i | 0 <= i < |line| ensures OptionNames(line, i, to, devices) && line[i] != "-pidfile" && line[i] != "-qmp" {
        if Handled(line[i]) { PairNamesIff(line, i, to, devices); } else { Unhandled(line, i, to, devices); }
      }
    }
    if NamesTarget(line, to, devices) {
      forall i | 0 <= i < |line| && Handled(line[i]) ensures i + 1 < |line| && PairDirected(line[i], line[i + 1], to, devices) {
        assert OptionNames(line, i, to, devices);
        ValueThere(line, i, to, devices);
        PairNamesIff(line, i, to, devices);
      }
    }
  }

  lemma ValueThere(line: seq<string>, i: nat, to: Target, devices: set<string>)
    requires i < |line| && Handled(line[i]) && OptionNames(line, i, to, devices) && line[i] != "-pidfile" && line[i] != "-qmp"
    ensures i + 1 < |line|
  {
    hide Split, FirstFileIs;
  }

  lemma Unhandled(line: seq<string>, i: nat, to: Target, devices: set<string>)
    requires i < |line| && !Handled(line[i])
    ensures OptionNames(line, i, to, devices) && line[i] != "-pidfile" && line[i] != "-qmp"
  {
    hide Split, FirstFileIs;
  }

  lemma PairNamesIff(line: seq<string>, i: nat, to: Target, devices: set<string>)
    requires i + 1 < |line|
    ensures PairDirected(line[i], line[i + 1], to, devices) <==>
              OptionNames(line, i, to, devices) && line[i] != "-pidfile" && line[i] != "-qmp"
  {
    hide Split, FirstFile;
    var value := line[i + 1];
    EndpointsAre(to);
    FirstFileNamed(value, to.disk);
    hide FirstFileIs, NewEndpoints;
  }

  lemma EndpointsAre(to: Target)
    ensures forall p :: p in NewEndpoints(to) <==> p == "path=" + to.uart || p == "logfile=" + to.serial
    ensures Endpoint("path=" + to.uart) && Endpoint("logfile=" + to.serial)
  {
    assert NewEndpoints(to)[0] in NewEndpoints(to) && NewEndpoints(to)[1] in NewEndpoints(to);
  }

  lemma FirstFileNamed(value: string, disk: string)
    ensures FirstFileIs(value, disk) <==>
              var parts := Split(value); FirstFile(parts) < |parts| && parts[FirstFile(parts)] == FILE + disk
  {
    hide Split;
    var parts := Split(value);
    assert "file=" <= "file=" + disk;
    if FirstFileIs(value, disk) {
      var k :| 0 <= k < |parts| && parts[k] == "file=" + disk && forall i :: 0 <= i < k ==> !("file=" <= parts[i]);
      assert FirstFile(parts) == k;
    }
  }

  /** A restored line names the disk, the endpoints and the saved state asked for, and no other, if and only if
      the disk's path has no comma and, should the line have a serial socket, neither have the socket's and the
      log's. */
  lemma RestoredNamesIff(source: seq<string>, disk: string, to: Target, resolve: Resolver)
    requires WellFormed(source) && Restore(source, disk, to, resolve).Ok?
    ensures NamesTarget(Restore(source, disk, to, resolve).value, to, SerialDevices(source)) <==>
            NoComma(to.disk) && (HasSocket(source[1..], SerialDevices(source)) ==> NoComma(to.serial) && NoComma(to.uart))
  {
    hide WellFormed, Restore, NoComma, Directed, NamesTarget, HasSocket, SerialDevices;
    RestoredIsDirected(source, disk, to, resolve);
    DirectedNamesIff(Restore(source, disk, to, resolve).value, to, SerialDevices(source));
  }
}
