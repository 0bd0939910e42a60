/** Rewriting a captured QEMU command line: checkpoint_common.py's restore_argv and warm_boot_probe.py's boot_command. */
module RestoreArgv {
  import opened Results

  datatype Error =
    | EmptyArgv
    | WrongDrive
    | NoFileComponent
    | MissingAnsDisk
    | NoSerialLogfile
    | NonAnsDrive
    | MissingValue

  type Outcome<+T> = Result<T, Error>

  /** Path(...).resolve(): any function on path texts. */
  type Resolver = string -> string

  /** Where one restore goes: its disk, its endpoints and its saved state. */
  datatype Target = Target(disk: string, monitor: string, serial: string, uart: string, state: string, gdb: Option<string>)

  // ---------- comma-separated option values ----------

  /** spec.split(",") */
  function Split(s: string): (parts: seq<string>)
    ensures |parts| > 0
  {
    if s == "" then [""]
    else if s[0] == ',' then [""] + Split(s[1..])
    else
      var rest := Split(s[1..]);
      [[s[0]] + rest[0]] + rest[1..]
  }

  /** ",".join(parts) */
  function Join(parts: seq<string>): string
    requires |parts| > 0
  {
    if |parts| == 1 then parts[0] else parts[0] + "," + Join(parts[1..])
  }

  predicate StartsWith(s: string, prefix: string) { prefix <= s }

  const FILE := "file="
  const ANS := "id=ans"

  /** The first part that names a file, or the number of parts. */
  function FirstFile(parts: seq<string>): (k: nat)
    ensures k <= |parts| && (forall i :: 0 <= i < k ==> !StartsWith(parts[i], FILE))
    ensures k < |parts| ==> StartsWith(parts[k], FILE)
  {
    if parts == [] || StartsWith(parts[0], FILE) then 0 else 1 + FirstFile(parts[1..])
  }

  function ReplaceDriveFile(spec: string, was: string, now: string, resolve: Resolver): Outcome<string> {
    var parts := Split(spec);
    var k := FirstFile(parts);
    if ANS !in parts then Ok(spec)
    else if k == |parts| then Err(NoFileComponent)
    else if resolve(parts[k][5..]) != resolve(was) then Err(WrongDrive)
    else Ok(Join(parts[k := FILE + now]))
  }

  // ---------- restore_argv ----------

  const CHARDEV_REF := "chardev:"

  /** The devices named by `-serial chardev:<device>`, at whatever position the option stands. */
  function SerialDevices(argv: seq<string>): set<string> {
    if |argv| < 2 then {}
    else
      (if argv[0] == "-serial" && StartsWith(argv[1], CHARDEV_REF) then {argv[1][8..]} else {})
      + SerialDevices(argv[1..])
  }

  predicate SerialSocket(spec: string, devices: set<string>) {
    Split(spec)[0] == "socket" && exists d :: d in devices && "id=" + d in Split(spec)
  }

  predicate Endpoint(part: string) {
    StartsWith(part, "path=") || StartsWith(part, "logfile=")
  }

  function WithoutEndpoints(parts: seq<string>): seq<string> {
    if parts == [] then []
    else (if Endpoint(parts[0]) then [] else [parts[0]]) + WithoutEndpoints(parts[1..])
  }

  function RedirectChardev(spec: string, to: Target): string {
    Join(WithoutEndpoints(Split(spec)) + ["path=" + to.uart, "logfile=" + to.serial])
  }

  function MonitorValue(to: Target): string { "unix:" + to.monitor + ",server,nowait" }

  /** What the loop has appended and seen. */
  datatype Seen = Seen(out: seq<string>, monitor: bool, drive: bool, serial: bool)

  function Then(a: Seen, b: Seen): Seen {
    Seen(a.out + b.out, a.monitor || b.monitor, a.drive || b.drive, a.serial || b.serial)
  }

  const NOTHING := Seen([], false, false, false)

  /** An option the restore rewrites or drops together with its value. */
  predicate Handled(arg: string) {
    arg in {"-incoming", "-gdb", "-pidfile", "-qmp", "-monitor", "-drive", "-chardev", "-serial"}
  }

  /** One option with its value. */
  function RestorePair(arg: string, value: string, disk: string, to: Target, devices: set<string>, resolve: Resolver)
    : Outcome<Seen>
    requires Handled(arg)
  {
    if arg == "-monitor" then Ok(Seen([arg, MonitorValue(to)], true, false, false))
    else if arg == "-drive" then
      var rewritten :- ReplaceDriveFile(value, disk, to.disk, resolve);
      Ok(Seen([arg, rewritten], false, rewritten != value, false))
    else if arg == "-chardev" then
      if SerialSocket(value, devices) then Ok(Seen([arg, RedirectChardev(value, to)], false, false, true))
      else Ok(Seen([arg, value], false, false, false))
    else if arg == "-serial" then
      if StartsWith(value, "file:") then Ok(Seen([arg, "file:" + to.serial], false, false, true))
      else Ok(Seen([arg, value], false, false, false))
    else Ok(NOTHING)
  }

  /** The loop over the rest of the command line. */
  function Walk(argv: seq<string>, disk: string, to: Target, devices: set<string>, resolve: Resolver): Outcome<Seen> {
    if argv == [] then Ok(NOTHING)
    else if Handled(argv[0]) && |argv| > 1 then
      var pair :- RestorePair(argv[0], argv[1], disk, to, devices, resolve);
      var rest :- Walk(argv[2..], disk, to, devices, resolve);
      Ok(Then(pair, rest))
    else
      var one := Seen(if argv[0] == "-daemonize" then [] else [argv[0]], false, false, false);
      var rest :- Walk(argv[1..], disk, to, devices, resolve);
      Ok(Then(one, rest))
  }

  function Closing(out: seq<string>, monitor: bool, to: Target): seq<string> {
    var watched := out + (if monitor then [] else ["-monitor", MonitorValue(to)]);
    var paused := watched + (if "-S" in watched then [] else ["-S"]);
    var debugged := paused + (if to.gdb.Some? then ["-gdb", "tcp::" + to.gdb.value] else []);
    debugged + ["-incoming", "file:" + to.state]
  }

  function Restore(source: seq<string>, disk: string, to: Target, resolve: Resolver): Outcome<seq<string>> {
    if source == [] then Err(EmptyArgv)
    else
      var seen :- Walk(source[1..], disk, to, SerialDevices(source), resolve);
      if !seen.drive then Err(MissingAnsDisk)
      else if !seen.serial then Err(NoSerialLogfile)
      else Ok(Closing([source[0]] + seen.out, seen.monitor, to))
  }

  // ---------- boot_command ----------

  predicate Contains(s: string, piece: string) {
    exists i :: 0 <= i <= |s| && StartsWith(s[i..], piece)
  }

  predicate Removed(arg: string) {
    arg in {"-incoming", "-loadvm", "-monitor", "-qmp", "-gdb", "-chardev", "-serial"}
  }

  function BootDrive(dir: string): string { "if=none,id=ans,file=" + dir + "/disk.qcow2,format=qcow2" }

  function BootEndpoints(dir: string): seq<string> {
    ["-monitor", "unix:" + dir + "/monitor.sock,server=on,wait=off",
     "-qmp", "unix:" + dir + "/qmp.sock,server=on,wait=off",
     "-chardev", "socket,id=warm_uart,path=" + dir + "/uart.sock,server=on,wait=off,logfile=" + dir + "/serial.log",
     "-serial", "chardev:warm_uart"]
  }

  function Kept(argv: seq<string>, dir: string): Outcome<seq<string>>
    decreases |argv|
  {
    if argv == [] then Ok([])
    else if Removed(argv[0]) then Kept(if |argv| > 1 then argv[2..] else [], dir)
    else if argv[0] == "-S" || argv[0] == "-s" then Kept(argv[1..], dir)
    else if argv[0] == "-drive" then
      if |argv| == 1 then Err(MissingValue)
      else if !Contains(argv[1], "id=ans,") then Err(NonAnsDrive)
      else
        var rest :- Kept(argv[2..], dir);
        Ok([argv[0], BootDrive(dir)] + rest)
    else
      var rest :- Kept(argv[1..], dir);
      Ok([argv[0]] + rest)
  }

  function BootCommand(argv: seq<string>, dir: string): Outcome<seq<string>> {
    var kept :- Kept(argv, dir);
    Ok(kept + BootEndpoints(dir))
  }
}
