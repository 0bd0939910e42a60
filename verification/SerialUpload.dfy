/** serial.py's upload: a blob as Base64 in numbered part files, short shell lines, witnessed batches, one join. */
module SerialUpload {
  import opened Results
  import Bytes

  type byte = Bytes.byte

  // ---------- Base64, section 4 of RFC 4648 ----------

  function Symbol(n: nat): (c: char)
    requires n < 64
  {
    if n < 26 then ('A' as int + n) as char
    else if n < 52 then ('a' as int + (n - 26)) as char
    else if n < 62 then ('0' as int + (n - 52)) as char
    else if n == 62 then '+'
    else '/'
  }

  function Encode(b: seq<byte>): string {
    if b == [] then ""
    else if |b| == 1 then [Symbol(b[0] / 4), Symbol(b[0] % 4 * 16), '=', '=']
    else if |b| == 2 then [Symbol(b[0] / 4), Symbol(b[0] % 4 * 16 + b[1] / 16), Symbol(b[1] % 16 * 4), '=']
    else [Symbol(b[0] / 4), Symbol(b[0] % 4 * 16 + b[1] / 16), Symbol(b[1] % 16 * 4 + b[2] / 64), Symbol(b[2] % 64)]
         + Encode(b[3..])
  }

  // ---------- names and lines ----------

  function Decimal(n: nat): string {
    if n < 10 then [('0' as int + n) as char] else Decimal(n / 10) + [('0' as int + n % 10) as char]
  }

  function Zeros(n: nat): string { seq(n, _ => '0') }

  /** '%06d' */
  function SixDigits(n: nat): string {
    Zeros(if |Decimal(n)| < 6 then 6 - |Decimal(n)| else 0) + Decimal(n)
  }

  function LastSlash(path: string): (k: nat)
    ensures k <= |path| && (k > 0 ==> path[k - 1] == '/') && forall i :: k <= i < |path| ==> path[i] != '/'
  {
    if path == "" then 0
    else if path[|path| - 1] == '/' then |path|
    else LastSlash(path[..|path| - 1])
  }

  function StripSlashes(s: string): (r: string)
    ensures r <= s
  {
    if s != "" && s[|s| - 1] == '/' then StripSlashes(s[..|s| - 1]) else s
  }

  /** os.path.dirname */
  function Dirname(path: string): string {
    var head := path[..LastSlash(path)];
    if StripSlashes(head) == "" then head else StripSlashes(head)
  }

  const DATA_ROOT := "/private/var/.dvm-data-seed/"
  const USER_ROOT := "/private/var/hardware/.dvm-data-seed/"

  function Components(path: string): (parts: seq<string>)
    ensures |parts| > 0
  {
    if path == "" then [""]
    else if path[0] == '/' then [""] + Components(path[1..])
    else
      var rest := Components(path[1..]);
      [[path[0]] + rest[0]] + rest[1..]
  }

  predicate Safe(path: string) {
    && ((DATA_ROOT <= path && path != DATA_ROOT) || (USER_ROOT <= path && path != USER_ROOT))
    && ".." !in Components(path)
  }

  function PartDir(remote: string): string { Dirname(remote) + "/.upload-parts" }

  function PartPath(dir: string, n: nat): string { dir + "/" + SixDigits(n) }

  function Command(chunk: string, part: string): string {
    "printf '%s' '" + chunk + "' > " + part + "; /bin/cksum " + part
  }

  /** One guarded line as send_command_batch transmits it. */
  function Line(command: string): string { ": :; " + command + "\n" }

  const LINE_LIMIT := 252

  /** How much Base64 fits one line, rounded down to whole groups; not positive when nothing fits. */
  function ChunkBytes(remote: string): int {
    var overhead := |Line(Command("", PartPath(PartDir(remote), 1)))|;
    var room := (LINE_LIMIT - overhead) / 4 * 4;
    if room < 120 then room else 120
  }

  /** What `encode('ascii')` takes. */
  predicate AsciiOnly(s: string) { forall i :: 0 <= i < |s| ==> s[i] as int < 0x80 }

  /** The uploads that get as far as sending parts. The length of a line is measured on ASCII text. */
  predicate Accepted(remote: string) { Safe(remote) && AsciiOnly(PartDir(remote)) && ChunkBytes(remote) > 0 }

  // ---------- parts ----------

  datatype Part = Part(path: string, chunk: string)

  /** The pieces of `n` characters, the last one shorter. */
  function Pieces(text: string, n: nat): seq<string>
    requires n > 0
    decreases |text|
  {
    if text == "" then [] else if |text| <= n then [text] else [text[..n]] + Pieces(text[n..], n)
  }

  function Parts(dir: string, pieces: seq<string>, first: nat): (parts: seq<Part>)
    ensures |parts| == |pieces|
    ensures forall i :: 0 <= i < |parts| ==> parts[i] == Part(PartPath(dir, first + i), pieces[i])
    decreases |pieces|
  {
    if pieces == [] then [] else [Part(PartPath(dir, first), pieces[0])] + Parts(dir, pieces[1..], first + 1)
  }

  function Flatten(batches: seq<seq<Part>>): seq<Part> {
    if batches == [] then [] else batches[0] + Flatten(batches[1..])
  }

  /** The parts still to send from `off` on. */
  ghost function Remaining(encoded: string, off: nat, n: nat, dir: string, number: nat): seq<Part>
    requires n > 0
  {
    if off < |encoded| then Parts(dir, Pieces(encoded[off..], n), number) else []
  }

  /** The loop that fills `entries` and sends them when a batch is full. */
  method Send(encoded: string, dir: string, chunkBytes: nat, batch: nat) returns (batches: seq<seq<Part>>)
    requires chunkBytes > 0 && batch > 0
    ensures Flatten(batches) == Parts(dir, Pieces(encoded, chunkBytes), 1)
    ensures forall i :: 0 <= i < |batches| ==> 0 < |batches[i]| <= batch
    ensures forall i :: 0 <= i < |batches| - 1 ==> |batches[i]| == batch
  {
    hide PartPath, Remaining, Flatten, Parts, Pieces;
    batches := [];
    var entries: seq<Part> := [];
    var off, number := 0, 1;
    Start(encoded, chunkBytes, dir);
    while off < |encoded|
      invariant number > 0 && |entries| < batch
      invariant forall i :: 0 <= i < |batches| ==> |batches[i]| == batch
      invariant Flatten(batches) + entries + Remaining(encoded, off, chunkBytes, dir, number)
             == Remaining(encoded, 0, chunkBytes, dir, 1)
      decreases |encoded| - off
    {
      var end := if off + chunkBytes < |encoded| then off + chunkBytes else |encoded|;
      var part := Part(PartPath(dir, number), encoded[off..end]);
      Advance(encoded, off, chunkBytes, dir, number);
      Regroup(Flatten(batches), entries, part, Remaining(encoded, off + chunkBytes, chunkBytes, dir, number + 1));
      entries := entries + [part];
      if |entries| == batch {
        FlattenAppend(batches, entries);
        batches := batches + [entries];
        assert Flatten(batches) + [] == Flatten(batches);
        entries := [];
      }
      off := off + chunkBytes;
      number := number + 1;
    }
    AllSent(encoded, off, chunkBytes, dir, number);
    assert Flatten(batches) + entries + [] == Flatten(batches) + entries;
    if entries != [] {
      FlattenAppend(batches, entries);
      batches := batches + [entries];
    } else {
      assert Flatten(batches) + entries == Flatten(batches);
    }
  }

  lemma Start(encoded: string, n: nat, dir: string)
    requires n > 0
    ensures Remaining(encoded, 0, n, dir, 1) == Parts(dir, Pieces(encoded, n), 1)
    ensures Flatten([]) + [] + Remaining(encoded, 0, n, dir, 1) == Remaining(encoded, 0, n, dir, 1)
  {
    assert encoded[0..] == encoded;
  }

  lemma AllSent(encoded: string, off: nat, n: nat, dir: string, number: nat)
    requires n > 0 && off >= |encoded|
    ensures Remaining(encoded, off, n, dir, number) == []
  {
  }

  lemma Advance(text: string, off: nat, n: nat, dir: string, number: nat)
    requires off < |text| && n > 0
    ensures var end := if off + n < |text| then off + n else |text|;
            Remaining(text, off, n, dir, number)
            == [Part(PartPath(dir, number), text[off..end])] + Remaining(text, off + n, n, dir, number + 1)
  {
    hide PartPath;
    var rest := text[off..];
    if off + n < |text| {
      assert rest[..n] == text[off..off + n] && rest[n..] == text[off + n..];
      assert ([rest[..n]] + Pieces(rest[n..], n))[1..] == Pieces(rest[n..], n);
    } else {
      assert text[off..|text|] == rest;
      var one := [rest];
      assert Pieces(rest, n) == one && one[1..] == [];
    }
  }

  lemma Regroup(a: seq<Part>, b: seq<Part>, p: Part, c: seq<Part>)
    ensures a + b + ([p] + c) == a + (b + [p]) + c
  {
  }

  lemma {:induction false} FlattenAppend(batches: seq<seq<Part>>, last: seq<Part>)
    ensures Flatten(batches + [last]) == Flatten(batches) + last
  {
    if batches == [] {
      var one := [last];
      assert batches + one == one && one[1..] == [] && last + [] == last;
    } else {
      assert (batches + [last])[1..] == batches[1..] + [last];
      FlattenAppend(batches[1..], last);
    }
  }
}
