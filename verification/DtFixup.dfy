/** dt_fixup.py's codec: it deliberately normalises values to text or bytes on the way through. */
module DtFixup {
  import opened Results
  import opened Bytes
  import Utf8
  import opened Utf8Text

  /** A property value: a Python str or bytes. */
  datatype Value = Text(s: string) | Raw(b: seq<byte>)

  /** props is a dict: one entry a key, in insertion order. */
  datatype Node = Node(props: seq<(string, Value)>, children: seq<Node>)

  datatype Error = TooSmall | NotUtf8 | LongName | BadLiteral | NotTerminated | Misaligned | PackOverflow

  type Outcome<+T> = Result<T, Error>

  /** int(text, 0): which texts are integer literals, and of which value. */
  type Literal = string -> Option<int>

  const HEX_DIGITS := "0123456789abcdef"

  function HexDigits(n: nat): string {
    if n < 16 then [HEX_DIGITS[n]] else HexDigits(n / 16) + [HEX_DIGITS[n % 16]]
  }

  /** hex(n) */
  function Hex(n: nat): string { "0x" + HexDigits(n) }

  const U32_PREFIX := "u32:"
  const U64_PREFIX := "u64:"
  const NULL_TEXT := "<NULL>"
  const NAME := "name"

  function UpToNul(s: string): (r: string)
    ensures r <= s && forall i :: 0 <= i < |r| ==> r[i] != '\0'
    ensures |r| == |s| || s[|r|] == '\0'
  {
    if s == "" || s[0] == '\0' then "" else [s[0]] + UpToNul(s[1..])
  }

  /** s.decode("utf8").split('\x00')[0] */
  function NullTerminated(b: seq<byte>): Outcome<string> {
    if Utf8.Valid(b) then Ok(UpToNul(DecodeReplacing(b))) else Err(NotUtf8)
  }

  function FirstNul(b: seq<byte>): (n: nat)
    ensures n <= |b| && (forall i :: 0 <= i < n ==> b[i] != 0) && (n < |b| ==> b[n] == 0)
  {
    if b == [] || b[0] == 0 then 0 else 1 + FirstNul(b[1..])
  }

  /** is_probably_a_string: printable ASCII of at least three characters, then only NULs. */
  predicate ProbablyString(b: seq<byte>) {
    var n := FirstNul(b);
    && n >= 3
    && (forall i :: 0 <= i < n ==> 0x20 <= b[i] < 0x7F)
    && (forall i :: n <= i < |b| ==> b[i] == 0)
  }

  function DecodeValue(name: string, prop: seq<byte>): Outcome<Value> {
    if name == NAME || ProbablyString(prop) then
      var s :- NullTerminated(prop);
      Ok(Text(s))
    else if |prop| == 0 then Ok(Text(NULL_TEXT))
    else if |prop| == 4 then Ok(Text(U32_PREFIX + Hex(U32(prop, 0))))
    else if |prop| == 8 then Ok(Text(U64_PREFIX + Hex(U64(prop, 0))))
    else Ok(Raw(prop))
  }

  function Clip(buf: seq<byte>, a: nat, b: nat): seq<byte>
    requires a <= b
  {
    var hi := if b < |buf| then b else |buf|;
    if a >= hi then [] else buf[a..hi]
  }

  /** props[key] = value */
  function Put(props: seq<(string, Value)>, key: string, value: Value): seq<(string, Value)> {
    if props == [] then [(key, value)]
    else if props[0].0 == key then [(key, value)] + props[1..]
    else [props[0]] + Put(props[1..], key, value)
  }

  function DecodeProp(dt: seq<byte>, off: nat): (r: Outcome<(string, Value, nat)>)
    ensures r.Ok? ==> off + 36 <= r.value.2 && off + 36 <= |dt|
  {
    var name :- NullTerminated(Clip(dt, off, off + 32));
    if off + 36 > |dt| then Err(TooSmall)
    else
      var length := Aligned(U32(dt, off + 32) % FLAG_BIT);
      var value :- DecodeValue(name, Clip(dt, off + 36, off + 36 + length));
      Ok((name, value, off + 36 + length))
  }

  /** The property loop, filling the dict it is given. */
  function DecodeProps(dt: seq<byte>, off: nat, count: nat, props: seq<(string, Value)>)
    : (r: Outcome<(seq<(string, Value)>, nat)>)
    ensures r.Ok? ==> off <= r.value.1
    decreases count
  {
    if count == 0 then Ok((props, off))
    else
      var (name, value, next) :- DecodeProp(dt, off);
      DecodeProps(dt, next, count - 1, Put(props, name, value))
  }

  function Left(dt: seq<byte>, off: nat): nat { if off <= |dt| then |dt| - off else 0 }

  function DecodeNode(dt: seq<byte>, off: nat): (r: Outcome<(Node, nat)>)
    ensures r.Ok? ==> off + 8 <= |dt| && off + 8 <= r.value.1
    decreases Left(dt, off), 0
  {
    if off + 8 > |dt| then Err(TooSmall)
    else
      var (props, next) :- DecodeProps(dt, off + 8, U32(dt, off), []);
      var (children, end) :- DecodeChildren(dt, next, U32(dt, off + 4));
      Ok((Node(props, children), end))
  }

  function DecodeChildren(dt: seq<byte>, off: nat, count: nat): (r: Outcome<(seq<Node>, nat)>)
    ensures r.Ok? ==> off <= r.value.1
    decreases Left(dt, off), count + 1
  {
    if count == 0 then Ok(([], off))
    else
      var (c, next) :- DecodeNode(dt, off);
      var (rest, end) :- DecodeChildren(dt, next, count - 1);
      Ok(([c] + rest, end))
  }

  // ---------- encoding ----------

  predicate StartsWith(s: string, prefix: string) { prefix <= s }

  /** parse_prop_entry: the length word and the padded bytes. */
  function ParseEntry(v: Value, lit: Literal): Outcome<(nat, seq<byte>)> {
    match v
    case Raw(b) => Ok((|b|, b + Zeros(Aligned(|b|) - |b|)))
    case Text(s) =>
      if StartsWith(s, U32_PREFIX) then
        match lit(s[4..])
        case None => Err(BadLiteral)
        case Some(n) => if 0 <= n < WORD_LIMIT then Ok((4, Le32(n))) else Err(PackOverflow)
      else if StartsWith(s, U64_PREFIX) then
        match lit(s[4..])
        case None => Err(BadLiteral)
        case Some(n) => if 0 <= n < WORD_LIMIT * WORD_LIMIT then Ok((8, Le64(n))) else Err(PackOverflow)
      else if s == NULL_TEXT then Ok((0, []))
      else
        var bytes := Padded(Encode(s), Aligned(|s| + 1));
        if bytes[|bytes| - 1] != 0 then Err(NotTerminated) else Ok((|s| + 1, bytes))
  }

  /** b.ljust(n, b'\x00') */
  function Padded(b: seq<byte>, n: nat): (r: seq<byte>)
    ensures |r| == if |b| < n then n else |b|
  {
    b + Zeros(if |b| < n then n - |b| else 0)
  }

  function EncodeProp(name: string, v: Value, lit: Literal): Outcome<seq<byte>> {
    if |name| >= 32 then Err(LongName)
    else
      var field := Padded(Encode(name), 32);
      if field[|field| - 1] != 0 then Err(NotTerminated)
      else
        var (length, bytes) :- ParseEntry(v, lit);
        if |bytes| % 4 != 0 then Err(Misaligned)
        else if length >= WORD_LIMIT then Err(PackOverflow)
        else if |field| % 4 != 0 then Err(Misaligned)
        else Ok(field + Le32(length) + bytes)
  }

  function EncodeProps(props: seq<(string, Value)>, lit: Literal): Outcome<seq<byte>> {
    if props == [] then Ok([])
    else
      var first :- EncodeProp(props[0].0, props[0].1, lit);
      var rest :- EncodeProps(props[1..], lit);
      Ok(first + rest)
  }

  function EncodeNode(d: Node, lit: Literal): Outcome<seq<byte>> {
    if |d.props| >= WORD_LIMIT || |d.children| >= WORD_LIMIT then Err(PackOverflow)
    else
      var props :- EncodeProps(d.props, lit);
      var children :- EncodeNodes(d.children, lit);
      Ok(Le32(|d.props|) + Le32(|d.children|) + props + children)
  }

  function EncodeNodes(ds: seq<Node>, lit: Literal): Outcome<seq<byte>> {
    if ds == [] then Ok([])
    else
      var first :- EncodeNode(ds[0], lit);
      var rest :- EncodeNodes(ds[1..], lit);
      Ok(first + rest)
  }

  /** One pass of the tool with no fix-up in between. */
  function Pass(dt: seq<byte>, lit: Literal): Outcome<seq<byte>> {
    var (d, used) :- DecodeNode(dt, 0);
    EncodeNode(d, lit)
  }
}
