/** dt_fixup's first read against the strict parser of the other codec, on every buffer both accept, and
    the readings of a value said without the codec's own terms. */
module DtFixupStrict {
  import opened Results
  import opened Bytes
  import Utf8
  import opened Utf8Text
  import opened DtFixup
  import opened DtFixupProofs
  import PP = PowerPassthrough
  import PPP = PowerPassthroughProofs

  // ---------- one record ----------

  /** The key of a strict record: its name's bytes as characters. */
  function KeyOf(p: PP.Property): string { Chars(p.name) }

  function Chars(b: seq<byte>): string {
    seq(|b|, i requires 0 <= i < |b| => b[i] as char)
  }

  /** The record with its whole padded payload. */
  function Contribution(p: PP.Property): Outcome<Value> {
    if |p.raw| < 36 || !Utf8.Valid(p.raw[..32]) then Err(NotUtf8) else DecodeValue(KeyOf(p), p.raw[36..])
  }

  lemma {:induction false} AsciiName(b: seq<byte>, n: nat)
    requires n < |b| && b[n] == 0 && forall i :: 0 <= i < n ==> 0 < b[i] < 0x80
    ensures UpToNul(DecodeReplacing(b)) == Chars(b[..n])
  {
    hide BadLength;
    assert Utf8.SequenceLength(b) == 1 && ScalarOf(b) == b[0] as int;
    assert DecodeReplacing(b) == [b[0] as char] + DecodeReplacing(b[1..]);
    assert DecodeReplacing(b)[1..] == DecodeReplacing(b[1..]);
    if n > 0 {
      AsciiName(b[1..], n - 1);
      assert Chars(b[..n]) == [b[0] as char] + Chars(b[1..][..n - 1]);
    }
  }

  /** One record: whatever its flag and length, both parsers stop at the same byte, and this one gives its
      own name and the reading of its own padded payload. */
  lemma RecordAgrees(data: seq<byte>, off: nat)
    requires PP.ParseProperty(data, off).Ok?
    ensures var (p, end) := PP.ParseProperty(data, off).value;
            DecodeProp(data, off) == match Contribution(p) case Err(e) => Err(e) case Ok(v) => Ok((KeyOf(p), v, end))
  {
    hide DecodeReplacing, Utf8.Valid, DecodeValue, U32;
    var (p, end) := PP.ParseProperty(data, off).value;
    var field := data[off..off + 32];
    assert p.raw == data[off..end] && p.raw[..32] == field && p.raw[36..] == data[off + 36..end];
    assert Clip(data, off, off + 32) == field;
    assert Clip(data, off + 36, end) == data[off + 36..end];
    StrictKey(field);
  }

  lemma StrictKey(field: seq<byte>)
    requires PP.DecodeName(field).Ok?
    ensures var name := PP.DecodeName(field).value;
            NullTerminated(field) == if Utf8.Valid(field) then Ok(Chars(name)) else Err(NotUtf8)
  {
    hide DecodeReplacing, Utf8.Valid;
    var name := PP.DecodeName(field).value;
    var n := |name|;
    assert field[..n] == name;
    forall i | 0 <= i < n ensures 0 < field[i] < 0x80 { assert field[..n][i] == field[i]; }
    AsciiName(field, n);
  }

  // ---------- the dictionary of a record list ----------

  /** The first record under a key, or the number of records. */
  function FirstOf(ps: seq<PP.Property>, key: string): (k: nat)
    ensures k <= |ps| && (k < |ps| ==> KeyOf(ps[k]) == key) && forall j :: 0 <= j < k ==> KeyOf(ps[j]) != key
  {
    if ps == [] || KeyOf(ps[0]) == key then 0 else 1 + FirstOf(ps[1..], key)
  }

  predicate IsLast(ps: seq<PP.Property>, k: nat, key: string) {
    k < |ps| && KeyOf(ps[k]) == key && forall j :: k < j < |ps| ==> KeyOf(ps[j]) != key
  }

  /** `v` is what the last record under this key contributes. */
  predicate LastGives(ps: seq<PP.Property>, key: string, v: Value) {
    exists k :: 0 <= k < |ps| && IsLast(ps, k, key) && Contribution(ps[k]) == Ok(v)
  }

  /** The dictionary the records make: one entry for each of their names, in the order of their first
      records, with the value of the last. */
  predicate DictOf(ps: seq<PP.Property>, props: seq<(string, Value)>) {
    (forall i :: 0 <= i < |props| ==> LastGives(ps, props[i].0, props[i].1))
    && (forall k :: 0 <= k < |ps| ==> exists i :: 0 <= i < |props| && props[i].0 == KeyOf(ps[k]))
    && forall i, j :: 0 <= i < j < |props| ==> FirstOf(ps, props[i].0) < FirstOf(ps, props[j].0)
  }

  /** `props[key] = value` on a dictionary without repeated keys. */
  lemma {:induction false} PutIs(props: seq<(string, Value)>, key: string, value: Value, i: nat)
    requires i <= |props| && (i < |props| ==> props[i].0 == key)
    requires forall j :: 0 <= j < i ==> props[j].0 != key
    ensures Put(props, key, value) == if i < |props| then props[i := (key, value)] else props + [(key, value)]
  {
    if i > 0 {
      PutIs(props[1..], key, value, i - 1);
      assert props == [props[0]] + props[1..];
    }
  }

  lemma {:induction false} FirstGrows(ps: seq<PP.Property>, p: PP.Property, key: string)
    ensures FirstOf(ps + [p], key) ==
              if FirstOf(ps, key) < |ps| || KeyOf(p) == key then FirstOf(ps, key) else |ps| + 1
  {
    var k := FirstOf(ps + [p], key);
    if ps != [] {
      FirstGrows(ps[1..], p, key);
      assert (ps + [p])[1..] == ps[1..] + [p];
    }
  }

  lemma LastGrows(ps: seq<PP.Property>, p: PP.Property, key: string, v: Value)
    requires if KeyOf(p) == key then Contribution(p) == Ok(v) else LastGives(ps, key, v)
    ensures LastGives(ps + [p], key, v)
  {
    hide KeyOf, Contribution;
    var all := ps + [p];
    if KeyOf(p) == key {
      assert IsLast(all, |ps|, key);
    } else {
      var k :| 0 <= k < |ps| && IsLast(ps, k, key) && Contribution(ps[k]) == Ok(v);
      assert IsLast(all, k, key);
    }
  }

  function KeyIndex(props: seq<(string, Value)>, key: string): (i: nat)
    ensures i <= |props| && (i < |props| ==> props[i].0 == key) && forall j :: 0 <= j < i ==> props[j].0 != key
  {
    if props == [] || props[0].0 == key then 0 else 1 + KeyIndex(props[1..], key)
  }

  /** One more record keeps the dictionary that of the records so far. */
  lemma DictGrows(ps: seq<PP.Property>, props: seq<(string, Value)>, p: PP.Property, v: Value)
    requires DictOf(ps, props) && Contribution(p) == Ok(v)
    ensures DictOf(ps + [p], Put(props, KeyOf(p), v))
  {
    hide KeyOf, Contribution, LastGives, FirstOf, KeyIndex, Put;
    var at := KeyIndex(props, KeyOf(p));
    var after := Put(props, KeyOf(p), v);
    PutIs(props, KeyOf(p), v, at);
    forall j | 0 <= j < |props| && j != at ensures props[j].0 != KeyOf(p) {
      OneEntry(ps, props, KeyOf(p), at, j);
    }
    forall i | 0 <= i < |after| ensures LastGives(ps + [p], after[i].0, after[i].1) {
      LastGrows(ps, p, after[i].0, after[i].1);
    }
    Covered(ps, props, p, after, at);
    Ascending(ps, props, p, after, at);
  }

  lemma OneEntry(ps: seq<PP.Property>, props: seq<(string, Value)>, key: string, i: nat, j: nat)
    requires DictOf(ps, props) && i <= |props| && j < |props| && i != j
    requires (i < |props| ==> props[i].0 == key) && forall k :: 0 <= k < i ==> props[k].0 != key
    requires i < |props| || j < i
    ensures props[j].0 != key
  {
    hide KeyOf, Contribution, LastGives, FirstOf;
  }

  lemma Covered(ps: seq<PP.Property>, props: seq<(string, Value)>, p: PP.Property, after: seq<(string, Value)>, at: nat)
    requires DictOf(ps, props) && at < |after| && |props| <= |after| && after[at].0 == KeyOf(p)
    requires forall i :: 0 <= i < |props| ==> after[i].0 == props[i].0
    ensures forall k :: 0 <= k < |ps + [p]| ==> exists i :: 0 <= i < |after| && after[i].0 == KeyOf((ps + [p])[k])
  {
    hide KeyOf, Contribution, LastGives, FirstOf;
    forall k | 0 <= k < |ps + [p]| ensures exists i :: 0 <= i < |after| && after[i].0 == KeyOf((ps + [p])[k]) {
      if k < |ps| {
        var i :| 0 <= i < |props| && props[i].0 == KeyOf(ps[k]);
        assert after[i].0 == KeyOf(ps[k]);
      }
    }
  }

  lemma Ascending(ps: seq<PP.Property>, props: seq<(string, Value)>, p: PP.Property, after: seq<(string, Value)>, at: nat)
    requires DictOf(ps, props) && at <= |props| && |after| == (if at < |props| then |props| else |props| + 1)
    requires forall i :: 0 <= i < |props| ==> after[i].0 == props[i].0
    requires at == |props| ==> after[at].0 == KeyOf(p) && forall i :: 0 <= i < |props| ==> props[i].0 != KeyOf(p)
    ensures forall i, j :: 0 <= i < j < |after| ==> FirstOf(ps + [p], after[i].0) < FirstOf(ps + [p], after[j].0)
  {
    hide KeyOf, Contribution, LastGives, FirstOf;
    forall i, j | 0 <= i < j < |after| ensures FirstOf(ps + [p], after[i].0) < FirstOf(ps + [p], after[j].0) {
      FirstGrows(ps, p, after[i].0);
      FirstGrows(ps, p, after[j].0);
      HasRecord(ps, props, i);
      if j < |props| {
        HasRecord(ps, props, j);
      } else {
        NoRecord(ps, props, KeyOf(p));
      }
    }
  }

  lemma HasRecord(ps: seq<PP.Property>, props: seq<(string, Value)>, i: nat)
    requires DictOf(ps, props) && i < |props|
    ensures FirstOf(ps, props[i].0) < |ps|
  {
    hide KeyOf, Contribution;
    var key := props[i].0;
    assert LastGives(ps, key, props[i].1);
    var k :| 0 <= k < |ps| && IsLast(ps, k, key) && Contribution(ps[k]) == Ok(props[i].1);
    assert FirstOf(ps, key) <= k;
  }

  lemma NoRecord(ps: seq<PP.Property>, props: seq<(string, Value)>, key: string)
    requires DictOf(ps, props) && forall i :: 0 <= i < |props| ==> props[i].0 != key
    ensures FirstOf(ps, key) == |ps|
  {
    hide KeyOf, Contribution, LastGives;
  }

  // ---------- whole trees ----------

  /** The tree of dictionaries of a strict tree. */
  predicate Same(n: PP.Node, d: Node) {
    DictOf(n.properties, d.props) && AllSame(n.children, d.children)
  }

  predicate AllSame(ns: seq<PP.Node>, ds: seq<Node>) {
    |ns| == |ds| && (ns == [] || (Same(ns[0], ds[0]) && AllSame(ns[1..], ds[1..])))
  }

  /** Every record's name field is UTF-8 to its end, and every value meant as text is. */
  predicate Readable(n: PP.Node) {
    AllContribute(n.properties) && AllReadable(n.children)
  }

  predicate AllContribute(ps: seq<PP.Property>) { forall i :: 0 <= i < |ps| ==> Contribution(ps[i]).Ok? }

  predicate AllReadable(ns: seq<PP.Node>) {
    ns == [] || (Readable(ns[0]) && AllReadable(ns[1..]))
  }

  lemma {:induction false} PropertiesAgree(data: seq<byte>, off: nat, count: nat, done: seq<PP.Property>,
                                           props: seq<(string, Value)>)
    requires PP.ParseProperties(data, off, count).Ok? && DictOf(done, props)
    ensures var (ps, end) := PP.ParseProperties(data, off, count).value;
            var r := DecodeProps(data, off, count, props);
            (r.Ok? <==> AllContribute(ps)) && (r.Ok? ==> r.value.1 == end && DictOf(done + ps, r.value.0))
    decreases count
  {
    hide PP.ParseProperty, DecodeProp, Contribution, KeyOf, DictOf, Put;
    if count == 0 {
      assert done + [] == done;
    } else {
      var (p, next) := PP.ParseProperty(data, off).value;
      var (rest, end) := PP.ParseProperties(data, next, count - 1).value;
      RecordAgrees(data, off);
      ContributeCons(p, rest);
      if Contribution(p).Ok? {
        var v := Contribution(p).value;
        DictGrows(done, props, p, v);
        PropertiesAgree(data, next, count - 1, done + [p], Put(props, KeyOf(p), v));
        assert done + [p] + rest == done + ([p] + rest);
      }
    }
  }

  lemma ContributeCons(p: PP.Property, rest: seq<PP.Property>)
    ensures AllContribute([p] + rest) <==> Contribution(p).Ok? && AllContribute(rest)
  {
    hide Contribution;
    if AllContribute([p] + rest) {
      assert ([p] + rest)[0] == p;
      forall i | 0 <= i < |rest| ensures Contribution(rest[i]).Ok? { assert ([p] + rest)[i + 1] == rest[i]; }
    }
  }

  /** The first read, on every buffer the strict parser accepts: it succeeds exactly when the tree is
      readable, stops at the same byte, and holds of every node the dictionary of its records. */
  lemma {:induction false} FirstReadAgrees(data: seq<byte>, off: nat)
    requires PP.ParseNode(data, off).Ok?
    ensures var (n, end) := PP.ParseNode(data, off).value;
            (DecodeNode(data, off).Ok? <==> Readable(n))
            && (DecodeNode(data, off).Ok? ==> DecodeNode(data, off).value.1 == end && Same(n, DecodeNode(data, off).value.0))
    decreases |data| - off, 0
  {
    hide PP.ParseProperties, DecodeProps, DictOf, AllContribute;
    EmptyDict();
    PropertiesAgree(data, off + 8, U32(data, off), [], []);
    var (ps, next) := PP.ParseProperties(data, off + 8, U32(data, off)).value;
    assert [] + ps == ps;
    ChildrenAgree(data, next, U32(data, off + 4));
  }

  lemma EmptyDict()
    ensures DictOf([], [])
  {
  }

  lemma {:induction false} ChildrenAgree(data: seq<byte>, off: nat, count: nat)
    requires off <= |data| && PP.ParseChildren(data, off, count).Ok?
    ensures var (ns, end) := PP.ParseChildren(data, off, count).value;
            var r := DecodeChildren(data, off, count);
            (r.Ok? <==> AllReadable(ns)) && (r.Ok? ==> r.value.1 == end && AllSame(ns, r.value.0))
    decreases |data| - off, count + 1
  {
    hide PP.ParseNode, DecodeNode, Same, Readable;
    if count > 0 {
      FirstReadAgrees(data, off);
      var (c, next) := PP.ParseNode(data, off).value;
      ChildrenAgree(data, next, count - 1);
      var (rest, end) := PP.ParseChildren(data, next, count - 1).value;
      assert ([c] + rest)[1..] == rest;
      if DecodeChildren(data, off, count).Ok? {
        var d, ds := DecodeNode(data, off).value.0, DecodeChildren(data, next, count - 1).value.0;
        assert ([d] + ds)[1..] == ds;
      }
    }
  }

  // ---------- one value ----------

  /** Bytes are UTF-8 exactly when they are some text's encoding. */
  lemma ValidIff(b: seq<byte>)
    ensures Utf8.Valid(b) <==> exists s: string :: Encode(s) == b
  {
    if Utf8.Valid(b) {
      ValidEncodes(b);
    }
    forall s: string | Encode(s) == b ensures Utf8.Valid(b) { EncodedIsValid(s); }
  }

  /** A value passes for a string exactly when it is a printable ASCII text of three characters or more,
      with any number of zeros behind it. */
  lemma ProbablyStringIff(b: seq<byte>)
    ensures ProbablyString(b) <==> exists s: string, n: nat :: PrintableText(s) && b == Encode(s) + Zeros(n)
  {
    hide Encode, FirstNul;
    if ProbablyString(b) {
      var n := FirstNul(b);
      var s := Chars(b[..n]);
      AsciiEncodes(s);
      assert PrintableText(s) && b == Encode(s) + Zeros(|b| - n);
    }
    forall s: string, n: nat | PrintableText(s) && b == Encode(s) + Zeros(n) ensures ProbablyString(b) {
      AsciiEncodes(s);
      FirstNulIs(b, |s|);
    }
  }

  /** `b`, up to its end or its first zero byte, is the encoding of this text. */
  predicate Spells(b: seq<byte>, s: string) {
    var e := Encode(s);
    NulFreeText(s) && e <= b && (|e| == |b| || b[|e|] == 0)
  }

  /** Reading text cuts it at the first zero byte. */
  lemma TextSpells(b: seq<byte>)
    requires NullTerminated(b).Ok?
    ensures Spells(b, NullTerminated(b).value)
  {
    var whole := DecodeReplacing(b);
    var s := UpToNul(whole);
    ValidEncodes(b);
    hide Encode, DecodeReplacing, Utf8.Valid, UpToNul;
    assert whole == s + whole[|s|..];
    EncodeConcat(s, whole[|s|..]);
    if |s| < |whole| { NulHead(whole[|s|..]); }
  }

  lemma NulHead(t: string)
    requires t != "" && t[0] == '\0'
    ensures |Encode(t)| > 0 && Encode(t)[0] == 0
  {
  }

  /** The value of a hexadecimal numeral. */
  function DigitValue(c: char): Option<nat> {
    if '0' <= c <= '9' then Some(c as nat - '0' as nat)
    else if 'a' <= c <= 'f' then Some(10 + c as nat - 'a' as nat)
    else None
  }

  function Numeral(s: string): Option<nat> {
    if |s| == 0 then None
    else
      var last :- DigitValue(s[|s| - 1]);
      if |s| == 1 then Some(last)
      else
        var high :- Numeral(s[..|s| - 1]);
        Some(16 * high + last)
  }

  /** hex() gives the shortest numeral of its number. */
  lemma {:induction false} HexDenotes(n: nat)
    ensures Numeral(HexDigits(n)) == Some(n)
    ensures |HexDigits(n)| > 0 && (n > 0 ==> HexDigits(n)[0] != '0')
  {
    DigitDenotes(n % 16);
    if n >= 16 {
      HexDenotes(n / 16);
      var s := HexDigits(n);
      assert s[..|s| - 1] == HexDigits(n / 16);
      assert 16 * (n / 16) + n % 16 == n;
    }
  }

  lemma DigitDenotes(d: nat)
    requires d < 16
    ensures DigitValue(HEX_DIGITS[d]) == Some(d) && (d > 0 ==> HEX_DIGITS[d] != '0')
  {
  }

  /** A number's text: its prefix, `0x`, and a shortest numeral. */
  predicate NumberText(v: Value, prefix: string, n: nat) {
    v.Text? && (prefix + "0x") <= v.s && Numeral(v.s[|prefix| + 2..]) == Some(n)
    && (n > 0 ==> v.s[|prefix| + 2] != '0')
  }

  lemma HexIsNumber(prefix: string, n: nat)
    ensures NumberText(Text(prefix + Hex(n)), prefix, n)
  {
    HexDenotes(n);
    var s := prefix + Hex(n);
    assert s[|prefix| + 2..] == HexDigits(n);
    assert s[..|prefix| + 2] == prefix + "0x";
  }

  /** What a value is read as, from its key and bytes alone. */
  lemma ValueMeans(key: string, b: seq<byte>)
    requires DecodeValue(key, b).Ok?
    ensures var v := DecodeValue(key, b).value;
            if key == "name" || ProbablyString(b) then v.Text? && Spells(b, v.s)
            else if |b| == 0 then v == Text("<NULL>")
            else if |b| == 4 then NumberText(v, "u32:", Little(b))
            else if |b| == 8 then NumberText(v, "u64:", Little(b))
            else v == Raw(b)
  {
    hide ProbablyString, NullTerminated, Spells, HexDigits, Numeral, Little;
    if key == NAME || ProbablyString(b) {
      TextSpells(b);
    } else if |b| == 4 {
      HexIsNumber(U32_PREFIX, U32(b, 0));
      LittleFour(b);
    } else if |b| == 8 {
      HexIsNumber(U64_PREFIX, U64(b, 0));
      LongsAreLittle(b, 0, 0);
      assert b[0..8] == b;
    }
  }

  /** A value is refused exactly when it is the node's name and not UTF-8. */
  lemma ValueRefusedIff(key: string, b: seq<byte>)
    ensures DecodeValue(key, b) == Err(NotUtf8) <==> key == "name" && !exists s: string :: Encode(s) == b
    ensures DecodeValue(key, b).Ok? || DecodeValue(key, b) == Err(NotUtf8)
  {
    ValidIff(b);
    hide Utf8.Valid, Encode, ProbablyString;
    if ProbablyString(b) { AsciiPrefix(b); }
  }
}
