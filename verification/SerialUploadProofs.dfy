/** Short lines, every part once, the right join, and the blob back again. */
module SerialUploadProofs {
  import opened Results
  import opened SerialUpload

  // ---------- Base64 ----------

  function Digit(c: char): Option<nat> {
    if 'A' <= c <= 'Z' then Some(c as int - 'A' as int)
    else if 'a' <= c <= 'z' then Some(c as int - 'a' as int + 26)
    else if '0' <= c <= '9' then Some(c as int - '0' as int + 52)
    else if c == '+' then Some(62)
    else if c == '/' then Some(63)
    else None
  }

  function Group(s: string): Option<seq<byte>>
    requires |s| == 4
  {
    var a :- Digit(s[0]);
    var b :- Digit(s[1]);
    if s[2] == '=' && s[3] == '=' then Some([(a * 4 + b / 16) % 256])
    else
      var c :- Digit(s[2]);
      if s[3] == '=' then Some([(a * 4 + b / 16) % 256, (b % 16 * 16 + c / 4) % 256])
      else
        var d :- Digit(s[3]);
        Some([(a * 4 + b / 16) % 256, (b % 16 * 16 + c / 4) % 256, (c % 4 * 64 + d) % 256])
  }

  /** base64 -d, four characters at a time. */
  function Decode(s: string): Option<seq<byte>> {
    if s == "" then Some([])
    else if |s| < 4 then None
    else
      var first :- Group(s[..4]);
      var rest :- Decode(s[4..]);
      Some(first + rest)
  }

  lemma SymbolDigit(n: nat)
    requires n < 64
    ensures Digit(Symbol(n)) == Some(n) && Symbol(n) != '='
  {
  }

  function First(p: nat, q: nat): int { (p * 4 + q / 16) % 256 }
  function Second(q: nat, r: nat): int { (q % 16 * 16 + r / 4) % 256 }
  function Third(r: nat, t: nat): int { (r % 4 * 64 + t) % 256 }

  lemma GroupOf(p: nat, q: nat, r: nat, t: nat)
    requires p < 64 && q < 64 && r < 64 && t < 64
    ensures Group([Symbol(p), Symbol(q), Symbol(r), Symbol(t)]) == Some([First(p, q), Second(q, r), Third(r, t)])
    ensures Group([Symbol(p), Symbol(q), Symbol(r), '=']) == Some([First(p, q), Second(q, r)])
    ensures Group([Symbol(p), Symbol(q), '=', '=']) == Some([First(p, q)])
  {
    hide Digit, Symbol;
    SymbolDigit(p);
    SymbolDigit(q);
    SymbolDigit(r);
    SymbolDigit(t);
  }

  lemma FirstByte(x: byte, y: byte)
    ensures x / 4 < 64 && x % 4 * 16 + y / 16 < 64 && First(x / 4, x % 4 * 16 + y / 16) == x
  {
    assert (x % 4 * 16 + y / 16) / 16 == x % 4;
  }

  lemma SecondByte(x: byte, y: byte, z: byte)
    ensures y % 16 * 4 + z / 64 < 64 && Second(x % 4 * 16 + y / 16, y % 16 * 4 + z / 64) == y
  {
    assert (x % 4 * 16 + y / 16) % 16 == y / 16;
    assert (y % 16 * 4 + z / 64) / 4 == y % 16;
  }

  lemma ThirdByte(y: byte, z: byte)
    ensures Third(y % 16 * 4 + z / 64, z % 64) == z
  {
    assert (y % 16 * 4 + z / 64) % 4 == z / 64;
  }

  lemma WholeGroup(x: byte, y: byte, z: byte)
    ensures Group([Symbol(x / 4), Symbol(x % 4 * 16 + y / 16), Symbol(y % 16 * 4 + z / 64), Symbol(z % 64)]) == Some([x, y, z])
  {
    hide Group, Symbol, First, Second, Third;
    FirstByte(x, y);
    SecondByte(x, y, z);
    ThirdByte(y, z);
    GroupOf(x / 4, x % 4 * 16 + y / 16, y % 16 * 4 + z / 64, z % 64);
  }

  lemma TwoGroup(x: byte, y: byte)
    ensures Group([Symbol(x / 4), Symbol(x % 4 * 16 + y / 16), Symbol(y % 16 * 4), '=']) == Some([x, y])
  {
    hide Group, Symbol, First, Second, Third;
    FirstByte(x, y);
    SecondByte(x, y, 0);
    GroupOf(x / 4, x % 4 * 16 + y / 16, y % 16 * 4, 0);
  }

  lemma OneGroup(x: byte)
    ensures Group([Symbol(x / 4), Symbol(x % 4 * 16), '=', '=']) == Some([x])
  {
    hide Group, Symbol, First, Second, Third;
    FirstByte(x, 0);
    GroupOf(x / 4, x % 4 * 16, 0, 0);
  }

  lemma {:induction false} Base64RoundTrip(b: seq<byte>)
    ensures Decode(Encode(b)) == Some(b) && |Encode(b)| % 4 == 0 && (b != [] <==> Encode(b) != "")
  {
    hide Symbol, Group, Encode, Decode;
    if |b| < 3 {
      ShortGroup(b);
    } else {
      Base64RoundTrip(b[3..]);
      GroupAndRest(b);
    }
  }

  lemma ShortGroup(b: seq<byte>)
    requires |b| < 3
    ensures Decode(Encode(b)) == Some(b) && |Encode(b)| == if b == [] then 0 else 4
  {
    hide Symbol, Group;
    if |b| == 1 {
      OneGroup(b[0]);
      assert b == [b[0]];
      DecodeLast(Encode(b), b);
    } else if |b| == 2 {
      TwoGroup(b[0], b[1]);
      assert b == [b[0], b[1]];
      DecodeLast(Encode(b), b);
    }
  }

  lemma DecodeLast(s: string, b: seq<byte>)
    requires |s| == 4 && Group(s) == Some(b)
    ensures Decode(s) == Some(b)
  {
    hide Group;
    assert s[..4] == s && s[4..] == "" && b + [] == b;
  }

  lemma GroupAndRest(b: seq<byte>)
    requires |b| >= 3 && Decode(Encode(b[3..])) == Some(b[3..])
    ensures Decode(Encode(b)) == Some(b) && |Encode(b)| == 4 + |Encode(b[3..])|
  {
    hide Symbol, Group;
    var s, rest := Encode(b), Encode(b[3..]);
    WholeGroup(b[0], b[1], b[2]);
    var head := [Symbol(b[0] / 4), Symbol(b[0] % 4 * 16 + b[1] / 16), Symbol(b[1] % 16 * 4 + b[2] / 64), Symbol(b[2] % 64)];
    assert s == head + rest;
    DecodeGroup(head, rest);
    assert b == [b[0], b[1], b[2]] + b[3..];
  }

  lemma DecodeGroup(head: string, rest: string)
    requires |head| == 4 && Group(head).Some? && Decode(rest).Some?
    ensures Decode(head + rest) == Some(Group(head).value + Decode(rest).value)
  {
    hide Group;
    assert (head + rest)[..4] == head && (head + rest)[4..] == rest;
  }

  // ---------- pieces ----------

  function Joined(pieces: seq<string>): string {
    if pieces == [] then "" else pieces[0] + Joined(pieces[1..])
  }

  lemma {:induction false} PiecesLaws(text: string, n: nat)
    requires n > 0
    ensures Joined(Pieces(text, n)) == text
    ensures forall i :: 0 <= i < |Pieces(text, n)| ==> 0 < |Pieces(text, n)[i]| <= n
    ensures n % 4 == 0 && |text| % 4 == 0 ==> forall i :: 0 <= i < |Pieces(text, n)| ==> |Pieces(text, n)[i]| % 4 == 0
    decreases |text|
  {
    if text == "" {
    } else if |text| <= n {
      var one := [text];
      assert Pieces(text, n) == one && one[1..] == [] && Joined([]) == "";
    } else {
      PiecesLaws(text[n..], n);
      var rest := Pieces(text[n..], n);
      assert |text[n..]| == |text| - n;
      JoinedCons(text[..n], rest);
      assert text == text[..n] + text[n..];
    }
  }

  lemma JoinedCons(first: string, rest: seq<string>)
    ensures Joined([first] + rest) == first + Joined(rest)
  {
    assert ([first] + rest)[1..] == rest;
  }

  // ---------- names ----------

  function Pow10(n: nat): (p: nat)
    ensures p > 0
  {
    if n == 0 then 1 else 10 * Pow10(n - 1)
  }

  lemma {:induction false} DecimalLength(n: nat, w: nat)
    requires w > 0
    ensures |Decimal(n)| <= w <==> n < Pow10(w)
  {
    if n >= 10 && w > 1 {
      DecimalLength(n / 10, w - 1);
    }
  }

  lemma Million()
    ensures Pow10(6) == 1000000
  {
    assert Pow10(3) == 1000;
    assert Pow10(4) == 10000;
    assert Pow10(5) == 100000;
  }

  /** The last `w` decimal digits. */
  function Fixed(n: nat, w: nat): (s: string)
    ensures |s| == w
  {
    if w == 0 then "" else Fixed(n / 10, w - 1) + [('0' as int + n % 10) as char]
  }

  lemma {:induction false} FixedZero(w: nat)
    ensures Fixed(0, w) == Zeros(w)
  {
    if w > 0 {
      FixedZero(w - 1);
    }
  }

  lemma {:induction false} FixedIsPadded(n: nat, w: nat)
    requires |Decimal(n)| <= w
    ensures Fixed(n, w) == Zeros(w - |Decimal(n)|) + Decimal(n)
  {
    if n < 10 {
      FixedZero(w - 1);
    } else {
      FixedIsPadded(n / 10, w - 1);
    }
  }

  lemma SixDigitsIsFixed(n: nat)
    requires n <= 999999
    ensures SixDigits(n) == Fixed(n, 6)
  {
    hide Decimal, Fixed;
    Million();
    DecimalLength(n, 6);
    FixedIsPadded(n, 6);
  }

  /** String order, character by character. */
  predicate Less(a: string, b: string) {
    if a == "" then b != ""
    else b != "" && (a[0] < b[0] || (a[0] == b[0] && Less(a[1..], b[1..])))
  }

  lemma {:induction false} LessAppend(a: string, b: string, x: char, y: char)
    requires |a| == |b|
    ensures Less(a + [x], b + [y]) <==> Less(a, b) || (a == b && x < y)
  {
    if a != "" {
      assert (a + [x])[1..] == a[1..] + [x] && (b + [y])[1..] == b[1..] + [y];
      LessAppend(a[1..], b[1..], x, y);
      assert a == [a[0]] + a[1..] && b == [b[0]] + b[1..];
    }
  }

  lemma {:induction false} LessPrefix(p: string, a: string, b: string)
    ensures Less(p + a, p + b) <==> Less(a, b)
  {
    if p == "" {
      assert p + a == a && p + b == b;
    } else {
      assert (p + a)[1..] == p[1..] + a && (p + b)[1..] == p[1..] + b;
      LessPrefix(p[1..], a, b);
    }
  }

  lemma {:induction false} LessIsAsymmetric(a: string, b: string)
    ensures !(Less(a, b) && Less(b, a)) && !Less(a, a)
  {
    if a != "" && b != "" {
      LessIsAsymmetric(a[1..], b[1..]);
    } else if a != "" {
      LessIsAsymmetric(a[1..], a[1..]);
    }
  }

  lemma SameAppend(a: string, b: string, x: char, y: char)
    ensures a + [x] == b + [y] <==> a == b && x == y
  {
    if a + [x] == b + [y] {
      assert (a + [x])[|a|] == (b + [y])[|b|] && (a + [x])[..|a|] == (b + [y])[..|b|];
    }
  }

  lemma {:induction false} FixedAscends(i: nat, j: nat, w: nat)
    requires i < Pow10(w) && j < Pow10(w)
    ensures Less(Fixed(i, w), Fixed(j, w)) <==> i < j
    ensures Fixed(i, w) == Fixed(j, w) <==> i == j
    decreases w
  {
    if w > 0 {
      FixedAscends(i / 10, j / 10, w - 1);
      SameAppend(Fixed(i / 10, w - 1), Fixed(j / 10, w - 1), ('0' as int + i % 10) as char, ('0' as int + j % 10) as char);
      LessAppend(Fixed(i / 10, w - 1), Fixed(j / 10, w - 1), ('0' as int + i % 10) as char, ('0' as int + j % 10) as char);
    }
  }

  /** Within a million, names sort as their numbers do. */
  lemma PartPathsAscend(dir: string, i: nat, j: nat)
    requires i < j <= 999999
    ensures Less(PartPath(dir, i), PartPath(dir, j))
  {
    hide SixDigits, Fixed, Less;
    Million();
    SixDigitsIsFixed(i);
    SixDigitsIsFixed(j);
    FixedAscends(i, j, 6);
    LessPrefix(dir + "/", SixDigits(i), SixDigits(j));
  }

  predicate Ascending(names: seq<string>) {
    forall i, j :: 0 <= i < j < |names| ==> Less(names[i], names[j])
  }

  function Paths(parts: seq<Part>): (names: seq<string>)
    ensures |names| == |parts| && forall i :: 0 <= i < |parts| ==> names[i] == parts[i].path
  {
    if parts == [] then [] else [parts[0].path] + Paths(parts[1..])
  }

  /** The part names are in string order if and only if there are at most 999999 of them. */
  lemma NamesAscendIff(dir: string, pieces: seq<string>)
    ensures Ascending(Paths(Parts(dir, pieces, 1))) <==> |pieces| <= 999999
  {
    hide PartPath, Less, Paths, Parts;
    var names := Paths(Parts(dir, pieces, 1));
    if |pieces| <= 999999 {
      forall i, j | 0 <= i < j < |names|
        ensures Less(names[i], names[j])
      {
        PartPathsAscend(dir, 1 + i, 1 + j);
      }
    } else {
      assert names[999998] == PartPath(dir, 999999) && names[999999] == PartPath(dir, 1000000);
      MillionthComesEarly(dir);
    }
  }

  lemma MillionthComesEarly(dir: string)
    ensures !Less(PartPath(dir, 999999), PartPath(dir, 1000000))
  {
    hide SixDigits, Decimal, Fixed;
    SixDigitsIsFixed(999999);
    LessPrefix(dir + "/", SixDigits(999999), SixDigits(1000000));
    Leading(999999, 99999, 5);
    Leading(99999, 9999, 4);
    Leading(9999, 999, 3);
    Leading(999, 99, 2);
    Leading(99, 9, 1);
    Leading(9, 0, 0);
    SixDigitsOfMillion();
  }

  lemma Leading(n: nat, q: nat, w: nat)
    requires n / 10 == q
    ensures Fixed(n, w + 1) == Fixed(q, w) + [('0' as int + n % 10) as char]
    ensures w > 0 ==> Fixed(n, w + 1)[0] == Fixed(q, w)[0]
  {
  }

  lemma SixDigitsOfMillion()
    ensures SixDigits(1000000)[0] == '1'
  {
    Decimals(1000000);
    Decimals(100000);
    Decimals(10000);
    Decimals(1000);
    Decimals(100);
    Decimals(10);
    assert Decimal(1) == "1";
  }

  lemma Decimals(n: nat)
    requires n >= 10
    ensures Decimal(n) == Decimal(n / 10) + [('0' as int + n % 10) as char]
  {
  }
}
