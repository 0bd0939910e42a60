/** Byte strings, little-endian words and the "this piece lies at this offset" relation. */
module Bytes {

  type byte = x: int | 0 <= x < 256

  const WORD_LIMIT := 0x1_0000_0000
  const FLAG_BIT := 0x8000_0000

  /** struct.pack("<I", n) */
  function Le32(n: nat): (b: seq<byte>)
    requires n < WORD_LIMIT
    ensures |b| == 4
  {
    [n % 0x100, n / 0x100 % 0x100, n / 0x1_0000 % 0x100, n / 0x100_0000]
  }

  function Word(a: int, b: int, c: int, d: int): int {
    a + 0x100 * b + 0x1_0000 * c + 0x100_0000 * d
  }

  /** struct.unpack_from("<I", b, off) */
  function U32(b: seq<byte>, off: nat): (n: nat)
    requires off + 4 <= |b|
    ensures n < WORD_LIMIT
  {
    Word(b[off], b[off + 1], b[off + 2], b[off + 3])
  }

  /** The number whose digits to the base 256 these bytes are, the least first. */
  function Little(b: seq<byte>): nat {
    if b == [] then 0 else b[0] as nat + 0x100 * Little(b[1..])
  }

  lemma LittleFour(b: seq<byte>)
    requires |b| == 4
    ensures Little(b) == Word(b[0], b[1], b[2], b[3])
  {
    var b1, b2, b3 := b[1..], b[2..], b[3..];
    assert b1[1..] == b2 && b2[1..] == b3 && b3[1..] == [];
    assert Little(b3) == b[3];
    assert Little(b2) == b[2] as int + 0x100 * (b[3] as int);
    assert Little(b1) == b[1] as int + 0x100 * (b[2] as int + 0x100 * (b[3] as int));
  }

  /** Reading a word reads that number, and packing one gives its four bytes. */
  lemma WordsAreLittle(b: seq<byte>, off: nat, n: nat)
    requires off + 4 <= |b| && n < WORD_LIMIT
    ensures U32(b, off) == Little(b[off..off + 4]) && Little(Le32(n)) == n
  {
    hide Little, Word;
    LittleFour(b[off..off + 4]);
    LittleFour(Le32(n));
    WordDigits(n);
  }

  lemma {:induction false} LittleConcat(a: seq<byte>, b: seq<byte>)
    requires |a| == 4
    ensures Little(a + b) == Little(a) + WORD_LIMIT * Little(b)
  {
    LittleFour(a);
    var ab := a + b;
    assert ab[1..][1..][1..][1..] == b;
    assert ab[1..][0] == a[1] && ab[1..][1..][0] == a[2] && ab[1..][1..][1..][0] == a[3];
    assert Little(ab[1..][1..][1..]) == a[3] as int + 0x100 * Little(b);
    assert Little(ab[1..][1..]) == a[2] as int + 0x100 * (a[3] as int + 0x100 * Little(b));
    assert Little(ab[1..]) == a[1] as int + 0x100 * (a[2] as int + 0x100 * (a[3] as int + 0x100 * Little(b)));
  }

  /** struct.unpack_from("<Q", b, off) */
  function U64(b: seq<byte>, off: nat): nat
    requires off + 8 <= |b|
  {
    U32(b, off) + WORD_LIMIT * U32(b, off + 4)
  }

  /** struct.pack("<Q", n) */
  function Le64(n: nat): (b: seq<byte>)
    requires n < WORD_LIMIT * WORD_LIMIT
    ensures |b| == 8
  {
    Le32(n % WORD_LIMIT) + Le32(n / WORD_LIMIT)
  }

  lemma LongsAreLittle(b: seq<byte>, off: nat, n: nat)
    requires off + 8 <= |b| && n < WORD_LIMIT * WORD_LIMIT
    ensures U64(b, off) == Little(b[off..off + 8]) && Little(Le64(n)) == n
  {
    hide Little, U32, Le32;
    WordsAreLittle(b, off, n % WORD_LIMIT);
    WordsAreLittle(b, off + 4, n / WORD_LIMIT);
    LittleConcat(b[off..off + 4], b[off + 4..off + 8]);
    LittleConcat(Le32(n % WORD_LIMIT), Le32(n / WORD_LIMIT));
    assert b[off..off + 8] == b[off..off + 4] + b[off + 4..off + 8];
  }

  /** (value + 3) & ~3 */
  function Aligned(value: nat): (r: nat)
    ensures value <= r < value + 4 && r % 4 == 0
  {
    (value + 3) / 4 * 4
  }

  function Zeros(n: nat): (b: seq<byte>)
    ensures |b| == n && forall i :: 0 <= i < n ==> b[i] == 0
  {
    seq(n, _ => 0)
  }

  predicate At(data: seq<byte>, off: nat, piece: seq<byte>) {
    off + |piece| <= |data| && data[off..off + |piece|] == piece
  }

  lemma AtConcat(data: seq<byte>, off: nat, a: seq<byte>, b: seq<byte>)
    ensures At(data, off, a + b) <==> At(data, off, a) && At(data, off + |a|, b)
  {
    if off + |a| + |b| <= |data| {
      var whole := data[off..off + |a + b|];
      assert whole[..|a|] == data[off..off + |a|];
      assert whole[|a|..] == data[off + |a|..off + |a| + |b|];
      assert (a + b)[..|a|] == a && (a + b)[|a|..] == b;
      assert whole == whole[..|a|] + whole[|a|..];
    }
  }

  lemma AtSplice(pre: seq<byte>, piece: seq<byte>, post: seq<byte>)
    ensures At(pre + piece + post, |pre|, piece)
  {
  }

  lemma U32At(data: seq<byte>, off: nat, n: nat)
    requires n < WORD_LIMIT && At(data, off, Le32(n))
    ensures U32(data, off) == n
  {
    hide Word;
    WordDigits(n);
    var b := data[off..off + 4];
    assert b[0] == data[off] && b[1] == data[off + 1] && b[2] == data[off + 2] && b[3] == data[off + 3];
  }

  lemma WordDigits(n: nat)
    ensures n == Word(n % 0x100, n / 0x100 % 0x100, n / 0x1_0000 % 0x100, n / 0x100_0000)
  {
    assert n / 0x1_0000 == n / 0x100 / 0x100;
    assert n / 0x100_0000 == n / 0x1_0000 / 0x100;
  }

  lemma Le32At(data: seq<byte>, off: nat)
    requires off + 4 <= |data|
    ensures At(data, off, Le32(U32(data, off)))
  {
    WordBytes(data[off], data[off + 1], data[off + 2], data[off + 3]);
    assert data[off..off + 4] == [data[off], data[off + 1], data[off + 2], data[off + 3]];
  }

  lemma WordBytes(a: byte, b: byte, c: byte, d: byte)
    ensures Le32(Word(a, b, c, d)) == [a, b, c, d]
  {
    var n := Word(a, b, c, d);
    LowByte(a, b + 0x100 * c + 0x1_0000 * d);
    LowByte(b, c + 0x100 * d);
    LowByte(c, d);
    assert n / 0x1_0000 == n / 0x100 / 0x100 && n / 0x100_0000 == n / 0x1_0000 / 0x100;
  }

  lemma LowByte(a: byte, rest: nat)
    ensures (a + 0x100 * rest) / 0x100 == rest && (a + 0x100 * rest) % 0x100 == a
  {
  }

  lemma SliceOfSlice(s: seq<byte>, a: nat, b: nat, c: nat, d: nat)
    requires a <= b <= |s| && c <= d <= b - a
    ensures s[a..b][c..d] == s[a + c..a + d]
  {
    var inner, whole := s[a..b][c..d], s[a + c..a + d];
    forall i | 0 <= i < d - c
      ensures inner[i] == whole[i]
    {
      assert s[a..b][c + i] == s[a + (c + i)];
    }
  }
}
