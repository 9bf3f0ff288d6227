/**
 * The message digest of RFC 1321, section 3: padding, the block function and the digest.
 * Bytes and 32-bit words are integers; the block function works on bit-vectors inside.
 */
module Md5Spec {
  import opened SeqFacts

  type byte = x: int | 0 <= x < 0x100
  type ulong = x: int | 0 <= x < 0x1_0000_0000

  datatype State = State(a: ulong, b: ulong, c: ulong, d: ulong)

  const INIT := State(0x67452301, 0xefcdab89, 0x98badcfe, 0x10325476)

  // ---- Words and bytes, low-order byte first ----

  function EncodeWord(w: ulong): (bytes: seq<byte>)
    ensures |bytes| == 4
  {
    var b0: byte, b1: byte, b2: byte, b3: byte :=
      w % 0x100, w / 0x100 % 0x100, w / 0x1_0000 % 0x100, w / 0x100_0000 % 0x100;
    [b0, b1, b2, b3]
  }

  function DecodeWord(b0: byte, b1: byte, b2: byte, b3: byte): ulong {
    b0 + 0x100 * b1 + 0x1_0000 * b2 + 0x100_0000 * b3
  }

  lemma ByteSum(w: ulong)
    ensures w % 0x100 + 0x100 * (w / 0x100 % 0x100) + 0x1_0000 * (w / 0x1_0000 % 0x100) + 0x100_0000 * (w / 0x100_0000 % 0x100) == w
  {
    var q1 := w / 0x100;
    var q2 := q1 / 0x100;
    var q3 := q2 / 0x100;
    DivideTwice(w, 0x100);
    DivideTwice(w, 0x1_0000);
    assert q3 % 0x100 == q3;
  }

  lemma DivideTwice(w: nat, d: nat)
    requires d == 0x100 || d == 0x1_0000
    ensures w / d / 0x100 == w / (0x100 * d)
  {
  }

  lemma DecodeEncodeWord(w: ulong)
    ensures var e := EncodeWord(w); DecodeWord(e[0], e[1], e[2], e[3]) == w
  {
    ByteSum(w);
  }

  function EncodeState(s: State): (bytes: seq<byte>)
    ensures |bytes| == 16
  {
    EncodeWord(s.a) + EncodeWord(s.b) + EncodeWord(s.c) + EncodeWord(s.d)
  }

  // ---- The block function (section 3.4) ----

  // Four operations to a row.
  const SINES: seq<seq<bv32>> := [
    [0xd76aa478, 0xe8c7b756, 0x242070db, 0xc1bdceee], [0xf57c0faf, 0x4787c62a, 0xa8304613, 0xfd469501],
    [0x698098d8, 0x8b44f7af, 0xffff5bb1, 0x895cd7be], [0x6b901122, 0xfd987193, 0xa679438e, 0x49b40821],
    [0xf61e2562, 0xc040b340, 0x265e5a51, 0xe9b6c7aa], [0xd62f105d, 0x02441453, 0xd8a1e681, 0xe7d3fbc8],
    [0x21e1cde6, 0xc33707d6, 0xf4d50d87, 0x455a14ed], [0xa9e3e905, 0xfcefa3f8, 0x676f02d9, 0x8d2a4c8a],
    [0xfffa3942, 0x8771f681, 0x6d9d6122, 0xfde5380c], [0xa4beea44, 0x4bdecfa9, 0xf6bb4b60, 0xbebfbc70],
    [0x289b7ec6, 0xeaa127fa, 0xd4ef3085, 0x04881d05], [0xd9d4d039, 0xe6db99e5, 0x1fa27cf8, 0xc4ac5665],
    [0xf4292244, 0x432aff97, 0xab9423a7, 0xfc93a039], [0x655b59c3, 0x8f0ccc92, 0xffeff47d, 0x85845dd1],
    [0x6fa87e4f, 0xfe2ce6e0, 0xa3014314, 0x4e0811a1], [0xf7537e82, 0xbd3af235, 0x2ad7d2bb, 0xeb86d391]]
  const ORDER: seq<seq<nat>> := [
    [0, 1, 2, 3], [4, 5, 6, 7], [8, 9, 10, 11], [12, 13, 14, 15],
    [1, 6, 11, 0], [5, 10, 15, 4], [9, 14, 3, 8], [13, 2, 7, 12],
    [5, 8, 11, 14], [1, 4, 7, 10], [13, 0, 3, 6], [9, 12, 15, 2],
    [0, 7, 14, 5], [12, 3, 10, 1], [8, 15, 6, 13], [4, 11, 2, 9]]
  // The same four amounts all through a round.
  const SHIFTS: seq<seq<nat>> := [[7, 12, 17, 22], [5, 9, 14, 20], [4, 11, 16, 23], [6, 10, 15, 21]]

  function Sine(i: nat): bv32
    requires i < 64
  {
    SINES[i / 4][i % 4]
  }

  function Word(i: nat): (k: nat)
    requires i < 64
    ensures k < 16
  {
    ORDER[i / 4][i % 4]
  }

  function Shift(i: nat): (n: nat)
    requires i < 64
    ensures n < 32
  {
    SHIFTS[i / 16][i % 4]
  }

  function Mix(i: nat, x: bv32, y: bv32, z: bv32): bv32 {
    if i < 16 then (x & y) | (!x & z)
    else if i < 32 then (x & z) | (y & !z)
    else if i < 48 then x ^ y ^ z
    else y ^ (x | !z)
  }

  function RotateLeft(x: bv32, n: nat): bv32
    requires n <= 32
  {
    (x << n) | (x >> (32 - n))
  }

  // a = b + ((a + F(b, c, d) + X[k] + T[i]) <<< s), with the function of operation i's round.
  function Update(i: nat, a: bv32, b: bv32, c: bv32, d: bv32, word: bv32, sine: bv32, shift: nat): bv32
    requires shift < 32
  {
    RotateLeft(a + Mix(i, b, c, d) + word + sine, shift) + b
  }

  // Operation i on the register a.
  function Operation(i: nat, a: bv32, b: bv32, c: bv32, d: bv32, x: seq<bv32>): bv32
    requires i < 64 && |x| == 16
  {
    Update(i, a, b, c, d, x[Word(i)], Sine(i), Shift(i))
  }

  // Operations i to 63; the registers change roles after each one.
  function Rounds(i: nat, a: bv32, b: bv32, c: bv32, d: bv32, x: seq<bv32>): (bv32, bv32, bv32, bv32)
    requires i <= 64 && |x| == 16
    decreases 64 - i
  {
    if i == 64 then (a, b, c, d) else Rounds(i + 1, d, Operation(i, a, b, c, d, x), b, c, x)
  }

  // Four operations in place bring every register back to its role.
  lemma FourOperations(i: nat, a: bv32, b: bv32, c: bv32, d: bv32, x: seq<bv32>)
    requires i + 4 <= 64 && |x| == 16
    ensures var a' := Operation(i, a, b, c, d, x);
      var d' := Operation(i + 1, d, a', b, c, x);
      var c' := Operation(i + 2, c, d', a', b, x);
      var b' := Operation(i + 3, b, c', d', a', x);
      Rounds(i, a, b, c, d, x) == Rounds(i + 4, a', b', c', d', x)
  {
    hide Operation;
    var a' := Operation(i, a, b, c, d, x);
    var d' := Operation(i + 1, d, a', b, c, x);
    var c' := Operation(i + 2, c, d', a', b, x);
    var b' := Operation(i + 3, b, c', d', a', x);
    assert Rounds(i, a, b, c, d, x) == Rounds(i + 1, d, a', b, c, x);
    assert Rounds(i + 1, d, a', b, c, x) == Rounds(i + 2, c, d', a', b, x);
    assert Rounds(i + 2, c, d', a', b, x) == Rounds(i + 3, b, c', d', a', x);
    assert Rounds(i + 3, b, c', d', a', x) == Rounds(i + 4, a', b', c', d', x);
  }

  function Register(w: ulong): bv32 {
    w as bv32
  }

  function BlockWords(block: seq<byte>): (x: seq<bv32>)
    requires |block| == 64
    ensures |x| == 16
  {
    seq(16, i requires 0 <= i < 16 => Register(DecodeWord(block[4 * i], block[4 * i + 1], block[4 * i + 2], block[4 * i + 3])))
  }

  // `_state[j] += r`, modulo 2^32.
  function AddWord(w: ulong, r: bv32): ulong {
    (w as bv32 + r) as int
  }

  function Compress(s: State, block: seq<byte>): State
    requires |block| == 64
  {
    var r := Rounds(0, Register(s.a), Register(s.b), Register(s.c), Register(s.d), BlockWords(block));
    State(AddWord(s.a, r.0), AddWord(s.b, r.1), AddWord(s.c, r.2), AddWord(s.d, r.3))
  }

  // The block function over consecutive blocks; used on whole blocks only.
  function Fold(s: State, bytes: seq<byte>): State
    decreases |bytes|
  {
    if |bytes| < 64 then s
    else Compress(Fold(s, bytes[..|bytes| - 64]), bytes[|bytes| - 64..])
  }

  lemma FoldBlock(s: State, bytes: seq<byte>, block: seq<byte>)
    requires |bytes| % 64 == 0 && |block| == 64
    ensures Fold(s, bytes + block) == Compress(Fold(s, bytes), block)
  {
    hide Compress;
    AppendParts(bytes, block);
  }

  // ---- Padding (sections 3.1 and 3.2) ----

  // The number of bytes from 0x80 to the length field.
  function PadLength(n: nat): (k: nat)
    ensures 1 <= k <= 64 && (n + k) % 64 == 56 && (n + k + 8) % 64 == 0
  {
    if n % 64 < 56 then 56 - n % 64 else 120 - n % 64
  }

  function Padding(k: nat): seq<byte>
    requires k > 0
  {
    [0x80] + Repeat<byte>(0, k - 1)
  }

  // The message length in bits modulo 2^64, low-order word first.
  function LengthBytes(n: nat): (b: seq<byte>)
    ensures |b| == 8
  {
    EncodeWord(8 * n % 0x1_0000_0000) + EncodeWord(8 * n / 0x1_0000_0000 % 0x1_0000_0000)
  }

  function Padded(m: seq<byte>): (p: seq<byte>)
    ensures |p| % 64 == 0
  {
    var k := PadLength(|m|);
    assert |Padding(k)| == k;
    m + Padding(k) + LengthBytes(|m|)
  }

  function Digest(m: seq<byte>): seq<byte> {
    EncodeState(Fold(INIT, Padded(m)))
  }

  // ---- Messages as whole blocks and a tail ----

  function Whole(m: seq<byte>): (w: seq<byte>)
    ensures |w| % 64 == 0
  {
    m[..|m| - |m| % 64]
  }

  function Tail(m: seq<byte>): (t: seq<byte>)
    ensures |t| == |m| % 64
  {
    m[|m| - |m| % 64..]
  }

  // Message bytes that complete blocks: the whole blocks of m, its tail and what follows.
  lemma WholeThenTail(m: seq<byte>)
    ensures m == Whole(m) + Tail(m)
  {
  }

  lemma ShortAppend(m: seq<byte>, input: seq<byte>)
    requires |m| % 64 + |input| < 64
    ensures Whole(m + input) == Whole(m) && Tail(m + input) == Tail(m) + input
  {
    ShortModulo(|m|, |input|);
  }

  lemma ShortModulo(n: nat, k: nat)
    requires n % 64 + k < 64
    ensures (n + k) % 64 == n % 64 + k
  {
  }

  // Reading position i of the input, at which m ++ input[..i] is whole blocks.
  lemma LongAppend(m: seq<byte>, input: seq<byte>, i: nat)
    requires i <= |input| < i + 64 && (|m| + i) % 64 == 0
    ensures Whole(m + input) == m + input[..i] && Tail(m + input) == input[i..]
  {
    ShortModulo(|m| + i, |input| - i);
    assert |m + input| % 64 == |input| - i;
  }

  // ---- The two-word bit counter ----

  lemma Quotient32(x: nat, q: nat, r: nat)
    requires x == 0x1_0000_0000 * q + r && r < 0x1_0000_0000
    ensures x / 0x1_0000_0000 == q && x % 0x1_0000_0000 == r
  {
  }

  lemma ModSum32(a: nat, b: nat)
    ensures (a % 0x1_0000_0000 + b) % 0x1_0000_0000 == (a + b) % 0x1_0000_0000
  {
    var q := a / 0x1_0000_0000;
    var q' := (a % 0x1_0000_0000 + b) / 0x1_0000_0000;
    Quotient32(a + b, q + q', (a % 0x1_0000_0000 + b) % 0x1_0000_0000);
  }

  lemma CountAdds(n: nat, length: nat)
    requires length < 0x1_0000_0000
    ensures var low := 8 * n % 0x1_0000_0000; var high := 8 * n / 0x1_0000_0000 % 0x1_0000_0000;
      var shifted := 8 * length % 0x1_0000_0000;
      var low' := (low + shifted) % 0x1_0000_0000;
      var carried := if low' < shifted then (high + 1) % 0x1_0000_0000 else high;
      && low' == 8 * (n + length) % 0x1_0000_0000
      && (carried + length / 0x2000_0000) % 0x1_0000_0000 == 8 * (n + length) / 0x1_0000_0000 % 0x1_0000_0000
  {
    var q, r := 8 * n / 0x1_0000_0000, 8 * n % 0x1_0000_0000;
    var q', r' := length / 0x2000_0000, 8 * length % 0x1_0000_0000;
    Quotient32(8 * length, q', 8 * (length % 0x2000_0000));
    if r + r' < 0x1_0000_0000 {
      Quotient32(8 * (n + length), q + q', r + r');
      ModSum32(q, q');
    } else {
      Quotient32(r + r', 1, r + r' - 0x1_0000_0000);
      Quotient32(8 * (n + length), q + q' + 1, r + r' - 0x1_0000_0000);
      ModSum32(q, 1);
      ModSum32(q + 1, q');
    }
  }

  // `(_count[0] >> 3) & 0x3f` is the fill of the buffer although the counter has wrapped.
  lemma CountIndex(n: nat)
    ensures 8 * n % 0x1_0000_0000 / 8 % 64 == n % 64
  {
    var q, r := n / 0x2000_0000, n % 0x2000_0000;
    Quotient32(8 * n, q, 8 * r);
    assert n == 64 * (0x80_0000 * q) + r;
  }

  // ---- What update leaves in the buffer ----

  function Overlay(buf: seq<byte>, index: nat, src: seq<byte>): (b: seq<byte>)
    requires |buf| == 64 && index + |src| <= 64
    ensures |b| == 64
  {
    buf[..index] + src + buf[index + |src|..]
  }

  function BufferAfter(buf: seq<byte>, index: nat, input: seq<byte>): (b: seq<byte>)
    requires |buf| == 64 && index < 64
    ensures |b| == 64
  {
    if index + |input| < 64 then Overlay(buf, index, input)
    else
      var rest := (index + |input|) % 64;
      Overlay(buf[..index] + input[..64 - index], 0, input[|input| - rest..])
  }

  lemma OverlayFront(buf: seq<byte>, index: nat, src: seq<byte>)
    requires |buf| == 64 && index + |src| <= 64
    ensures Overlay(buf, index, src)[..index + |src|] == buf[..index] + src
  {
  }

  // The padding and the length field together, when the tail leaves room for them: the tail
  // stays in the buffer.
  lemma RoomForPadding(buf: seq<byte>, n: nat)
    requires |buf| == 64 && n % 64 < 56
    ensures var b := BufferAfter(buf, n % 64, Padding(PadLength(n)));
      BufferAfter(b, 56, LengthBytes(n))[..n % 64] == buf[..n % 64]
  {
    var r := n % 64;
    var b := BufferAfter(buf, r, Padding(PadLength(n)));
    assert b[..r] == buf[..r];
    assert BufferAfter(b, 56, LengthBytes(n))[..56] == b[..56];
    assert BufferAfter(b, 56, LengthBytes(n))[..r] == b[..56][..r];
  }

  // Otherwise the padding wraps around and the buffer ends up as zeros and the length.
  lemma PaddingWraps(buf: seq<byte>, n: nat)
    requires |buf| == 64 && n % 64 >= 56
    ensures var b := BufferAfter(buf, n % 64, Padding(PadLength(n)));
      BufferAfter(b, 56, LengthBytes(n)) == Repeat<byte>(0, 56) + LengthBytes(n)
  {
    var r, pad := n % 64, Padding(PadLength(n));
    var b := BufferAfter(buf, r, pad);
    assert pad[|pad| - 56..] == Repeat<byte>(0, 56);
    assert b[..56] == Repeat<byte>(0, 56);
  }

  // The message the object holds after final(): final restores the state and the count but
  // not the buffer.
  function AfterDigest(m: seq<byte>): (m': seq<byte>)
    ensures |m'| == |m|
  {
    if |m| % 64 < 56 then m else Whole(m) + (Repeat<byte>(0, 56) + LengthBytes(|m|))[..|m| % 64]
  }

  // digest() leaves the message intact exactly when the padding did not wrap, or the tail
  // happened to be what the padding wrote.
  lemma DigestKeepsMessageIff(m: seq<byte>)
    ensures AfterDigest(m) == m <==> |m| % 64 < 56 || Tail(m) == (Repeat<byte>(0, 56) + LengthBytes(|m|))[..|m| % 64]
  {
    WholeThenTail(m);
    if |m| % 64 >= 56 {
      var t := (Repeat<byte>(0, 56) + LengthBytes(|m|))[..|m| % 64];
      AppendParts(Whole(m), t);
      AppendParts(Whole(m), Tail(m));
    }
  }

  // A concrete message that digest() damages: 56 bytes of one.
  lemma DigestDamagesMessage(m: seq<byte>)
    requires |m| == 56 && forall i :: 0 <= i < 56 ==> m[i] == 1
    ensures AfterDigest(m) != m && AfterDigest(m) == Repeat<byte>(0, 56)
  {
    assert Whole(m) == [];
    assert (Repeat<byte>(0, 56) + LengthBytes(56))[..56] == Repeat<byte>(0, 56);
    assert AfterDigest(m)[0] == 0;
  }
}
