/**
 * Base64 against section 4 of RFC 4648.  A byte is a `bv8`.  Encoding follows the RFC;
 * decoding never strips the padding, because its padding test compares a char with a
 * three-character literal.
 */
module Base64 {
  import opened SeqFacts

  type byte = bv8

  const PAD: byte := 0x3d
  // The value compilers give the multi-character literal ' = ' the padding test compares with.
  const PAD_TEST: int := 0x203d20

  // ---- RFC 4648, section 4 ----

  // Table 1.
  function Letter(v: byte): (c: byte)
    requires v < 64
  {
    if v < 26 then 0x41 + v             // 'A'..'Z'
    else if v < 52 then 0x61 + (v - 26) // 'a'..'z'
    else if v < 62 then 0x30 + (v - 52) // '0'..'9'
    else if v == 62 then 0x2b           // '+'
    else 0x2f                           // '/'
  }

  const CAPITALS: string := "ABCDEFGHIJKLMNOPQRSTUVWXYZ"
  const SMALL: string := "abcdefghijklmnopqrstuvwxyz"
  const OTHERS: string := "0123456789+/"

  lemma CapitalCodes(n: nat)
    requires n < 26
    ensures CAPITALS[n] as int == 65 + n
  {
  }

  lemma SmallCodes(n: nat)
    requires n < 26
    ensures SMALL[n] as int == 97 + n
  {
  }

  lemma OtherCodes(n: nat)
    requires n < 12
    ensures OTHERS[n] as int == if n < 10 then 48 + n else if n == 10 then 43 else 47
  {
  }

  lemma LetterCodes(v: byte)
    requires v < 64
    ensures v < 26 ==> Letter(v) as int == 65 + v as int
    ensures 26 <= v < 52 ==> Letter(v) as int == 71 + v as int
    ensures 52 <= v < 62 ==> Letter(v) as int == v as int - 4
    ensures v == 62 ==> Letter(v) as int == 43
    ensures v == 63 ==> Letter(v) as int == 47
  {
  }

  // The letters are those of Table 1, and the padding is '='.
  lemma LetterIsTable1(v: byte)
    requires v < 64
    ensures var n: nat := v as nat;
      Letter(v) as int ==
      (if n < 26 then CAPITALS[n] else if n < 52 then SMALL[n - 26] else OTHERS[n - 52]) as int
    ensures PAD as int == '=' as int
  {
    var n: nat := v as nat;
    LetterCodes(v);
    if n < 26 {
      CapitalCodes(n);
    } else if n < 52 {
      SmallCodes(n - 26);
    } else {
      OtherCodes(n - 52);
    }
  }

  // Bit k of a byte, counted from the most significant.
  function BitOf(b: byte, k: nat): (bit: byte)
    ensures bit <= 1
  {
    if k == 0 then (b >> 7) & 1
    else if k == 1 then (b >> 6) & 1
    else if k == 2 then (b >> 5) & 1
    else if k == 3 then (b >> 4) & 1
    else if k == 4 then (b >> 3) & 1
    else if k == 5 then (b >> 2) & 1
    else if k == 6 then (b >> 1) & 1
    else b & 1
  }

  // The input read as one string of bits, with zero bits after its end.
  function Byte(s: seq<byte>, i: nat): byte {
    if i < |s| then s[i] else 0
  }

  function Bit(s: seq<byte>, i: nat): (bit: byte)
    ensures bit <= 1
  {
    BitOf(Byte(s, i / 8), i % 8)
  }

  // The j-th group of six bits.
  function Sextet(s: seq<byte>, j: nat): (v: byte)
    ensures v < 64
  {
    SixBits(Bit(s, 6 * j), Bit(s, 6 * j + 1), Bit(s, 6 * j + 2), Bit(s, 6 * j + 3), Bit(s, 6 * j + 4), Bit(s, 6 * j + 5))
  }

  function SixBits(a: byte, b: byte, c: byte, d: byte, e: byte, f: byte): (v: byte)
    ensures a <= 1 && b <= 1 && c <= 1 && d <= 1 && e <= 1 && f <= 1 ==> v < 64
  {
    (a << 5) | (b << 4) | (c << 3) | (d << 2) | (e << 1) | f
  }

  // Output characters come in fours; those whose six bits lie wholly after the input's end
  // are padding.
  function EncodedLength(n: nat): nat {
    (n + 2) / 3 * 4
  }

  function EncodedAt(s: seq<byte>, j: nat): byte {
    if 6 * j < 8 * |s| then Letter(Sextet(s, j)) else PAD
  }

  function Encode(s: seq<byte>): seq<byte> {
    seq(EncodedLength(|s|), j requires 0 <= j => EncodedAt(s, j))
  }

  // ---- Groups of three bytes ----

  // What the group encoder leaves for three bytes before it maps them to letters.
  function Split(a: byte, b: byte, c: byte): (q: seq<byte>)
    ensures |q| == 4 && q[0] < 64 && q[1] < 64 && q[2] < 64 && q[3] < 64
  {
    [a >> 2, (b >> 4) | ((a << 6) >> 2), (c >> 6) | ((b << 4) >> 2), c & 63]
  }

  lemma SplitIsSextets(a: byte, b: byte, c: byte)
    ensures var q := Split(a, b, c);
      && q[0] == SixBits(BitOf(a, 0), BitOf(a, 1), BitOf(a, 2), BitOf(a, 3), BitOf(a, 4), BitOf(a, 5))
      && q[1] == SixBits(BitOf(a, 6), BitOf(a, 7), BitOf(b, 0), BitOf(b, 1), BitOf(b, 2), BitOf(b, 3))
      && q[2] == SixBits(BitOf(b, 4), BitOf(b, 5), BitOf(b, 6), BitOf(b, 7), BitOf(c, 0), BitOf(c, 1))
      && q[3] == SixBits(BitOf(c, 2), BitOf(c, 3), BitOf(c, 4), BitOf(c, 5), BitOf(c, 6), BitOf(c, 7))
  {
  }

  lemma BitAt(s: seq<byte>, i: nat, k: nat)
    requires k < 8
    ensures Bit(s, 8 * i + k) == BitOf(Byte(s, i), k)
  {
    assert (8 * i + k) / 8 == i && (8 * i + k) % 8 == k;
  }

  lemma SextetsOfGroup(s: seq<byte>, i: nat)
    ensures var q := Split(Byte(s, 3 * i), Byte(s, 3 * i + 1), Byte(s, 3 * i + 2));
      Sextet(s, 4 * i) == q[0] && Sextet(s, 4 * i + 1) == q[1] && Sextet(s, 4 * i + 2) == q[2] && Sextet(s, 4 * i + 3) == q[3]
  {
    hide SixBits, BitOf, Bit, Byte, Split;
    SplitIsSextets(Byte(s, 3 * i), Byte(s, 3 * i + 1), Byte(s, 3 * i + 2));
    FirstSextet(s, i);
    SecondSextet(s, i);
    ThirdSextet(s, i);
    FourthSextet(s, i);
  }

  lemma FirstSextet(s: seq<byte>, i: nat)
    ensures var a := Byte(s, 3 * i);
      Sextet(s, 4 * i) == SixBits(BitOf(a, 0), BitOf(a, 1), BitOf(a, 2), BitOf(a, 3), BitOf(a, 4), BitOf(a, 5))
  {
    hide SixBits, BitOf, Bit, Byte;
    BitAt(s, 3 * i, 0); BitAt(s, 3 * i, 1); BitAt(s, 3 * i, 2);
    BitAt(s, 3 * i, 3); BitAt(s, 3 * i, 4); BitAt(s, 3 * i, 5);
  }

  lemma SecondSextet(s: seq<byte>, i: nat)
    ensures var a, b := Byte(s, 3 * i), Byte(s, 3 * i + 1);
      Sextet(s, 4 * i + 1) == SixBits(BitOf(a, 6), BitOf(a, 7), BitOf(b, 0), BitOf(b, 1), BitOf(b, 2), BitOf(b, 3))
  {
    hide SixBits, BitOf, Bit, Byte;
    BitAt(s, 3 * i, 6); BitAt(s, 3 * i, 7); BitAt(s, 3 * i + 1, 0);
    BitAt(s, 3 * i + 1, 1); BitAt(s, 3 * i + 1, 2); BitAt(s, 3 * i + 1, 3);
  }

  lemma ThirdSextet(s: seq<byte>, i: nat)
    ensures var b, c := Byte(s, 3 * i + 1), Byte(s, 3 * i + 2);
      Sextet(s, 4 * i + 2) == SixBits(BitOf(b, 4), BitOf(b, 5), BitOf(b, 6), BitOf(b, 7), BitOf(c, 0), BitOf(c, 1))
  {
    hide SixBits, BitOf, Bit, Byte;
    BitAt(s, 3 * i + 1, 4); BitAt(s, 3 * i + 1, 5); BitAt(s, 3 * i + 1, 6);
    BitAt(s, 3 * i + 1, 7); BitAt(s, 3 * i + 2, 0); BitAt(s, 3 * i + 2, 1);
  }

  lemma FourthSextet(s: seq<byte>, i: nat)
    ensures var c := Byte(s, 3 * i + 2);
      Sextet(s, 4 * i + 3) == SixBits(BitOf(c, 2), BitOf(c, 3), BitOf(c, 4), BitOf(c, 5), BitOf(c, 6), BitOf(c, 7))
  {
    hide SixBits, BitOf, Bit, Byte;
    BitAt(s, 3 * i + 2, 2); BitAt(s, 3 * i + 2, 3); BitAt(s, 3 * i + 2, 4);
    BitAt(s, 3 * i + 2, 5); BitAt(s, 3 * i + 2, 6); BitAt(s, 3 * i + 2, 7);
  }

  // One group of output characters.
  lemma GroupIsEncoded(s: seq<byte>, i: nat)
    requires 3 * i < |s|
    ensures var q := Split(Byte(s, 3 * i), Byte(s, 3 * i + 1), Byte(s, 3 * i + 2));
      && EncodedAt(s, 4 * i) == Letter(q[0]) && EncodedAt(s, 4 * i + 1) == Letter(q[1])
      && EncodedAt(s, 4 * i + 2) == (if 3 * i + 1 < |s| then Letter(q[2]) else PAD)
      && EncodedAt(s, 4 * i + 3) == (if 3 * i + 2 < |s| then Letter(q[3]) else PAD)
  {
    hide Sextet, Split, Letter, Byte;
    SextetsOfGroup(s, i);
  }

  // ---- Encoding ----

  // _enBase64Help: shifts three bytes into four, then maps them to letters in place.
  method EncodeGroup(chasc: array<byte>, chuue: array<byte>)
    requires chasc.Length >= 3 && chuue.Length >= 4 && chasc != chuue
    modifies chuue
    ensures var q := Split(chasc[0], chasc[1], chasc[2]);
      chuue[0] == Letter(q[0]) && chuue[1] == Letter(q[1]) && chuue[2] == Letter(q[2]) && chuue[3] == Letter(q[3])
  {
    SplitGroup(chasc, chuue);
    hide Split;
    ghost var q := Split(chasc[0], chasc[1], chasc[2]);
    for i := 0 to 4
      invariant forall j :: 0 <= j < 4 ==> chuue[j] == if j < i then Letter(q[j]) else q[j]
    {
      if chuue[i] <= 128 && chuue[i] <= 25 {
        chuue[i] := chuue[i] + 65;
      } else if chuue[i] >= 26 && chuue[i] <= 51 {
        chuue[i] := chuue[i] + 71;
      } else if chuue[i] >= 52 && chuue[i] <= 61 {
        chuue[i] := chuue[i] - 4;
      } else if chuue[i] == 62 {
        chuue[i] := 43;
      } else if chuue[i] == 63 {
        chuue[i] := 47;
      }
    }
  }

  // The first loop of _enBase64Help.
  method SplitGroup(chasc: array<byte>, chuue: array<byte>)
    requires chasc.Length >= 3 && chuue.Length >= 4 && chasc != chuue
    modifies chuue
    ensures chuue[..4] == Split(chasc[0], chasc[1], chasc[2])
  {
    var k: bv8 := 2;
    var t: byte := 0;
    for i := 0 to 3
      invariant i == 0 ==> k == 2 && t == 0
      invariant i == 1 ==> k == 4 && t == (chasc[0] << 6) >> 2
      invariant i == 2 ==> k == 6 && t == (chasc[1] << 4) >> 2
      invariant i >= 1 ==> chuue[0] == chasc[0] >> 2
      invariant i >= 2 ==> chuue[1] == (chasc[1] >> 4) | ((chasc[0] << 6) >> 2)
      invariant i >= 3 ==> chuue[2] == (chasc[2] >> 6) | ((chasc[1] << 4) >> 2)
    {
      chuue[i] := chasc[i] >> k;
      chuue[i] := chuue[i] | t;
      t := chasc[i] << (8 - k);
      t := t >> 2;
      k := k + 2;
    }
    chuue[3] := chasc[2] & 63;
  }

  // enBase64_help
  method EnBase64(inbuf: seq<byte>) returns (outStr: seq<byte>)
    ensures outStr == Encode(inbuf)
  {
    hide Split, Letter, EncodedAt, Encode, IsPrefix;
    outStr := [];
    var group := new byte[8];
    var out := new byte[8];
    var blocks := |inbuf| / 3;
    NoneEncoded(inbuf);
    for i := 0 to blocks
      invariant |outStr| == 4 * i && IsPrefix(outStr, inbuf)
    {
      group[0], group[1], group[2] := inbuf[i * 3], inbuf[i * 3 + 1], inbuf[i * 3 + 2];
      EncodeGroup(group, out);
      GroupIsEncoded(inbuf, i);
      OneMoreGroup(inbuf, outStr, out[0], out[1], out[2], out[3]);
      outStr := outStr + [out[0], out[1], out[2], out[3]];
    }
    if |inbuf| % 3 == 1 {
      group[0], group[1], group[2] := inbuf[|inbuf| - 1], 0, 0;
      EncodeGroup(group, out);
      GroupIsEncoded(inbuf, blocks);
      OneMoreGroup(inbuf, outStr, out[0], out[1], PAD, PAD);
      outStr := outStr + [out[0], out[1], PAD, PAD];
    } else if |inbuf| % 3 == 2 {
      group[0], group[1], group[2] := inbuf[|inbuf| - 2], inbuf[|inbuf| - 1], 0;
      EncodeGroup(group, out);
      GroupIsEncoded(inbuf, blocks);
      OneMoreGroup(inbuf, outStr, out[0], out[1], out[2], PAD);
      outStr := outStr + [out[0], out[1], out[2], PAD];
    }
    AllEncoded(inbuf, outStr);
  }

  ghost predicate IsPrefix(t: seq<byte>, s: seq<byte>) {
    forall j :: 0 <= j < |t| ==> t[j] == EncodedAt(s, j)
  }

  lemma NoneEncoded(s: seq<byte>)
    ensures IsPrefix([], s)
  {
  }

  lemma OneMoreGroup(s: seq<byte>, t: seq<byte>, a: byte, b: byte, c: byte, d: byte)
    requires IsPrefix(t, s)
    requires a == EncodedAt(s, |t|) && b == EncodedAt(s, |t| + 1) && c == EncodedAt(s, |t| + 2) && d == EncodedAt(s, |t| + 3)
    ensures IsPrefix(t + [a, b, c, d], s)
  {
    hide EncodedAt;
  }

  lemma AllEncoded(s: seq<byte>, t: seq<byte>)
    requires IsPrefix(t, s) && |t| == EncodedLength(|s|)
    ensures t == Encode(s)
  {
    hide EncodedAt;
  }

  // ---- Decoding ----

  // What the group decoder makes of a character; one outside the alphabet stays as it is.
  function Value(c: byte): byte {
    if 65 <= c <= 90 then c - 65
    else if 97 <= c <= 122 then c - 71
    else if 48 <= c <= 57 then c + 4
    else if c == 43 then 62
    else if c == 47 then 63
    else if c == 61 then 0
    else c
  }

  lemma ValueOfLetter(v: byte)
    requires v < 64
    ensures Value(Letter(v)) == v
  {
  }

  // Every other character but the padding stays what it is.
  lemma ValueOfOthers(c: byte)
    ensures Value(PAD) == 0
    ensures c == PAD || Value(c) == c || (Value(c) < 64 && Letter(Value(c)) == c)
  {
  }

  // What the decoder's shifts make of any four values, letters or not, bit by bit.
  lemma JoinBits(w: byte, x: byte, y: byte, z: byte, k: nat)
    requires k < 8
    ensures var t := Join(w, x, y, z);
      && BitOf(t[0], k) == (if k < 6 then BitOf(w, k + 2) else 0) | (if k >= 4 then BitOf(x, k - 4) else 0)
      && BitOf(t[1], k) == (if k < 4 then BitOf(x, k + 4) else 0) | (if k >= 2 then BitOf(y, k - 2) else 0)
      && BitOf(t[2], k) == (if k < 2 then BitOf(y, k + 6) else 0) | BitOf(z, k)
  {
    hide BitOf;
    OrBits(w << 2, x >> 4, k);
    OrBits(x << 4, y >> 2, k);
    OrBits(y << 6, z, k);
    ShiftedBits(w, k);
    ShiftedBits(x, k);
    ShiftedBits(y, k);
  }

  lemma OrBits(a: byte, b: byte, k: nat)
    requires k < 8
    ensures BitOf(a | b, k) == BitOf(a, k) | BitOf(b, k)
  {
    hide BitOf;
    OrShifted(a, b);
    BitIs(a | b, k);
    BitIs(a, k);
    BitIs(b, k);
  }

  lemma BitIs(b: byte, k: nat)
    ensures k == 0 ==> BitOf(b, k) == (b >> 7) & 1
    ensures k == 1 ==> BitOf(b, k) == (b >> 6) & 1
    ensures k == 2 ==> BitOf(b, k) == (b >> 5) & 1
    ensures k == 3 ==> BitOf(b, k) == (b >> 4) & 1
    ensures k == 4 ==> BitOf(b, k) == (b >> 3) & 1
    ensures k == 5 ==> BitOf(b, k) == (b >> 2) & 1
    ensures k == 6 ==> BitOf(b, k) == (b >> 1) & 1
    ensures k == 7 ==> BitOf(b, k) == b & 1
  {
  }

  lemma OrShifted(a: byte, b: byte)
    ensures ((a | b) >> 7) & 1 == ((a >> 7) & 1) | ((b >> 7) & 1)
    ensures ((a | b) >> 6) & 1 == ((a >> 6) & 1) | ((b >> 6) & 1)
    ensures ((a | b) >> 5) & 1 == ((a >> 5) & 1) | ((b >> 5) & 1)
    ensures ((a | b) >> 4) & 1 == ((a >> 4) & 1) | ((b >> 4) & 1)
    ensures ((a | b) >> 3) & 1 == ((a >> 3) & 1) | ((b >> 3) & 1)
    ensures ((a | b) >> 2) & 1 == ((a >> 2) & 1) | ((b >> 2) & 1)
    ensures ((a | b) >> 1) & 1 == ((a >> 1) & 1) | ((b >> 1) & 1)
    ensures (a | b) & 1 == (a & 1) | (b & 1)
  {
  }

  lemma ShiftedBits(b: byte, k: nat)
    requires k < 8
    ensures BitOf(b << 2, k) == if k < 6 then BitOf(b, k + 2) else 0
    ensures BitOf(b << 4, k) == if k < 4 then BitOf(b, k + 4) else 0
    ensures BitOf(b << 6, k) == if k < 2 then BitOf(b, k + 6) else 0
    ensures BitOf(b >> 2, k) == if k >= 2 then BitOf(b, k - 2) else 0
    ensures BitOf(b >> 4, k) == if k >= 4 then BitOf(b, k - 4) else 0
  {
  }

  function Join(w: byte, x: byte, y: byte, z: byte): (t: seq<byte>)
    ensures |t| == 3
  {
    [(w << 2) | (x >> 4), (x << 4) | (y >> 2), (y << 6) | z]
  }

  lemma JoinSplit(a: byte, b: byte, c: byte)
    ensures var q := Split(a, b, c);
      Join(q[0], q[1], q[2], q[3]) == [a, b, c]
  {
    ShiftsCancel(a, b, c);
  }

  lemma ShiftsCancel(a: byte, b: byte, c: byte)
    ensures ((a >> 2) << 2) | (((b >> 4) | ((a << 6) >> 2)) >> 4) == a
    ensures (((b >> 4) | ((a << 6) >> 2)) << 4) | (((c >> 6) | ((b << 4) >> 2)) >> 2) == b
    ensures (((c >> 6) | ((b << 4) >> 2)) << 6) | (c & 63) == c
  {
  }

  function Group(src: seq<byte>, i: nat): (t: seq<byte>)
    requires 4 * i + 3 < |src|
    ensures |t| == 3
  {
    Join(Value(src[4 * i]), Value(src[4 * i + 1]), Value(src[4 * i + 2]), Value(src[4 * i + 3]))
  }

  // Nothing for a length that is no multiple of four, else three bytes for every group.
  function Decode(src: seq<byte>): (t: seq<byte>)
    ensures |t| == if |src| % 4 == 0 then |src| / 4 * 3 else 0
  {
    if |src| % 4 != 0 then [] else seq(|src| / 4 * 3, i requires 0 <= i < |src| / 4 * 3 => Group(src, i / 3)[i % 3])
  }

  // _deBase64Help: maps four characters to values in place, then shifts them into three bytes.
  method DecodeGroup(chuue: array<byte>, chasc: array<byte>)
    requires chuue.Length >= 4 && chasc.Length >= 3 && chasc != chuue
    modifies chuue, chasc
    ensures chasc[..3] == old(Join(Value(chuue[0]), Value(chuue[1]), Value(chuue[2]), Value(chuue[3])))
  {
    hide Value, Join;
    MapGroup(chuue);
    JoinGroup(chuue, chasc);
  }

  // The second loop of _deBase64Help.
  method JoinGroup(chuue: array<byte>, chasc: array<byte>)
    requires chuue.Length >= 4 && chasc.Length >= 3 && chasc != chuue
    modifies chasc
    ensures chasc[..3] == Join(chuue[0], chuue[1], chuue[2], chuue[3])
  {
    var k: bv8 := 2;
    var t: byte := 0;
    for i := 0 to 3
      invariant i == 0 ==> k == 2
      invariant i == 1 ==> k == 4
      invariant i == 2 ==> k == 6
      invariant i >= 1 ==> chasc[0] == (chuue[0] << 2) | (chuue[1] >> 4)
      invariant i >= 2 ==> chasc[1] == (chuue[1] << 4) | (chuue[2] >> 2)
      invariant i >= 3 ==> chasc[2] == (chuue[2] << 6) | chuue[3]
    {
      chasc[i] := chuue[i] << k;
      k := k + 2;
      t := chuue[i + 1] >> (8 - k);
      chasc[i] := chasc[i] | t;
    }
  }

  // The first loop of _deBase64Help.
  method MapGroup(chuue: array<byte>)
    requires chuue.Length >= 4
    modifies chuue
    ensures forall j :: 0 <= j < 4 ==> chuue[j] == old(Value(chuue[j]))
  {
    for i := 0 to 4
      invariant forall j :: 0 <= j < 4 ==> chuue[j] == if j < i then old(Value(chuue[j])) else old(chuue[j])
    {
      if chuue[i] >= 65 && chuue[i] <= 90 {
        chuue[i] := chuue[i] - 65;
      } else if chuue[i] >= 97 && chuue[i] <= 122 {
        chuue[i] := chuue[i] - 71;
      } else if chuue[i] >= 48 && chuue[i] <= 57 {
        chuue[i] := chuue[i] + 4;
      } else if chuue[i] == 43 {
        chuue[i] := 62;
      } else if chuue[i] == 47 {
        chuue[i] := 63;
      } else if chuue[i] == 61 {
        chuue[i] := 0;
      }
    }
  }

  // A char compared with the multi-character literal.
  predicate LooksLikePadding(c: byte) {
    c as int == PAD_TEST
  }

  ghost predicate IsDecoded(t: seq<byte>, src: seq<byte>) {
    |t| <= |src| / 4 * 3 && forall k :: 0 <= k < |t| ==> t[k] == Group(src, k / 3)[k % 3]
  }

  // deBase64_help
  method DeBase64Help(src: seq<byte>, outbuf: array<byte>) returns (length: int)
    requires outbuf.Length >= 2 * |src|
    modifies outbuf
    ensures length == |Decode(src)| <= outbuf.Length && outbuf[..length] == Decode(src)
  {
    hide Join, Value, Decode, IsDecoded, Group, LooksLikePadding;
    if |src| == 0 || |src| % 4 != 0 {
      return 0;
    }
    var group := new byte[4];
    var out := new byte[3];
    var blocks := |src| / 4;
    NoneDecoded(src);
    for i := 0 to blocks
      invariant IsDecoded(outbuf[..3 * i], src)
    {
      group[0], group[1], group[2], group[3] := src[i * 4], src[i * 4 + 1], src[i * 4 + 2], src[i * 4 + 3];
      DecodeGroup(group, out);
      assert out[..3] == Group(src, i) by { GroupIs(src, i); }
      ghost var done := outbuf[..3 * i];
      StoreGroup(out, outbuf, 3 * i);
      OneGroupDecoded(src, done, i);
    }
    length := |src| / 4 * 3;
    AllDecoded(src, outbuf[..length]);
    var last, before := src[|src| - 1], src[|src| - 2];
    NeverPadding(last);
    if LooksLikePadding(last) {
      length := length - 1;
      if LooksLikePadding(before) {
        length := length - 1;
      }
    }
  }

  method StoreGroup(out: array<byte>, outbuf: array<byte>, at: nat)
    requires out.Length >= 3 && at + 3 <= outbuf.Length && out != outbuf
    modifies outbuf
    ensures outbuf[..at + 3] == old(outbuf[..at]) + out[..3]
  {
    outbuf[at], outbuf[at + 1], outbuf[at + 2] := out[0], out[1], out[2];
  }

  // No char is equal to the literal.
  lemma NeverPadding(c: byte)
    ensures !LooksLikePadding(c)
  {
  }

  lemma GroupIs(src: seq<byte>, i: nat)
    requires 4 * i + 3 < |src|
    ensures Group(src, i) ==
            Join(Value(src[4 * i]), Value(src[4 * i + 1]), Value(src[4 * i + 2]), Value(src[4 * i + 3]))
  {
  }

  lemma NoneDecoded(src: seq<byte>)
    ensures IsDecoded([], src)
  {
  }

  lemma OneGroupDecoded(src: seq<byte>, done: seq<byte>, i: nat)
    requires IsDecoded(done, src) && |done| == 3 * i && 4 * i + 3 < |src|
    ensures IsDecoded(done + Group(src, i), src)
  {
    hide Group;
  }

  lemma AllDecoded(src: seq<byte>, t: seq<byte>)
    requires IsDecoded(t, src) && |src| % 4 == 0 && |t| == |src| / 4 * 3
    ensures t == Decode(src)
  {
    hide Group;
  }

  // deBase64
  method DeBase64(src: seq<byte>) returns (result: seq<byte>)
    ensures result == Decode(src)
  {
    if src == [] {
      return src;
    }
    var buf := new byte[2 * |src|];
    var len := DeBase64Help(src, buf);
    result := buf[..len];
  }

  // ---- Round trip ----

  lemma GroupOfEncoded(s: seq<byte>, i: nat)
    requires 3 * i < |s|
    ensures Group(Encode(s), i) == [Byte(s, 3 * i), Byte(s, 3 * i + 1), Byte(s, 3 * i + 2)]
  {
    hide Split, Letter, Value, EncodedAt;
    var a, b, c := Byte(s, 3 * i), Byte(s, 3 * i + 1), Byte(s, 3 * i + 2);
    var q := Split(a, b, c);
    GroupIsEncoded(s, i);
    ValueOfLetter(q[0]);
    ValueOfLetter(q[1]);
    ValueOfLetter(q[2]);
    ValueOfLetter(q[3]);
    PaddingIsZero(a, b, c);
    JoinSplit(a, b, c);
    hide Join;
  }

  lemma PaddingIsZero(a: byte, b: byte, c: byte)
    ensures Value(PAD) == 0
    ensures c == 0 ==> Split(a, b, c)[3] == 0
    ensures b == 0 && c == 0 ==> Split(a, b, c)[2] == 0
  {
  }

  // Decoding an encoding gives the input back, with a zero byte for every padding character.
  lemma DecodeEncode(s: seq<byte>)
    ensures Decode(Encode(s)) == s + Repeat<byte>(0, (3 - |s| % 3) % 3)
  {
    hide Encode, EncodedAt, Group;
    var t, u := Encode(s), s + Repeat<byte>(0, (3 - |s| % 3) % 3);
    assert |t| == EncodedLength(|s|) by { EncodedSize(s); }
    forall i | 0 <= i < |Decode(t)| ensures Decode(t)[i] == u[i] {
      GroupOfEncoded(s, i / 3);
    }
  }

  lemma EncodedSize(s: seq<byte>)
    ensures |Encode(s)| == EncodedLength(|s|)
  {
    hide EncodedAt;
  }

  // So the round trip is exact if and only if the input is a whole number of groups.
  lemma DecodeEncodeIff(s: seq<byte>)
    ensures Decode(Encode(s)) == s <==> |s| % 3 == 0
  {
    hide Encode, Decode;
    DecodeEncode(s);
  }
}
