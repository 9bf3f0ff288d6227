/**
 * The hex-complement cipher: every byte complemented and written with "%x", which drops a
 * leading zero; read back two characters at a time and written with "%c" into a C string,
 * which drops a NUL.
 */
module EncryptStr {
  import opened SeqFacts
  import Base64

  type byte = bv8

  predicate IsHexDigit(c: byte) {
    0x41 <= c <= 0x46 || 0x30 <= c <= 0x39 || 0x61 <= c <= 0x66
  }

  function DigitValue(c: byte): (d: byte)
    requires IsHexDigit(c)
    ensures d < 16
  {
    if 0x30 <= c <= 0x39 then c - 0x30
    else if 0x41 <= c <= 0x46 then 10 + (c - 0x41)
    else 10 + (c - 0x61)
  }

  // A 32-bit int.
  function Append(result: bv32, d: byte): bv32 {
    result * 16 + d as bv32
  }

  // The number in the hex digits at the front of s, read on from `result`.
  function HexFrom(s: seq<byte>, result: bv32): bv32
    decreases |s|
  {
    if s == [] || !IsHexDigit(s[0]) then result
    else HexFrom(s[1..], Append(result, DigitValue(s[0])))
  }

  method HexStrToInt(s: seq<byte>) returns (result: bv32)
    ensures result == HexFrom(s, 0)
  {
    hide Append;
    result := 0;
    assert s[0..] == s;
    for i := 0 to |s|
      invariant HexFrom(s[i..], result) == HexFrom(s, 0)
    {
      assert s[i..][1..] == s[i + 1..];
      var ch := s[i];
      if 0x41 <= ch <= 0x46 || 0x30 <= ch <= 0x39 || 0x61 <= ch <= 0x66 {
        if ch <= 0x39 && ch >= 0x30 {
          result := Append(result, ch - 0x30);
        } else if ch <= 0x46 && ch >= 0x41 {
          result := Append(result, 10 + (ch - 0x41));
        } else {
          result := Append(result, 10 + (ch - 0x61));
        }
      } else {
        return;
      }
    }
  }

  // ---- Encryption ----

  function HexDigit(v: byte): (c: byte)
    requires v < 16
    ensures IsHexDigit(c) && DigitValue(c) == v
  {
    if v < 10 then 0x30 + v else 0x61 + (v - 10)
  }

  // "%x" of a byte: one digit below sixteen, else two.
  function PrintHex(b: byte): (s: seq<byte>)
    ensures |s| == if b < 16 then 1 else 2
  {
    if b < 16 then [HexDigit(b)] else [HexDigit(b >> 4), HexDigit(b & 15)]
  }

  function EncryptByte(b: byte): seq<byte> {
    PrintHex(b ^ 0xff)
  }

  function Encrypted(text: seq<byte>): seq<byte> {
    if text == [] then [] else EncryptByte(text[0]) + Encrypted(text[1..])
  }

  method Encrypt(text: seq<byte>) returns (res: seq<byte>)
    ensures res == Encrypted(text)
  {
    hide EncryptByte;
    res := [];
    assert text[0..] == text;
    for i := 0 to |text|
      invariant res + Encrypted(text[i..]) == Encrypted(text)
    {
      DropDrop(text, i, 1);
      var bt := text[i] ^ 0xff;
      var buffer := PrintHex(bt);
      ConcatAssoc(res, EncryptByte(text[i]), Encrypted(text[i + 1..]));
      assert buffer == EncryptByte(text[i]) by { EncryptByteIs(text[i]); }
      res := res + buffer;
    }
  }

  lemma EncryptByteIs(b: byte)
    ensures EncryptByte(b) == PrintHex(b ^ 0xff)
  {
  }

  // ---- The cipher text, against the digits themselves ----

  const DIGITS: string := "0123456789abcdef"
  const CAPITALS: string := "ABCDEF"

  lemma DigitCodes(n: nat)
    ensures n < 10 ==> DIGITS[n] as int == 48 + n
    ensures 10 <= n < 16 ==> DIGITS[n] as int == 87 + n
    ensures n < 6 ==> CAPITALS[n] as int == 65 + n
  {
  }

  lemma CodesOfHexDigit(v: byte)
    requires v < 16
    ensures v < 10 ==> HexDigit(v) as int == 48 + v as int
    ensures v >= 10 ==> HexDigit(v) as int == 87 + v as int
  {
  }

  // "%x" prints with the digits and the small letters.
  lemma PrintedDigit(v: byte)
    requires v < 16
    ensures HexDigit(v) as int == DIGITS[v as nat] as int
  {
    CodesOfHexDigit(v);
    DigitCodes(v as nat);
  }

  // The one or two digits of a byte's complement.
  lemma EncryptedByte(b: byte)
    ensures var v := 0xff - b; var s := EncryptByte(b);
      if b >= 0xf0 then s == [HexDigit(v)] else s == [HexDigit(v >> 4), HexDigit(v & 15)]
  {
    assert b ^ 0xff == 0xff - b;
    hide HexDigit;
  }

  // A text is encrypted byte by byte.
  lemma {:induction false} EncryptedConcat(a: seq<byte>, b: seq<byte>)
    ensures Encrypted(a + b) == Encrypted(a) + Encrypted(b)
  {
    hide EncryptByte;
    if a == [] {
      assert a + b == b;
    } else {
      assert (a + b)[1..] == a[1..] + b;
      EncryptedConcat(a[1..], b);
      ConcatAssoc(EncryptByte(a[0]), Encrypted(a[1..]), Encrypted(b));
    }
  }

  predicate LowerHex(s: seq<byte>) {
    forall i :: 0 <= i < |s| ==> 0x30 <= s[i] <= 0x39 || 0x61 <= s[i] <= 0x66
  }

  lemma {:induction false} CipherIsLowerHex(text: seq<byte>)
    ensures LowerHex(Encrypted(text))
  {
    hide EncryptByte;
    if text != [] {
      CipherIsLowerHex(text[1..]);
      ByteIsLowerHex(text[0]);
    }
  }

  lemma ByteIsLowerHex(b: byte)
    ensures LowerHex(EncryptByte(b))
  {
    EncryptedByte(b);
    hide EncryptByte;
  }

  // ---- Reading, against the digits themselves ----

  // Digits, small and capital letters have the value of their place.
  lemma DigitsRead(c: byte)
    requires IsHexDigit(c)
    ensures var v: nat := DigitValue(c) as nat;
      c as int == DIGITS[v] as int || (v >= 10 && c as int == CAPITALS[v - 10] as int)
  {
    var v: nat := DigitValue(c) as nat;
    CodesOfDigitValue(c);
    DigitCodes(v);
    if v >= 10 {
      DigitCodes(v - 10);
    }
  }

  lemma CodesOfDigitValue(c: byte)
    requires IsHexDigit(c)
    ensures c <= 0x39 ==> c as int == 48 + DigitValue(c) as int && DigitValue(c) < 10
    ensures 0x39 < c <= 0x46 ==> c as int == 55 + DigitValue(c) as int && DigitValue(c) >= 10
    ensures 0x46 < c ==> c as int == 87 + DigitValue(c) as int && DigitValue(c) >= 10
  {
  }

  lemma HexDigitCodes(c: byte)
    ensures IsHexDigit(c) <==> 48 <= c as int <= 57 || 65 <= c as int <= 70 || 97 <= c as int <= 102
  {
  }

  predicate AllHexDigits(s: seq<byte>) {
    forall i :: 0 <= i < |s| ==> IsHexDigit(s[i])
  }

  // Reading stops before the first other character.
  lemma {:induction false} HexFromStops(s: seq<byte>, rest: seq<byte>, result: bv32)
    requires AllHexDigits(s) && (rest != [] ==> !IsHexDigit(rest[0]))
    ensures HexFrom(s + rest, result) == HexFrom(s, result)
    decreases |s|
  {
    hide Append, IsHexDigit, DigitValue;
    if s == [] {
      assert s + rest == rest;
    } else {
      assert (s + rest)[1..] == s[1..] + rest;
      HexFromStops(s[1..], rest, Append(result, DigitValue(s[0])));
    }
  }

  // One more digit is sixteen times the number so far and the digit.
  lemma {:induction false} HexFromSnoc(s: seq<byte>, c: byte, result: bv32)
    requires AllHexDigits(s) && IsHexDigit(c)
    ensures HexFrom(s + [c], result) == 16 * HexFrom(s, result) + DigitValue(c) as bv32
    decreases |s|
  {
    hide IsHexDigit, DigitValue;
    if s == [] {
      assert (s + [c])[1..] == [] && (s + [c])[0] == c;
    } else {
      assert (s + [c])[1..] == s[1..] + [c];
      HexFromSnoc(s[1..], c, Append(result, DigitValue(s[0])));
    }
  }

  // ---- Decryption ----

  // "%c" into a buffer read back as a C string.
  function PrintChar(c: byte): seq<byte> {
    if c == 0 then [] else [c]
  }

  function DecryptPair(pair: seq<byte>): seq<byte> {
    PrintChar(((HexFrom(pair, 0) ^ 0xff) & 0xff) as byte)
  }

  // An odd last character is not looked at.
  function Decrypted(text: seq<byte>): (t: seq<byte>)
    ensures |t| <= |text| / 2
    decreases |text|
  {
    if |text| < 2 then [] else DecryptPair(text[..2]) + Decrypted(text[2..])
  }

  method Decrypt(text: seq<byte>) returns (res: seq<byte>)
    ensures res == Decrypted(text)
  {
    hide HexFrom, PrintChar;
    res := [];
    var len := |text| / 2;
    assert text[0..] == text;
    for i := 0 to len
      invariant res + Decrypted(text[2 * i..]) == Decrypted(text)
    {
      DropDrop(text, 2 * i, 2);
      assert text[2 * i..][..2] == text[i * 2..i * 2 + 2];
      var subs := text[i * 2..i * 2 + 2];
      var number := HexStrToInt(subs);
      var bt := ((number ^ 0xff) & 0xff) as byte;
      ConcatAssoc(res, PrintChar(bt), Decrypted(text[2 * (i + 1)..]));
      res := res + PrintChar(bt);
    }
  }

  // ---- Round trip ----

  // Bytes whose complement is printed as a single digit.
  predicate High(b: byte) {
    b >= 0xf0
  }

  function HighCount(t: seq<byte>): nat {
    if t == [] then 0 else (if High(t[0]) then 1 else 0) + HighCount(t[1..])
  }

  function NoNul(t: seq<byte>): (u: seq<byte>)
    ensures |u| <= |t|
  {
    if t == [] then [] else PrintChar(t[0]) + NoNul(t[1..])
  }

  lemma EncryptByteLength(b: byte)
    ensures |EncryptByte(b)| == if High(b) then 1 else 2
  {
  }

  lemma PairOfByte(b: byte)
    requires !High(b)
    ensures DecryptPair(EncryptByte(b)) == PrintChar(b)
  {
    hide HexFrom, HexDigit, PrintChar, Append;
    var v := b ^ 0xff;
    TwoDigits(HexDigit(v >> 4), HexDigit(v & 15));
    NibblesMakeByte(b);
  }

  lemma TwoDigits(c: byte, d: byte)
    requires IsHexDigit(c) && IsHexDigit(d)
    ensures HexFrom([c, d], 0) == Append(Append(0, DigitValue(c)), DigitValue(d))
  {
    hide Append;
    var s := [c, d];
    assert s[1..] == [d] && s[1..][1..] == [];
    assert HexFrom(s, 0) == HexFrom(s[1..], Append(0, DigitValue(c)));
    assert HexFrom([d], Append(0, DigitValue(c))) == HexFrom([d][1..], Append(Append(0, DigitValue(c)), DigitValue(d)));
  }

  lemma NibblesMakeByte(b: byte)
    ensures ((Append(Append(0, (b ^ 0xff) >> 4), (b ^ 0xff) & 15) ^ 0xff) & 0xff) as byte == b
  {
  }

  lemma {:induction false} EncryptedLength(t: seq<byte>)
    ensures |Encrypted(t)| == 2 * |t| - HighCount(t) && HighCount(t) <= |t|
  {
    hide EncryptByte, High;
    if t != [] {
      EncryptByteLength(t[0]);
      EncryptedLength(t[1..]);
    }
  }

  // Without high bytes only NULs are lost.
  lemma {:induction false} DecryptEncryptDropsNuls(t: seq<byte>)
    requires forall i :: 0 <= i < |t| ==> !High(t[i])
    ensures Decrypted(Encrypted(t)) == NoNul(t)
  {
    hide EncryptByte, High, DecryptPair, PrintChar;
    if t != [] {
      EncryptByteLength(t[0]);
      PairOfByte(t[0]);
      DecryptEncryptDropsNuls(t[1..]);
      AppendParts(EncryptByte(t[0]), Encrypted(t[1..]));
    }
  }

  lemma {:induction false} NoNulIsAll(t: seq<byte>)
    ensures NoNul(t) == t <==> forall i :: 0 <= i < |t| ==> t[i] != 0
  {
    if t != [] {
      NoNulIsAll(t[1..]);
      assert t == [t[0]] + t[1..];
    }
  }

  lemma {:induction false} NoHighBytes(t: seq<byte>)
    ensures HighCount(t) == 0 <==> forall i :: 0 <= i < |t| ==> !High(t[i])
  {
    hide High;
    if t != [] {
      NoHighBytes(t[1..]);
      assert t == [t[0]] + t[1..];
    }
  }

  // Decryption undoes encryption if and only if every byte is in 0x01..0xEF.
  lemma DecryptEncryptIff(t: seq<byte>)
    ensures Decrypted(Encrypted(t)) == t <==> forall i :: 0 <= i < |t| ==> 0x01 <= t[i] <= 0xef
  {
    hide Encrypted, Decrypted, HighCount, NoNul;
    EncryptedLength(t);
    NoHighBytes(t);
    NoNulIsAll(t);
    if HighCount(t) == 0 {
      DecryptEncryptDropsNuls(t);
    }
  }

  // ---- Under Base64 ----

  lemma EncodedByteIsSafe(s: seq<byte>, j: nat)
    ensures 0x01 <= Base64.EncodedAt(s, j) <= 0xef
  {
    hide Base64.Sextet;
  }

  // What is encoded and encrypted comes back with a zero byte for every padding character.
  lemma PipelineRoundTrip(s: seq<byte>)
    ensures Base64.Decode(Decrypted(Encrypted(Base64.Encode(s)))) == s + Repeat<byte>(0, (3 - |s| % 3) % 3)
  {
    hide Encrypted, Decrypted, Base64.Decode, Base64.EncodedAt;
    var t := Base64.Encode(s);
    forall j | 0 <= j < |t| ensures 0x01 <= t[j] <= 0xef {
      EncodedByteIsSafe(s, j);
    }
    DecryptEncryptIff(t);
    Base64.DecodeEncode(s);
  }
}
