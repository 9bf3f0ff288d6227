/**
 * Chunk sizes are hexadecimal numbers: what a printer written apart from the parser prints
 * reads back, and what reads is, up to case and leading zeros, what the printer prints.
 */
module ChunkedSize {
  import opened Chunked
  import opened SeqFacts

  const DIGITS: string := "0123456789abcdef"
  const UPPER_DIGITS: string := "0123456789ABCDEF"

  function Hex(n: nat, digits: string): string
    requires |digits| == 16
    decreases n
  {
    if n < 16 then [digits[n]] else Hex(n / 16, digits) + [digits[n % 16]]
  }

  // The sixteen digits in either case are digits of their own value, and nothing else is one.
  lemma DigitsOfHex(d: nat)
    requires d < 16
    ensures IsHex(DIGITS[d]) && HexDigit(DIGITS[d]) == d
    ensures IsHex(UPPER_DIGITS[d]) && HexDigit(UPPER_DIGITS[d]) == d
  {
  }

  lemma OnlyHexDigits(c: char)
    ensures IsHex(c) <==> c in DIGITS || c in UPPER_DIGITS
    ensures IsHex(c) ==> c == DIGITS[HexDigit(c)] || c == UPPER_DIGITS[HexDigit(c)]
  {
    if IsHex(c) {
      assert c == DIGITS[HexDigit(c)] || c == UPPER_DIGITS[HexDigit(c)];
    }
  }

  lemma {:induction false} HexReadsBack(n: nat, digits: string)
    requires digits == DIGITS || digits == UPPER_DIGITS
    ensures AllHex(Hex(n, digits)) && Hex(n, digits) != [] && HexValue(Hex(n, digits)) == n
    decreases n
  {
    hide HexDigit, IsHex;
    DigitsOfHex(n % 16);
    var last := [digits[n % 16]];
    if n < 16 {
      assert last[..0] == [];
    } else {
      HexReadsBack(n / 16, digits);
      var s := Hex(n / 16, digits);
      AppendParts(s, last);
      assert (s + last)[..|s + last| - 1] == s;
    }
  }

  // The lower-case form of a number, without leading zeros.
  function Plain(s: string): string
    requires AllHex(s)
  {
    if s == [] then []
    else
      var front, d := Plain(s[..|s| - 1]), DIGITS[HexDigit(s[|s| - 1])];
      if front == "0" then [d] else front + [d]
  }

  lemma {:induction false} PlainIsPrinted(s: string)
    requires AllHex(s) && s != []
    ensures Plain(s) == Hex(HexValue(s), DIGITS)
  {
    hide HexDigit, IsHex;
    var front := s[..|s| - 1];
    if front != [] {
      PlainIsPrinted(front);
      ZeroIsPrinted(HexValue(front));
      var v, d := HexValue(front), HexDigit(s[|s| - 1]);
      assert (16 * v + d) / 16 == v && (16 * v + d) % 16 == d;
    }
  }

  lemma ZeroIsPrinted(n: nat)
    ensures Hex(n, DIGITS) == "0" <==> n == 0
  {
    hide Hex;
    HexReadsBack(n, DIGITS);
    HexReadsBack(0, DIGITS);
    assert Hex(0, DIGITS) == "0" by { ZeroHex(); }
  }

  lemma ZeroHex()
    ensures Hex(0, DIGITS) == "0"
  {
  }

  // A payload of any length below 2^32 - 2, framed with the printed size, parses to itself.
  lemma PrintedFrameParses(payload: string, digits: string, slack: string, m: nat)
    requires |payload| < 0xffff_fffe && (digits == DIGITS || digits == UPPER_DIGITS) && m <= |slack|
    ensures var body := Hex(|payload|, digits) + "\r\n" + payload + "\r\n" + "0\r\n";
      var w := Walk(body + slack, |body| + m, 0);
      w.status == End && w.chunks == [payload]
  {
    hide Walk, Hex, HexValue;
    HexReadsBack(|payload|, digits);
    var f := Frame(Hex(|payload|, digits), payload);
    assert [f][1..] == [];
    FramedBodyParsesIff([f], slack, m);
    assert Body([f]) == FrameBytes(f) + LAST;
    assert Payloads([f]) == [payload];
  }

  // From 2^32 - 2 on a size is no header.
  lemma LargerSizeIsBad(n: nat, digits: string, more: string, m: nat)
    requires n >= 0xffff_fffe && (digits == DIGITS || digits == UPPER_DIGITS) && m <= |more|
    ensures var head := Hex(n, digits) + "\r\n";
      Walk(head + more, |head| + m, 0).status == Bad
  {
    hide Hex, HexValue;
    HexReadsBack(n, digits);
    var size := Hex(n, digits);
    var data := size + "\r\n" + more[..m];
    assert data[..|size|] == size && data[|size|] == '\r';
    HexRunIs(data, |size|);
    assert (size + "\r\n" + more)[..|size| + 2 + m] == data;
  }

  // Digits that no CRLF follows are no header either, nor is data without a digit in front.
  lemma NoHeaderIsBad(size: string, more: string, slack: string)
    requires AllHex(size) && size + more != [] && (more != [] ==> !IsHex(more[0]))
    requires size == [] || |more| < 2 || more[0] != '\r' || more[1] != '\n'
    ensures var s := size + more;
      Walk(s + slack, |s|, 0).status == Bad && Walk(s + slack, |s|, 0).chunks == []
  {
    hide HexValue;
    var s := size + more;
    assert s[..|size|] == size && s[|size|..] == more && (s + slack)[..|s|] == s;
    HexRunIs(s, |size|);
    assert ParseHeader(s).NoHeader?;
    WalkStops(s + slack, |s|, 0);
  }

  // A payload that two other bytes than CRLF close is refused, as long as the two are data.
  lemma WrongClosingIsBad(f: Frame, x: char, y: char, more: string, slack: string)
    requires IsFrame(f) && (x != '\r' || y != '\n')
    ensures var s := f.size + CRLF + f.payload + [x, y] + more;
      Walk(s + slack, |s|, 0).status == Bad && Walk(s + slack, |s|, 0).chunks == []
  {
    var head, k := f.size + CRLF, |f.size| + 2;
    var s := head + f.payload + [x, y] + more;
    assert (s + slack)[..|s|] == head + (f.payload + [x, y] + more);
    HeaderOfFrame(f, f.payload + [x, y] + more);
    hide ParseHeader, IsFrame;
    assert (s + slack)[k + |f.payload|] == x && (s + slack)[k + |f.payload| + 1] == y;
    WalkStops(s + slack, |s|, 0);
  }
}
