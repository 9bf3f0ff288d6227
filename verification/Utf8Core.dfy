/**
 * Code-point arithmetic of the UTF-8 library: lead and trail octets, the decoder
 * `validate_next`, and the independent definitions it is proved against (the octet
 * grammar of RFC 3629 section 4).
 *
 * An octet is a `bv8` and a `uint32_t` a `bv32`, so shifts, masks and wrap-around mean
 * what they mean in the source.  An iterator pair `[it, end)` is the sequence of octets
 * between the two.
 */
module Utf8Core {
  import opened SeqFacts

  const LEAD_SURROGATE_MIN: bv32 := 0xd800
  const LEAD_SURROGATE_MAX: bv32 := 0xdbff
  const TRAIL_SURROGATE_MIN: bv32 := 0xdc00
  const TRAIL_SURROGATE_MAX: bv32 := 0xdfff
  // The second offset wraps: it is negative before it is stored in a uint32_t.
  const LEAD_OFFSET: bv32 := LEAD_SURROGATE_MIN - (0x10000 >> 10)
  const SURROGATE_OFFSET: bv32 := 0x10000 - (LEAD_SURROGATE_MIN << 10) - TRAIL_SURROGATE_MIN
  const CODE_POINT_MAX: bv32 := 0x10ffff

  datatype UtfError = Utf8Ok | NotEnoughRoom | InvalidLead | IncompleteSequence | OverlongSequence | InvalidCodePoint

  predicate IsTrail(oc: bv8) {
    oc >> 6 == 2
  }

  predicate IsLeadSurrogate(cp: bv32) {
    LEAD_SURROGATE_MIN <= cp <= LEAD_SURROGATE_MAX
  }

  predicate IsTrailSurrogate(cp: bv32) {
    TRAIL_SURROGATE_MIN <= cp <= TRAIL_SURROGATE_MAX
  }

  predicate IsCodePointValid(cp: bv32) {
    cp <= CODE_POINT_MAX && !(LEAD_SURROGATE_MIN <= cp <= TRAIL_SURROGATE_MAX)
  }

  function SequenceLength(lead: bv8): nat {
    if lead < 0x80 then 1
    else if lead >> 5 == 0x6 then 2
    else if lead >> 4 == 0xe then 3
    else if lead >> 3 == 0x1e then 4
    else 0
  }

  predicate IsOverlongSequence(cp: bv32, length: nat) {
    if cp < 0x80 then length != 1
    else if cp < 0x800 then length != 2
    else if cp < 0x10000 then length != 3
    else false
  }

  // The octets `append` writes for a code point.
  function Encode(cp: bv32): seq<bv8> {
    if cp < 0x80 then
      [cp as bv8]
    else if cp < 0x800 then
      [((cp >> 6) & 0xff) as bv8 | 0xc0,
       (cp & 0x3f) as bv8 | 0x80]
    else if cp < 0x10000 then
      [((cp >> 12) & 0xff) as bv8 | 0xe0,
       ((cp >> 6) & 0x3f) as bv8 | 0x80,
       (cp & 0x3f) as bv8 | 0x80]
    else
      [((cp >> 18) & 0xff) as bv8 | 0xf0,
       ((cp >> 12) & 0x3f) as bv8 | 0x80,
       ((cp >> 6) & 0x3f) as bv8 | 0x80,
       (cp & 0x3f) as bv8 | 0x80]
  }

  // The code-point arithmetic of get_sequence_2, _3 and _4.
  function Assemble2(b0: bv8, b1: bv8): bv32 {
    ((b0 as bv32 << 6) & 0x7ff) + (b1 as bv32 & 0x3f)
  }

  function Assemble3(b0: bv8, b1: bv8, b2: bv8): bv32 {
    ((b0 as bv32 << 12) & 0xffff) + ((b1 as bv32 << 6) & 0xfff) + (b2 as bv32 & 0x3f)
  }

  function Assemble4(b0: bv8, b1: bv8, b2: bv8, b3: bv8): bv32 {
    ((b0 as bv32 << 18) & 0x1fffff) + ((b1 as bv32 << 12) & 0x3ffff) + ((b2 as bv32 << 6) & 0xfff) + (b3 as bv32 & 0x3f)
  }

  // RFC 3629 section 4, UTF8-char = UTF8-1 / UTF8-2 / UTF8-3 / UTF8-4.
  predicate IsTail(b: bv8) {
    0x80 <= b <= 0xbf
  }

  predicate IsUtf8Char(c: seq<bv8>) {
    if |c| == 1 then
      c[0] <= 0x7f
    else if |c| == 2 then
      0xc2 <= c[0] <= 0xdf && IsTail(c[1])
    else if |c| == 3 then
      && (|| (c[0] == 0xe0 && 0xa0 <= c[1] <= 0xbf)
          || (0xe1 <= c[0] <= 0xec && IsTail(c[1]))
          || (c[0] == 0xed && 0x80 <= c[1] <= 0x9f)
          || (0xee <= c[0] <= 0xef && IsTail(c[1])))
      && IsTail(c[2])
    else if |c| == 4 then
      && (|| (c[0] == 0xf0 && 0x90 <= c[1] <= 0xbf)
          || (0xf1 <= c[0] <= 0xf3 && IsTail(c[1]))
          || (c[0] == 0xf4 && 0x80 <= c[1] <= 0x8f))
      && IsTail(c[2]) && IsTail(c[3])
    else
      false
  }

  lemma Assemble1Facts(b0: bv8)
    requires SequenceLength(b0) == 1
    ensures Encode(b0 as bv32) == [b0] && IsCodePointValid(b0 as bv32)
  {
  }

  lemma Assemble2Facts(b0: bv8, b1: bv8)
    requires SequenceLength(b0) == 2 && IsTrail(b1)
    ensures var cp := Assemble2(b0, b1);
      && IsCodePointValid(cp)
      && (IsOverlongSequence(cp, 2) <==> !IsUtf8Char([b0, b1]))
      && (!IsOverlongSequence(cp, 2) ==> Encode(cp) == [b0, b1])
  {
    assert IsTail(b1) && 0xc0 <= b0 <= 0xdf && Assemble2(b0, b1) < 0x800;
    assert Assemble2(b0, b1) < 0x80 <==> b0 < 0xc2;
  }

  lemma Assemble3Facts(b0: bv8, b1: bv8, b2: bv8)
    requires SequenceLength(b0) == 3 && IsTrail(b1) && IsTrail(b2)
    ensures var cp := Assemble3(b0, b1, b2);
      && (IsCodePointValid(cp) && !IsOverlongSequence(cp, 3) <==> IsUtf8Char([b0, b1, b2]))
      && (!IsOverlongSequence(cp, 3) ==> Encode(cp) == [b0, b1, b2])
  {
  }

  lemma Assemble4Facts(b0: bv8, b1: bv8, b2: bv8, b3: bv8)
    requires SequenceLength(b0) == 4 && IsTrail(b1) && IsTrail(b2) && IsTrail(b3)
    ensures var cp := Assemble4(b0, b1, b2, b3);
      && (IsCodePointValid(cp) && !IsOverlongSequence(cp, 4) <==> IsUtf8Char([b0, b1, b2, b3]))
      && (!IsOverlongSequence(cp, 4) ==> Encode(cp) == [b0, b1, b2, b3])
  {
  }

  lemma EncodeShape(cp: bv32)
    requires IsCodePointValid(cp)
    ensures var e := Encode(cp);
      && 1 <= |e| <= 4 && SequenceLength(e[0]) == |e| && IsUtf8Char(e) && !IsTrail(e[0])
      && (forall k :: 1 <= k < |e| ==> IsTrail(e[k]))
      && !IsOverlongSequence(cp, |e|)
  {
  }

  // The decoder's arithmetic undoes the encoder's, one encoded length at a time.
  lemma EncodeAssembles2(cp: bv32)
    requires 0x80 <= cp < 0x800
    ensures Assemble2(((cp >> 6) & 0xff) as bv8 | 0xc0, (cp & 0x3f) as bv8 | 0x80) == cp
  {
  }

  lemma EncodeAssembles3(cp: bv32)
    requires 0x800 <= cp < 0x10000
    ensures Assemble3(((cp >> 12) & 0xff) as bv8 | 0xe0, ((cp >> 6) & 0x3f) as bv8 | 0x80, (cp & 0x3f) as bv8 | 0x80) == cp
  {
  }

  lemma EncodeAssembles4(cp: bv32)
    requires 0x10000 <= cp <= CODE_POINT_MAX
    ensures Assemble4(((cp >> 18) & 0xff) as bv8 | 0xf0, ((cp >> 12) & 0x3f) as bv8 | 0x80,
                      ((cp >> 6) & 0x3f) as bv8 | 0x80, (cp & 0x3f) as bv8 | 0x80) == cp
  {
  }

  lemma EncodeAssembles(cp: bv32)
    requires IsCodePointValid(cp)
    ensures 1 <= |Encode(cp)| <= 4 && Assemble(Encode(cp), |Encode(cp)|) == cp
  {
    if cp < 0x80 {
    } else if cp < 0x800 {
      EncodeAssembles2(cp);
    } else if cp < 0x10000 {
      EncodeAssembles3(cp);
    } else {
      EncodeAssembles4(cp);
    }
  }

  // What `validate_next` reports for the range whose octets are `t`.
  datatype ScanResult = ScanResult(err: UtfError, length: nat, cp: bv32)

  function Fail(err: UtfError): ScanResult {
    ScanResult(err, 0, 0)
  }

  // The first `n - 1` calls of increase_safely after the lead octet: the first one that
  // runs off the end or meets a non-trail octet decides the error.
  function CheckTrails(t: seq<bv8>, n: nat, k: nat): UtfError
    requires 1 <= k <= |t| && k <= n
    decreases n - k
  {
    if k == n then Utf8Ok
    else if k == |t| then NotEnoughRoom
    else if !IsTrail(t[k]) then IncompleteSequence
    else CheckTrails(t, n, k + 1)
  }

  lemma {:induction false} CheckTrailsMeaning(t: seq<bv8>, n: nat, k: nat)
    requires 1 <= k <= |t| && k <= n
    decreases n - k
    ensures CheckTrails(t, n, k) in {Utf8Ok, NotEnoughRoom, IncompleteSequence}
    ensures CheckTrails(t, n, k) == Utf8Ok <==> n <= |t| && forall j :: k <= j < n ==> IsTrail(t[j])
    ensures CheckTrails(t, n, k) == NotEnoughRoom <==> |t| < n && forall j :: k <= j < |t| ==> IsTrail(t[j])
  {
    if k < n && k < |t| && IsTrail(t[k]) {
      CheckTrailsMeaning(t, n, k + 1);
    }
  }

  function Assemble(t: seq<bv8>, n: nat): bv32
    requires 1 <= n <= 4 && n <= |t|
  {
    if n == 1 then t[0] as bv32
    else if n == 2 then Assemble2(t[0], t[1])
    else if n == 3 then Assemble3(t[0], t[1], t[2])
    else Assemble4(t[0], t[1], t[2], t[3])
  }

  function Scan(t: seq<bv8>): ScanResult
    requires t != []
  {
    var n := SequenceLength(t[0]);
    if n == 0 then Fail(InvalidLead)
    else
      var err := CheckTrails(t, n, 1);
      if err != Utf8Ok then Fail(err)
      else
        CheckTrailsMeaning(t, n, 1);
        var cp := Assemble(t, n);
        if !IsCodePointValid(cp) then Fail(InvalidCodePoint)
        else if IsOverlongSequence(cp, n) then Fail(OverlongSequence)
        else ScanResult(Utf8Ok, n, cp)
  }

  // A well-formed character of RFC 3629 stands at the front of `t`.
  predicate StartsWithUtf8Char(t: seq<bv8>) {
    exists n :: 1 <= n <= |t| && n <= 4 && IsUtf8Char(t[..n])
  }

  lemma Utf8CharShape(c: seq<bv8>)
    requires IsUtf8Char(c)
    ensures SequenceLength(c[0]) == |c| && !IsTrail(c[0])
    ensures forall k :: 1 <= k < |c| ==> IsTrail(c[k])
    ensures IsCodePointValid(Assemble(c, |c|)) && Encode(Assemble(c, |c|)) == c
    ensures !IsOverlongSequence(Assemble(c, |c|), |c|)
  {
    if |c| == 1 {
      Assemble1Facts(c[0]);
    } else if |c| == 2 {
      assert c == [c[0], c[1]];
      Assemble2Facts(c[0], c[1]);
    } else if |c| == 3 {
      assert c == [c[0], c[1], c[2]];
      Assemble3Facts(c[0], c[1], c[2]);
    } else {
      assert c == [c[0], c[1], c[2], c[3]];
      Assemble4Facts(c[0], c[1], c[2], c[3]);
    }
  }

  // validate_next succeeds exactly on the RFC 3629 grammar, and what it decodes
  // re-encodes to the octets it consumed.
  lemma ScanMatchesRfc(t: seq<bv8>)
    requires t != []
    ensures Scan(t).err == Utf8Ok <==> StartsWithUtf8Char(t)
    ensures Scan(t).err == Utf8Ok ==>
      && 1 <= Scan(t).length <= |t| && IsUtf8Char(t[..Scan(t).length])
      && IsCodePointValid(Scan(t).cp) && Encode(Scan(t).cp) == t[..Scan(t).length]
    ensures Scan(t).err != Utf8Ok ==> Scan(t).length == 0 && Scan(t).cp == 0
  {
    var n := SequenceLength(t[0]);
    if n > 0 {
      CheckTrailsMeaning(t, n, 1);
      if CheckTrails(t, n, 1) == Utf8Ok {
        AcceptedIsUtf8Char(t, n);
      }
    }
    if StartsWithUtf8Char(t) {
      FrontCharIsAccepted(t);
    }
  }

  lemma FrontCharIsAccepted(t: seq<bv8>)
    requires StartsWithUtf8Char(t)
    ensures t != [] && Scan(t).err == Utf8Ok
  {
    hide Scan, IsUtf8Char;
    var m :| 1 <= m <= |t| && m <= 4 && IsUtf8Char(t[..m]);
    SplitAt(t, m);
    ScanOfChar(t[..m], t[m..]);
  }

  lemma ScanOfChar(c: seq<bv8>, rest: seq<bv8>)
    requires IsUtf8Char(c)
    ensures Scan(c + rest) == ScanResult(Utf8Ok, |c|, Assemble(c, |c|))
  {
    var t := c + rest;
    Utf8CharShape(c);
    CheckTrailsMeaning(t, |c|, 1);
    assert t[0] == c[0] && forall j :: 1 <= j < |c| ==> t[j] == c[j];
    assert Assemble(c, |c|) == Assemble(t, |c|);
  }

  lemma AcceptedIsUtf8Char(t: seq<bv8>, n: nat)
    requires 1 <= n <= 4 && n <= |t| && SequenceLength(t[0]) == n
    requires forall j :: 1 <= j < n ==> IsTrail(t[j])
    ensures var cp := Assemble(t, n);
      && (IsCodePointValid(cp) && !IsOverlongSequence(cp, n) <==> IsUtf8Char(t[..n]))
      && (!IsOverlongSequence(cp, n) ==> Encode(cp) == t[..n])
  {
    if n == 1 {
      assert t[..n] == [t[0]];
      Assemble1Facts(t[0]);
    } else if n == 2 {
      assert t[..n] == [t[0], t[1]];
      Assemble2Facts(t[0], t[1]);
    } else if n == 3 {
      assert t[..n] == [t[0], t[1], t[2]];
      Assemble3Facts(t[0], t[1], t[2]);
    } else {
      assert t[..n] == [t[0], t[1], t[2], t[3]];
      Assemble4Facts(t[0], t[1], t[2], t[3]);
    }
  }

  // RFC 3629 section 3: the character number is the payload bits of the octets, read
  // from the lead octet to the last trail octet.
  function RfcNumber(c: seq<bv8>): bv32
    requires 1 <= |c| <= 4
  {
    if |c| == 1 then
      c[0] as bv32
    else if |c| == 2 then
      ((c[0] & 0x1f) as bv32 << 6) | (c[1] & 0x3f) as bv32
    else if |c| == 3 then
      ((c[0] & 0x0f) as bv32 << 12) | ((c[1] & 0x3f) as bv32 << 6) | (c[2] & 0x3f) as bv32
    else
      ((c[0] & 0x07) as bv32 << 18) | ((c[1] & 0x3f) as bv32 << 12) | ((c[2] & 0x3f) as bv32 << 6) | (c[3] & 0x3f) as bv32
  }

  // The encoder meets sections 3 and 4 of RFC 3629.
  lemma EncodeMatchesRfc(cp: bv32)
    requires IsCodePointValid(cp)
    ensures IsUtf8Char(Encode(cp)) && RfcNumber(Encode(cp)) == cp
  {
    EncodeShape(cp);
    RfcNumberOfEncode(cp);
  }

  // The decoder's arithmetic is that of section 3 on all octets, well formed or not.
  lemma AssembleIsRfcNumber(t: seq<bv8>, n: nat)
    requires 1 <= n <= 4 && n <= |t|
    ensures Assemble(t, n) == RfcNumber(t[..n])
  {
    if n == 2 {
      SumIsOr2(t[0], t[1]);
    } else if n == 3 {
      SumIsOr3(t[0], t[1], t[2]);
    } else if n == 4 {
      SumIsOr4(t[0], t[1], t[2], t[3]);
    }
  }

  lemma SumIsOr2(a: bv8, b: bv8)
    ensures Assemble2(a, b) == ((a & 0x1f) as bv32 << 6) | (b & 0x3f) as bv32
  {
  }

  lemma SumIsOr3(a: bv8, b: bv8, c: bv8)
    ensures Assemble3(a, b, c) == ((a & 0x0f) as bv32 << 12) | ((b & 0x3f) as bv32 << 6) | (c & 0x3f) as bv32
  {
  }

  lemma SumIsOr4(a: bv8, b: bv8, c: bv8, d: bv8)
    ensures Assemble4(a, b, c, d) ==
            ((a & 0x07) as bv32 << 18) | ((b & 0x3f) as bv32 << 12) | ((c & 0x3f) as bv32 << 6) | (d & 0x3f) as bv32
  {
  }

  // What the unchecked append writes beyond the last code point still carries the number.
  lemma RfcNumberOfEncode(cp: bv32)
    requires cp <= 0x1fffff
    ensures 1 <= |Encode(cp)| <= 4 && RfcNumber(Encode(cp)) == cp
  {
    if cp < 0x80 {
    } else if cp < 0x800 {
      RfcNumber2(cp);
    } else if cp < 0x10000 {
      RfcNumber3(cp);
    } else {
      RfcNumber4(cp);
    }
  }

  lemma RfcNumber2(cp: bv32)
    requires 0x80 <= cp < 0x800
    ensures RfcNumber([((cp >> 6) & 0xff) as bv8 | 0xc0, (cp & 0x3f) as bv8 | 0x80]) == cp
  {
  }

  lemma RfcNumber3(cp: bv32)
    requires 0x800 <= cp < 0x10000
    ensures RfcNumber([((cp >> 12) & 0xff) as bv8 | 0xe0, ((cp >> 6) & 0x3f) as bv8 | 0x80, (cp & 0x3f) as bv8 | 0x80]) == cp
  {
  }

  lemma RfcNumber4(cp: bv32)
    requires 0x10000 <= cp <= 0x1fffff
    ensures RfcNumber([((cp >> 18) & 0xff) as bv8 | 0xf0, ((cp >> 12) & 0x3f) as bv8 | 0x80,
                       ((cp >> 6) & 0x3f) as bv8 | 0x80, (cp & 0x3f) as bv8 | 0x80]) == cp
  {
  }

  // Every valid code point decodes back from its encoding, whatever octets follow.
  lemma ScanOfEncode(cp: bv32, rest: seq<bv8>)
    requires IsCodePointValid(cp)
    ensures Scan(Encode(cp) + rest) == ScanResult(Utf8Ok, |Encode(cp)|, cp)
  {
    EncodeShape(cp);
    EncodeAssembles(cp);
    ScanOfChar(Encode(cp), rest);
  }

  // The length a lead octet announces, by the octet alone; 0xC0, 0xC1 and 0xF5..0xF7 announce
  // one although no character of RFC 3629 starts with them.
  lemma LeadRanges(lead: bv8)
    ensures SequenceLength(lead) == 1 <==> lead <= 0x7f
    ensures SequenceLength(lead) == 2 <==> 0xc0 <= lead <= 0xdf
    ensures SequenceLength(lead) == 3 <==> 0xe0 <= lead <= 0xef
    ensures SequenceLength(lead) == 4 <==> 0xf0 <= lead <= 0xf7
    ensures SequenceLength(lead) == 0 <==> 0x80 <= lead <= 0xbf || 0xf8 <= lead
    ensures IsTrail(lead) <==> 0x80 <= lead <= 0xbf
  {
  }

  // The error codes, stated without the order of the checks.
  lemma ScanErrors(t: seq<bv8>)
    requires t != []
    ensures var n := SequenceLength(t[0]);
      && (Scan(t).err == InvalidLead <==> n == 0)
      && (Scan(t).err == NotEnoughRoom <==> |t| < n && forall j :: 1 <= j < |t| ==> IsTrail(t[j]))
      && (Scan(t).err == IncompleteSequence <==> exists j :: 1 <= j < n && j < |t| && !IsTrail(t[j]))
      && (Scan(t).err == InvalidCodePoint <==>
            1 <= n <= |t| && (forall j :: 1 <= j < n ==> IsTrail(t[j])) && !IsCodePointValid(Assemble(t, n)))
      && (Scan(t).err == OverlongSequence <==>
            1 <= n <= |t| && (forall j :: 1 <= j < n ==> IsTrail(t[j]))
            && IsCodePointValid(Assemble(t, n)) && |Encode(Assemble(t, n))| < n)
  {
    hide Assemble, Encode, IsOverlongSequence, IsCodePointValid, IsTrail, SequenceLength;
    var n := SequenceLength(t[0]);
    LengthIsSmall(t[0]);
    if n > 0 {
      CheckTrailsMeaning(t, n, 1);
      if CheckTrails(t, n, 1) == Utf8Ok {
        OverlongHasShorter(t, n);
      }
    }
  }

  lemma LengthIsSmall(lead: bv8)
    ensures SequenceLength(lead) <= 4
  {
  }

  // A sequence is overlong exactly when its code point has a shorter encoding.
  lemma OverlongHasShorter(t: seq<bv8>, n: nat)
    requires 1 <= n <= 4 && n <= |t| && SequenceLength(t[0]) == n
    requires forall j :: 1 <= j < n ==> IsTrail(t[j])
    ensures IsOverlongSequence(Assemble(t, n), n) <==> |Encode(Assemble(t, n))| < n
  {
    hide Assemble, Encode, IsOverlongSequence, SequenceLength, IsTrail;
    LeadRanges(t[0]);
    AssembledIsSmall(t, n);
    ShorterEncoding(Assemble(t, n), n);
  }

  lemma ShorterEncoding(cp: bv32, n: nat)
    requires 1 <= n <= 4
    requires (n == 1 ==> cp < 0x80) && (n == 2 ==> cp < 0x800) && (n == 3 ==> cp < 0x10000)
    ensures IsOverlongSequence(cp, n) <==> |Encode(cp)| < n
  {
  }

  lemma AssembledIsSmall(t: seq<bv8>, n: nat)
    requires 1 <= n <= 4 && n <= |t| && (n == 1 ==> t[0] < 0x80)
    ensures n == 1 ==> Assemble(t, n) < 0x80
    ensures n == 2 ==> Assemble(t, n) < 0x800
    ensures n == 3 ==> Assemble(t, n) < 0x10000
  {
  }

  // ---- The iterator-moving operations ----

  method IncreaseSafely(s: seq<bv8>, from: nat, end: nat) returns (ret: UtfError, it: nat)
    requires from < end <= |s|
    ensures it == from + 1
    ensures ret == if it == end then NotEnoughRoom else if IsTrail(s[it]) then Utf8Ok else IncompleteSequence
  {
    it := from + 1;
    if it == end {
      return NotEnoughRoom, it;
    }
    if !IsTrail(s[it]) {
      return IncompleteSequence, it;
    }
    ret := Utf8Ok;
  }

  method GetSequence1(s: seq<bv8>, from: nat, end: nat) returns (ret: UtfError, it: nat, codePoint: bv32)
    requires from < end <= |s|
    ensures ret == CheckTrails(s[from..end], 1, 1)
    ensures ret == Utf8Ok ==> it == from && codePoint == Assemble(s[from..end], 1)
  {
    ret, it, codePoint := Utf8Ok, from, s[from] as bv32;
  }

  method GetSequence2(s: seq<bv8>, from: nat, end: nat) returns (ret: UtfError, it: nat, codePoint: bv32)
    requires from < end <= |s|
    ensures ret == CheckTrails(s[from..end], 2, 1)
    ensures ret == Utf8Ok ==> it == from + 1 < end && codePoint == Assemble2(s[from], s[from + 1])
  {
    codePoint := s[from] as bv32;
    ret, it := IncreaseSafely(s, from, end);
    if ret != Utf8Ok { return; }
    codePoint := ((codePoint << 6) & 0x7ff) + (s[it] as bv32 & 0x3f);
  }

  method GetSequence3(s: seq<bv8>, from: nat, end: nat) returns (ret: UtfError, it: nat, codePoint: bv32)
    requires from < end <= |s|
    ensures ret == CheckTrails(s[from..end], 3, 1)
    ensures ret == Utf8Ok ==> it == from + 2 < end && codePoint == Assemble3(s[from], s[from + 1], s[from + 2])
  {
    hide CheckTrails;
    CheckTrailsMeaning(s[from..end], 3, 1);
    assert forall k :: 0 <= k < end - from ==> s[from..end][k] == s[from + k];
    codePoint := s[from] as bv32;
    ret, it := IncreaseSafely(s, from, end);
    if ret != Utf8Ok { return; }
    codePoint := ((codePoint << 12) & 0xffff) + ((s[it] as bv32 << 6) & 0xfff);
    ret, it := IncreaseSafely(s, it, end);
    if ret != Utf8Ok { return; }
    codePoint := codePoint + (s[it] as bv32 & 0x3f);
  }

  method GetSequence4(s: seq<bv8>, from: nat, end: nat) returns (ret: UtfError, it: nat, codePoint: bv32)
    requires from < end <= |s|
    ensures ret == CheckTrails(s[from..end], 4, 1)
    ensures ret == Utf8Ok ==> it == from + 3 < end && codePoint == Assemble4(s[from], s[from + 1], s[from + 2], s[from + 3])
  {
    hide CheckTrails;
    CheckTrailsMeaning(s[from..end], 4, 1);
    assert forall k :: 0 <= k < end - from ==> s[from..end][k] == s[from + k];
    codePoint := s[from] as bv32;
    ret, it := IncreaseSafely(s, from, end);
    if ret != Utf8Ok { return; }
    codePoint := ((codePoint << 18) & 0x1fffff) + ((s[it] as bv32 << 12) & 0x3ffff);
    ret, it := IncreaseSafely(s, it, end);
    if ret != Utf8Ok { return; }
    codePoint := codePoint + ((s[it] as bv32 << 6) & 0xfff);
    ret, it := IncreaseSafely(s, it, end);
    if ret != Utf8Ok { return; }
    codePoint := codePoint + (s[it] as bv32 & 0x3f);
  }

  // `from != end`: the source reads the lead octet before any bounds check.
  // On failure the iterator is put back and the caller's code point is left alone.
  method ValidateNext(s: seq<bv8>, from: nat, end: nat, callersCodePoint: bv32)
    returns (err: UtfError, it: nat, codePoint: bv32)
    requires from < end <= |s|
    ensures err == Utf8Ok <==> StartsWithUtf8Char(s[from..end])
    ensures err == Scan(s[from..end]).err && it == from + Scan(s[from..end]).length
    ensures if err == Utf8Ok
            then from < it <= end && IsUtf8Char(s[from..it]) && IsCodePointValid(codePoint)
                 && codePoint == Scan(s[from..end]).cp && Encode(codePoint) == s[from..it]
            else it == from && codePoint == callersCodePoint
  {
    hide IsUtf8Char, StartsWithUtf8Char, Encode, Assemble2, Assemble3, Assemble4;
    ghost var t := s[from..end];
    ScanMatchesRfc(t);
    CheckTrailsMeaning(t, if SequenceLength(t[0]) == 0 then 1 else SequenceLength(t[0]), 1);
    it, codePoint := from, callersCodePoint;
    var cp: bv32 := 0;
    var length := SequenceLength(s[it]);
    err := Utf8Ok;
    match length {
      case 0 => return InvalidLead, it, codePoint;
      case 1 => err, it, cp := GetSequence1(s, it, end);
      case 2 => err, it, cp := GetSequence2(s, it, end);
      case 3 => err, it, cp := GetSequence3(s, it, end);
      case _ => err, it, cp := GetSequence4(s, it, end);
    }
    if err == Utf8Ok {
      if IsCodePointValid(cp) {
        if !IsOverlongSequence(cp, length) {
          codePoint := cp;
          it := it + 1;
          SubSub(s, from, end, length);
          return;
        } else {
          err := OverlongSequence;
        }
      } else {
        err := InvalidCodePoint;
      }
    }
    it := from;
  }

  // ---- Strings: UTF8-octets = *( UTF8-char ) ----

  predicate IsValid(t: seq<bv8>)
    decreases |t|
  {
    t == [] || exists n :: 1 <= n <= |t| && n <= 4 && IsUtf8Char(t[..n]) && IsValid(t[n..])
  }

  predicate AllValid(cps: seq<bv32>) {
    forall k :: 0 <= k < |cps| ==> IsCodePointValid(cps[k])
  }

  function EncodeAll(cps: seq<bv32>): seq<bv8> {
    if cps == [] then [] else Encode(cps[0]) + EncodeAll(cps[1..])
  }

  // The code points a left-to-right scan reads before the end or the first error.
  function CodePoints(t: seq<bv8>): (cps: seq<bv32>)
    ensures AllValid(cps)
    decreases |t|
  {
    if t == [] then []
    else
      ScanMatchesRfc(t);
      var r := Scan(t);
      if r.err != Utf8Ok then [] else [r.cp] + CodePoints(t[r.length..])
  }

  // The length of what that scan consumes.
  function ValidPrefix(t: seq<bv8>): (n: nat)
    ensures n <= |t|
    decreases |t|
  {
    if t == [] then 0
    else
      ScanMatchesRfc(t);
      var r := Scan(t);
      if r.err != Utf8Ok then 0 else r.length + ValidPrefix(t[r.length..])
  }

  lemma IsValidCons(c: seq<bv8>, rest: seq<bv8>)
    requires IsUtf8Char(c) && IsValid(rest)
    ensures IsValid(c + rest)
  {
    hide IsUtf8Char;
    AppendParts(c, rest);
    assert 1 <= |c| <= 4 by { Utf8CharShape(c); }
  }

  lemma {:induction false} ValidPrefixIsValid(t: seq<bv8>)
    decreases |t|
    ensures IsValid(t[..ValidPrefix(t)])
    ensures ValidPrefix(t) < |t| ==> Scan(t[ValidPrefix(t)..]).err != Utf8Ok
  {
    hide Scan, Encode, IsUtf8Char;
    if t != [] {
      ScanMatchesRfc(t);
      var r := Scan(t);
      if r.err == Utf8Ok {
        var c, rest := t[..r.length], t[r.length..];
        ValidPrefixIsValid(rest);
        var m := ValidPrefix(rest);
        IsValidCons(c, rest[..m]);
        TakeSplit(t, r.length, m);
        DropDrop(t, r.length, m);
      }
    }
  }

  lemma {:induction false} ValidPrefixEncodes(t: seq<bv8>)
    decreases |t|
    ensures EncodeAll(CodePoints(t)) == t[..ValidPrefix(t)]
  {
    hide Scan, Encode, IsUtf8Char;
    if t != [] {
      ScanMatchesRfc(t);
      var r := Scan(t);
      if r.err == Utf8Ok {
        var c, rest := t[..r.length], t[r.length..];
        ValidPrefixEncodes(rest);
        TakeSplit(t, r.length, ValidPrefix(rest));
        assert CodePoints(t) == [r.cp] + CodePoints(rest);
      }
    }
  }

  lemma {:induction false} ValidIsWholePrefix(t: seq<bv8>)
    decreases |t|
    ensures IsValid(t) <==> ValidPrefix(t) == |t|
  {
    hide Scan, Encode, IsUtf8Char;
    if t != [] {
      ScanMatchesRfc(t);
      var r := Scan(t);
      if IsValid(t) {
        var n :| 1 <= n <= |t| && n <= 4 && IsUtf8Char(t[..n]) && IsValid(t[n..]);
        SplitAt(t, n);
        ScanOfChar(t[..n], t[n..]);
        ValidIsWholePrefix(t[n..]);
      }
      if ValidPrefix(t) == |t| {
        ValidIsWholePrefix(t[r.length..]);
      }
    }
  }

  // Decoding undoes encoding, for every list of valid code points.
  lemma {:induction false} DecodeEncodeAll(cps: seq<bv32>)
    requires AllValid(cps)
    ensures CodePoints(EncodeAll(cps)) == cps && IsValid(EncodeAll(cps))
  {
    hide Scan, Encode, IsUtf8Char;
    if cps != [] {
      var e, rest := Encode(cps[0]), EncodeAll(cps[1..]);
      assert IsUtf8Char(e) && |e| > 0 by { EncodeShape(cps[0]); }
      ScanOfEncode(cps[0], rest);
      DecodeEncodeAll(cps[1..]);
      AppendParts(e, rest);
      IsValidCons(e, rest);
      assert CodePoints(e + rest) == [cps[0]] + CodePoints(rest);
    }
  }

  // Encoding undoes decoding, for every valid string.
  lemma EncodeDecodeAll(t: seq<bv8>)
    requires IsValid(t)
    ensures EncodeAll(CodePoints(t)) == t
  {
    hide *;
    ValidPrefixEncodes(t);
    ValidIsWholePrefix(t);
  }

  // The valid strings are exactly the encodings of valid code points.
  lemma ValidIffEncoded(t: seq<bv8>)
    ensures IsValid(t) <==> exists cps :: AllValid(cps) && EncodeAll(cps) == t
  {
    if IsValid(t) {
      EncodeDecodeAll(t);
    }
    forall cps | AllValid(cps) && EncodeAll(cps) == t ensures IsValid(t) {
      DecodeEncodeAll(cps);
    }
  }

  method FindInvalid(s: seq<bv8>, start: nat, end: nat) returns (result: nat)
    requires start <= end <= |s|
    ensures start <= result <= end && IsValid(s[start..result])
    ensures result < end ==> !StartsWithUtf8Char(s[result..end])
    ensures result == end <==> IsValid(s[start..end])
  {
    hide Scan, IsUtf8Char, StartsWithUtf8Char;
    ghost var t := s[start..end];
    ValidPrefixIsValid(t);
    ValidIsWholePrefix(t);
    result := start;
    while result != end
      invariant start <= result <= end
      invariant ValidPrefix(t) == result - start + ValidPrefix(s[result..end])
    {
      ghost var rest := s[result..end];
      ScanMatchesRfc(rest);
      var errCode, next, _ := ValidateNext(s, result, end, 0);
      if errCode != Utf8Ok {
        break;
      }
      SubSub(s, result, end, next - result);
      result := next;
    }
    SubSub(s, start, end, ValidPrefix(t));
  }
}
