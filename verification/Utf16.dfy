/** The UTF-16 conversions of the checked interface, against sections 2.1 and 2.2 of RFC 2781. */
module Utf16 {
  import opened SeqFacts
  import opened Utf8Core
  import opened Utf8Checked

  predicate IsLead(u: bv16) {
    IsLeadSurrogate(u as bv32)
  }

  predicate IsTrailing(u: bv16) {
    IsTrailSurrogate(u as bv32)
  }

  // Well-formed UTF-16: every surrogate stands next to its partner.
  predicate WellFormed16(u: seq<bv16>) {
    && (forall i :: 0 <= i < |u| && IsLead(u[i]) ==> i + 1 < |u| && IsTrailing(u[i + 1]))
    && (forall i :: 0 <= i < |u| && IsTrailing(u[i]) ==> i > 0 && IsLead(u[i - 1]))
  }

  // The surrogate arithmetic of the source, all modulo 2^32.
  function JoinWords(lead: bv32, trail: bv32): bv32 {
    (lead << 10) + trail + SURROGATE_OFFSET
  }

  function LeadWord(cp: bv32): bv32 {
    (cp >> 10) + LEAD_OFFSET
  }

  function TrailWord(cp: bv32): bv32 {
    (cp & 0x3ff) + TRAIL_SURROGATE_MIN
  }

  // static_cast<uint16_t>
  function Narrow(w: bv32): bv16 {
    (w & 0xffff) as bv16
  }

  function Join(lead: bv16, trail: bv16): bv32 {
    JoinWords(lead as bv32, trail as bv32)
  }

  // The words `utf8to16` writes for a code point.
  function Encode16(cp: bv32): seq<bv16> {
    if cp > 0xffff then
      [Narrow(LeadWord(cp)), Narrow(TrailWord(cp))]
    else
      [Narrow(cp)]
  }

  function EncodeAll16(cps: seq<bv32>): seq<bv16> {
    if cps == [] then [] else Encode16(cps[0]) + EncodeAll16(cps[1..])
  }

  // RFC 2781 section 2.2: the ten low bits of each word, plus 0x10000.
  lemma JoinValue(lead: bv32, trail: bv32)
    requires IsLeadSurrogate(lead) && IsTrailSurrogate(trail)
    ensures JoinWords(lead, trail) == (((lead & 0x3ff) << 10) | (trail & 0x3ff)) + 0x10000
  {
  }

  // Splitting the joined code point with LEAD_OFFSET gives the two words back.
  lemma JoinSplits(lead: bv32, trail: bv32)
    requires IsLeadSurrogate(lead) && IsTrailSurrogate(trail)
    ensures var cp := JoinWords(lead, trail);
      && 0x10000 <= cp <= CODE_POINT_MAX && LeadWord(cp) == lead && TrailWord(cp) == trail
  {
  }

  lemma SplitJoinsWords(cp: bv32)
    requires 0x10000 <= cp <= CODE_POINT_MAX
    ensures (((cp >> 10) + LEAD_OFFSET) << 10) + ((cp & 0x3ff) + TRAIL_SURROGATE_MIN) + SURROGATE_OFFSET == cp
  {
  }

  lemma SplitJoinsBack(cp: bv32)
    requires 0x10000 <= cp <= CODE_POINT_MAX
    ensures JoinWords(LeadWord(cp), TrailWord(cp)) == cp
  {
    SplitJoinsWords(cp);
  }

  lemma SplitIsSurrogates(cp: bv32)
    requires 0x10000 <= cp <= CODE_POINT_MAX
    ensures IsLeadSurrogate(LeadWord(cp)) && IsTrailSurrogate(TrailWord(cp))
  {
  }

  lemma SplitJoins(cp: bv32)
    requires 0x10000 <= cp <= CODE_POINT_MAX
    ensures IsLeadSurrogate(LeadWord(cp)) && IsTrailSurrogate(TrailWord(cp))
    ensures JoinWords(LeadWord(cp), TrailWord(cp)) == cp
  {
    hide *;
    SplitIsSurrogates(cp);
    SplitJoinsBack(cp);
  }

  lemma NarrowFits(w: bv32)
    requires w <= 0xffff
    ensures Narrow(w) as bv32 == w
  {
  }

  lemma NarrowWiden(w: bv16)
    ensures Narrow(w as bv32) == w
  {
  }

  lemma JoinMatchesRfc(lead: bv16, trail: bv16)
    requires IsLead(lead) && IsTrailing(trail)
    ensures Join(lead, trail) == (((lead as bv32 & 0x3ff) << 10) | (trail as bv32 & 0x3ff)) + 0x10000
    ensures IsCodePointValid(Join(lead, trail)) && Encode16(Join(lead, trail)) == [lead, trail]
  {
    hide JoinWords, LeadWord, TrailWord, Narrow;
    JoinValue(lead as bv32, trail as bv32);
    JoinSplits(lead as bv32, trail as bv32);
    NarrowWiden(lead);
    NarrowWiden(trail);
  }

  lemma SingleWord(u: bv16)
    requires !IsLead(u) && !IsTrailing(u)
    ensures IsCodePointValid(u as bv32) && Encode16(u as bv32) == [u]
  {
  }

  lemma Encode16Shape(cp: bv32)
    requires IsCodePointValid(cp)
    ensures var e := Encode16(cp);
      if cp > 0xffff then |e| == 2 && IsLead(e[0]) && IsTrailing(e[1]) && Join(e[0], e[1]) == cp
      else |e| == 1 && !IsLead(e[0]) && !IsTrailing(e[0]) && e[0] as bv32 == cp
  {
    hide JoinWords, LeadWord, TrailWord, Narrow, IsLead, IsTrailing, Join;
    if cp > 0xffff {
      PairShape(cp);
    } else {
      SingleShape(cp);
    }
  }

  lemma SingleShape(cp: bv32)
    requires cp <= 0xffff && IsCodePointValid(cp)
    ensures !IsLead(Narrow(cp)) && !IsTrailing(Narrow(cp)) && Narrow(cp) as bv32 == cp
  {
    hide Narrow;
    NarrowFits(cp);
  }

  lemma PairShape(cp: bv32)
    requires 0x10000 <= cp <= CODE_POINT_MAX
    ensures var l, t := Narrow(LeadWord(cp)), Narrow(TrailWord(cp));
      IsLead(l) && IsTrailing(t) && Join(l, t) == cp
  {
    hide JoinWords, LeadWord, TrailWord, Narrow;
    SplitJoins(cp);
    NarrowFits(LeadWord(cp));
    NarrowFits(TrailWord(cp));
  }

  // RFC 2781 section 2.1: U' = U - 0x10000 is split into two groups of ten bits.
  function RfcHighWord(cp: bv32): bv32 {
    0xd800 | ((cp - 0x10000) >> 10)
  }

  function RfcLowWord(cp: bv32): bv32 {
    0xdc00 | ((cp - 0x10000) & 0x3ff)
  }

  lemma SplitMatchesRfc(cp: bv32)
    requires 0x10000 <= cp <= CODE_POINT_MAX
    ensures LeadWord(cp) == RfcHighWord(cp) <= 0xffff && TrailWord(cp) == RfcLowWord(cp) <= 0xffff
  {
  }

  lemma Encode16MatchesRfc(cp: bv32)
    requires IsCodePointValid(cp)
    ensures var e := Encode16(cp);
      if cp < 0x10000 then |e| == 1 && e[0] as bv32 == cp
      else |e| == 2 && e[0] as bv32 == RfcHighWord(cp) && e[1] as bv32 == RfcLowWord(cp)
  {
    hide Narrow, LeadWord, TrailWord, RfcHighWord, RfcLowWord;
    if cp < 0x10000 {
      NarrowFits(cp);
    } else {
      SplitMatchesRfc(cp);
      NarrowFits(LeadWord(cp));
      NarrowFits(TrailWord(cp));
    }
  }

  // One turn of the loop of `utf16to8`: a code point and the words it took, or the word
  // that is thrown.
  datatype Step16 = Unit(cp: bv32, length: nat) | Unpaired(word: bv16)

  function Scan16(u: seq<bv16>): Step16
    requires u != []
  {
    if IsLead(u[0]) then
      if |u| == 1 then Unpaired(u[0])
      else if IsTrailing(u[1]) then Unit(Join(u[0], u[1]), 2)
      else Unpaired(u[1])
    else if IsTrailing(u[0]) then Unpaired(u[0])
    else Unit(u[0] as bv32, 1)
  }

  lemma Scan16Facts(u: seq<bv16>)
    requires u != []
    ensures match Scan16(u)
      case Unit(cp, n) => 1 <= n <= |u| && IsCodePointValid(cp) && Encode16(cp) == u[..n]
                          && (WellFormed16(u) <==> WellFormed16(u[n..]))
      case Unpaired(w) => !WellFormed16(u)
  {
    hide Join, Encode16;
    if IsLead(u[0]) {
      if |u| > 1 && IsTrailing(u[1]) {
        JoinMatchesRfc(u[0], u[1]);
        assert u[..2] == [u[0], u[1]];
        SuffixWellFormed(u, 2);
      }
    } else if !IsTrailing(u[0]) {
      SingleWord(u[0]);
      assert u[..1] == [u[0]];
      SuffixWellFormed(u, 1);
    }
  }

  lemma SuffixWellFormed(u: seq<bv16>, n: nat)
    requires 1 <= n <= |u|
    requires WellFormed16(u[..n]) || (n == 1 && !IsLead(u[0]) && !IsTrailing(u[0])) || (n == 2 && IsLead(u[0]) && IsTrailing(u[1]))
    requires n == 1 ==> !IsLead(u[0]) && !IsTrailing(u[0])
    requires n == 2 ==> IsLead(u[0]) && IsTrailing(u[1])
    requires n <= 2
    ensures WellFormed16(u) <==> WellFormed16(u[n..])
  {
    Disjoint16();
    hide IsLead, IsTrailing;
    var v := u[n..];
    assert forall k :: 0 <= k < |v| ==> v[k] == u[n + k];
    if WellFormed16(v) {
      forall i | 0 <= i < |u| && IsLead(u[i]) ensures i + 1 < |u| && IsTrailing(u[i + 1]) {
        if i >= n { assert IsLead(v[i - n]); }
      }
      forall i | 0 <= i < |u| && IsTrailing(u[i]) ensures i > 0 && IsLead(u[i - 1]) {
        if i >= n { assert IsTrailing(v[i - n]); }
      }
    }
  }

  lemma Disjoint16()
    ensures forall w: bv16 :: !(IsLead(w) && IsTrailing(w))
  {
  }

  function CodePoints16(u: seq<bv16>): (cps: seq<bv32>)
    ensures AllValid(cps)
    decreases |u|
  {
    if u == [] then []
    else
      Scan16Facts(u);
      match Scan16(u)
      case Unit(cp, n) => [cp] + CodePoints16(u[n..])
      case Unpaired(_) => []
  }

  // The exception that stops `utf16to8`, if any.
  function Exception16(u: seq<bv16>): Exception
    decreases |u|
  {
    if u == [] then NoThrow
    else
      Scan16Facts(u);
      match Scan16(u)
      case Unit(_, n) => Exception16(u[n..])
      case Unpaired(w) => InvalidUtf16Thrown(w)
  }

  // utf16to8 throws exactly on an unpaired surrogate.
  lemma {:induction false} ThrowsIffUnpaired(u: seq<bv16>)
    decreases |u|
    ensures Exception16(u) == NoThrow <==> WellFormed16(u)
  {
    hide Scan16, WellFormed16;
    if u == [] {
      assert WellFormed16([]) by { EmptyWellFormed(); }
    } else {
      Scan16Facts(u);
      if Scan16(u).Unit? {
        ThrowsIffUnpaired(u[Scan16(u).length..]);
      }
    }
  }

  // The rest r cannot go on, and w is the word that is reported: the surrogate itself, or the
  // word that stands where a lead surrogate's partner should be.
  predicate StopsAt(r: seq<bv16>, w: bv16) {
    r != [] &&
    if IsLead(r[0]) then if |r| == 1 then w == r[0] else !IsTrailing(r[1]) && w == r[1]
    else IsTrailing(r[0]) && w == r[0]
  }

  // Where utf16to8 throws, everything before was well formed and has been converted.
  lemma {:induction false} ThrowPlace(u: seq<bv16>) returns (k: nat)
    requires !WellFormed16(u)
    decreases |u|
    ensures k < |u| && WellFormed16(u[..k]) && CodePoints16(u) == CodePoints16(u[..k])
    ensures Exception16(u).InvalidUtf16Thrown? && StopsAt(u[k..], Exception16(u).u16)
  {
    hide WellFormed16, Encode16, Join, IsLead, IsTrailing;
    if u == [] {
      EmptyWellFormed();
    }
    Scan16Facts(u);
    if Scan16(u).Unpaired? {
      k := 0;
      EmptyWellFormed();
      assert u[0..] == u && u[..0] == [];
    } else {
      var n := Scan16(u).length;
      var rest := ThrowPlace(u[n..]);
      k := n + rest;
      var front := u[..k];
      SameScan(u, k);
      assert front[n..] == u[n..][..rest];
      Scan16Facts(front);
      DropDrop(u, n, rest);
    }
  }

  lemma SameScan(u: seq<bv16>, k: nat)
    requires u != [] && Scan16(u).Unit? && Scan16(u).length <= k <= |u|
    ensures k > 0 && Scan16(u[..k]) == Scan16(u)
  {
    hide Join, IsLead, IsTrailing;
  }

  lemma EmptyWellFormed()
    ensures WellFormed16([])
  {
  }

  lemma {:induction false} EncodeDecode16(u: seq<bv16>)
    requires Exception16(u) == NoThrow
    decreases |u|
    ensures EncodeAll16(CodePoints16(u)) == u
  {
    hide Scan16, WellFormed16, Encode16;
    if u != [] {
      Scan16Facts(u);
      var n := Scan16(u).length;
      EncodeDecode16(u[n..]);
      SplitAt(u, n);
    }
  }

  lemma {:induction false} DecodeEncode16(cps: seq<bv32>)
    requires AllValid(cps)
    ensures CodePoints16(EncodeAll16(cps)) == cps && Exception16(EncodeAll16(cps)) == NoThrow
  {
    hide Encode16, WellFormed16, Join, IsLead, IsTrailing, IsCodePointValid;
    if cps != [] {
      var e, rest := Encode16(cps[0]), EncodeAll16(cps[1..]);
      Encode16Shape(cps[0]);
      DecodeEncode16(cps[1..]);
      AppendParts(e, rest);
      assert Scan16(e + rest) == Unit(cps[0], |e|);
    }
  }

  function ToUtf8(u: seq<bv16>): seq<bv8> {
    EncodeAll(CodePoints16(u))
  }

  function ToUtf16(t: seq<bv8>): seq<bv16> {
    EncodeAll16(CodePoints(t))
  }

  lemma Utf16RoundTrip(u: seq<bv16>)
    requires WellFormed16(u)
    ensures IsValid(ToUtf8(u)) && ToUtf16(ToUtf8(u)) == u
  {
    ThrowsIffUnpaired(u);
    DecodeEncodeAll(CodePoints16(u));
    EncodeDecode16(u);
  }

  lemma Utf8RoundTrip(t: seq<bv8>)
    requires IsValid(t)
    ensures WellFormed16(ToUtf16(t)) && ToUtf8(ToUtf16(t)) == t
  {
    DecodeEncode16(CodePoints(t));
    ThrowsIffUnpaired(ToUtf16(t));
    EncodeDecodeAll(t);
  }

  lemma EmptyWalk()
    ensures WalkException([]) == NoThrow && CodePoints([]) == []
    ensures Exception16([]) == NoThrow && ToUtf8([]) == []
  {
  }

  lemma Walk16Step(u: seq<bv16>)
    requires u != []
    ensures Scan16(u).Unit? ==>
      var cp, n := Scan16(u).cp, Scan16(u).length;
      && 1 <= n <= |u| && IsCodePointValid(cp)
      && ToUtf8(u) == Encode(cp) + ToUtf8(u[n..]) && Exception16(u) == Exception16(u[n..])
    ensures Scan16(u).Unpaired? ==> ToUtf8(u) == [] && Exception16(u) == InvalidUtf16Thrown(Scan16(u).word)
  {
    hide Scan16, Encode, Encode16, WellFormed16, IsCodePointValid;
    Scan16Facts(u);
    assert Scan16(u).Unit? ==> CodePoints16(u)[1..] == CodePoints16(u[Scan16(u).length..]);
  }

  // The part of the loop body of `utf16to8` that takes one code point off the input.
  method TakeCodePoint(s: seq<bv16>, from: nat, end: nat) returns (start: nat, cp: bv32, exc: Exception)
    requires from < end <= |s|
    ensures IsLead(s[from]) && from + 1 == end ==> exc == InvalidUtf16Thrown(s[from])
    ensures IsLead(s[from]) && from + 1 < end && IsTrailing(s[from + 1]) ==>
      exc == NoThrow && start == from + 2 && cp == Join(s[from], s[from + 1])
    ensures IsLead(s[from]) && from + 1 < end && !IsTrailing(s[from + 1]) ==> exc == InvalidUtf16Thrown(s[from + 1])
    ensures !IsLead(s[from]) && IsTrailing(s[from]) ==> exc == InvalidUtf16Thrown(s[from])
    ensures !IsLead(s[from]) && !IsTrailing(s[from]) ==> exc == NoThrow && start == from + 1 && cp == s[from] as bv32
  {
    hide Join, IsLead, IsTrailing;
    start, cp, exc := from + 1, s[from] as bv32, NoThrow;
    if IsLead(s[from]) {
      if start != end {
        start := start + 1;
        if IsTrailing(s[start - 1]) {
          cp := Join(s[from], s[start - 1]);
        } else {
          exc := InvalidUtf16Thrown(s[start - 1]);
        }
      } else {
        exc := InvalidUtf16Thrown(s[start - 1]);
      }
    } else if IsTrailing(s[from]) {
      exc := InvalidUtf16Thrown(s[start - 1]);
    }
  }

  method Utf16To8(s: seq<bv16>, from: nat, end: nat, result: seq<bv8>) returns (out: seq<bv8>, exc: Exception)
    requires from <= end <= |s|
    ensures out == result + ToUtf8(s[from..end])
    ensures exc == Exception16(s[from..end])
    ensures exc == NoThrow <==> WellFormed16(s[from..end])
  {
    hide WellFormed16, Encode, IsUtf8Char, IsCodePointValid, RfcNumber, ToUtf8, Exception16, IsLead, IsTrailing, Join;
    ghost var t := s[from..end];
    ThrowsIffUnpaired(t);
    EmptyWalk();
    var start := from;
    out, exc := result, NoThrow;
    while start != end
      invariant from <= start <= end
      invariant result + ToUtf8(t) == out + ToUtf8(s[start..end])
      invariant Exception16(t) == Exception16(s[start..end]) && exc == NoThrow
    {
      ghost var rest := s[start..end];
      Walk16Step(rest);
      assert rest[0] == s[start] && (|rest| > 1 ==> rest[1] == s[start + 1]);
      var next, cp, e := TakeCodePoint(s, start, end);
      if e != NoThrow {
        return out, e;
      }
      SubSub(s, start, end, next - start);
      ConcatAssoc(out, Encode(cp), ToUtf8(s[next..end]));
      start := next;
      out, exc := Append(cp, out);
    }
  }

  method Utf8To16(s: seq<bv8>, from: nat, end: nat, result: seq<bv16>) returns (out: seq<bv16>, exc: Exception)
    requires from <= end <= |s|
    ensures out == result + ToUtf16(s[from..end])
    ensures exc == WalkException(s[from..end])
    ensures exc == NoThrow <==> IsValid(s[from..end])
  {
    hide Scan, NextException, StartsWithUtf8Char, Encode, IsUtf8Char, IsCodePointValid, ValidPrefix, WalkException, Narrow, LeadWord, TrailWord;
    ghost var t := s[from..end];
    WalkThrows(t);
    var start := from;
    out, exc := result, NoThrow;
    EmptyWalk();
    while start != end
      invariant from <= start <= end
      invariant result + ToUtf16(t) == out + ToUtf16(s[start..end])
      invariant WalkException(t) == WalkException(s[start..end])
    {
      ghost var rest := s[start..end];
      var it, cp, e := Next(s, start, end);
      if e != NoThrow {
        StuckWalk(rest);
        return out, e;
      }
      WalkStep(rest);
      SubSub(s, start, end, it - start);
      assert ToUtf16(rest) == Encode16(cp) + ToUtf16(s[it..end]);
      ghost var before := out;
      if cp > 0xffff {
        out := out + [Narrow(LeadWord(cp))];
        out := out + [Narrow(TrailWord(cp))];
      } else {
        out := out + [Narrow(cp)];
      }
      assert out == before + Encode16(cp);
      ConcatAssoc(before, Encode16(cp), ToUtf16(s[it..end]));
      start := it;
    }
  }
}
