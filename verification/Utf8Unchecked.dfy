/**
 * The unchecked interface.  Its operations read as many octets as the lead octet announces
 * without looking at the end of the range, so they demand that those octets exist; on valid
 * input they meet the same specifications as the checked ones.
 */
module Utf8Unchecked {
  import opened SeqFacts
  import opened Utf8Core
  import opened Utf8Checked
  import opened Utf16

  // How far the unchecked `next` moves: an octet that leads nothing is stepped over.
  function Stride(lead: bv8): (n: nat)
    ensures 1 <= n <= 4
  {
    if SequenceLength(lead) == 0 then 1 else SequenceLength(lead)
  }

  // At a well-formed character the unchecked reading is the checked one.
  lemma UncheckedRefinesScan(t: seq<bv8>)
    requires t != [] && StartsWithUtf8Char(t)
    ensures Stride(t[0]) == Scan(t).length <= |t| && Assemble(t, Stride(t[0])) == Scan(t).cp
  {
    hide Assemble2, Assemble3, Assemble4, StartsWithUtf8Char, IsUtf8Char, Encode, SequenceLength, IsCodePointValid;
    ScanMatchesRfc(t);
  }

  method Append(cp: bv32, result: seq<bv8>) returns (out: seq<bv8>)
    ensures out == result + Encode(cp)
  {
    out := result;
    if cp < 0x80 {
      out := out + [cp as bv8];
    } else if cp < 0x800 {
      out := out + [((cp >> 6) & 0xff) as bv8 | 0xc0];
      out := out + [(cp & 0x3f) as bv8 | 0x80];
    } else if cp < 0x10000 {
      out := out + [((cp >> 12) & 0xff) as bv8 | 0xe0];
      out := out + [((cp >> 6) & 0x3f) as bv8 | 0x80];
      out := out + [(cp & 0x3f) as bv8 | 0x80];
    } else {
      out := out + [((cp >> 18) & 0xff) as bv8 | 0xf0];
      out := out + [((cp >> 12) & 0x3f) as bv8 | 0x80];
      out := out + [((cp >> 6) & 0x3f) as bv8 | 0x80];
      out := out + [(cp & 0x3f) as bv8 | 0x80];
    }
    assert out == result + Encode(cp);
  }

  method Next(s: seq<bv8>, from: nat) returns (it: nat, cp: bv32)
    requires from < |s| && from + Stride(s[from]) <= |s|
    ensures it == from + Stride(s[from]) && cp == Assemble(s[from..], Stride(s[from]))
    // The refinement, for every range in which a well-formed character starts here.
    ensures forall end :: from < end <= |s| && StartsWithUtf8Char(s[from..end]) ==>
      it == from + Scan(s[from..end]).length && cp == Scan(s[from..end]).cp
  {
    hide Assemble2, Assemble3, Assemble4, Scan, StartsWithUtf8Char, SequenceLength;
    it, cp := from, s[from] as bv32;
    match SequenceLength(s[it]) {
      case 2 =>
        cp := Assemble2(s[from], s[from + 1]);
        it := it + 1;
      case 3 =>
        cp := Assemble3(s[from], s[from + 1], s[from + 2]);
        it := it + 2;
      case 4 =>
        cp := Assemble4(s[from], s[from + 1], s[from + 2], s[from + 3]);
        it := it + 3;
      case _ =>
    }
    it := it + 1;
    forall end | from < end <= |s| && StartsWithUtf8Char(s[from..end])
      ensures it == from + Scan(s[from..end]).length && cp == Scan(s[from..end]).cp
    {
      UncheckedRefinesScan(s[from..end]);
      AssembleSlice(s, from, end, Stride(s[from]));
    }
  }

  lemma AssembleSlice(s: seq<bv8>, from: nat, end: nat, n: nat)
    requires 1 <= n <= 4 && from + n <= end <= |s|
    ensures Assemble(s[from..end], n) == Assemble(s[from..], n)
  {
    hide Assemble2, Assemble3, Assemble4;
  }

  // The backward step has no start to stop at: it demands a non-trail octet before `from`.
  method Prior(s: seq<bv8>, from: nat) returns (it: nat, cp: bv32)
    requires from <= |s| && LeadBefore(s[..from]) >= 0
    requires LeadBefore(s[..from]) + Stride(s[LeadBefore(s[..from])]) <= |s|
    ensures it == LeadBefore(s[..from]) && cp == Assemble(s[it..], Stride(s[it]))
    ensures forall start :: 0 <= start <= it && StartsWithUtf8Char(s[it..from]) ==>
      LeadBefore(s[start..from]) == it - start && cp == Scan(s[it..from]).cp
  {
    hide Scan, StartsWithUtf8Char, Assemble, SequenceLength, IsTrail;
    ghost var p := LeadBefore(s[..from]);
    it := from - 1;
    while IsTrail(s[it])
      invariant p <= it < from
      invariant forall k :: it < k < from ==> IsTrail(s[k])
      decreases it
    {
      it := it - 1;
    }
    LeadBeforeIs(s[..from], it);
    var _, c := Next(s, it);  // the iterator copy is discarded
    cp := c;
    forall start | 0 <= start <= it && StartsWithUtf8Char(s[it..from])
      ensures LeadBefore(s[start..from]) == it - start && cp == Scan(s[it..from]).cp
    {
      LeadBeforeIs(s[start..from], it - start);
    }
  }

  lemma LeadBeforeIs(t: seq<bv8>, p: nat)
    requires p < |t| && !IsTrail(t[p]) && forall k :: p < k < |t| ==> IsTrail(t[k])
    ensures LeadBefore(t) == p
  {
  }

  method Utf8To32(s: seq<bv8>, from: nat, end: nat, result: seq<bv32>) returns (out: seq<bv32>)
    requires from <= end <= |s| && IsValid(s[from..end])
    ensures out == result + CodePoints(s[from..end])
  {
    hide Scan, StartsWithUtf8Char, SequenceLength, Assemble, IsCodePointValid, IsValid, ValidPrefix;
    var start := from;
    out := result;
    assert CodePoints([]) == [];
    while start < end
      invariant from <= start <= end && IsValid(s[start..end])
      invariant result + CodePoints(s[from..end]) == out + CodePoints(s[start..end])
    {
      ghost var rest := s[start..end];
      ValidStep(rest);
      SubSub(s, start, end, Scan(rest).length);
      var it, cp := Next(s, start);
      out, start := out + [cp], it;
    }
  }

  // A valid range starts with a character, and what follows it is valid.
  lemma ValidStep(t: seq<bv8>)
    requires t != [] && IsValid(t)
    ensures StartsWithUtf8Char(t) && Scan(t).err == Utf8Ok && 1 <= Scan(t).length <= |t|
    ensures Stride(t[0]) == Scan(t).length
    ensures IsValid(t[Scan(t).length..])
    ensures CodePoints(t) == [Scan(t).cp] + CodePoints(t[Scan(t).length..])
  {
    hide Scan, IsUtf8Char;
    ScanMatchesRfc(t);
    ValidIsWholePrefix(t);
    PrefixStepOfValid(t);
    ValidIsWholePrefix(t[Scan(t).length..]);
    UncheckedRefinesScan(t);
  }

  lemma PrefixStepOfValid(t: seq<bv8>)
    requires t != [] && ValidPrefix(t) == |t|
    ensures Scan(t).err == Utf8Ok && 1 <= Scan(t).length <= |t|
    ensures ValidPrefix(t[Scan(t).length..]) == |t| - Scan(t).length
    ensures CodePoints(t) == [Scan(t).cp] + CodePoints(t[Scan(t).length..])
  {
    hide Scan, IsUtf8Char, Encode;
    ScanMatchesRfc(t);
  }

  method Utf8To16(s: seq<bv8>, from: nat, end: nat, result: seq<bv16>) returns (out: seq<bv16>)
    requires from <= end <= |s| && IsValid(s[from..end])
    ensures out == result + ToUtf16(s[from..end])
  {
    hide Scan, StartsWithUtf8Char, SequenceLength, Assemble, IsCodePointValid, IsValid, ValidPrefix, Narrow, LeadWord, TrailWord;
    var start := from;
    out := result;
    assert ToUtf16([]) == [] by { assert CodePoints([]) == []; }
    while start < end
      invariant from <= start <= end && IsValid(s[start..end])
      invariant result + ToUtf16(s[from..end]) == out + ToUtf16(s[start..end])
    {
      ghost var rest, before := s[start..end], out;
      ValidStep(rest);
      SubSub(s, start, end, Scan(rest).length);
      var it, cp := Next(s, start);
      assert ToUtf16(rest) == Encode16(cp) + ToUtf16(s[it..end]);
      if cp > 0xffff {
        out := out + [Narrow(LeadWord(cp))];
        out := out + [Narrow(TrailWord(cp))];
      } else {
        out := out + [Narrow(cp)];
      }
      assert out == before + Encode16(cp);
      ConcatAssoc(before, Encode16(cp), ToUtf16(s[it..end]));
      start := it;
    }
  }

  // The part of the loop body that takes one code point: the second word is not looked at.
  method TakeCodePoint(s: seq<bv16>, from: nat) returns (start: nat, cp: bv32)
    requires from < |s| && (IsLead(s[from]) ==> from + 1 < |s|)
    ensures if IsLead(s[from]) then start == from + 2 && cp == Join(s[from], s[from + 1])
            else start == from + 1 && cp == s[from] as bv32
  {
    hide IsLead, Join;
    start, cp := from + 1, s[from] as bv32;
    if IsLead(s[from]) {
      cp := Join(s[from], s[start]);
      start := start + 1;
    }
  }

  method Utf16To8(s: seq<bv16>, from: nat, end: nat, result: seq<bv8>) returns (out: seq<bv8>)
    requires from <= end <= |s| && WellFormed16(s[from..end])
    ensures out == result + ToUtf8(s[from..end])
  {
    hide WellFormed16, ToUtf8, Exception16, IsLead, IsTrailing, Join, Encode, Encode16, IsCodePointValid;
    var start := from;
    out := result;
    EmptyWalk();
    while start != end
      invariant from <= start <= end && WellFormed16(s[start..end])
      invariant result + ToUtf8(s[from..end]) == out + ToUtf8(s[start..end])
    {
      ghost var rest := s[start..end];
      Scan16Facts(rest);
      Walk16Step(rest);
      assert rest[0] == s[start] && (|rest| > 1 ==> rest[1] == s[start + 1]);
      var next, cp := TakeCodePoint(s, start);
      SubSub(s, start, end, next - start);
      ConcatAssoc(out, Encode(cp), ToUtf8(s[next..end]));
      start := next;
      out := Append(cp, out);
    }
    assert s[start..end] == [];
  }
}
