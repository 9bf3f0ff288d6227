/**
 * The checked UTF-8 interface: append, next, prior, replace_invalid, distance and the
 * UTF-32 conversions.  An exception is an out-parameter; an output iterator is a sequence
 * that grows at its end.
 */
module Utf8Checked {
  import opened SeqFacts
  import opened Utf8Core

  datatype Exception =
    | NoThrow
    | InvalidCodePointThrown(cp: bv32)
    | InvalidUtf8Thrown(u8: bv8)
    | InvalidUtf16Thrown(u16: bv16)
    | NotEnoughRoomThrown

  // What `next` throws for the range whose octets are `t`.  The code point it reports
  // with invalid_code_point is its own zero, not the one that was decoded.
  function NextException(t: seq<bv8>): Exception
    requires t != []
  {
    match Scan(t).err
    case Utf8Ok => NoThrow
    case NotEnoughRoom => NotEnoughRoomThrown
    case InvalidCodePoint => InvalidCodePointThrown(0)
    case _ => InvalidUtf8Thrown(t[0])
  }

  // The octets the lead octet announces, as far as they are there, are trail octets.
  predicate TrailsHold(t: seq<bv8>)
    requires t != []
  {
    forall j :: 1 <= j < SequenceLength(t[0]) && j < |t| ==> IsTrail(t[j])
  }

  // Which exception is thrown, by the octets.
  lemma ExceptionByOctets(t: seq<bv8>)
    requires t != []
    ensures var n, e := SequenceLength(t[0]), NextException(t);
      && (e == NotEnoughRoomThrown <==> |t| < n && TrailsHold(t))
      && (e == InvalidCodePointThrown(0) <==>
            1 <= n <= |t| && TrailsHold(t) && !IsCodePointValid(Assemble(t, n)))
      && (e == InvalidUtf8Thrown(t[0]) <==>
            n == 0 || !TrailsHold(t)
            || (n <= |t| && IsCodePointValid(Assemble(t, n)) && |Encode(Assemble(t, n))| < n))
      && (e == NoThrow <==> StartsWithUtf8Char(t))
      && e in {NoThrow, NotEnoughRoomThrown, InvalidCodePointThrown(0), InvalidUtf8Thrown(t[0])}
  {
    hide Scan, Assemble, Encode, IsCodePointValid, IsTrail, SequenceLength, StartsWithUtf8Char;
    ScanErrors(t);
    ScanMatchesRfc(t);
    LengthIsSmall(t[0]);
  }

  method Append(cp: bv32, result: seq<bv8>) returns (out: seq<bv8>, exc: Exception)
    ensures IsCodePointValid(cp) ==>
      exc == NoThrow && out == result + Encode(cp) && IsUtf8Char(out[|result|..]) && RfcNumber(out[|result|..]) == cp
    ensures !IsCodePointValid(cp) ==> exc == InvalidCodePointThrown(cp) && out == result
  {
    out, exc := result, NoThrow;
    if !IsCodePointValid(cp) {
      return out, InvalidCodePointThrown(cp);
    }
    EncodeMatchesRfc(cp);
    if cp < 0x80 {
      out := out + [cp as bv8];
    } else if cp < 0x800 {
      out := out + [((cp >> 6) & 0xff) as bv8 | 0xc0];
      out := out + [(cp & 0x3f) as bv8 | 0x80];
    } else if cp < 0x10000 {
      out := out + [((cp >> 12) & 0xff) as bv8 | 0xe0];
      out := out + [((cp >> 6) & 0x3f) as bv8 | 0x80];
      out := out + [(cp & 0x3f) as bv8 | 0x80];
    } else {
      out := out + [((cp >> 18) & 0xff) as bv8 | 0xf0];
      out := out + [((cp >> 12) & 0x3f) as bv8 | 0x80];
      out := out + [((cp >> 6) & 0x3f) as bv8 | 0x80];
      out := out + [(cp & 0x3f) as bv8 | 0x80];
    }
    assert out[|result|..] == Encode(cp);
  }

  method Next(s: seq<bv8>, from: nat, end: nat) returns (it: nat, cp: bv32, exc: Exception)
    requires from < end <= |s|
    ensures exc == NextException(s[from..end])
    ensures exc == NotEnoughRoomThrown <==> end - from < SequenceLength(s[from]) && TrailsHold(s[from..end])
    ensures exc.InvalidUtf8Thrown? ==> exc.u8 == s[from]
    ensures !TrailsHold(s[from..end]) || SequenceLength(s[from]) == 0 ==> exc == InvalidUtf8Thrown(s[from])
    ensures exc == NoThrow <==> StartsWithUtf8Char(s[from..end])
    ensures exc == NoThrow <==> Scan(s[from..end]).err == Utf8Ok
    ensures if exc == NoThrow
            then from < it <= end && Encode(cp) == s[from..it] && IsCodePointValid(cp)
                 && it == from + Scan(s[from..end]).length && cp == Scan(s[from..end]).cp
            else it == from
  {
    hide Scan, Encode, StartsWithUtf8Char, IsUtf8Char, TrailsHold, SequenceLength, IsCodePointValid;
    ExceptionByOctets(s[from..end]);
    var err;
    err, it, cp := ValidateNext(s, from, end, 0);
    match err {
      case Utf8Ok => exc := NoThrow;
      case NotEnoughRoom => exc := NotEnoughRoomThrown;
      case InvalidCodePoint => exc := InvalidCodePointThrown(cp);
      case _ => exc := InvalidUtf8Thrown(s[it]);
    }
  }

  // ---- Stepping backwards ----

  // Where the backward loop of `prior` stops: the last non-trail octet, or -1.
  function LeadBefore(t: seq<bv8>): (p: int)
    ensures -1 <= p < |t|
    ensures p >= 0 ==> !IsTrail(t[p])
    ensures forall k :: p < k < |t| ==> IsTrail(t[k])
  {
    if t == [] then -1
    else if !IsTrail(t[|t| - 1]) then |t| - 1
    else LeadBefore(t[..|t| - 1])
  }

  method Prior(s: seq<bv8>, start: nat, from: nat) returns (it: nat, cp: bv32, exc: Exception)
    requires start <= from <= |s|
    ensures var t := s[start..from]; var p := LeadBefore(t);
      if t == [] then exc == NotEnoughRoomThrown && it == from
      else if p < 0 then exc == InvalidUtf8Thrown(t[0]) && it == start
      else it == start + p && exc == NextException(t[p..]) && (exc == NoThrow ==> cp == Scan(t[p..]).cp)
  {
    hide Scan, IsUtf8Char, StartsWithUtf8Char, Encode;
    it, cp := from, 0;
    if it == start {
      return it, cp, NotEnoughRoomThrown;
    }
    ghost var t := s[start..from];
    var end := it;
    it := it - 1;
    while IsTrail(s[it])
      invariant start <= it < end
      invariant forall k :: it < k < from ==> IsTrail(s[k])
      decreases it
    {
      if it == start {
        assert forall k :: 0 <= k < |t| ==> IsTrail(t[k]);
        return it, cp, InvalidUtf8Thrown(s[it]);
      }
      it := it - 1;
    }
    assert t[it - start] == s[it] && forall k :: it - start < k < |t| ==> t[k] == s[start + k];
    SubSub(s, start, from, it - start);
    var _, c, e := Next(s, it, end);  // peek_next: the iterator copy is discarded
    cp, exc := c, e;
  }

  lemma {:induction false} EncodeAllAppend(a: seq<bv32>, b: seq<bv32>)
    ensures EncodeAll(a + b) == EncodeAll(a) + EncodeAll(b)
  {
    hide Encode;
    if a == [] {
      assert a + b == b;
    } else {
      assert (a + b)[1..] == a[1..] + b;
      EncodeAllAppend(a[1..], b);
      ConcatAssoc(Encode(a[0]), EncodeAll(a[1..]), EncodeAll(b));
    }
  }

  // Self-synchronisation: from the end of any text that ends in an encoded code point,
  // the backward step stops where that code point starts and reads it, whatever octets
  // come before.
  lemma PriorFindsLast(before: seq<bv8>, cp: bv32)
    requires IsCodePointValid(cp)
    ensures var t := before + Encode(cp);
      && LeadBefore(t) == |before|
      && Scan(t[|before|..]) == ScanResult(Utf8Ok, |Encode(cp)|, cp)
  {
    var e := Encode(cp);
    var t := before + e;
    assert 1 <= |e| <= 4 && !IsTrail(e[0]) && forall k :: 1 <= k < |e| ==> IsTrail(e[k]) by { EncodeShape(cp); }
    assert Scan(e) == ScanResult(Utf8Ok, |e|, cp) by {
      ScanOfEncode(cp, []);
      assert e + [] == e;
    }
    hide Encode, Scan, IsTrail;
    AppendParts(before, e);
    assert t[|before|] == e[0];
    assert forall k :: |before| < k < |t| ==> t[k] == e[k - |before|];
  }

  // The code points that repeated `prior` reads from the end of `t` until it throws or
  // reaches the start.
  function CodePointsBackwards(t: seq<bv8>): seq<bv32>
    decreases |t|
  {
    var p := LeadBefore(t);
    if p < 0 || Scan(t[p..]).err != Utf8Ok then [] else [Scan(t[p..]).cp] + CodePointsBackwards(t[..p])
  }

  lemma {:induction false} BackwardsOfEncoded(cps: seq<bv32>)
    requires AllValid(cps)
    ensures CodePointsBackwards(EncodeAll(cps)) == Reversed(cps)
  {
    hide Encode, Scan;
    if cps != [] {
      var n := |cps| - 1;
      var init, last := cps[..n], cps[n];
      assert cps == init + [last];
      EncodeAllAppend(init, [last]);
      assert EncodeAll([last]) == Encode(last) + [] == Encode(last);
      PriorFindsLast(EncodeAll(init), last);
      AppendParts(EncodeAll(init), Encode(last));
      BackwardsOfEncoded(init);
    }
  }

  // On every valid string the backward walk lists the forward walk's code points backwards.
  lemma PriorListsBackwards(t: seq<bv8>)
    requires IsValid(t)
    ensures CodePointsBackwards(t) == Reversed(CodePoints(t))
  {
    EncodeDecodeAll(t);
    BackwardsOfEncoded(CodePoints(t));
  }

  // ---- Whole-range conversions ----

  // How a left-to-right walk with `next` over `t` ends.
  function WalkException(t: seq<bv8>): Exception {
    if ValidPrefix(t) == |t| then NoThrow else NextException(t[ValidPrefix(t)..])
  }

  // It ends at the octets behind the longest valid front part, with the exception they cause.
  lemma WalkExceptionByOctets(t: seq<bv8>)
    ensures var rest, e := t[ValidPrefix(t)..], WalkException(t);
      && (e == NoThrow <==> rest == [])
      && (rest != [] ==>
            var n := SequenceLength(rest[0]);
            && (e == NotEnoughRoomThrown <==> |rest| < n && TrailsHold(rest))
            && (e == InvalidCodePointThrown(0) <==>
                  1 <= n <= |rest| && TrailsHold(rest) && !IsCodePointValid(Assemble(rest, n)))
            && (e == InvalidUtf8Thrown(rest[0]) <==>
                  n == 0 || !TrailsHold(rest)
                  || (n <= |rest| && IsCodePointValid(Assemble(rest, n)) && |Encode(Assemble(rest, n))| < n)))
  {
    hide Assemble, Encode, IsCodePointValid, IsTrail, SequenceLength, StartsWithUtf8Char, NextException, TrailsHold, Scan;
    var rest := t[ValidPrefix(t)..];
    if rest != [] {
      ExceptionByOctets(rest);
      StuckAt(t);
      LengthIsSmall(rest[0]);
    }
  }

  lemma StuckAt(t: seq<bv8>)
    requires ValidPrefix(t) < |t|
    ensures NextException(t[ValidPrefix(t)..]) != NoThrow
  {
    ValidPrefixIsValid(t);
  }

  // One step of that walk, from any position it has reached.
  lemma WalkStep(t: seq<bv8>)
    requires t != [] && Scan(t).err == Utf8Ok
    ensures var n := Scan(t).length;
      && 1 <= n <= |t|
      && CodePoints(t) == [Scan(t).cp] + CodePoints(t[n..])
      && ValidPrefix(t) == n + ValidPrefix(t[n..])
      && WalkException(t) == WalkException(t[n..])
  {
    hide Scan, NextException, Encode, IsUtf8Char, IsCodePointValid, CodePoints, ValidPrefix, AllValid;
    ScanMatchesRfc(t);
    PrefixStep(t);
    DropDrop(t, Scan(t).length, ValidPrefix(t[Scan(t).length..]));
  }

  lemma PrefixStep(t: seq<bv8>)
    requires t != [] && Scan(t).err == Utf8Ok && 1 <= Scan(t).length <= |t|
    ensures CodePoints(t) == [Scan(t).cp] + CodePoints(t[Scan(t).length..])
    ensures ValidPrefix(t) == Scan(t).length + ValidPrefix(t[Scan(t).length..])
  {
    hide Scan, Encode, IsUtf8Char, IsCodePointValid;
  }

  lemma StuckWalk(t: seq<bv8>)
    requires t != [] && Scan(t).err != Utf8Ok
    ensures CodePoints(t) == [] && ValidPrefix(t) == 0 && WalkException(t) == NextException(t)
  {
    hide Scan, NextException;
    assert t[0..] == t;
  }

  lemma WalkThrows(t: seq<bv8>)
    ensures WalkException(t) == NoThrow <==> IsValid(t)
  {
    ValidIsWholePrefix(t);
    ValidPrefixIsValid(t);
  }

  method Utf8To32(s: seq<bv8>, from: nat, end: nat, result: seq<bv32>) returns (out: seq<bv32>, exc: Exception)
    requires from <= end <= |s|
    ensures out == result + CodePoints(s[from..end])
    ensures exc == WalkException(s[from..end])
    ensures exc == NoThrow <==> IsValid(s[from..end])
  {
    hide Scan, NextException, StartsWithUtf8Char, Encode, IsUtf8Char, IsCodePointValid, ValidPrefix;
    ghost var t := s[from..end];
    WalkThrows(t);
    var start := from;
    out, exc := result, NoThrow;
    while start != end
      invariant from <= start <= end
      invariant result + CodePoints(t) == out + CodePoints(s[start..end])
      invariant WalkException(t) == WalkException(s[start..end])
    {
      ghost var rest := s[start..end];
      var it, cp, e := Next(s, start, end);
      if e != NoThrow {
        StuckWalk(rest);
        return out, e;
      }
      WalkStep(rest);
      SubSub(s, start, end, it - start);
      out, start := out + [cp], it;
    }
  }

  method Utf32To8(s: seq<bv32>, from: nat, end: nat, result: seq<bv8>) returns (out: seq<bv8>, exc: Exception)
    requires from <= end <= |s|
    ensures exc == NoThrow <==> AllValid(s[from..end])
    ensures exc == NoThrow ==> out == result + EncodeAll(s[from..end])
    ensures exc != NoThrow ==>
      (exists k :: from <= k < end && AllValid(s[from..k]) && !IsCodePointValid(s[k])
                   && exc == InvalidCodePointThrown(s[k]) && out == result + EncodeAll(s[from..k]))
  {
    hide Encode, IsUtf8Char, IsCodePointValid;
    var start := from;
    out, exc := result, NoThrow;
    assert s[from..start] == [];
    while start != end
      invariant from <= start <= end
      invariant AllValid(s[from..start])
      invariant out == result + EncodeAll(s[from..start])
    {
      var o, e := Append(s[start], out);
      if e != NoThrow {
        assert s[from..end][start - from] == s[start];
        return out, e;
      }
      assert s[from..start + 1] == s[from..start] + [s[start]];
      EncodeAllAppend(s[from..start], [s[start]]);
      assert EncodeAll([s[start]]) == Encode(s[start]) + [] == Encode(s[start]);
      out, start := o, start + 1;
    }
  }

  method Distance(s: seq<bv8>, first: nat, last: nat) returns (dist: nat, exc: Exception)
    requires first <= last <= |s|
    ensures exc == WalkException(s[first..last]) && dist == |CodePoints(s[first..last])|
  {
    hide Scan, NextException, StartsWithUtf8Char, Encode, IsUtf8Char;
    ghost var t := s[first..last];
    var it := first;
    dist, exc := 0, NoThrow;
    while it < last
      invariant first <= it <= last
      invariant |CodePoints(t)| == dist + |CodePoints(s[it..last])|
      invariant WalkException(t) == WalkException(s[it..last])
    {
      ghost var rest := s[it..last];
      var next, _, e := Next(s, it, last);
      if e != NoThrow {
        StuckWalk(rest);
        return dist, e;
      }
      WalkStep(rest);
      SubSub(s, it, last, next - it);
      it, dist := next, dist + 1;
    }
  }
}
