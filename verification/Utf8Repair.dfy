/** `replace_invalid`: repair of malformed UTF-8 with a replacement mark. */
module Utf8Repair {
  import opened SeqFacts
  import opened Utf8Core
  import opened Utf8Checked

  function TrailRun(t: seq<bv8>): (n: nat)
    ensures n <= |t|
    ensures forall k :: 0 <= k < n ==> IsTrail(t[k])
    ensures n < |t| ==> !IsTrail(t[n])
  {
    if t == [] || !IsTrail(t[0]) then 0 else 1 + TrailRun(t[1..])
  }

  // How many octets the step at the front of `t` consumes when it does not throw.
  function StepLength(t: seq<bv8>): (n: nat)
    requires t != []
    ensures 1 <= n <= |t|
  {
    ScanMatchesRfc(t);
    match Scan(t).err
    case Utf8Ok => Scan(t).length
    case InvalidLead => 1
    case _ => 1 + TrailRun(t[1..])
  }

  datatype Repaired = Repaired(out: seq<bv8>, truncated: bool)

  // The repair of `t`: characters are copied, each defect becomes one mark, and a
  // truncated last sequence stops the repair.
  function Repair(t: seq<bv8>, mark: seq<bv8>): Repaired
    decreases |t|
  {
    if t == [] then Repaired([], false)
    else if Scan(t).err == NotEnoughRoom then Repaired([], true)
    else
      var n := StepLength(t);
      var rest := Repair(t[n..], mark);
      Repaired((if Scan(t).err == Utf8Ok then t[..n] else mark) + rest.out, rest.truncated)
  }

  // The string ends in a lead octet that promises more octets than are left, with nothing
  // but trail octets after it.
  predicate EndsTruncated(t: seq<bv8>) {
    var p := LeadBefore(t);
    p >= 0 && SequenceLength(t[p]) > |t| - p
  }

  lemma {:induction false} RepairIsValid(t: seq<bv8>, mark: seq<bv8>)
    requires IsUtf8Char(mark)
    decreases |t|
    ensures IsValid(Repair(t, mark).out)
  {
    hide Scan, IsUtf8Char;
    if t != [] && Scan(t).err != NotEnoughRoom {
      ScanMatchesRfc(t);
      var n := StepLength(t);
      RepairIsValid(t[n..], mark);
      IsValidCons(if Scan(t).err == Utf8Ok then t[..n] else mark, Repair(t[n..], mark).out);
    }
  }

  lemma {:induction false} RepairOfValid(t: seq<bv8>, mark: seq<bv8>)
    requires ValidPrefix(t) == |t|
    decreases |t|
    ensures Repair(t, mark) == Repaired(t, false)
  {
    hide Scan, IsUtf8Char;
    if t != [] {
      ScanMatchesRfc(t);
      var n := StepLength(t);
      RepairOfValid(t[n..], mark);
      SplitAt(t, n);
    }
  }

  // A step starts at every non-trail octet: it never jumps over one.
  lemma StepStopsAtLead(t: seq<bv8>)
    requires t != [] && Scan(t).err != NotEnoughRoom
    ensures forall k :: 1 <= k < StepLength(t) ==> IsTrail(t[k])
    ensures (forall k :: 1 <= k < |t| ==> IsTrail(t[k])) ==> SequenceLength(t[0]) <= |t|
  {
    var n := SequenceLength(t[0]);
    if n > 0 {
      CheckTrailsMeaning(t, n, 1);
    }
  }

  lemma StepKeepsTruncation(t: seq<bv8>)
    requires t != [] && Scan(t).err != NotEnoughRoom
    ensures EndsTruncated(t) <==> EndsTruncated(t[StepLength(t)..])
  {
    hide Scan, SequenceLength, StepLength, IsTrail;
    StepStopsAtLead(t);
    var n, p := StepLength(t), LeadBefore(t);
    var u := t[n..];
    var q := LeadBefore(u);
    assert forall k :: 0 <= k < |u| ==> u[k] == t[n + k];
    if q >= 0 {
      assert !IsTrail(t[n + q]);
      assert p == n + q;
    } else {
      forall k | 1 <= k < |t| ensures IsTrail(t[k]) {
        if n <= k { assert u[k - n] == t[k]; }
      }
    }
  }

  // replace_invalid runs out of input exactly on a truncated final sequence.
  lemma {:induction false} RepairStopsIffTruncated(t: seq<bv8>, mark: seq<bv8>)
    decreases |t|
    ensures Repair(t, mark).truncated <==> EndsTruncated(t)
  {
    hide Scan;
    if t == [] {

    } else if Scan(t).err == NotEnoughRoom {
      TruncatedNow(t);
    } else {
      StepKeepsTruncation(t);
      RepairStopsIffTruncated(t[StepLength(t)..], mark);
    }
  }

  lemma TruncatedNow(t: seq<bv8>)
    requires t != [] && Scan(t).err == NotEnoughRoom
    ensures EndsTruncated(t)
  {
    ScanErrors(t);
  }

  // A valid front part is copied through unchanged.
  lemma {:induction false} RepairAfterValid(v: seq<bv8>, rest: seq<bv8>, mark: seq<bv8>)
    requires IsValid(v)
    decreases |v|
    ensures Repair(v + rest, mark) == Repaired(v + Repair(rest, mark).out, Repair(rest, mark).truncated)
  {
    hide Scan, IsUtf8Char;
    if v == [] {
      assert v + rest == rest;
      assert v + Repair(rest, mark).out == Repair(rest, mark).out;
    } else {
      var n :| 1 <= n <= |v| && n <= 4 && IsUtf8Char(v[..n]) && IsValid(v[n..]);
      var c, w := v[..n], v[n..];
      SplitAt(v, n);
      ScanOfChar(c, w + rest);
      ConcatAssoc(c, w, rest);
      AppendParts(c, w + rest);
      RepairAfterValid(w, rest, mark);
      ConcatAssoc(c, w, Repair(rest, mark).out);
    }
  }

  // A maximal ill-formed run: one octet that can lead nothing, or a lead octet with all the
  // trail octets behind it when no character starts there.
  predicate IsDefect(d: seq<bv8>, rest: seq<bv8>) {
    && d != []
    && if SequenceLength(d[0]) == 0 then |d| == 1
       else
         && (forall k :: 1 <= k < |d| ==> IsTrail(d[k]))
         && !StartsWithUtf8Char(d)
         && (rest != [] ==> !IsTrail(rest[0]))
         && (rest == [] ==> SequenceLength(d[0]) <= |d|)
  }

  // Each defect becomes exactly one mark.
  lemma RepairDefect(d: seq<bv8>, rest: seq<bv8>, mark: seq<bv8>)
    requires IsDefect(d, rest)
    ensures Repair(d + rest, mark) == Repaired(mark + Repair(rest, mark).out, Repair(rest, mark).truncated)
  {
    var t := d + rest;
    DefectFails(d, rest);
    hide Scan, StartsWithUtf8Char, SequenceLength;
    AppendParts(d, rest);
    assert forall k :: 0 <= k < |d| ==> t[k] == d[k];
    assert rest != [] ==> t[|d|] == rest[0];
    if Scan(t).err != InvalidLead {
      TrailRunIs(t[1..], |d| - 1);
      assert StepLength(t) == |d|;
    }
  }

  // A truncated end writes nothing: neither a mark nor the octets that are there.
  lemma TruncatedEnd(t: seq<bv8>, mark: seq<bv8>)
    requires t != [] && |t| < SequenceLength(t[0]) && TrailsHold(t)
    ensures Repair(t, mark) == Repaired([], true)
  {
    hide Scan, SequenceLength;
    ScanErrors(t);
  }

  lemma {:induction false} TrailRunIs(u: seq<bv8>, n: nat)
    requires n <= |u| && (forall k :: 0 <= k < n ==> IsTrail(u[k])) && (n < |u| ==> !IsTrail(u[n]))
    ensures TrailRun(u) == n
  {
    if n > 0 {
      TrailRunIs(u[1..], n - 1);
    }
  }

  lemma DefectFails(d: seq<bv8>, rest: seq<bv8>)
    requires IsDefect(d, rest)
    ensures Scan(d + rest).err !in {Utf8Ok, NotEnoughRoom}
    ensures Scan(d + rest).err == InvalidLead <==> SequenceLength(d[0]) == 0
  {
    var t := d + rest;
    ScanErrors(t);
    ScanMatchesRfc(t);
    CharWithin(d, rest);
    hide Scan, SequenceLength, IsUtf8Char, StartsWithUtf8Char;
    assert forall k :: 0 <= k < |d| ==> t[k] == d[k];
    assert rest != [] ==> t[|d|] == rest[0];
  }

  // A character at the front of d ++ rest lies inside d when d is long enough for its lead.
  lemma CharWithin(d: seq<bv8>, rest: seq<bv8>)
    requires d != []
    ensures StartsWithUtf8Char(d + rest) ==>
      SequenceLength(d[0]) > 0
      && (SequenceLength(d[0]) <= |d| ==> StartsWithUtf8Char(d))
      && (forall k :: |d| <= k < SequenceLength(d[0]) ==> k < |d + rest| && IsTrail((d + rest)[k]))
  {
    hide SequenceLength, IsUtf8Char;
    var t := d + rest;
    if StartsWithUtf8Char(t) {
      var n :| 1 <= n <= |t| && n <= 4 && IsUtf8Char(t[..n]);
      Utf8CharShape(t[..n]);
      assert t[..n][0] == d[0];
      if n <= |d| {
        assert t[..n] == d[..n];
      }
      assert forall k :: 0 <= k < n ==> t[..n][k] == t[k];
    }
  }

  // The three promises of replace_invalid for a valid replacement.
  lemma RepairLaws(t: seq<bv8>, replacement: bv32)
    requires IsCodePointValid(replacement)
    ensures var mark := Encode(replacement); var r := Repair(t, mark);
      && IsValid(r.out)
      && Repair(r.out, mark) == Repaired(r.out, false)
      && (IsValid(t) ==> r == Repaired(t, false))
      && (r.truncated <==> EndsTruncated(t))
  {
    var mark := Encode(replacement);
    EncodeShape(replacement);
    RepairIsValid(t, mark);
    var out := Repair(t, mark).out;
    ValidIsWholePrefix(out);
    RepairOfValid(out, mark);
    ValidIsWholePrefix(t);
    if IsValid(t) {
      RepairOfValid(t, mark);
    }
    RepairStopsIffTruncated(t, mark);
  }

  // The copy loop of the UTF8_OK case.
  method CopyOctets(s: seq<bv8>, from: nat, to: nat, result: seq<bv8>) returns (out: seq<bv8>)
    requires from <= to <= |s|
    ensures out == result + s[from..to]
  {
    var it := from;
    out := result;
    while it != to
      invariant from <= it <= to
      invariant out == result + s[from..it]
    {
      out := out + [s[it]];
      it := it + 1;
    }
  }

  // "just one replacement mark for the sequence"
  method SkipTrails(s: seq<bv8>, from: nat, end: nat) returns (start: nat)
    requires from <= end <= |s|
    ensures start == from + TrailRun(s[from..end])
    ensures from <= start <= end
  {
    start := from;
    while start != end && IsTrail(s[start])
      invariant from <= start <= end
      invariant TrailRun(s[from..end]) == start - from + TrailRun(s[start..end])
    {
      SubSub(s, start, end, 1);
      start := start + 1;
    }
  }

  // What a replacement that is no code point leads to: the first defect throws.
  function ThrowOnDefect(t: seq<bv8>, replacement: bv32): Exception {
    var v := ValidPrefix(t);
    if v == |t| then NoThrow
    else if Scan(t[v..]).err == NotEnoughRoom then NotEnoughRoomThrown
    else InvalidCodePointThrown(replacement)
  }

  // Nothing is thrown for valid input; otherwise the octets behind the longest valid front part
  // decide between the two exceptions.
  lemma ThrowOnDefectByOctets(t: seq<bv8>, replacement: bv32)
    ensures var rest, e := t[ValidPrefix(t)..], ThrowOnDefect(t, replacement);
      && (e == NoThrow <==> IsValid(t))
      && (e == NotEnoughRoomThrown <==> rest != [] && |rest| < SequenceLength(rest[0]) && TrailsHold(rest))
      && e in {NoThrow, NotEnoughRoomThrown, InvalidCodePointThrown(replacement)}
  {
    hide Scan, SequenceLength, TrailsHold;
    ValidIsWholePrefix(t);
    var rest := t[ValidPrefix(t)..];
    if rest != [] {
      ExceptionByOctets(rest);
      RoomOrNot(rest);
    }
  }

  lemma RoomOrNot(t: seq<bv8>)
    requires t != []
    ensures NextException(t) == NotEnoughRoomThrown <==> Scan(t).err == NotEnoughRoom
  {
    hide Scan;
  }

  // What one turn of the loop does to both readings of the range.
  lemma CopyStep(t: seq<bv8>, mark: seq<bv8>, replacement: bv32)
    requires t != [] && Scan(t).err == Utf8Ok
    ensures var n := Scan(t).length;
      && 1 <= n <= |t|
      && Repair(t, mark) == Repaired(t[..n] + Repair(t[n..], mark).out, Repair(t[n..], mark).truncated)
      && ValidPrefix(t) == n + ValidPrefix(t[n..])
      && ThrowOnDefect(t, replacement) == ThrowOnDefect(t[n..], replacement)
  {
    hide Scan, IsUtf8Char, Encode, CodePoints;
    ScanMatchesRfc(t);
    assert Repair(t, mark) == Repaired(t[..Scan(t).length] + Repair(t[Scan(t).length..], mark).out, Repair(t[Scan(t).length..], mark).truncated);
    PrefixStep(t);
    ThrowStep(t, Scan(t).length, replacement);
  }

  lemma ThrowStep(t: seq<bv8>, n: nat, replacement: bv32)
    requires n <= |t| && ValidPrefix(t) == n + ValidPrefix(t[n..])
    ensures ThrowOnDefect(t, replacement) == ThrowOnDefect(t[n..], replacement)
  {
    hide Scan, ValidPrefix;
    DropDrop(t, n, ValidPrefix(t[n..]));
  }

  lemma DefectStep(t: seq<bv8>, mark: seq<bv8>, replacement: bv32)
    requires t != [] && Scan(t).err != Utf8Ok
    ensures ValidPrefix(t) == 0
    ensures Scan(t).err == NotEnoughRoom ==>
      Repair(t, mark) == Repaired([], true) && ThrowOnDefect(t, replacement) == NotEnoughRoomThrown
    ensures Scan(t).err != NotEnoughRoom ==>
      var n := if Scan(t).err == InvalidLead then 1 else 1 + TrailRun(t[1..]);
      && Repair(t, mark) == Repaired(mark + Repair(t[n..], mark).out, Repair(t[n..], mark).truncated)
      && ThrowOnDefect(t, replacement) == InvalidCodePointThrown(replacement)
  {
    hide Scan;
    assert t[0..] == t;
  }

  lemma NothingLeft(mark: seq<bv8>, replacement: bv32)
    ensures Repair([], mark) == Repaired([], false) && ValidPrefix([]) == 0 && ThrowOnDefect([], replacement) == NoThrow
  {
  }

  // The loop invariant of ReplaceInvalid: what has been written plus what the rest of the
  // range still yields is what the whole range yields.
  ghost predicate Repairing(s: seq<bv8>, from: nat, start: nat, end: nat, result: seq<bv8>, out: seq<bv8>, replacement: bv32)
    requires from <= start <= end <= |s|
  {
    var t, rest, mark := s[from..end], s[start..end], Encode(replacement);
    if IsCodePointValid(replacement) then
      && result + Repair(t, mark).out == out + Repair(rest, mark).out
      && Repair(t, mark).truncated == Repair(rest, mark).truncated
    else
      && ValidPrefix(t) == start - from + ValidPrefix(rest)
      && ThrowOnDefect(t, replacement) == ThrowOnDefect(rest, replacement)
      && out == result + s[from..start]
  }

  lemma RepairingCopy(s: seq<bv8>, from: nat, start: nat, next: nat, end: nat, result: seq<bv8>, out: seq<bv8>, replacement: bv32)
    requires from <= start < end <= |s| && Repairing(s, from, start, end, result, out, replacement)
    requires Scan(s[start..end]).err == Utf8Ok && next == start + Scan(s[start..end]).length
    ensures next <= end && Repairing(s, from, next, end, result, out + s[start..next], replacement)
  {
    hide Scan, Repair, ValidPrefix, ThrowOnDefect, Encode, IsCodePointValid;
    var rest, mark, n := s[start..end], Encode(replacement), next - start;
    CopyStep(rest, mark, replacement);
    SubSub(s, start, end, n);
    ConcatAssoc(out, s[start..next], Repair(s[next..end], mark).out);
    assert s[from..start] + s[start..next] == s[from..next];
    ConcatAssoc(result, s[from..start], s[start..next]);
  }

  lemma RepairingMark(s: seq<bv8>, from: nat, start: nat, next: nat, end: nat, result: seq<bv8>, out: seq<bv8>, replacement: bv32)
    requires from <= start < next <= end <= |s| && Repairing(s, from, start, end, result, out, replacement)
    requires IsCodePointValid(replacement) && Scan(s[start..end]).err !in {Utf8Ok, NotEnoughRoom}
    requires next == start + 1 + if Scan(s[start..end]).err == InvalidLead then 0 else TrailRun(s[start + 1..end])
    ensures Repairing(s, from, next, end, result, out + Encode(replacement), replacement)
  {
    hide Scan, Repair, ValidPrefix, ThrowOnDefect, Encode, IsCodePointValid;
    var rest, mark := s[start..end], Encode(replacement);
    SubSub(s, start, end, 1);
    SubSub(s, start, end, next - start);
    DefectStep(rest, mark, replacement);
    ConcatAssoc(out, mark, Repair(s[next..end], mark).out);
  }

  // What the invariant says when the walk stops at `start`.
  lemma RepairingStops(s: seq<bv8>, from: nat, start: nat, end: nat, result: seq<bv8>, out: seq<bv8>, replacement: bv32)
    requires from <= start <= end <= |s| && Repairing(s, from, start, end, result, out, replacement)
    requires start < end ==> Scan(s[start..end]).err == NotEnoughRoom || (Scan(s[start..end]).err != Utf8Ok && !IsCodePointValid(replacement))
    ensures IsCodePointValid(replacement) ==>
      && out == result + Repair(s[from..end], Encode(replacement)).out
      && (EndsTruncated(s[from..end]) <==> start < end)
    ensures !IsCodePointValid(replacement) ==>
      && out == result + s[from..from + ValidPrefix(s[from..end])]
      && ThrowOnDefect(s[from..end], replacement) ==
           if start == end then NoThrow
           else if Scan(s[start..end]).err == NotEnoughRoom then NotEnoughRoomThrown
           else InvalidCodePointThrown(replacement)
  {
    hide Scan, Encode, IsCodePointValid, EndsTruncated;
    var mark := Encode(replacement);
    RepairStopsIffTruncated(s[from..end], mark);
    if start < end {
      DefectStep(s[start..end], mark, replacement);
    } else {
      NothingLeft(mark, replacement);
    }
  }

  method ReplaceInvalid(s: seq<bv8>, from: nat, end: nat, result: seq<bv8>, replacement: bv32)
    returns (out: seq<bv8>, exc: Exception)
    requires from <= end <= |s|
    ensures IsCodePointValid(replacement) ==>
      && out == result + Repair(s[from..end], Encode(replacement)).out
      && exc == if EndsTruncated(s[from..end]) then NotEnoughRoomThrown else NoThrow
    ensures !IsCodePointValid(replacement) ==>
      && exc == ThrowOnDefect(s[from..end], replacement)
      && out == result + s[from..from + ValidPrefix(s[from..end])]
  {
    hide Scan, Encode, IsUtf8Char, IsCodePointValid, StartsWithUtf8Char, EndsTruncated, ThrowOnDefect, Repairing;
    var start := from;
    out, exc := result, NoThrow;
    RepairingStarts(s, from, end, result, replacement);
    while start != end
      invariant from <= start <= end
      invariant Repairing(s, from, start, end, result, out, replacement)
    {
      var sequenceStart := start;
      var err, next, _ := ValidateNext(s, start, end, 0);
      start := next;
      if err == Utf8Ok {
        RepairingCopy(s, from, sequenceStart, start, end, result, out, replacement);
        out := CopyOctets(s, sequenceStart, start, out);
      } else if err == NotEnoughRoom {
        RepairingStops(s, from, start, end, result, out, replacement);
        return out, NotEnoughRoomThrown;
      } else {
        ghost var before := out;
        out, exc := Append(replacement, out);
        if exc != NoThrow {
          RepairingStops(s, from, start, end, result, out, replacement);
          return;
        }
        start := start + 1;
        if err != InvalidLead {
          start := SkipTrails(s, start, end);
        }
        RepairingMark(s, from, sequenceStart, start, end, result, before, replacement);
      }
    }
    RepairingStops(s, from, start, end, result, out, replacement);
    exc := NoThrow;
  }

  lemma RepairingStarts(s: seq<bv8>, from: nat, end: nat, result: seq<bv8>, replacement: bv32)
    requires from <= end <= |s|
    ensures Repairing(s, from, from, end, result, result, replacement)
  {
    assert s[from..from] == [];
  }
}
