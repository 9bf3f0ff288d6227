/**
 * A whole chunked transfer: what the client keeps between reads, when a run of reads delivers
 * what one parse of everything finds, and when it delivers the frames that were sent.
 */
module ChunkedTransfer {
  import opened Chunked
  import opened SeqFacts

  // ---- buffer_t::right ----

  // Skipping more than the data leaves no data.
  function Right(data: string, split: nat): (rest: string) {
    if |data| > split then data[split..] else ""
  }

  // Handing parsed_length() to right() keeps exactly the unparsed data if and only if at most
  // one chunk completed in the call or nothing was left over.
  lemma RightKeepsUnparsedIff(u: string, slack: string)
    requires Walk(u + slack, |u|, 0).status == Lack
    ensures var w := Walk(u + slack, |u|, 0);
      Right(u, w.sum) == u[w.cut..] <==> |w.chunks| <= 1 || w.cut == |u|
  {
    hide Walk;
    SumAndCut(u + slack, |u|, 0);
    var w := Walk(u + slack, |u|, 0);
    if |w.chunks| <= 1 {
      assert w.cut == |u| ==> u[w.cut..] == "";
    } else {
      assert |Right(u, w.sum)| == |u| - w.cut ==> w.cut == |u|;
    }
  }

  // ---- A whole transfer ----

  // What one socket read delivers, and what the memory behind it happens to hold.
  datatype Read = Read(bytes: string, slack: string)

  datatype Received = Received(status: Status, chunks: seq<string>)

  // Parse; when data is lacking, keep what right() keeps, read on and parse again.
  function Feed(u: string, slack: string, turns: seq<Read>): Received
    decreases |turns|
  {
    var w := Walk(u + slack, |u|, 0);
    if w.status != Lack || turns == [] then Received(w.status, w.chunks)
    else
      var r := Feed(Right(u, w.sum) + turns[0].bytes, turns[0].slack, turns[1..]);
      Received(r.status, w.chunks + r.chunks)
  }

  function Bytes(turns: seq<Read>): string {
    if turns == [] then "" else turns[0].bytes + Bytes(turns[1..])
  }

  function LastSlack(slack: string, turns: seq<Read>): string {
    if turns == [] then slack else turns[|turns| - 1].slack
  }

  // Every call but the last one lacks data, after at most one chunk or with nothing left over,
  // and never directly between a chunk and the terminator; or the terminator has arrived.
  predicate Smooth(u: string, slack: string, turns: seq<Read>)
    decreases |turns|
  {
    turns == [] ||
    (var w := Walk(u + slack, |u|, 0);
     var more := Bytes(turns) + LastSlack(slack, turns);
     if w.status == Lack then
       && (|w.chunks| <= 1 || w.cut == |u|)
       && (w.cut < |u| || w.chunks == [] || !AtLast(more))
       && Smooth(u[w.cut..] + turns[0].bytes, turns[0].slack, turns[1..])
     else
       w.status == End && AtLast(u[w.cut..] + more))
  }

  // However a transfer is cut into reads, as long as the cuts are smooth, the client's loop
  // collects what one parse of everything collects.
  lemma {:induction false} FeedIsOneParse(u: string, slack: string, turns: seq<Read>)
    requires Smooth(u, slack, turns)
    ensures var all := u + Bytes(turns); var w := Walk(all + LastSlack(slack, turns), |all|, 0);
      Feed(u, slack, turns) == Received(w.status, w.chunks)
    decreases |turns|
  {
    hide Walk, AtLast, Right;
    if turns == [] {
      assert u + "" == u;
    } else {
      var w := Walk(u + slack, |u|, 0);
      var first, rest, last := turns[0], turns[1..], LastSlack(slack, turns);
      if w.status == End {
        ConcatAssoc(u, Bytes(turns), last);
        EndStable(u, slack, Bytes(turns) + last, |Bytes(turns)|, 0);
        return;
      }
      RightKeepsUnparsedIff(u, slack);
      FeedIsOneParse(u[w.cut..] + first.bytes, first.slack, rest);
      var more := Bytes(turns) + last;
      var tail := u[w.cut..] + first.bytes + Bytes(rest);
      ConcatAssoc(u, Bytes(turns), last);
      TailAfterCut(u, w.cut, first.bytes, Bytes(rest), last);
      WalkBase(tail + last, |tail|, 0, w.cut);
      Resume(u, slack, more, |Bytes(turns)|, 0);
    }
  }

  lemma TailAfterCut(u: string, cut: nat, a: string, b: string, c: string)
    requires cut <= |u|
    ensures (u + ((a + b) + c))[cut..] == u[cut..] + a + b + c
  {
  }

  // ---- Read boundaries against frame boundaries ----

  function FramesBytes(fs: seq<Frame>): string {
    if fs == [] then "" else FrameBytes(fs[0]) + FramesBytes(fs[1..])
  }

  function FrameLen(f: Frame): nat {
    |f.size| + 2 + |f.payload| + 2
  }

  // How many frames end within the first n bytes.
  function Ended(fs: seq<Frame>, n: nat): (k: nat)
    ensures k <= |fs|
  {
    if fs == [] || n < FrameLen(fs[0]) then 0 else 1 + Ended(fs[1..], n - FrameLen(fs[0]))
  }

  function EndOf(fs: seq<Frame>, k: nat): nat
    requires k <= |fs|
  {
    if k == 0 then 0 else FrameLen(fs[0]) + EndOf(fs[1..], k - 1)
  }

  datatype Verdict = Done | Waits | Broken

  // What a call makes of a buffer of n bytes that starts where the frames fs start, when
  // `seen` stands in memory behind the last frame that ended.
  function VerdictOf(fs: seq<Frame>, n: nat, seen: string): Verdict {
    var k := Ended(fs, n);
    if k > 0 && AtLast(seen) then
      // The terminator, or something in memory that looks like it.
      if k == |fs| then Done else Broken
    else if k < |fs| && InFrame(fs[k], n - EndOf(fs, k)) then Waits
    else Broken
  }

  // A read may end before a frame or behind its header, never inside the header.
  predicate InFrame(f: Frame, part: int) {
    part == 0 || part >= |f.size| + 2
  }

  lemma {:induction false} EndedFits(fs: seq<Frame>, n: nat)
    ensures EndOf(fs, Ended(fs, n)) <= n
    ensures Ended(fs, n) < |fs| ==> n - EndOf(fs, Ended(fs, n)) < FrameLen(fs[Ended(fs, n)])
  {
    if fs != [] && n >= FrameLen(fs[0]) {
      EndedFits(fs[1..], n - FrameLen(fs[0]));
    }
  }

  // What the buffer holds behind the last frame that ended.
  function Pending(fs: seq<Frame>, u: string): (v: string)
    ensures |v| == |u| - EndOf(fs, Ended(fs, |u|))
  {
    EndedFits(fs, |u|);
    u[EndOf(fs, Ended(fs, |u|))..]
  }

  // Each read ends where the parser can wait, up to the one that completes the terminator.
  predicate WellCut(fs: seq<Frame>, u: string, slack: string, turns: seq<Read>)
    decreases |turns|
  {
    match VerdictOf(fs, |u|, Pending(fs, u) + slack)
    case Done => true
    case Broken => false
    case Waits =>
      turns != [] && WellCut(fs[Ended(fs, |u|)..], Pending(fs, u) + turns[0].bytes, turns[0].slack, turns[1..])
  }

  // No buffer holds two frame ends and the start of another frame: right() would skip too far.
  predicate NoSkip(fs: seq<Frame>, u: string, slack: string, turns: seq<Read>)
    decreases |turns|
  {
    turns == [] || !VerdictOf(fs, |u|, Pending(fs, u) + slack).Waits? ||
    ((Ended(fs, |u|) <= 1 || Pending(fs, u) == "")
     && NoSkip(fs[Ended(fs, |u|)..], Pending(fs, u) + turns[0].bytes, turns[0].slack, turns[1..]))
  }

  // The reads together are the body and whatever follows it.
  predicate Delivers(fs: seq<Frame>, trailer: string, u: string, turns: seq<Read>) {
    u + Bytes(turns) == Body(fs) + trailer
  }

  // ---- What a call finds in such a buffer ----

  // The buffer is the frames that ended and a part of what follows.
  lemma {:induction false} BufferParts(fs: seq<Frame>, trailer: string, u: string, rest: string)
    requires u + rest == Body(fs) + trailer
    ensures var k := Ended(fs, |u|); var v := Pending(fs, u);
      && u == FramesBytes(fs[..k]) + v && |FramesBytes(fs[..k])| == EndOf(fs, k)
      && v + rest == Body(fs[k..]) + trailer
  {
    hide FrameBytes, FramesBytes;
    var k := Ended(fs, |u|);
    if k == 0 {
      assert fs[0..] == fs && u[0..] == u && fs[..0] == [];
      NoFrames(u);
    } else {
      var f, b, w := fs[0], FrameBytes(fs[0]), u[FrameLen(fs[0])..];
      assert |b| == FrameLen(f) by { FrameSize(f); }
      FrontOfBuffer(b, Body(fs[1..]), trailer, u, rest);
      BufferParts(fs[1..], trailer, w, rest);
      EndedFits(fs, |u|);
      DropDrop(u, FrameLen(f), EndOf(fs[1..], k - 1));
      assert fs[1..][..k - 1] == fs[..k][1..] && fs[1..][k - 1..] == fs[k..];
      FirstFrame(fs[..k]);
      ConcatAssoc(b, FramesBytes(fs[1..][..k - 1]), Pending(fs, u));
    }
  }

  lemma FrameSize(f: Frame)
    ensures |FrameBytes(f)| == FrameLen(f)
  {
  }

  lemma FrontOfBuffer(b: string, more: string, trailer: string, u: string, rest: string)
    requires u + rest == b + more + trailer && |u| >= |b|
    ensures u == b + u[|b|..] && u[|b|..] + rest == more + trailer
  {
    ConcatAssoc(b, more, trailer);
    assert (u + rest)[..|b|] == b;
    assert (u + rest)[|b|..] == u[|b|..] + rest;
    assert (b + (more + trailer))[|b|..] == more + trailer;
  }

  // The offsets, from the start of the buffer, at which the frames end, added up.
  function EndSums(fs: seq<Frame>, base: nat): nat {
    if fs == [] then 0 else (base + FrameLen(fs[0])) + EndSums(fs[1..], base + FrameLen(fs[0]))
  }

  // A call over whole frames and a part v of what follows.
  lemma {:induction false} WalkPastFrames(fs: seq<Frame>, v: string, slack: string, base: nat)
    requires AllFrames(fs) && (fs != [] ==> ZeroFree(fs[1..]))
    ensures var b := FramesBytes(fs); var u := b + v;
      var w, t := Walk(u + slack, |u|, base), Walk(v + slack, |v|, base + |b|);
      if fs != [] && AtLast(v + slack) then
        w == Walked(End, Payloads(fs), base + |b|, EndSums(fs, base) + (base + |b| + 3), 0)
      else w == Walked(t.status, Payloads(fs) + t.chunks, t.cut, EndSums(fs, base) + t.sum, t.lack)
    decreases |fs|
  {
    hide IsFrame, FrameBytes, FramesBytes, Payloads, Walk, AtLast, AllFrames, ZeroFree, FrameLen;
    if fs == [] {
      NoFrames(v);
    } else {
      var f, more := fs[0], fs[1..];
      var c := FramesBytes(more);
      TailFrames(fs);
      FirstFrame(fs);
      FrameSize(f);
      FrameThen(f, c, v, slack, base);
      WalkPastFrames(more, v, slack, base + |FrameBytes(f)|);
      if more == [] {
        NoFrames(v);
        assert [f.payload] + [] == [f.payload];
      } else {
        assert !AtLast(c + v + slack) by {
          NextFrameIsNoEnd(more, v + slack);
          ConcatAssoc(c, v, slack);
        }
        ConcatAssoc([f.payload], Payloads(more), Walk(v + slack, |v|, base + |FrameBytes(f)| + |c|).chunks);
      }
    }
  }

  lemma NoFrames(v: string)
    ensures FramesBytes([]) == "" && Payloads([]) == [] && "" + v == v
    ensures forall cs: seq<string> :: [] + cs == cs
  {
  }

  lemma FirstFrame(fs: seq<Frame>)
    requires fs != []
    ensures FramesBytes(fs) == FrameBytes(fs[0]) + FramesBytes(fs[1..])
    ensures Payloads(fs) == [fs[0].payload] + Payloads(fs[1..])
  {
    hide FrameBytes;
  }

  lemma FrameThen(f: Frame, c: string, v: string, slack: string, base: nat)
    requires IsFrame(f)
    ensures var b := FrameBytes(f);
      var w, t := Walk(b + c + v + slack, |b + c + v|, base), Walk(c + v + slack, |c + v|, base + |b|);
      if AtLast(c + v + slack) then w == Walked(End, [f.payload], base + |b|, (base + |b|) + (base + |b| + 3), 0)
      else w == Walked(t.status, [f.payload] + t.chunks, t.cut, base + |b| + t.sum, t.lack)
  {
    hide IsFrame, FrameBytes, Walk, AtLast;
    Regroup(FrameBytes(f), c, v, slack);
    WalkFrame(f, c + v + slack, |c + v|, base);
  }

  lemma Regroup(b: string, c: string, v: string, slack: string)
    ensures b + c + v + slack == b + (c + v + slack) && |b + c + v| == |b| + |c + v|
  {
  }

  lemma TailFrames(fs: seq<Frame>)
    requires fs != [] && AllFrames(fs) && ZeroFree(fs[1..])
    ensures IsFrame(fs[0]) && AllFrames(fs[1..])
    ensures |fs| > 1 ==> fs[1].size != "0" && ZeroFree(fs[1..][1..])
  {
    hide IsFrame;
  }

  // A frame whose size is not a single zero does not look like the terminator.
  lemma NextFrameIsNoEnd(fs: seq<Frame>, rest: string)
    requires fs != [] && AllFrames(fs) && fs[0].size != "0"
    ensures !AtLast(FramesBytes(fs) + rest)
  {
    hide HexValue, AtLast;
    assert IsFrame(fs[0]);
    var f := fs[0];
    FrameFront(f, FramesBytes(fs[1..]), rest);
    SizeAtLast(f.size, f.payload + CRLF + FramesBytes(fs[1..]) + rest);
  }

  // A part of a header is no header, and a header whose payload has not all arrived lacks it.
  lemma PartOfFrame(f: Frame, more: string, v: string, slack: string, base: nat)
    requires IsFrame(f) && |v| < FrameLen(f) && v <= FrameBytes(f) + more
    ensures var t := Walk(v + slack, |v|, base);
      if InFrame(f, |v|) then t == Walked(Lack, [], base, 0, if v == "" then 1024 else FrameLen(f) - |v|)
      else t.status == Bad
  {
    assert (v + slack)[..|v|] == v;
    if |v| == 0 {
      EmptyWalk(v + slack, base);
    } else if |v| >= |f.size| + 2 {
      HeadOfPart(f, more, v);
      HeaderOfFrame(f, v[|f.size| + 2..]);
      hide ParseHeader;
    } else {
      NoHeaderYet(f, more, v);
      hide ParseHeader;
    }
  }

  lemma HeadOfPart(f: Frame, more: string, v: string)
    requires |f.size| + 2 <= |v| < FrameLen(f) && v <= FrameBytes(f) + more
    ensures v == f.size + CRLF + v[|f.size| + 2..]
  {
    var h := f.size + CRLF;
    FrameFront(f, more, "");
    assert FrameBytes(f) + more + "" == FrameBytes(f) + more;
    assert v[..|h|] == h;
    SplitAt(v, |h|);
  }

  lemma NoHeaderYet(f: Frame, more: string, v: string)
    requires IsFrame(f) && 0 < |v| < |f.size| + 2 && v <= FrameBytes(f) + more
    ensures ParseHeader(v).NoHeader?
  {
    FrameFront(f, more, "");
    assert FrameBytes(f) + more + "" == FrameBytes(f) + more;
    var t := f.size + CRLF + (f.payload + CRLF + more + "");
    assert v <= t;
    var n := if |v| <= |f.size| then |v| else |f.size|;
    assert v[..n] == t[..n] == f.size[..n];
    assert n < |v| ==> v[n] == t[n] == CRLF[0];
    HexRunIs(v, n);
    assert |v[n..]| < 2;
  }

  // ---- When the frames arrive ----

  lemma {:induction false} FeedEndHasChunk(u: string, slack: string, turns: seq<Read>)
    requires Feed(u, slack, turns).status == End
    ensures Feed(u, slack, turns).chunks != []
    decreases |turns|
  {
    hide Walk, Right;
    var w := Walk(u + slack, |u|, 0);
    if w.status != Lack || turns == [] {
      EndHasChunk(u + slack, |u|, 0);
    } else {
      FeedEndHasChunk(Right(u, w.sum) + turns[0].bytes, turns[0].slack, turns[1..]);
    }
  }

  lemma {:induction false} PayloadsSplit(a: seq<Frame>, b: seq<Frame>)
    ensures Payloads(a + b) == Payloads(a) + Payloads(b)
  {
    if a == [] {
      assert a + b == b;
    } else {
      assert (a + b)[1..] == a[1..] + b;
      PayloadsSplit(a[1..], b);
    }
  }

  lemma PayloadsOf(fs: seq<Frame>, k: nat)
    requires k <= |fs|
    ensures Payloads(fs) == Payloads(fs[..k]) + Payloads(fs[k..]) && |Payloads(fs)| == |fs| && |Payloads(fs[..k])| == k
  {
    SplitAt(fs, k);
    PayloadsSplit(fs[..k], fs[k..]);
    PayloadCount(fs);
    PayloadCount(fs[..k]);
  }

  predicate Sent(fs: seq<Frame>) {
    AllFrames(fs) && (fs != [] ==> ZeroFree(fs[1..]))
  }

  lemma SentParts(fs: seq<Frame>, k: nat)
    requires Sent(fs) && k <= |fs|
    ensures Sent(fs[..k]) && Sent(fs[k..])
  {
    hide IsFrame;
    assert k > 0 ==> fs[..k][1..] == fs[1..][..k - 1];
  }

  // One call over a buffer that starts at a frame.
  lemma CallOverCut(fs: seq<Frame>, trailer: string, u: string, slack: string, rest: string)
    requires Sent(fs) && u + rest == Body(fs) + trailer
    ensures var w := Walk(u + slack, |u|, 0); var k := Ended(fs, |u|);
      match VerdictOf(fs, |u|, Pending(fs, u) + slack)
      case Done =>
        && w.status == End && w.chunks == Payloads(fs) && u[w.cut..] == Pending(fs, u)
        && w.sum == EndSums(fs, 0) + EndOf(fs, |fs|) + 3
      case Waits =>
        && w.status == Lack && w.chunks == Payloads(fs[..k]) && u[w.cut..] == Pending(fs, u)
        && w.sum == EndSums(fs[..k], 0)
        && w.lack == if Pending(fs, u) == "" then 1024 else FrameLen(fs[k]) - |Pending(fs, u)|
      case Broken => w.status == Bad || (w.status == End && w.chunks != Payloads(fs))
                     || (w.status == Lack && |w.chunks| >= |fs|)
  {
    hide Walk, AtLast, FrameBytes, IsFrame, AllFrames;
    var k, v := Ended(fs, |u|), Pending(fs, u);
    var left := fs[k..];
    BufferParts(fs, trailer, u, rest);
    SentParts(fs, k);
    PayloadsOf(fs, k);
    WalkPastFrames(fs[..k], v, slack, 0);
    EndedFits(fs, |u|);
    var t := Walk(v + slack, |v|, EndOf(fs, k));
    assert k == |fs| ==> fs[..k] == fs;
    if !(k > 0 && AtLast(v + slack)) {
      if left == [] {
        if t.status == End {
          EndHasChunk(v + slack, |v|, EndOf(fs, k));
        }
      } else {
        assert left[0] == fs[k] && IsFrame(left[0]) by { FirstOfSent(left); }
        PrefixOfBody(left, trailer, v, rest);
        PartOfFrame(fs[k], Body(left[1..]) + trailer, v, slack, EndOf(fs, k));
      }
    }
  }

  lemma FirstOfSent(fs: seq<Frame>)
    requires Sent(fs) && fs != []
    ensures IsFrame(fs[0])
  {
  }

  lemma PrefixOfBody(fs: seq<Frame>, trailer: string, v: string, rest: string)
    requires fs != [] && v + rest == Body(fs) + trailer
    ensures v <= FrameBytes(fs[0]) + (Body(fs[1..]) + trailer)
  {
    hide FrameBytes;
    ConcatAssoc(FrameBytes(fs[0]), Body(fs[1..]), trailer);
  }

  // As long as right() does not skip, the frames arrive, and nothing else, if and only if the
  // reads are well cut.
  lemma {:induction false} FramedTransferIff(fs: seq<Frame>, trailer: string, u: string, slack: string, turns: seq<Read>)
    requires Sent(fs) && Delivers(fs, trailer, u, turns) && NoSkip(fs, u, slack, turns)
    ensures Feed(u, slack, turns) == Received(End, Payloads(fs)) <==> WellCut(fs, u, slack, turns)
    decreases |turns|
  {
    hide Walk, Right, Sent, Pending, VerdictOf, Ended, Payloads;
    var w := Walk(u + slack, |u|, 0);
    var k, v := Ended(fs, |u|), Pending(fs, u);
    CallOverCut(fs, trailer, u, slack, Bytes(turns));
    PayloadsOf(fs, k);
    if w.status == Lack && turns != [] {
      var first, others := turns[0], turns[1..];
      var next := Right(u, w.sum) + first.bytes;
      var r := Feed(next, first.slack, others);
      if VerdictOf(fs, |u|, v + slack).Waits? {
        RightKeepsUnparsedIff(u, slack);
        assert v == "" ==> w.cut == |u|;
        SentParts(fs, k);
        NextDelivers(fs, trailer, u, turns);
        FramedTransferIff(fs[k..], trailer, v + first.bytes, first.slack, others);
        CutPrefix(Payloads(fs[..k]), r.chunks, Payloads(fs[k..]));
      } else if r.status == End {
        FeedEndHasChunk(next, first.slack, others);
      }
    }
  }

  lemma CutPrefix(a: seq<string>, b: seq<string>, c: seq<string>)
    ensures a + b == a + c <==> b == c
  {
    if a + b == a + c {
      AppendParts(a, b);
      AppendParts(a, c);
    }
  }

  lemma NextDelivers(fs: seq<Frame>, trailer: string, u: string, turns: seq<Read>)
    requires Delivers(fs, trailer, u, turns) && turns != []
    ensures Delivers(fs[Ended(fs, |u|)..], trailer, Pending(fs, u) + turns[0].bytes, turns[1..])
  {
    BufferParts(fs, trailer, u, Bytes(turns));
    ConcatAssoc(Pending(fs, u), turns[0].bytes, Bytes(turns[1..]));
  }

  // What the server framed is what the client collects.
  lemma FramedTransferArrives(fs: seq<Frame>, trailer: string, u: string, slack: string, turns: seq<Read>)
    requires Sent(fs) && Delivers(fs, trailer, u, turns)
    requires WellCut(fs, u, slack, turns) && NoSkip(fs, u, slack, turns)
    ensures Feed(u, slack, turns) == Received(End, Payloads(fs))
  {
    FramedTransferIff(fs, trailer, u, slack, turns);
  }

  // Well-cut reads are smooth, so the one parse of everything finds the same.
  lemma {:induction false} WellCutIsSmooth(fs: seq<Frame>, trailer: string, u: string, slack: string, turns: seq<Read>)
    requires Sent(fs) && Delivers(fs, trailer, u, turns)
    requires WellCut(fs, u, slack, turns) && NoSkip(fs, u, slack, turns)
    ensures Smooth(u, slack, turns)
    decreases |turns|
  {
    hide Walk, Sent, Pending, VerdictOf, Ended, AtLast;
    if turns != [] {
      var k, v := Ended(fs, |u|), Pending(fs, u);
      CallIsSmooth(fs, trailer, u, slack, turns);
      if VerdictOf(fs, |u|, v + slack).Waits? {
        SentParts(fs, k);
        NextDelivers(fs, trailer, u, turns);
        WellCutIsSmooth(fs[k..], trailer, v + turns[0].bytes, turns[0].slack, turns[1..]);
      }
    }
  }

  lemma CallIsSmooth(fs: seq<Frame>, trailer: string, u: string, slack: string, turns: seq<Read>)
    requires Sent(fs) && Delivers(fs, trailer, u, turns) && turns != []
    requires WellCut(fs, u, slack, turns) && NoSkip(fs, u, slack, turns)
    ensures var w := Walk(u + slack, |u|, 0); var more := Bytes(turns) + LastSlack(slack, turns);
      if VerdictOf(fs, |u|, Pending(fs, u) + slack).Waits? then
        && w.status == Lack && u[w.cut..] == Pending(fs, u)
        && (|w.chunks| <= 1 || w.cut == |u|)
        && (w.cut < |u| || w.chunks == [] || !AtLast(more))
      else w.status == End && AtLast(u[w.cut..] + more)
  {
    hide Walk, Sent, Pending, VerdictOf, Ended, Payloads, AtLast, Delivers, Bytes, LastSlack;
    var w, v := Walk(u + slack, |u|, 0), Pending(fs, u);
    var more := Bytes(turns) + LastSlack(slack, turns);
    assert u + Bytes(turns) == Body(fs) + trailer by { WhatDelivers(fs, trailer, u, turns); }
    CallOverCut(fs, trailer, u, slack, Bytes(turns));
    PayloadsOf(fs, Ended(fs, |u|));
    EndIsOnlyAtEnd(fs, trailer, u, slack, turns);
    if v == "" {
      assert v + more == more;
    }
  }

  lemma WhatDelivers(fs: seq<Frame>, trailer: string, u: string, turns: seq<Read>)
    requires Delivers(fs, trailer, u, turns)
    ensures u + Bytes(turns) == Body(fs) + trailer
  {
  }

  // What follows the last frame that ended is the terminator exactly when no frame is left.
  lemma EndIsOnlyAtEnd(fs: seq<Frame>, trailer: string, u: string, slack: string, turns: seq<Read>)
    requires Sent(fs) && Delivers(fs, trailer, u, turns)
    ensures var k := Ended(fs, |u|);
      k > 0 ==> (AtLast(Pending(fs, u) + (Bytes(turns) + LastSlack(slack, turns))) <==> k == |fs|)
    ensures VerdictOf(fs, |u|, Pending(fs, u) + slack).Done? ==> 0 < Ended(fs, |u|) == |fs|
    ensures VerdictOf(fs, |u|, Pending(fs, u) + slack).Waits? ==> Ended(fs, |u|) < |fs|
  {
    hide AtLast, Ended, Pending, IsFrame;
    var k, v, last := Ended(fs, |u|), Pending(fs, u), LastSlack(slack, turns);
    BufferParts(fs, trailer, u, Bytes(turns));
    SentParts(fs, k);
    BodyAtLast(fs[k..], trailer + last);
    ConcatAssoc(v, Bytes(turns), last);
    ConcatAssoc(Body(fs[k..]), trailer, last);
    assert 0 < k < |fs| ==> fs[k..][0] == fs[1..][k - 1];
  }

  // ---- Transfers that go wrong, and one that goes right by luck ----

  function OneByte(c: char): Frame {
    Frame("1", [c])
  }

  lemma OneByteIsFrame(c: char)
    ensures IsFrame(OneByte(c)) && FrameLen(OneByte(c)) == 6 && FrameBytes(OneByte(c)) == ['1', '\r', '\n', c, '\r', '\n']
  {
    assert HexValue("1") == 1 by { assert "1"[..0] == []; }
  }

  // Resuming behind a chunk misses the terminator that one parse sees.
  lemma ResumeMissesTerminator()
    ensures var u := "1\r\nx\r\n";
      var w, whole, again := Walk(u + "", |u|, 0), Walk(u + LAST, |u| + 3, 0), Walk(LAST, 3, 0);
      && w.status == Lack && w.cut == |u| && w.chunks == ["x"]
      && whole.status == End && whole.chunks == ["x"]
      && again.status == Lack && again.chunks == []
  {
    hide Walk;
    OneByteIsFrame('x');
    WalkFrame(OneByte('x'), "", 0, 0);
    EmptyWalk("", 6);
    WalkFrame(OneByte('x'), LAST, 3, 0);
    LoneTerminator("");
    assert LAST + "" == LAST;
  }

  // So a transfer that is cut there loses its end, although one parse of it finds the end.
  lemma CutBeforeTerminator()
    ensures var u, turns := "1\r\nx\r\n", [Read(LAST, "")];
      && Feed(u, "", turns) == Received(Lack, ["x"])
      && Walk(u + Bytes(turns), |u| + 3, 0).status == End
  {
    hide Walk, Right, Feed;
    ResumeMissesTerminator();
    var u := "1\r\nx\r\n";
    var w := Walk(u + "", |u|, 0);
    RightKeepsUnparsedIff(u, "");
    assert Right(u, w.sum) + LAST == LAST;
    TwoReads(u, LAST);
    OneReadsBytes(LAST);
  }

  lemma OneReadsBytes(bytes: string)
    ensures Bytes([Read(bytes, "")]) == bytes
  {
  }

  // Two reads with nothing odd in memory behind them.
  lemma TwoReads(u: string, bytes: string)
    requires Walk(u + "", |u|, 0).status == Lack
    ensures var w := Walk(u + "", |u|, 0); var next := Right(u, w.sum) + bytes; var x := Walk(next, |next|, 0);
      Feed(u, "", [Read(bytes, "")]) == Received(x.status, w.chunks + x.chunks)
  {
    hide Walk, Right;
    var turns := [Read(bytes, "")];
    var next := Right(u, Walk(u + "", |u|, 0).sum) + bytes;
    assert turns[1..] == [] && next + "" == next;
    assert Feed(next, "", []) == Received(Walk(next, |next|, 0).status, Walk(next, |next|, 0).chunks);
  }

  // Two chunks and the start of a third in one buffer.
  lemma TwoChunksAndMore(v: string, f: Frame)
    requires IsFrame(f) && |f.size| + 2 <= |v| < FrameLen(f) && v <= FrameBytes(f) && f.payload != ""
    ensures var u := "1\r\na\r\n1\r\nb\r\n" + v; var w := Walk(u + "", |u|, 0);
      w.status == Lack && w.chunks == ["a", "b"] && w.cut == 12 && w.sum == 18
  {
    hide Walk, IsFrame, FrameLen, ChunkAt, ChunkSpan, ChunkData, AtLast;
    OneByteIsFrame('a');
    OneByteIsFrame('b');
    assert FrameBytes(f) + "" == FrameBytes(f) && v + "" == v;
    var a, b := OneByte('a'), OneByte('b');
    var rest := FrameBytes(b) + v;
    assert "1\r\na\r\n1\r\nb\r\n" + v + "" == FrameBytes(a) + rest;
    assert !AtLast(v) by { HeaderIsNoEnd(f, v); }
    assert !AtLast(rest) by { OneByteIsNoEnd('b', v); }
    WalkFrame(a, rest, 6 + |v|, 0);
    WalkFrame(b, v, |v|, 6);
    PartOfFrame(f, "", v, "", 12);
    SumAndCut(v, |v|, 12);
  }

  lemma OneByteIsNoEnd(c: char, more: string)
    ensures !AtLast(FrameBytes(OneByte(c)) + more)
  {
    OneByteIsFrame(c);
  }

  lemma HeaderIsNoEnd(f: Frame, v: string)
    requires IsFrame(f) && |f.size| + 2 <= |v| < FrameLen(f) && v <= FrameBytes(f) && f.payload != ""
    ensures !AtLast(v)
  {
    hide HexValue;
    assert FrameBytes(f) + "" == FrameBytes(f);
    HeadOfPart(f, "", v);
    SizeAtLast(f.size, v[|f.size| + 2..]);
    NonEmptyPayloadsAreZeroFree([f]);
    assert [f][0] == f;
  }

  // parsed_length() is not the cut there, and right() drops the third chunk's start.
  lemma ParsedLengthOvershoots()
    ensures var u := "1\r\na\r\n1\r\nb\r\n" + "1\r\n"; var w := Walk(u + "", |u|, 0);
      && w.status == Lack && w.chunks == ["a", "b"] && w.cut == 12 && w.sum == 18
      && u[w.cut..] == "1\r\n" && Right(u, w.sum) == ""
  {
    hide Walk;
    OneByteIsFrame('z');
    TwoChunksAndMore("1\r\n", OneByte('z'));
  }

  // So the third chunk is lost, although every read ends behind a header.
  lemma SkipLosesChunk()
    ensures var u, bytes := "1\r\na\r\n1\r\nb\r\n" + "1\r\n", "z\r\n" + LAST;
      && Feed(u, "", [Read(bytes, "")]) == Received(Bad, ["a", "b"])
      && Walk(u + Bytes([Read(bytes, "")]), |u| + 6, 0).status == End
      && Walk(u + Bytes([Read(bytes, "")]), |u| + 6, 0).chunks == ["a", "b", "z"]
  {
    var u, bytes := "1\r\na\r\n1\r\nb\r\n" + "1\r\n", "z\r\n" + LAST;
    hide Walk, Feed, Right, Bytes;
    ParsedLengthOvershoots();
    TwoReads(u, bytes);
    assert Right(u, Walk(u + "", |u|, 0).sum) + bytes == bytes && |u| == 15;
    var none: seq<string> := [];
    assert ["a", "b"] + none == ["a", "b"];
    NotHex(bytes);
    ThreeFrames();
    OneReadsBytes(bytes);
  }

  lemma NotHex(s: string)
    requires s != [] && !IsHex(s[0])
    ensures Walk(s, |s|, 0).status == Bad && Walk(s, |s|, 0).chunks == []
  {
    assert s[..|s|] == s;
    assert StopStatus(s, |s|) == Bad && !ChunkAt(s, |s|);
    WalkStops(s, |s|, 0);
  }

  lemma ThreeFrames()
    ensures var w := Walk("1\r\na\r\n1\r\nb\r\n" + "1\r\n" + ("z\r\n" + LAST), 21, 0);
      w.status == End && w.chunks == ["a", "b", "z"]
  {
    hide Walk, IsFrame, HexValue;
    var a, b, z := OneByte('a'), OneByte('b'), OneByte('z');
    OneByteIsFrame('a');
    OneByteIsFrame('b');
    OneByteIsFrame('z');
    var rest := FrameBytes(b) + (FrameBytes(z) + LAST);
    assert "1\r\na\r\n1\r\nb\r\n" + "1\r\n" + ("z\r\n" + LAST) == FrameBytes(a) + rest;
    OneByteIsNoEnd('b', FrameBytes(z) + LAST);
    OneByteIsNoEnd('z', LAST);
    LastIsLast("");
    assert LAST + "" == LAST;
    WalkFrame(a, rest, 15, 0);
    WalkFrame(b, FrameBytes(z) + LAST, 9, 6);
    WalkFrame(z, LAST, 3, 12);
  }

  // The skip does no harm when what it drops are leading zeros, so the transfers that skip
  // have no such condition: this one has a third frame of size 0000001.
  lemma SkipByLuck()
    ensures var u, bytes := "1\r\na\r\n1\r\nb\r\n" + "0000001\r\n", "z\r\n" + LAST;
      && u + Bytes([Read(bytes, "")]) == Body([OneByte('a'), OneByte('b'), Frame("0000001", "z")])
      && Right(u, Walk(u + "", |u|, 0).sum) != u[Walk(u + "", |u|, 0).cut..]
      && Feed(u, "", [Read(bytes, "")]) == Received(End, ["a", "b", "z"])
  {
    var head, bytes := "0000001\r\n", "z\r\n" + LAST;
    var f, u := Frame("0000001", "z"), "1\r\na\r\n1\r\nb\r\n" + head;
    SevenDigits();
    LuckyFrame(f, head);
    hide Walk, Feed, FrameBytes, IsFrame, Body, Bytes;
    TwoChunksAndMore(head, f);
    TwoReads(u, bytes);
    LuckyRest(u);
    LuckyBody(u, bytes);
    OneReadsBytes(bytes);
    LastChunk('z');
  }

  lemma LuckyRest(u: string)
    requires u == "1\r\na\r\n1\r\nb\r\n" + "0000001\r\n"
    ensures Right(u, 18) + ("z\r\n" + LAST) == "1\r\nz\r\n" + LAST && |Right(u, 18)| < |u[12..]|
  {
    assert Right(u, 18) == "1\r\n";
    assert "1\r\n" + ("z\r\n" + LAST) == "1\r\nz\r\n" + LAST;
  }

  lemma LuckyFrame(f: Frame, head: string)
    requires f == Frame("0000001", "z") && head == "0000001\r\n"
    ensures head <= FrameBytes(f) && FrameLen(f) == 12 && |head| == |f.size| + 2
    ensures FrameBytes(f) == "0000001\r\nz\r\n"
  {
  }

  lemma LuckyBody(u: string, bytes: string)
    requires u == "1\r\na\r\n1\r\nb\r\n" + "0000001\r\n" && bytes == "z\r\n" + LAST
    ensures u + bytes == Body([OneByte('a'), OneByte('b'), Frame("0000001", "z")])
  {
    var a, b, f := OneByte('a'), OneByte('b'), Frame("0000001", "z");
    var fs := [a, b, f];
    assert fs[1..] == [b, f] && [b, f][1..] == [f] && [f][1..] == [];
    hide FrameBytes;
    OneByteIsFrame('a');
    OneByteIsFrame('b');
    assert FrameBytes(f) == "0000001\r\nz\r\n" by { LuckyFrame(f, "0000001\r\n"); }
    assert Body([f]) == FrameBytes(f) + LAST;
    assert Body([b, f]) == FrameBytes(b) + (FrameBytes(f) + LAST);
  }

  lemma LastChunk(c: char)
    ensures var s := ['1', '\r', '\n', c, '\r', '\n'] + LAST;
      Walk(s, |s|, 0).status == End && Walk(s, |s|, 0).chunks == [[c]]
  {
    hide Walk;
    OneByteIsFrame(c);
    LastIsLast("");
    assert LAST + "" == LAST;
    WalkFrame(OneByte(c), LAST, 3, 0);
  }

  lemma SevenDigits()
    ensures IsFrame(Frame("0000001", "z"))
  {
    assert HexValue("0") == 0 by { assert "0"[..0] == []; }
    assert HexValue("00") == 0 by { assert "00"[..1] == "0"; }
    assert HexValue("000") == 0 by { assert "000"[..2] == "00"; }
    assert HexValue("0000") == 0 by { assert "0000"[..3] == "000"; }
    assert HexValue("00000") == 0 by { assert "00000"[..4] == "0000"; }
    assert HexValue("000000") == 0 by { assert "000000"[..5] == "00000"; }
    assert HexValue("0000001") == 1 by { assert "0000001"[..6] == "000000"; }
  }
}
