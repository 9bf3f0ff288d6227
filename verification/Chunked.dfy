/**
 * The resumable chunked-body parser and the response it fills, against section 4.1 of
 * RFC 7230.  A byte is a `char`.  A buffer is its whole memory, of which the first `used`
 * bytes are data: the terminator test looks past the data into whatever memory follows.
 */
module Chunked {
  import opened SeqFacts

  // ---- chunk-size CRLF ----

  predicate IsHex(c: char) {
    '0' <= c <= '9' || 'a' <= c <= 'f' || 'A' <= c <= 'F'
  }

  function HexDigit(c: char): (d: nat)
    requires IsHex(c)
    ensures d < 16
  {
    if '0' <= c <= '9' then c as int - '0' as int
    else if 'a' <= c <= 'f' then c as int - 'a' as int + 10
    else c as int - 'A' as int + 10
  }

  predicate AllHex(s: string) {
    forall i :: 0 <= i < |s| ==> IsHex(s[i])
  }

  function HexValue(s: string): nat
    requires AllHex(s)
  {
    if s == [] then 0 else 16 * HexValue(s[..|s| - 1]) + HexDigit(s[|s| - 1])
  }

  function HexRun(s: string): (n: nat)
    ensures n <= |s| && AllHex(s[..n]) && (n < |s| ==> !IsHex(s[n]))
  {
    if s == [] || !IsHex(s[0]) then 0
    else
      var n := HexRun(s[1..]);
      assert s[..n + 1] == [s[0]] + s[1..][..n];
      n + 1
  }

  const CRLF: string := "\r\n"
  const LAST: string := "0\r\n"
  // Sizes from here on make the 32-bit sum data_len + 2 wrap.
  const SIZE_LIMIT: nat := 0xffff_fffe

  // strncmp against the two literals: what is compared may lie beyond the data.
  predicate AtCrlf(s: string) {
    |s| >= 2 && s[0] == '\r' && s[1] == '\n'
  }

  predicate AtLast(s: string) {
    |s| >= 3 && s[0] == '0' && s[1] == '\r' && s[2] == '\n'
  }

  datatype Header = NoHeader | Header(size: nat, length: nat)

  // qi::hex >> "\r\n" on the given data.
  function ParseHeader(s: string): (h: Header)
    ensures h.Header? ==> 3 <= h.length <= |s| && h.size < SIZE_LIMIT
  {
    var n := HexRun(s);
    if n == 0 || HexValue(s[..n]) >= SIZE_LIMIT || !AtCrlf(s[n..]) then NoHeader
    else Header(HexValue(s[..n]), n + 2)
  }

  // ---- The parse as a function ----

  datatype Status = Bad | Lack | End

  // `cut` is the end of the last completed chunk and `sum` what parsed() and to_end() have
  // added up; both count from the start of the buffer.
  datatype Walked = Walked(status: Status, chunks: seq<string>, cut: nat, sum: nat, lack: nat)

  // A complete chunk stands at the front of the memory `rest`, whose first n bytes are data.
  predicate ChunkAt(rest: string, n: nat)
    requires n <= |rest|
  {
    n > 0
    && var h := ParseHeader(rest[..n]);
       h.Header? && h.size + 2 <= n - h.length && AtCrlf(rest[h.length + h.size..])
  }

  function ChunkData(rest: string, n: nat): string
    requires n <= |rest| && ChunkAt(rest, n)
  {
    var h := ParseHeader(rest[..n]);
    rest[h.length..h.length + h.size]
  }

  // Header, payload and closing CRLF.
  function ChunkSpan(rest: string, n: nat): (k: nat)
    requires n <= |rest| && ChunkAt(rest, n)
    ensures 5 <= k <= n
  {
    var h := ParseHeader(rest[..n]);
    h.length + h.size + 2
  }

  // Why the loop stops where no complete chunk stands.
  function StopStatus(rest: string, n: nat): Status
    requires n <= |rest|
  {
    if n == 0 then Lack
    else
      var h := ParseHeader(rest[..n]);
      if h.Header? && h.size + 2 > n - h.length then Lack else Bad
  }

  function StopLack(rest: string, n: nat): nat
    requires n <= |rest|
  {
    if n == 0 then 1024
    else
      var h := ParseHeader(rest[..n]);
      if h.Header? && h.size + 2 > n - h.length then h.size + 2 - (n - h.length) else 0
  }

  // The walk over `rest`, standing at offset `base` of the buffer.
  function Walk(rest: string, n: nat, base: nat): (w: Walked)
    requires n <= |rest|
    ensures base <= w.cut <= base + n
    decreases n
  {
    if !ChunkAt(rest, n) then
      Walked(StopStatus(rest, n), [], base, 0, StopLack(rest, n))
    else
      var k := ChunkSpan(rest, n);
      if AtLast(rest[k..]) then
        Walked(End, [ChunkData(rest, n)], base + k, (base + k) + (base + k + 3), 0)
      else
        var w := Walk(rest[k..], n - k, base + k);
        w.(chunks := [ChunkData(rest, n)] + w.chunks, sum := base + k + w.sum)
  }

  // ---- Framing ----

  datatype Frame = Frame(size: string, payload: string)

  // RFC 7230: chunk-size = 1*HEXDIG, any case, any number of leading zeros.
  predicate IsFrame(f: Frame) {
    f.size != [] && AllHex(f.size) && HexValue(f.size) == |f.payload| < SIZE_LIMIT
  }

  function FrameBytes(f: Frame): string {
    f.size + CRLF + f.payload + CRLF
  }

  function Body(fs: seq<Frame>): string {
    if fs == [] then LAST else FrameBytes(fs[0]) + Body(fs[1..])
  }

  function Payloads(fs: seq<Frame>): seq<string> {
    if fs == [] then [] else [fs[0].payload] + Payloads(fs[1..])
  }

  // The frames up to the first one whose size is written as a single zero.
  function BeforeZero(fs: seq<Frame>): seq<Frame> {
    if fs == [] || fs[0].size == "0" then [] else [fs[0]] + BeforeZero(fs[1..])
  }

  lemma {:induction false} HexRunIs(s: string, n: nat)
    requires n <= |s| && AllHex(s[..n]) && (n < |s| ==> !IsHex(s[n]))
    ensures HexRun(s) == n
  {
    if n > 0 {
      assert s[..n] == [s[0]] + s[1..][..n - 1];
      assert IsHex(s[..n][0]);
      HexRunIs(s[1..], n - 1);
    }
  }

  // A header stays the same header when more data follows it.
  lemma HeaderStable(s: string, more: string)
    requires ParseHeader(s).Header?
    ensures ParseHeader(s + more) == ParseHeader(s)
  {
    var n := HexRun(s);
    var t := s + more;
    assert s[n] == '\r';
    assert t[..n] == s[..n];
    HexRunIs(t, n);
    assert t[n..] == s[n..] + more;
  }

  lemma HeaderOfFrame(f: Frame, more: string)
    requires IsFrame(f)
    ensures ParseHeader(f.size + CRLF + more) == Header(|f.payload|, |f.size| + 2)
  {
    var n := |f.size|;
    var t := f.size + CRLF + more;
    assert t[..n] == f.size && t[n] == CRLF[0];
    HexRunIs(t, n);
    assert t[n..] == CRLF + more;
  }

  lemma FrameSlices(f: Frame, rest: string, n: nat)
    requires n <= |rest|
    ensures var b := FrameBytes(f); var mem := b + rest; var k := |f.size| + 2;
      && |b| == k + |f.payload| + 2
      && mem[..|b| + n] == f.size + CRLF + (f.payload + CRLF + rest[..n])
      && mem[k..k + |f.payload|] == f.payload
      && mem[k + |f.payload|..] == CRLF + rest
      && mem[|b|..] == rest
  {
    assert |CRLF| == 2;
    hide CRLF;
  }

  lemma FrameAtFront(f: Frame, rest: string, n: nat)
    requires IsFrame(f) && n <= |rest|
    ensures var b := FrameBytes(f); var mem := b + rest; var k := |f.size| + 2;
      && |b| == k + |f.payload| + 2
      && ParseHeader(mem[..|b| + n]) == Header(|f.payload|, k)
      && mem[k..k + |f.payload|] == f.payload
      && AtCrlf(mem[k + |f.payload|..])
      && mem[|b|..] == rest
  {
    FrameSlices(f, rest, n);
    HeaderOfFrame(f, f.payload + CRLF + rest[..n]);
    hide FrameBytes, ParseHeader;
    assert AtCrlf(CRLF + rest);
  }

  // The walk at a frame takes its payload; what follows decides whether it ends here.
  lemma WalkFrame(f: Frame, rest: string, n: nat, base: nat)
    requires IsFrame(f) && n <= |rest|
    ensures var b := FrameBytes(f); var w := Walk(b + rest, |b| + n, base);
      var t := Walk(rest, n, base + |b|);
      if AtLast(rest) then w == Walked(End, [f.payload], base + |b|, (base + |b|) + (base + |b| + 3), 0)
      else w == Walked(t.status, [f.payload] + t.chunks, t.cut, base + |b| + t.sum, t.lack)
  {
    hide IsFrame, FrameBytes, ParseHeader, AtLast, AtCrlf;
    FrameAtFront(f, rest, n);
    var b := FrameBytes(f);
    assert ChunkAt(b + rest, |b| + n) && ChunkSpan(b + rest, |b| + n) == |b| && ChunkData(b + rest, |b| + n) == f.payload;
    hide ChunkAt, ChunkSpan, ChunkData;
  }

  predicate AllFrames(fs: seq<Frame>) {
    forall i :: 0 <= i < |fs| ==> IsFrame(fs[i])
  }

  predicate ZeroFree(fs: seq<Frame>) {
    forall i :: 0 <= i < |fs| ==> fs[i].size != "0"
  }

  // A body stands at the terminator exactly when no frame is left or the next one writes its
  // size as a single zero.
  lemma BodyAtLast(fs: seq<Frame>, slack: string)
    requires AllFrames(fs)
    ensures AtLast(Body(fs) + slack) <==> fs == [] || fs[0].size == "0"
  {
    hide AtLast, HexValue;
    if fs == [] {
      LastIsLast(slack);
    } else {
      assert IsFrame(fs[0]);
      var f, rest := fs[0], Body(fs[1..]);
      FrameFront(f, rest, slack);
      SizeAtLast(f.size, f.payload + CRLF + rest + slack);
    }
  }

  lemma LastIsLast(slack: string)
    ensures AtLast(LAST + slack)
  {
  }

  lemma FrameFront(f: Frame, rest: string, slack: string)
    ensures FrameBytes(f) + rest + slack == f.size + CRLF + (f.payload + CRLF + rest + slack)
  {
    hide CRLF;
  }

  // Only a size written as a single zero looks like the terminator.
  lemma SizeAtLast(size: string, more: string)
    requires size != [] && AllHex(size)
    ensures AtLast(size + CRLF + more) <==> size == "0"
  {
    var t := size + CRLF + more;
    assert t[0] == size[0];
    if |size| > 1 {
      assert t[1] == size[1] && IsHex(t[1]);
    } else {
      assert t[1] == CRLF[0] && t[2] == CRLF[1];
    }
  }

  // Serialised frames parse to their payloads, up to the first one that is taken for the end,
  // whatever stands behind the terminator and however much of it is data.
  lemma {:induction false} WalkOfBody(fs: seq<Frame>, slack: string, m: nat, base: nat)
    requires fs != [] && AllFrames(fs) && m <= |slack|
    ensures var b := Body(fs); var w := Walk(b + slack, |b| + m, base);
      w.status == End && w.chunks == [fs[0].payload] + Payloads(BeforeZero(fs[1..]))
  {
    hide IsFrame, FrameBytes, Walk, AtLast;
    var f, more := fs[0], fs[1..];
    var b, rest := FrameBytes(f), Body(more);
    assert AllFrames(more);
    ConcatAssoc(b, rest, slack);
    WalkFrame(f, rest + slack, |rest| + m, base);
    BodyAtLast(more, slack);
    if more != [] && more[0].size != "0" {
      WalkOfBody(more, slack, m, base + |b|);
    }
  }

  lemma {:induction false} BeforeZeroIsAll(fs: seq<Frame>)
    ensures |Payloads(BeforeZero(fs))| <= |fs|
    ensures ZeroFree(fs) ==> BeforeZero(fs) == fs
    ensures |Payloads(BeforeZero(fs))| == |fs| ==> ZeroFree(fs)
  {
    if fs != [] {
      BeforeZeroIsAll(fs[1..]);
      if fs[0].size != "0" {
        assert BeforeZero(fs)[1..] == BeforeZero(fs[1..]);
        assert fs == [fs[0]] + fs[1..];
        assert ZeroFree(fs) ==> ZeroFree(fs[1..]);
      } else {
        assert !ZeroFree(fs);
      }
    }
  }

  // The parser reads back exactly what was framed if and only if there is a frame and no
  // later frame is an empty one written "0": the terminator test would take that for the end.
  // The first m bytes behind the terminator are data too: RFC 7230 has a trailer part and one
  // more CRLF there.
  lemma FramedBodyParsesIff(fs: seq<Frame>, slack: string, m: nat)
    requires AllFrames(fs) && m <= |slack|
    ensures var b := Body(fs); var w := Walk(b + slack, |b| + m, 0);
      w.status == End && w.chunks == Payloads(fs) <==> fs != [] && ZeroFree(fs[1..])
  {
    hide Walk, AllFrames, IsFrame;
    if fs == [] {
      if Walk(LAST + slack, 3 + m, 0).status == End {
        EndHasChunk(LAST + slack, 3 + m, 0);
      }
    } else {
      WalkOfBody(fs, slack, m, 0);
      BeforeZeroIsAll(fs[1..]);
      PayloadCount(fs[1..]);
    }
  }

  lemma {:induction false} PayloadCount(fs: seq<Frame>)
    ensures |Payloads(fs)| == |fs|
  {
    if fs != [] {
      PayloadCount(fs[1..]);
    }
  }

  // A terminator with no chunk before it is read as the header of an empty chunk.
  lemma LoneTerminator(slack: string)
    ensures Walk(LAST + slack, 3, 0) == Walked(Lack, [], 0, 0, 2)
  {
    var f := Frame("0", "");
    assert (LAST + slack)[..3] == f.size + CRLF + [];
    assert HexValue("0") == 0 by { assert "0"[..0] == []; }
    HeaderOfFrame(f, []);
  }

  // A non-empty payload never has a size written "0".
  lemma NonEmptyPayloadsAreZeroFree(fs: seq<Frame>)
    requires AllFrames(fs) && forall i :: 0 <= i < |fs| ==> fs[i].payload != ""
    ensures ZeroFree(fs)
  {
    forall i | 0 <= i < |fs| ensures fs[i].size != "0" {
      assert IsFrame(fs[i]);
      assert HexValue("0") == 0 by { assert "0"[..0] == []; }
    }
  }

  // ---- Resumption ----

  lemma {:induction false} WalkBase(rest: string, n: nat, a: nat, b: nat)
    requires n <= |rest|
    decreases n
    ensures var v, w := Walk(rest, n, a), Walk(rest, n, b);
      v.status == w.status && v.chunks == w.chunks && v.lack == w.lack && v.cut - a == w.cut - b
  {
    hide ChunkAt, ChunkSpan, ChunkData, StopStatus, StopLack, AtLast;
    if ChunkAt(rest, n) {
      var k := ChunkSpan(rest, n);
      WalkBase(rest[k..], n - k, a + k, b + k);
    }
  }

  // In what follows `u` is the data of the first call, `slack` the memory behind it, and
  // `more` what stands behind u in the longer buffer, of which `nv` bytes are data.

  // A complete chunk in the data is the same chunk when more data has arrived.
  lemma ChunkStable(u: string, slack: string, more: string, nv: nat)
    requires ChunkAt(u + slack, |u|) && nv <= |more|
    ensures ChunkAt(u + more, |u| + nv) && ChunkSpan(u + more, |u| + nv) == ChunkSpan(u + slack, |u|)
    ensures ChunkData(u + more, |u| + nv) == ChunkData(u + slack, |u|)
  {
    var mem, n := u + more, |u| + nv;
    assert (u + slack)[..|u|] == u && mem[..n] == u + more[..nv];
    HeaderStable(u, more[..nv]);
    hide ParseHeader;
    var k := ChunkSpan(u + slack, |u|);
    assert (u + slack)[k - 2] == u[k - 2] == mem[k - 2] && (u + slack)[k - 1] == u[k - 1] == mem[k - 1];
  }

  // A walk that does not stop at once, or lacks data inside a chunk, saw a whole header.
  lemma LackLeavesHeader(rest: string, n: nat, base: nat)
    requires n <= |rest| && Walk(rest, n, base).status == Lack && n > 0
    ensures n >= 3
  {
  }

  lemma Shift(u: string, more: string, k: nat)
    requires k <= |u|
    ensures (u + more)[k..] == u[k..] + more
  {
  }

  // Parsing again from the end of the last completed chunk, with more data: unless the cut is
  // the end of the data and the new data starts with the terminator, the second walk finds
  // what one walk over everything would have found after that point.
  lemma {:induction false} Resume(u: string, slack: string, more: string, nv: nat, base: nat)
    requires nv <= |more| && Walk(u + slack, |u|, base).status == Lack
    requires var w := Walk(u + slack, |u|, base); w.cut < base + |u| || w.chunks == [] || !AtLast(more)
    decreases |u|
    ensures var w := Walk(u + slack, |u|, base); var c := w.cut - base;
      var whole := Walk(u + more, |u| + nv, base);
      var again := Walk((u + more)[c..], |u| + nv - c, w.cut);
      && whole.status == again.status && whole.chunks == w.chunks + again.chunks
      && whole.lack == again.lack && whole.cut == again.cut
  {
    hide Walk, ChunkAt, ChunkSpan, ChunkData, AtLast;
    var mem, n := u + more, |u| + nv;
    if ChunkAt(u + slack, |u|) {
      var k := ChunkSpan(u + slack, |u|);
      ChunkStable(u, slack, more, nv);
      Shift(u, slack, k);
      Shift(u, more, k);
      WalkGoesOn(u + slack, |u|, base);
      NoTerminator(u[k..], slack, more, base + k);
      WalkGoesOn(mem, n, base);
      Resume(u[k..], slack, more, nv, base + k);
      var inner := Walk(u[k..] + slack, |u| - k, base + k);
      var c := inner.cut - base - k;
      DropDrop(mem, k, c);
      ConcatAssoc([ChunkData(u + slack, |u|)], inner.chunks, Walk(mem[k + c..], n - k - c, inner.cut).chunks);
    } else {
      WalkStops(u + slack, |u|, base);
      assert mem[0..] == mem;
    }
  }

  lemma WalkGoesOn(rest: string, n: nat, base: nat)
    requires n <= |rest| && ChunkAt(rest, n)
    ensures var k := ChunkSpan(rest, n); var w, v := Walk(rest, n, base), Walk(rest[k..], n - k, base + k);
      && (w.status == Lack ==> !AtLast(rest[k..]))
      && (!AtLast(rest[k..]) ==>
           w == Walked(v.status, [ChunkData(rest, n)] + v.chunks, v.cut, base + k + v.sum, v.lack))
  {
    hide ChunkAt, ChunkSpan, ChunkData, AtLast;
  }

  lemma WalkStops(rest: string, n: nat, base: nat)
    requires n <= |rest| && !ChunkAt(rest, n)
    ensures Walk(rest, n, base).chunks == [] && Walk(rest, n, base).cut == base
  {
    hide ChunkAt, AtLast;
  }

  // A walk that lacks data saw no terminator at its start, nor does the longer data show one
  // there.
  lemma NoTerminator(u: string, slack: string, more: string, base: nat)
    requires Walk(u + slack, |u|, base).status == Lack && !AtLast(u + slack)
    requires u == [] ==> !AtLast(more)
    ensures !AtLast(u + more)
  {
    if u == [] {
      assert u + more == more;
    } else {
      LackLeavesHeader(u + slack, |u|, base);
    }
  }

  lemma EndHasChunk(rest: string, n: nat, base: nat)
    requires n <= |rest| && Walk(rest, n, base).status == End
    ensures Walk(rest, n, base).chunks != []
  {
    StopNotEnd(rest, n);
  }

  // At the boundary the terminator is seen by the one walk and missed by the second.
  lemma {:induction false} TerminatorAtBoundary(u: string, slack: string, more: string, nv: nat, base: nat)
    requires nv <= |more| && Walk(u + slack, |u|, base).status == Lack
    requires var w := Walk(u + slack, |u|, base); w.cut == base + |u| && w.chunks != [] && AtLast(more)
    decreases |u|
    ensures var w := Walk(u + slack, |u|, base); var whole := Walk(u + more, |u| + nv, base);
      whole.status == End && whole.chunks == w.chunks
  {
    hide StopStatus, StopLack, AtLast, ChunkData, ChunkAt, ChunkSpan;
    var k := ChunkSpan(u + slack, |u|);
    ChunkStable(u, slack, more, nv);
    Shift(u, slack, k);
    Shift(u, more, k);
    if k == |u| {
      assert u[k..] + more == more;
      EmptyWalk(u[k..] + slack, base + k);
    } else {
      NoTerminator(u[k..], slack, more, base + k);
      TerminatorAtBoundary(u[k..], slack, more, nv, base + k);
    }
  }

  // A terminator seen stays seen when it stands in the longer data as well.
  lemma {:induction false} EndStable(u: string, slack: string, more: string, nv: nat, base: nat)
    requires nv <= |more| && Walk(u + slack, |u|, base).status == End
    requires AtLast(u[Walk(u + slack, |u|, base).cut - base..] + more)
    decreases |u|
    ensures var w := Walk(u + slack, |u|, base); var whole := Walk(u + more, |u| + nv, base);
      whole.status == End && whole.chunks == w.chunks
  {
    hide Walk, AtLast, ChunkData, ChunkAt, ChunkSpan;
    assert ChunkAt(u + slack, |u|) by { EndSawChunk(u + slack, |u|, base); }
    var k := ChunkSpan(u + slack, |u|);
    ChunkStable(u, slack, more, nv);
    Shift(u, slack, k);
    Shift(u, more, k);
    WalkEnds(u + slack, |u|, base);
    WalkEnds(u + more, |u| + nv, base);
    if !AtLast(u[k..] + slack) {
      var w := Walk(u[k..] + slack, |u| - k, base + k);
      DropDrop(u, k, w.cut - base - k);
      if AtLast(u[k..] + more) {
        SameStart(u[k..], slack, more, base + k);
      } else {
        EndStable(u[k..], slack, more, nv, base + k);
      }
    }
  }

  lemma EndSawChunk(rest: string, n: nat, base: nat)
    requires n <= |rest| && Walk(rest, n, base).status == End
    ensures ChunkAt(rest, n)
  {
    StopNotEnd(rest, n);
  }

  lemma WalkEnds(rest: string, n: nat, base: nat)
    requires n <= |rest| && ChunkAt(rest, n)
    ensures var k := ChunkSpan(rest, n); var w, v := Walk(rest, n, base), Walk(rest[k..], n - k, base + k);
      if AtLast(rest[k..]) then w.status == End && w.chunks == [ChunkData(rest, n)] && w.cut == base + k
      else w.status == v.status && w.chunks == [ChunkData(rest, n)] + v.chunks && w.cut == v.cut
  {
    hide ChunkAt, ChunkSpan, ChunkData, AtLast;
  }

  // Where a chunk follows, what stands at the front is data, the same in both memories.
  lemma SameStart(u: string, slack: string, more: string, base: nat)
    requires Walk(u + slack, |u|, base).status == End
    ensures AtLast(u + slack) <==> AtLast(u + more)
  {
    EndSawChunk(u + slack, |u|, base);
    var k := ChunkSpan(u + slack, |u|);
    hide ChunkSpan;
    assert |u| >= 5;
  }

  lemma EmptyWalk(rest: string, base: nat)
    ensures Walk(rest, 0, base) == Walked(Lack, [], base, 0, 1024)
  {
  }

  // Resuming at the cut is right if and only if the cut is not the end of the data, or no
  // chunk came before it, or the new data does not start with the terminator.
  lemma ResumeIff(u: string, slack: string, more: string, nv: nat)
    requires nv <= |more| && Walk(u + slack, |u|, 0).status == Lack
    ensures var w := Walk(u + slack, |u|, 0);
      var whole := Walk(u + more, |u| + nv, 0);
      var again := Walk((u + more)[w.cut..], |u| + nv - w.cut, 0);
      (whole.status == again.status && whole.chunks == w.chunks + again.chunks)
        <==> w.cut < |u| || w.chunks == [] || !AtLast(more)
  {
    hide Walk, AtLast;
    var w := Walk(u + slack, |u|, 0);
    var tail, n := (u + more)[w.cut..], |u| + nv - w.cut;
    WalkBase(tail, n, 0, w.cut);
    if w.cut < |u| || w.chunks == [] || !AtLast(more) {
      Resume(u, slack, more, nv, 0);
    } else {
      TerminatorAtBoundary(u, slack, more, nv, 0);
      if Walk(tail, n, 0).status == End {
        EndHasChunk(tail, n, 0);
      }
    }
  }

  // ---- parsed_length() ----

  lemma {:induction false} SumAndCut(rest: string, n: nat, base: nat)
    requires n <= |rest|
    decreases n
    ensures var w := Walk(rest, n, base);
      && (w.chunks == [] ==> w.sum == 0 && w.cut == base)
      && (w.chunks != [] ==> w.cut > base)
      && (w.status != End && |w.chunks| == 1 ==> w.sum == w.cut)
      && (w.status != End && |w.chunks| >= 2 ==> w.sum > w.cut)
      && (w.status == End ==> w.sum > w.cut + 3)
  {
    hide ChunkAt, ChunkSpan, ChunkData, StopStatus, StopLack, AtLast;
    if ChunkAt(rest, n) {
      var k := ChunkSpan(rest, n);
      SumAndCut(rest[k..], n - k, base + k);
    } else {
      StopNotEnd(rest, n);
    }
  }

  lemma StopNotEnd(rest: string, n: nat)
    requires n <= |rest|
    ensures StopStatus(rest, n) != End
  {
  }

  // parsed() adds absolute offsets, so on LACK parsed_length() is the cut exactly when at
  // most one chunk completed, and on END it is never the number of bytes consumed.
  lemma ParsedLengthIsCutIff(rest: string, n: nat)
    requires n <= |rest|
    ensures var w := Walk(rest, n, 0);
      && (w.status == Lack ==> (w.sum == w.cut <==> |w.chunks| <= 1))
      && (w.status == End ==> w.sum > w.cut + |LAST|)
  {
    SumAndCut(rest, n, 0);
  }
}
