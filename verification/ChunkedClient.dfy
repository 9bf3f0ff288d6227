/**
 * The objects around the chunk parser: the result it fills in, the response it appends to and
 * decodes, the parser's own loop, and the client loop that re-reads when data is lacking.
 */
module ChunkedClient {
  import opened Chunked
  import opened ChunkedTransfer
  import opened SeqFacts

  // A handle on memory of which the first `used` bytes are data.
  datatype Buffer = Buffer(mem: string, used: nat)
  {
    predicate Valid() {
      used <= |mem|
    }
  }

  // ---- Objects ----

  class Result {
    var status: Status
    var parsedLen: nat
    var lackLen: nat

    constructor ()
      ensures status == Bad && parsedLen == 0 && lackLen == 0
    {
      status, parsedLen, lackLen := Bad, 0, 0;
    }

    // The lacking length is set here and added to in ToLack.
    method CheckLack(need: nat, have: nat) returns (lack: bool)
      modifies this
      ensures lack <==> need > have
      ensures parsedLen == old(parsedLen)
      ensures if lack then status == Lack && lackLen == need - have
              else status == old(status) && lackLen == old(lackLen)
    {
      if need > have {
        status, lackLen := Lack, need - have;
        return true;
      }
      return false;
    }

    method ToEnd(parsed: nat)
      modifies this
      ensures status == End && parsedLen == old(parsedLen) + parsed && lackLen == old(lackLen)
    {
      parsedLen, status := parsedLen + parsed, End;
    }

    method ToLack(lack: nat)
      modifies this
      ensures status == Lack && parsedLen == old(parsedLen) && lackLen == old(lackLen) + lack
    {
      lackLen, status := lackLen + lack, Lack;
    }

    method ToBad()
      modifies this
      ensures status == Bad && parsedLen == old(parsedLen) && lackLen == old(lackLen)
    {
      status := Bad;
    }

    method Parsed(parsed: nat)
      modifies this
      ensures status == old(status) && parsedLen == old(parsedLen) + parsed && lackLen == old(lackLen)
    {
      parsedLen := parsedLen + parsed;
    }
  }

  class Response {
    var chunks: seq<string>
    var chunkTotalLen: nat
    var body: string
    const chunked: bool
    // No content encoding.
    const plain: bool

    ghost predicate Valid()
      reads this
    {
      chunkTotalLen == |Concat(chunks)|
    }

    constructor (chunked: bool, plain: bool)
      ensures Valid() && chunks == [] && body == "" && this.chunked == chunked && this.plain == plain
    {
      chunks, chunkTotalLen, body := [], 0, "";
      this.chunked, this.plain := chunked, plain;
    }

    method AppendChunk(chunk: string)
      requires Valid()
      modifies this
      ensures Valid() && chunks == old(chunks) + [chunk] && body == old(body)
      ensures chunkTotalLen == old(chunkTotalLen) + |chunk|
    {
      ConcatSnoc(chunks, chunk);
      chunkTotalLen := chunkTotalLen + |chunk|;
      chunks := chunks + [chunk];
    }

    // The total buffer is one byte longer than the body and the copies end exactly at the
    // body's length.
    method Decode()
      requires Valid()
      modifies this
      ensures Valid() && chunks == old(chunks) && chunkTotalLen == old(chunkTotalLen)
      ensures body == if chunked && plain then Concat(chunks) else old(body)
    {
      if chunked {
        var total := new char[chunkTotalLen + 1];
        var at := 0;
        for i := 0 to |chunks|
          invariant unchanged(this)
          invariant at == |Concat(chunks[..i])| <= chunkTotalLen
          invariant total[..at] == Concat(chunks[..i])
        {
          var chunk := chunks[i];
          assert chunks[..i + 1][..i] == chunks[..i];
          ConcatPrefix(chunks, i + 1);
          CopyAt(total, at, chunk);
          at := at + |chunk|;
        }
        assert chunks[..|chunks|] == chunks;
        if plain {
          body := total[..chunkTotalLen];
        }
      }
    }
  }

  // memcpy(a + at, s, |s|)
  method CopyAt(a: array<char>, at: nat, s: string)
    requires at + |s| <= a.Length
    modifies a
    ensures a[..at + |s|] == old(a[..at]) + s
    ensures a[at + |s|..] == old(a[at + |s|..])
  {
    forall k | 0 <= k < |s| {
      a[at + k] := s[k];
    }
  }

  lemma ConcatSnoc(chunks: seq<string>, chunk: string)
    ensures Concat(chunks + [chunk]) == Concat(chunks) + chunk
  {
    assert (chunks + [chunk])[..|chunks|] == chunks;
  }

  lemma {:induction false} ConcatPrefix(chunks: seq<string>, i: nat)
    requires i <= |chunks|
    ensures |Concat(chunks[..i])| <= |Concat(chunks)|
    decreases |chunks| - i
  {
    if i == |chunks| {
      assert chunks[..i] == chunks;
    } else {
      assert chunks[..i + 1][..i] == chunks[..i];
      ConcatPrefix(chunks, i + 1);
    }
  }

  // The walk, branch by branch, in terms of the header at the front.
  lemma WalkAtHeader(rest: string, n: nat, base: nat)
    requires 0 < n <= |rest|
    ensures var h, w := ParseHeader(rest[..n]), Walk(rest, n, base);
      if h.NoHeader? then w == Walked(Bad, [], base, 0, 0)
      else if h.size + 2 > n - h.length then w == Walked(Lack, [], base, 0, h.size + 2 - (n - h.length))
      else if !AtCrlf(rest[h.length + h.size..]) then w == Walked(Bad, [], base, 0, 0)
      else
        var k, payload := h.length + h.size + 2, rest[h.length..h.length + h.size];
        if AtLast(rest[k..]) then w == Walked(End, [payload], base + k, (base + k) + (base + k + 3), 0)
        else
          var v := Walk(rest[k..], n - k, base + k);
          w == Walked(v.status, [payload] + v.chunks, v.cut, base + k + v.sum, v.lack)
  {
    hide ParseHeader, AtCrlf, AtLast;
  }

  lemma SliceOfRest(mem: string, at: nat, from: nat, size: nat)
    requires at + from + size <= |mem|
    ensures mem[at..][from..from + size] == mem[at + from..at + from + size]
  {
  }

  // What is left of a walk standing at offset `at`, when `done` and `sum` were collected before.
  ghost predicate Remains(data: Buffer, at: nat, done: seq<string>, sum: nat) {
    data.Valid() && at <= data.used &&
    var whole, w := Walk(data.mem, data.used, 0), Walk(data.mem[at..], data.used - at, at);
    whole.status == w.status && whole.sum == sum + w.sum && whole.lack == w.lack && whole.chunks == done + w.chunks
  }

  lemma RemainsAtStart(data: Buffer)
    requires data.Valid()
    ensures Remains(data, 0, [], 0)
  {
    hide Walk;
    assert data.mem[0..] == data.mem;
  }

  // One more chunk taken.
  lemma RemainsAfter(data: Buffer, at: nat, done: seq<string>, sum: nat, payload: string, next: nat)
    requires Remains(data, at, done, sum) && at < next <= data.used
    requires var w := Walk(data.mem[at..], data.used - at, at);
      var v := Walk(data.mem[next..], data.used - next, next);
      w == Walked(v.status, [payload] + v.chunks, v.cut, next + v.sum, v.lack)
    ensures Remains(data, next, done + [payload], sum + next)
  {
    hide Walk;
    ConcatAssoc(done, [payload], Walk(data.mem[next..], data.used - next, next).chunks);
  }

  // parse_chunk: the offsets given to Parsed and ToEnd count from the start of the buffer.
  method ParseChunk(data: Buffer, resp: Response) returns (ret: Result)
    requires data.Valid() && resp.Valid()
    modifies resp
    ensures fresh(ret) && resp.Valid() && resp.body == old(resp.body)
    ensures var w := Walk(data.mem, data.used, 0);
      && ret.status == w.status && ret.parsedLen == w.sum && ret.lackLen == w.lack
      && resp.chunks == old(resp.chunks) + w.chunks
  {
    hide Walk, ParseHeader, AtCrlf, AtLast, Concat;
    ret := new Result();
    var at := 0;
    ghost var done: seq<string> := [];
    RemainsAtStart(data);
    while true
      invariant ret.status == Bad && ret.lackLen == 0 && fresh(ret)
      invariant resp.Valid() && resp.body == old(resp.body) && resp.chunks == old(resp.chunks) + done
      invariant Remains(data, at, done, ret.parsedLen)
      decreases data.used - at
    {
      if at >= data.used {
        EmptyWalk(data.mem[at..], at);
        ret.ToLack(1024);
        return;
      }
      WalkAtHeader(data.mem[at..], data.used - at, at);
      SliceOfRest(data.mem, at, 0, data.used - at);
      var header := ParseHeader(data.mem[at..data.used]);
      if header == NoHeader {
        ret.ToBad();
        return;
      }
      var start := at + header.length;
      var short := ret.CheckLack(header.size + 2, data.used - start);
      if short {
        return;
      }
      DropDrop(data.mem, at, header.length + header.size);
      if !AtCrlf(data.mem[start + header.size..]) {
        ret.ToBad();
        return;
      }
      var payload := data.mem[start..start + header.size];
      assert payload == data.mem[at..][header.length..header.length + header.size] by {
        SliceOfRest(data.mem, at, header.length, header.size);
      }
      resp.AppendChunk(payload);
      ConcatAssoc(old(resp.chunks), done, [payload]);
      var span := header.length + header.size + 2;
      var next := at + span;
      DropDrop(data.mem, at, span);
      ret.Parsed(next);
      if AtLast(data.mem[next..]) {
        ret.ToEnd(next + 3);
        return;
      }
      RemainsAfter(data, at, done, ret.parsedLen - next, payload, next);
      done, at := done + [payload], next;
    }
  }

  // What is left of a transfer, when `done` was collected before.
  ghost predicate StillToFeed(all: Received, done: seq<string>, u: string, slack: string, turns: seq<Read>) {
    var f := Feed(u, slack, turns);
    all.status == f.status && all.chunks == done + f.chunks
  }

  lemma FeedOnce(all: Received, done: seq<string>, u: string, slack: string, turns: seq<Read>)
    requires StillToFeed(all, done, u, slack, turns)
    ensures var w := Walk(u + slack, |u|, 0);
      if w.status != Lack || turns == [] then all == Received(w.status, done + w.chunks)
      else StillToFeed(all, done + w.chunks, Right(u, w.sum) + turns[0].bytes, turns[0].slack, turns[1..])
  {
    hide Walk, Right;
    var w := Walk(u + slack, |u|, 0);
    if w.status == Lack && turns != [] {
      ConcatAssoc(done, w.chunks, Feed(Right(u, w.sum) + turns[0].bytes, turns[0].slack, turns[1..]).chunks);
    }
  }

  // The client's loop: parse, and while data is lacking keep the right part and read on.
  method Receive(first: Read, turns: seq<Read>, resp: Response) returns (ok: bool)
    requires resp.Valid() && resp.chunks == []
    modifies resp
    ensures resp.Valid()
    ensures var f := Feed(first.bytes, first.slack, turns);
      && (ok <==> f.status == End) && resp.chunks == f.chunks
      && resp.body == (if ok && resp.chunked && resp.plain then Concat(f.chunks) else old(resp.body))
  {
    hide Walk, Feed, Right, Concat, StillToFeed;
    ghost var all := Feed(first.bytes, first.slack, turns);
    var u, slack := first.bytes, first.slack;
    var i := 0;
    assert turns[0..] == turns;
    assert StillToFeed(all, [], u, slack, turns) by { StillAtStart(first, turns); }
    var ret := ParseChunk(Buffer(u + slack, |u|), resp);
    ghost var before: seq<string> := [];
    while ret.status == Lack && i < |turns|
      invariant i <= |turns| && resp.Valid() && resp.body == old(resp.body) && fresh(ret)
      invariant var w := Walk(u + slack, |u|, 0);
        ret.status == w.status && ret.parsedLen == w.sum && resp.chunks == before + w.chunks
      invariant StillToFeed(all, before, u, slack, turns[i..])
    {
      FeedOnce(all, before, u, slack, turns[i..]);
      before := resp.chunks;
      DropDrop(turns, i, 1);
      u, slack := Right(u, ret.parsedLen) + turns[i].bytes, turns[i].slack;
      i := i + 1;
      ret := ParseChunk(Buffer(u + slack, |u|), resp);
    }
    FeedOnce(all, before, u, slack, turns[i..]);
    ok := ret.status == End;
    if ok {
      resp.Decode();
    }
  }

  lemma StillAtStart(first: Read, turns: seq<Read>)
    ensures StillToFeed(Feed(first.bytes, first.slack, turns), [], first.bytes, first.slack, turns)
  {
    hide Feed;
  }
}
