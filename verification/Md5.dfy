/** The streaming object: state, bit counter and buffer, updated in place. */
module Md5 {
  import opened SeqFacts
  import opened Md5Spec

  class Hasher {
    const state: array<ulong>
    const count: array<ulong>
    const buffer: array<byte>
    const digest: array<byte>
    var finished: bool
    ghost var msg: seq<byte>  // everything absorbed so far

    ghost predicate Shape() {
      state.Length == 4 && count.Length == 2 && buffer.Length == 64 && digest.Length == 16 && state != count && buffer != digest
    }

    function StateValue(): State
      requires Shape()
      reads state
    {
      State(state[0], state[1], state[2], state[3])
    }

    // `_state` is the fold of the block function over the full blocks, the counter is the
    // length in bits modulo 2^64 and the buffer starts with the message tail.
    ghost predicate Absorbed(m: seq<byte>)
      requires Shape()
      reads state, count, buffer
    {
      && StateValue() == Fold(INIT, Whole(m))
      && count[0] == 8 * |m| % 0x1_0000_0000
      && count[1] == 8 * |m| / 0x1_0000_0000 % 0x1_0000_0000
      && buffer[..|m| % 64] == Tail(m)
    }

    ghost predicate Consistent()
      reads this, state, count, buffer
    {
      Shape() && Absorbed(msg)
    }

    // `finished` never stays true: final() calls update, which clears it.
    ghost predicate Valid()
      reads this, state, count, buffer
    {
      Consistent() && !finished
    }

    constructor ()
      ensures Valid() && msg == []
      ensures fresh(state) && fresh(count) && fresh(buffer) && fresh(digest)
    {
      state, count, buffer, digest := new ulong[4], new ulong[2], new byte[64], new byte[16];
      new;
      Reset();
    }

    method Reset()
      requires Shape()
      modifies this, state, count
      ensures Valid() && msg == []
    {
      finished := false;
      count[0], count[1] := 0, 0;
      state[0], state[1], state[2], state[3] := 0x67452301, 0xefcdab89, 0x98badcfe, 0x10325476;
      msg := [];
    }

    // transform: 64 operations, each updating one register in place, then the additions.
    method Transform(block: seq<byte>)
      requires Shape() && |block| == 64
      modifies state
      ensures StateValue() == Compress(old(StateValue()), block)
    {
      hide Operation, Rounds, AddWord, BlockWords, Compress, Register;
      var a, b, c, d := Register(state[0]), Register(state[1]), Register(state[2]), Register(state[3]);
      var x := Decode(block);
      ghost var r := Rounds(0, a, b, c, d, x);
      for turn := 0 to 16
        invariant Rounds(4 * turn, a, b, c, d, x) == r && StateValue() == old(StateValue())
      {
        FourOperations(4 * turn, a, b, c, d, x);
        a := Operation(4 * turn, a, b, c, d, x);
        d := Operation(4 * turn + 1, d, a, b, c, x);
        c := Operation(4 * turn + 2, c, d, a, b, x);
        b := Operation(4 * turn + 3, b, c, d, a, x);
      }
      NoMoreRounds(a, b, c, d, x);
      CompressAdds(StateValue(), block);
      state[0] := AddWord(state[0], a);
      state[1] := AddWord(state[1], b);
      state[2] := AddWord(state[2], c);
      state[3] := AddWord(state[3], d);
    }

    // decode: bytes to words, low-order byte first.
    static method Decode(block: seq<byte>) returns (x: seq<bv32>)
      requires |block| == 64
      ensures x == BlockWords(block)
    {
      hide DecodeWord, Register, BlockWords;
      x := [];
      for i := 0 to 16
        invariant |x| == i && forall k :: 0 <= k < i ==> x[k] == BlockWords(block)[k]
      {
        WordAt(block, i);
        x := x + [Register(DecodeWord(block[4 * i], block[4 * i + 1], block[4 * i + 2], block[4 * i + 3]))];
      }
    }

    // memcpy(&_buffer[index], src, |src|)
    method CopyToBuffer(index: nat, src: seq<byte>)
      requires Shape() && index + |src| <= 64
      modifies buffer
      ensures buffer[..] == Overlay(old(buffer[..]), index, src)
    {
      forall k | 0 <= k < |src| {
        buffer[index + k] := src[k];
      }
    }

    method AddCount(length: nat)
      requires Shape() && length < 0x1_0000_0000
      modifies count
      ensures forall n: nat :: old(count[0]) == 8 * n % 0x1_0000_0000 && old(count[1]) == 8 * n / 0x1_0000_0000 % 0x1_0000_0000 ==>
        count[0] == 8 * (n + length) % 0x1_0000_0000 && count[1] == 8 * (n + length) / 0x1_0000_0000 % 0x1_0000_0000
    {
      var shifted: ulong := 8 * length % 0x1_0000_0000;
      var low: ulong := (count[0] + shifted) % 0x1_0000_0000;
      var high: ulong := count[1];
      if low < shifted {
        high := (high + 1) % 0x1_0000_0000;
      }
      high := (high + length / 0x2000_0000) % 0x1_0000_0000;
      count[0], count[1] := low, high;
      forall n: nat | old(count[0]) == 8 * n % 0x1_0000_0000 && old(count[1]) == 8 * n / 0x1_0000_0000 % 0x1_0000_0000
        ensures count[0] == 8 * (n + length) % 0x1_0000_0000 && count[1] == 8 * (n + length) / 0x1_0000_0000 % 0x1_0000_0000
      {
        CountAdds(n, length);
      }
    }

    // "transform as many times as possible": the filled buffer, then whole blocks straight
    // from the input.  Returns how much of the input was transformed.
    method TransformBlocks(index: nat, input: seq<byte>, ghost m: seq<byte>) returns (i: nat)
      requires Shape() && index == |m| % 64 && 64 <= index + |input| < 0x1_0000_0000
      requires StateValue() == Fold(INIT, Whole(m)) && buffer[..index] == Tail(m)
      modifies state, buffer
      ensures i <= |input| < i + 64 && (|m| + i) % 64 == 0
      ensures StateValue() == Fold(INIT, m + input[..i])
      ensures buffer[..] == old(buffer[..index]) + input[..64 - index]
    {
      hide Compress, Fold, Whole, Tail, BlockLeft;
      var partLen := 64 - index;
      CopyToBuffer(index, input[..partLen]);
      FirstBlock(m, input, old(buffer[..]), buffer[..]);
      Transform(buffer[..]);
      i := partLen;
      while BlockLeft(i, |input|)
        decreases |input| - i
        invariant partLen <= i <= |input| && (|m| + i) % 64 == 0
        invariant StateValue() == Fold(INIT, m + input[..i])
        invariant buffer[..] == old(buffer[..index]) + input[..partLen]
      {
        RoomForBlock(|m|, |input|, i);
        NextBlock(m, input, i);
        Transform(input[i..i + 64]);
        i := i + 64;
      }
      RoomForBlock(|m|, |input|, i);
    }

    // The size bound is the one under which the loop's 32-bit test ends it in time.
    method Update(input: seq<byte>)
      requires Consistent() && |msg| % 64 + |input| < 0x1_0000_0000
      modifies this`finished, this`msg, state, count, buffer
      ensures Valid() && msg == old(msg) + input
      ensures buffer[..] == BufferAfter(old(buffer[..]), |old(msg)| % 64, input)
    {
      hide Compress, Fold, Whole, Tail, Overlay, BufferAfter;
      ghost var m := msg;
      finished := false;
      CountIndex(|m|);
      var index: nat := count[0] / 8 % 64;
      AddCount(|input|);
      var length := |input|;
      var partLen := 64 - index;
      var i: nat := 0;
      if length >= partLen {
        i := TransformBlocks(index, input, m);
        LongAppend(m, input, i);
        LongIndex(|m|, length, i);
        LongBuffer(old(buffer[..]), index, input, i);
        index := 0;
      } else {
        ShortAppend(m, input);
        ShortModulo(|m|, length);
        ShortBuffer(buffer[..], index, input);
      }
      OverlayFront(buffer[..], index, input[i..]);
      CopyToBuffer(index, input[i..]);
      msg := m + input;
    }

    // encode(input, output, 4 * |words|)
    method Encode(words: array<ulong>) returns (out: seq<byte>)
      ensures out == EncodeWords(words[..])
    {
      out := [];
      var i := 0;
      while i < words.Length
        invariant 0 <= i <= words.Length
        invariant out == EncodeWords(words[..i])
      {
        var w := words[i];
        var b0: byte, b1: byte, b2: byte, b3: byte :=
          w % 0x100, w / 0x100 % 0x100, w / 0x1_0000 % 0x100, w / 0x100_0000 % 0x100;
        assert words[..i + 1][..i] == words[..i];
        out := out + [b0, b1, b2, b3];
        i := i + 1;
      }
      assert words[..i] == words[..];
    }

    // The two updates of final(): padding and length go through update itself.
    method AppendPadding()
      requires Consistent()
      modifies this`finished, this`msg, state, count, buffer
      ensures Valid() && StateValue() == Fold(INIT, Padded(old(msg)))
      ensures buffer[..|old(msg)| % 64] == Tail(AfterDigest(old(msg)))
    {
      hide Compress, Fold, Whole, Tail, BufferAfter, EncodeWord, EncodeWords, LengthBytes, Padding, PadLength, Padded, AfterDigest;
      ghost var m, before := msg, buffer[..];
      var bits := Encode(count);
      EncodeCount(count[..], |m|);
      CountIndex(|m|);
      var index: nat := count[0] / 8 % 64;
      var padLen := if index < 56 then 56 - index else 120 - index;
      PaddingPrefix(|m|, padLen);
      Update(PADDING[..padLen]);
      Update(bits);
      PaddedIsWhole(m, msg);
      AfterDigestParts(m, before);
    }

    // final(): pads, encodes the digest, then puts the state and the count back, but not the
    // buffer.
    method Finalize()
      requires Consistent()
      modifies this`finished, this`msg, state, count, buffer, digest
      ensures Valid() && msg == AfterDigest(old(msg))
      ensures digest[..] == Digest(old(msg))
    {
      hide Compress, Fold, Whole, Tail, EncodeState, EncodeWords, Padded, AfterDigest, BufferAfter, Padding, LengthBytes, PadLength;
      ghost var m, before := msg, buffer[..];
      var a, b, c, d := state[0], state[1], state[2], state[3];
      var low, high := count[0], count[1];
      AppendPadding();
      var out := Encode(state);
      EncodeFour(state[..]);
      forall k | 0 <= k < 16 { digest[k] := out[k]; }
      assert digest[..] == out;
      state[0], state[1], state[2], state[3] := a, b, c, d;
      count[0], count[1] := low, high;
      AfterDigestParts(m, before);
      msg := AfterDigest(m);
    }

    method DigestBytes() returns (out: seq<byte>)
      requires Valid()
      modifies this, state, count, buffer, digest
      ensures Valid() && msg == AfterDigest(old(msg))
      ensures msg == old(msg) <==>
        |old(msg)| % 64 < 56 || Tail(old(msg)) == (Repeat<byte>(0, 56) + LengthBytes(|old(msg)|))[..|old(msg)| % 64]
      ensures out == digest[..] == Digest(old(msg))
    {
      hide Digest, AfterDigest, Tail, LengthBytes, Absorbed;
      DigestKeepsMessageIff(msg);
      if !finished {
        finished := true;
        Finalize();
      }
      out := digest[..];
    }
  }

  lemma NoMoreRounds(a: bv32, b: bv32, c: bv32, d: bv32, x: seq<bv32>)
    requires |x| == 16
    ensures Rounds(64, a, b, c, d, x) == (a, b, c, d)
  {
  }

  lemma CompressAdds(s: State, block: seq<byte>)
    requires |block| == 64
    ensures var r := Rounds(0, Register(s.a), Register(s.b), Register(s.c), Register(s.d), BlockWords(block));
      Compress(s, block) == State(AddWord(s.a, r.0), AddWord(s.b, r.1), AddWord(s.c, r.2), AddWord(s.d, r.3))
  {
    hide Rounds, AddWord, BlockWords, Register;
  }

  // Under the size bound the wrapped test says whether a whole block is left.
  lemma RoomForBlock(n: nat, length: nat, i: nat)
    requires n % 64 + length < 0x1_0000_0000 && i <= length && (n + i) % 64 == 0
    ensures BlockLeft(i, length) <==> i + 64 <= length
  {
    assert (n % 64 + i) % 64 == 0;
    assert n % 64 + i <= 0x1_0000_0000 - 64;
  }

  lemma WordAt(block: seq<byte>, i: nat)
    requires |block| == 64 && i < 16
    ensures BlockWords(block)[i] ==
            Register(DecodeWord(block[4 * i], block[4 * i + 1], block[4 * i + 2], block[4 * i + 3]))
  {
    hide DecodeWord, Register;
  }

  // `i + 63 < length`, the sum modulo 2^32.
  predicate BlockLeft(i: nat, length: nat) {
    (i + 63) % 0x1_0000_0000 < length
  }

  // The block loop's test is on 32 bits.  At the last place where a block may start it ends
  // the loop if and only if buffer fill and input together stay below 2^32; otherwise the
  // loop goes on past the input's end.
  lemma BlockLoopStopsIff(index: nat, length: nat, i: nat)
    requires index < 64 && i <= length < i + 64 && (index + i) % 64 == 0
    ensures !BlockLeft(i, length) <==> index + length < 0x1_0000_0000
  {
    if length < 0x1_0000_0000 <= i + 63 {
      assert (i + 63) % 0x1_0000_0000 == i + 63 - 0x1_0000_0000;
    }
  }

  const PADDING: seq<byte> := [0x80] + Repeat<byte>(0, 63)

  lemma ShortBuffer(buf: seq<byte>, index: nat, input: seq<byte>)
    requires |buf| == 64 && index + |input| < 64
    ensures BufferAfter(buf, index, input) == Overlay(buf, index, input[0..])
    ensures buf[..index] + input[0..] == buf[..index] + input
  {
    assert input[0..] == input;
  }

  lemma LongBuffer(buf: seq<byte>, index: nat, input: seq<byte>, i: nat)
    requires |buf| == 64 && index < 64 <= index + |input| && i <= |input| && (index + |input|) % 64 == |input| - i
    ensures BufferAfter(buf, index, input) == Overlay(buf[..index] + input[..64 - index], 0, input[i..])
  {
  }

  lemma LongIndex(n: nat, length: nat, i: nat)
    requires i <= length < i + 64 && (n + i) % 64 == 0
    ensures (n % 64 + length) % 64 == length - i == (n + length) % 64
  {
    ShortModulo(n + i, length - i);
  }

  lemma NextBlock(m: seq<byte>, input: seq<byte>, i: nat)
    requires i + 64 <= |input| && (|m| + i) % 64 == 0
    ensures Fold(INIT, m + input[..i + 64]) == Compress(Fold(INIT, m + input[..i]), input[i..i + 64])
  {
    hide Compress, Fold;
    assert m + input[..i + 64] == (m + input[..i]) + input[i..i + 64];
    FoldBlock(INIT, m + input[..i], input[i..i + 64]);
  }

  // The buffered tail and the first bytes of the input make one block.
  lemma FirstBlock(m: seq<byte>, input: seq<byte>, before: seq<byte>, after: seq<byte>)
    requires |before| == 64 && |m| % 64 + |input| >= 64 && before[..|m| % 64] == Tail(m)
    requires after == Overlay(before, |m| % 64, input[..64 - |m| % 64])
    ensures (|m| + 64 - |m| % 64) % 64 == 0
    ensures after == before[..|m| % 64] + input[..64 - |m| % 64]
    ensures Fold(INIT, m + input[..64 - |m| % 64]) == Compress(Fold(INIT, Whole(m)), after)
  {
    hide Compress, Fold, Whole, Tail, Overlay;
    var first := input[..64 - |m| % 64];
    OverlayFull(before, |m| % 64, first);
    FillsBlock(|m|);
    JoinBlock(Whole(m), Tail(m), first);
    assert m == Whole(m) + Tail(m) by { WholeThenTail(m); }
  }

  lemma JoinBlock(whole: seq<byte>, tail: seq<byte>, first: seq<byte>)
    requires |whole| % 64 == 0 && |tail| + |first| == 64
    ensures Fold(INIT, whole + tail + first) == Compress(Fold(INIT, whole), tail + first)
  {
    hide Compress, Fold;
    ConcatAssoc(whole, tail, first);
    FoldBlock(INIT, whole, tail + first);
  }

  lemma OverlayFull(buf: seq<byte>, index: nat, src: seq<byte>)
    requires |buf| == 64 && index + |src| == 64
    ensures Overlay(buf, index, src) == buf[..index] + src
  {
  }

  lemma FillsBlock(n: nat)
    ensures (n + 64 - n % 64) % 64 == 0
  {
  }

  // encode: words to bytes, low-order byte first.
  function EncodeWords(words: seq<ulong>): seq<byte> {
    if words == [] then [] else EncodeWords(words[..|words| - 1]) + EncodeWord(words[|words| - 1])
  }

  lemma EncodeCount(words: seq<ulong>, n: nat)
    requires |words| == 2 && words[0] == 8 * n % 0x1_0000_0000 && words[1] == 8 * n / 0x1_0000_0000 % 0x1_0000_0000
    ensures EncodeWords(words) == LengthBytes(n)
  {
    hide EncodeWord;
    assert words[..1] == [words[0]];
    assert EncodeWords(words[..1]) == [] + EncodeWord(words[0]);
  }

  lemma EncodeFour(words: seq<ulong>)
    requires |words| == 4
    ensures EncodeWords(words) == EncodeState(State(words[0], words[1], words[2], words[3]))
  {
    hide EncodeWord;
    assert words[..3][..2] == words[..2] && words[..2][..1] == words[..1];
    assert EncodeWords(words[..1]) == EncodeWord(words[0]) by { assert words[..1][..0] == []; }
    assert EncodeWords(words[..2]) == EncodeWord(words[0]) + EncodeWord(words[1]);
    assert EncodeWords(words[..3]) == EncodeWord(words[0]) + EncodeWord(words[1]) + EncodeWord(words[2]);
  }

  lemma PaddingPrefix(n: nat, padLen: nat)
    requires padLen == if n % 64 < 56 then 56 - n % 64 else 120 - n % 64
    ensures padLen == PadLength(n) <= 64 && PADDING[..padLen] == Padding(PadLength(n))
  {
  }

  lemma PaddedIsWhole(m: seq<byte>, p: seq<byte>)
    requires p == m + Padding(PadLength(|m|)) + LengthBytes(|m|)
    ensures p == Padded(m) == Whole(p)
  {
  }

  // The buffer that final() leaves behind holds the tail of AfterDigest(m).
  lemma AfterDigestParts(m: seq<byte>, before: seq<byte>)
    requires |before| == 64 && before[..|m| % 64] == Tail(m)
    ensures Whole(AfterDigest(m)) == Whole(m) && |AfterDigest(m)| == |m|
    ensures Tail(AfterDigest(m)) ==
      BufferAfter(BufferAfter(before, |m| % 64, Padding(PadLength(|m|))), |m + Padding(PadLength(|m|))| % 64, LengthBytes(|m|))[..|m| % 64]
  {
    hide LengthBytes, BufferAfter, Padding, PadLength, AfterDigest, Whole, Tail;
    PaddedIndex(m);
    if |m| % 64 < 56 {
      RoomForPadding(before, |m|);
      TailKept(m);
    } else {
      PaddingWraps(before, |m|);
      TailOverwritten(m);
    }
  }

  lemma PaddedIndex(m: seq<byte>)
    ensures |m + Padding(PadLength(|m|))| % 64 == 56
  {
    assert |Padding(PadLength(|m|))| == PadLength(|m|);
  }

  lemma TailKept(m: seq<byte>)
    requires |m| % 64 < 56
    ensures AfterDigest(m) == m
  {
  }

  lemma TailOverwritten(m: seq<byte>)
    requires |m| % 64 >= 56
    ensures Whole(AfterDigest(m)) == Whole(m) && |AfterDigest(m)| == |m|
    ensures Tail(AfterDigest(m)) == (Repeat<byte>(0, 56) + LengthBytes(|m|))[..|m| % 64]
  {
    var t := (Repeat<byte>(0, 56) + LengthBytes(|m|))[..|m| % 64];
    hide LengthBytes;
    AppendParts(Whole(m), t);
  }

  // Hashing in pieces, in any number of updates of any sizes, is hashing the whole.
  method HashParts(parts: seq<seq<byte>>) returns (out: seq<byte>)
    requires forall i :: 0 <= i < |parts| ==> |Concat(parts[..i])| % 64 + |parts[i]| < 0x1_0000_0000
    ensures out == Digest(Concat(parts))
  {
    hide Digest, Concat, Hasher.Absorbed;
    var h := new Hasher();
    var i := 0;
    assert Concat(parts[..0]) == [] by { NoParts(parts); }
    while i < |parts|
      invariant 0 <= i <= |parts|
      invariant h.Valid() && h.msg == Concat(parts[..i]) && fresh(h) && fresh(h.state) && fresh(h.count) && fresh(h.buffer) && fresh(h.digest)
    {
      h.Update(parts[i]);
      ConcatNext(parts, i);
      i := i + 1;
    }
    assert parts[..i] == parts;
    out := h.DigestBytes();
  }

  lemma NoParts(parts: seq<seq<byte>>)
    ensures Concat(parts[..0]) == []
  {
  }

  lemma ConcatNext(parts: seq<seq<byte>>, i: nat)
    requires i < |parts|
    ensures Concat(parts[..i + 1]) == Concat(parts[..i]) + parts[i]
  {
    assert parts[..i + 1][..i] == parts[..i];
  }
}
