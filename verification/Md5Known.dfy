/** The message "abc" of section A.5 of RFC 1321, operation by operation. */
module Md5Known {
  import opened SeqFacts
  import opened Md5Spec

  // The one block of the padded message: "abc" and 0x80, and a length of 24 bits.
  const ABC: seq<bv32> := [0x80636261, 0, 0, 0, 0, 0, 0, 0, 0, 0, 0, 0, 0, 0, 24, 0]

  const MESSAGE: seq<byte> := [0x61, 0x62, 0x63]

  lemma AbcBlock()
    ensures Padded(MESSAGE) == MESSAGE + [0x80] + Repeat<byte>(0, 52) + [24, 0, 0, 0, 0, 0, 0, 0]
  {
    assert LengthBytes(3) == [24, 0, 0, 0, 0, 0, 0, 0];
    assert Padding(53) == [0x80] + Repeat<byte>(0, 52);
  }

  lemma AbcWords()
    ensures |Padded(MESSAGE)| == 64 && BlockWords(Padded(MESSAGE)) == ABC
  {
    AbcBlock();
    var block := Padded(MESSAGE);
    hide Padded;
    forall i | 0 <= i < 16 ensures BlockWords(block)[i] == ABC[i] {
      WordOfAbc(block, i);
    }
  }

  lemma WordOfAbc(block: seq<byte>, i: nat)
    requires i < 16 && block == MESSAGE + [0x80] + Repeat<byte>(0, 52) + [24, 0, 0, 0, 0, 0, 0, 0]
    ensures Register(DecodeWord(block[4 * i], block[4 * i + 1], block[4 * i + 2], block[4 * i + 3])) == ABC[i]
  {
    RegistersOfAbc();
    hide Register, DecodeWord;
    if i == 0 {
      assert block[0] == 0x61 && block[1] == 0x62 && block[2] == 0x63 && block[3] == 0x80;
    } else if i == 14 {
      assert block[56] == 24 && block[57] == 0 && block[58] == 0 && block[59] == 0;
    } else {
      ZerosOfAbc(block, i);
    }
  }

  lemma ZerosOfAbc(block: seq<byte>, i: nat)
    requires 0 < i < 16 && i != 14 && block == MESSAGE + [0x80] + Repeat<byte>(0, 52) + [24, 0, 0, 0, 0, 0, 0, 0]
    ensures block[4 * i] == 0 && block[4 * i + 1] == 0 && block[4 * i + 2] == 0 && block[4 * i + 3] == 0
    ensures ABC[i] == 0
  {
  }

  lemma RegistersOfAbc()
    ensures Register(DecodeWord(0x61, 0x62, 0x63, 0x80)) == 0x80636261
    ensures Register(DecodeWord(0, 0, 0, 0)) == 0 && Register(DecodeWord(24, 0, 0, 0)) == 24
  {
    hide Register, DecodeWord;
    IntegersOfAbc();
    RegisterValues();
  }

  lemma IntegersOfAbc()
    ensures DecodeWord(0x61, 0x62, 0x63, 0x80) == 0x80636261
    ensures DecodeWord(0, 0, 0, 0) == 0 && DecodeWord(24, 0, 0, 0) == 24
  {
    hide DecodeWord;
    BytesOf(0x61, 0x62, 0x63, 0x80, 0x80636261);
    BytesOf(0, 0, 0, 0, 0);
    BytesOf(24, 0, 0, 0, 24);
  }

  lemma BytesOf(b0: byte, b1: byte, b2: byte, b3: byte, w: ulong)
    requires w == b0 + 0x100 * b1 + 0x1_0000 * b2 + 0x100_0000 * b3
    ensures DecodeWord(b0, b1, b2, b3) == w && EncodeWord(w) == [b0, b1, b2, b3]
  {
    var q1 := b1 + 0x100 * b2 + 0x1_0000 * b3;
    var q2 := b2 + 0x100 * b3;
    assert w == b0 + 0x100 * q1 && w / 0x100 == q1 && w % 0x100 == b0;
    assert q1 == b1 + 0x100 * q2 && q1 % 0x100 == b1;
    assert w == b0 + 0x100 * b1 + 0x1_0000 * q2 && w / 0x1_0000 == q2 && q2 % 0x100 == b2;
    assert w / 0x100_0000 == b3;
  }

  lemma RegisterValues()
    ensures Register(0x80636261) == 0x80636261 && Register(0) == 0 && Register(24) == 24
  {
  }

  lemma WordsOfAbc()
    ensures |ABC| == 16 && ABC[0] == 0x80636261 && ABC[14] == 24
    ensures forall k :: 0 < k < 16 && k != 14 ==> ABC[k] == 0
  {
  }

  // An operation whose table entries are k, n and s, and whose word is w.
  lemma OperationIs(i: nat, k: nat, n: nat, s: bv32, w: bv32, a: bv32, b: bv32, c: bv32, d: bv32, r: bv32)
    requires i < 64 && k < 16 && n < 32 && Word(i) == k && Shift(i) == n && Sine(i) == s && ABC[k] == w
    requires Update(i, a, b, c, d, w, s, n) == r
    ensures Operation(i, a, b, c, d, ABC) == r
  {
    hide Update, Word, Shift, Sine, ABC;
  }

  lemma Turn0()
    ensures Rounds(0, 0x67452301, 0xefcdab89, 0x98badcfe, 0x10325476, ABC) ==
            Rounds(4, 0xd6d117b4, 0x7ad956f2, 0x2f6fbd72, 0x344a8432, ABC)
  {
    hide Rounds, Operation, ABC;
    WordsOfAbc();
    OperationIs(0, 0, 7, 0xd76aa478, 0x80636261, 0x67452301, 0xefcdab89, 0x98badcfe, 0x10325476, 0xd6d117b4);
    OperationIs(1, 1, 12, 0xe8c7b756, 0, 0x10325476, 0xd6d117b4, 0xefcdab89, 0x98badcfe, 0x344a8432);
    OperationIs(2, 2, 17, 0x242070db, 0, 0x98badcfe, 0x344a8432, 0xd6d117b4, 0xefcdab89, 0x2f6fbd72);
    OperationIs(3, 3, 22, 0xc1bdceee, 0, 0xefcdab89, 0x2f6fbd72, 0x344a8432, 0xd6d117b4, 0x7ad956f2);
    FourOperations(0, 0x67452301, 0xefcdab89, 0x98badcfe, 0x10325476, ABC);
  }

  lemma Turn1()
    ensures Rounds(4, 0xd6d117b4, 0x7ad956f2, 0x2f6fbd72, 0x344a8432, ABC) ==
            Rounds(8, 0xc73741ef, 0x928d99f6, 0x207dc67b, 0x8bac3051, ABC)
  {
    hide Rounds, Operation, ABC;
    WordsOfAbc();
    OperationIs(4, 4, 7, 0xf57c0faf, 0, 0xd6d117b4, 0x7ad956f2, 0x2f6fbd72, 0x344a8432, 0xc73741ef);
    OperationIs(5, 5, 12, 0x4787c62a, 0, 0x344a8432, 0xc73741ef, 0x7ad956f2, 0x2f6fbd72, 0x8bac3051);
    OperationIs(6, 6, 17, 0xa8304613, 0, 0x2f6fbd72, 0x8bac3051, 0xc73741ef, 0x7ad956f2, 0x207dc67b);
    OperationIs(7, 7, 22, 0xfd469501, 0, 0x7ad956f2, 0x207dc67b, 0x8bac3051, 0xc73741ef, 0x928d99f6);
    FourOperations(4, 0xd6d117b4, 0x7ad956f2, 0x2f6fbd72, 0x344a8432, ABC);
  }

  lemma Turn2()
    ensures Rounds(8, 0xc73741ef, 0x928d99f6, 0x207dc67b, 0x8bac3051, ABC) ==
            Rounds(12, 0x854b3712, 0x5ed49596, 0x3020401c, 0x74e2f284, ABC)
  {
    hide Rounds, Operation, ABC;
    WordsOfAbc();
    OperationIs(8, 8, 7, 0x698098d8, 0, 0xc73741ef, 0x928d99f6, 0x207dc67b, 0x8bac3051, 0x854b3712);
    OperationIs(9, 9, 12, 0x8b44f7af, 0, 0x8bac3051, 0x854b3712, 0x928d99f6, 0x207dc67b, 0x74e2f284);
    OperationIs(10, 10, 17, 0xffff5bb1, 0, 0x207dc67b, 0x74e2f284, 0x854b3712, 0x928d99f6, 0x3020401c);
    OperationIs(11, 11, 22, 0x895cd7be, 0, 0x928d99f6, 0x3020401c, 0x74e2f284, 0x854b3712, 0x5ed49596);
    FourOperations(8, 0xc73741ef, 0x928d99f6, 0x207dc67b, 0x8bac3051, ABC);
  }

  lemma Turn3()
    ensures Rounds(12, 0x854b3712, 0x5ed49596, 0x3020401c, 0x74e2f284, ABC) ==
            Rounds(16, 0xdda9b9a6, 0x72aff2e0, 0xe396856b, 0xa1051895, ABC)
  {
    hide Rounds, Operation, ABC;
    WordsOfAbc();
    OperationIs(12, 12, 7, 0x6b901122, 0, 0x854b3712, 0x5ed49596, 0x3020401c, 0x74e2f284, 0xdda9b9a6);
    OperationIs(13, 13, 12, 0xfd987193, 0, 0x74e2f284, 0xdda9b9a6, 0x5ed49596, 0x3020401c, 0xa1051895);
    OperationIs(14, 14, 17, 0xa679438e, 0x00000018, 0x3020401c, 0xa1051895, 0xdda9b9a6, 0x5ed49596, 0xe396856b);
    OperationIs(15, 15, 22, 0x49b40821, 0, 0x5ed49596, 0xe396856b, 0xa1051895, 0xdda9b9a6, 0x72aff2e0);
    FourOperations(12, 0x854b3712, 0x5ed49596, 0x3020401c, 0x74e2f284, ABC);
  }

  lemma Turn4()
    ensures Rounds(16, 0xdda9b9a6, 0x72aff2e0, 0xe396856b, 0xa1051895, ABC) ==
            Rounds(20, 0x3e9e9126, 0xb5b204e4, 0xe25e1652, 0x4a1d804e, ABC)
  {
    hide Rounds, Operation, ABC;
    WordsOfAbc();
    OperationIs(16, 1, 5, 0xf61e2562, 0, 0xdda9b9a6, 0x72aff2e0, 0xe396856b, 0xa1051895, 0x3e9e9126);
    OperationIs(17, 6, 9, 0xc040b340, 0, 0xa1051895, 0x3e9e9126, 0x72aff2e0, 0xe396856b, 0x4a1d804e);
    OperationIs(18, 11, 14, 0x265e5a51, 0, 0xe396856b, 0x4a1d804e, 0x3e9e9126, 0x72aff2e0, 0xe25e1652);
    OperationIs(19, 0, 20, 0xe9b6c7aa, 0x80636261, 0x72aff2e0, 0xe25e1652, 0x4a1d804e, 0x3e9e9126, 0xb5b204e4);
    FourOperations(16, 0xdda9b9a6, 0x72aff2e0, 0xe396856b, 0xa1051895, ABC);
  }

  lemma Turn5()
    ensures Rounds(20, 0x3e9e9126, 0xb5b204e4, 0xe25e1652, 0x4a1d804e, ABC) ==
            Rounds(24, 0x59a8ffda, 0x47092c07, 0xabfc7920, 0x6d002f1e, ABC)
  {
    hide Rounds, Operation, ABC;
    WordsOfAbc();
    OperationIs(20, 5, 5, 0xd62f105d, 0, 0x3e9e9126, 0xb5b204e4, 0xe25e1652, 0x4a1d804e, 0x59a8ffda);
    OperationIs(21, 10, 9, 0x02441453, 0, 0x4a1d804e, 0x59a8ffda, 0xb5b204e4, 0xe25e1652, 0x6d002f1e);
    OperationIs(22, 15, 14, 0xd8a1e681, 0, 0xe25e1652, 0x6d002f1e, 0x59a8ffda, 0xb5b204e4, 0xabfc7920);
    OperationIs(23, 4, 20, 0xe7d3fbc8, 0, 0xb5b204e4, 0xabfc7920, 0x6d002f1e, 0x59a8ffda, 0x47092c07);
    FourOperations(20, 0x3e9e9126, 0xb5b204e4, 0xe25e1652, 0x4a1d804e, ABC);
  }

  lemma Turn6()
    ensures Rounds(24, 0x59a8ffda, 0x47092c07, 0xabfc7920, 0x6d002f1e, ABC) ==
            Rounds(28, 0xb7f268cf, 0x786acb8f, 0xfe1623b1, 0x09388eff, ABC)
  {
    hide Rounds, Operation, ABC;
    WordsOfAbc();
    OperationIs(24, 9, 5, 0x21e1cde6, 0, 0x59a8ffda, 0x47092c07, 0xabfc7920, 0x6d002f1e, 0xb7f268cf);
    OperationIs(25, 14, 9, 0xc33707d6, 0x00000018, 0x6d002f1e, 0xb7f268cf, 0x47092c07, 0xabfc7920, 0x09388eff);
    OperationIs(26, 3, 14, 0xf4d50d87, 0, 0xabfc7920, 0x09388eff, 0xb7f268cf, 0x47092c07, 0xfe1623b1);
    OperationIs(27, 8, 20, 0x455a14ed, 0, 0x47092c07, 0xfe1623b1, 0x09388eff, 0xb7f268cf, 0x786acb8f);
    FourOperations(24, 0x59a8ffda, 0x47092c07, 0xabfc7920, 0x6d002f1e, ABC);
  }

  lemma Turn7()
    ensures Rounds(28, 0xb7f268cf, 0x786acb8f, 0xfe1623b1, 0x09388eff, ABC) ==
            Rounds(32, 0x790a77fb, 0x726342d3, 0xa62884aa, 0x9f47e4f8, ABC)
  {
    hide Rounds, Operation, ABC;
    WordsOfAbc();
    OperationIs(28, 13, 5, 0xa9e3e905, 0, 0xb7f268cf, 0x786acb8f, 0xfe1623b1, 0x09388eff, 0x790a77fb);
    OperationIs(29, 2, 9, 0xfcefa3f8, 0, 0x09388eff, 0x790a77fb, 0x786acb8f, 0xfe1623b1, 0x9f47e4f8);
    OperationIs(30, 7, 14, 0x676f02d9, 0, 0xfe1623b1, 0x9f47e4f8, 0x790a77fb, 0x786acb8f, 0xa62884aa);
    OperationIs(31, 12, 20, 0x8d2a4c8a, 0, 0x786acb8f, 0xa62884aa, 0x9f47e4f8, 0x790a77fb, 0x726342d3);
    FourOperations(28, 0xb7f268cf, 0x786acb8f, 0xfe1623b1, 0x09388eff, ABC);
  }

  lemma Turn8()
    ensures Rounds(32, 0x790a77fb, 0x726342d3, 0xa62884aa, 0x9f47e4f8, ABC) ==
            Rounds(36, 0xb3707ebf, 0x3b0875c7, 0x8d212ff5, 0x60127b2e, ABC)
  {
    hide Rounds, Operation, ABC;
    WordsOfAbc();
    OperationIs(32, 5, 4, 0xfffa3942, 0, 0x790a77fb, 0x726342d3, 0xa62884aa, 0x9f47e4f8, 0xb3707ebf);
    OperationIs(33, 8, 11, 0x8771f681, 0, 0x9f47e4f8, 0xb3707ebf, 0x726342d3, 0xa62884aa, 0x60127b2e);
    OperationIs(34, 11, 16, 0x6d9d6122, 0, 0xa62884aa, 0x60127b2e, 0xb3707ebf, 0x726342d3, 0x8d212ff5);
    OperationIs(35, 14, 23, 0xfde5380c, 0x00000018, 0x726342d3, 0x8d212ff5, 0x60127b2e, 0xb3707ebf, 0x3b0875c7);
    FourOperations(32, 0x790a77fb, 0x726342d3, 0xa62884aa, 0x9f47e4f8, ABC);
  }

  lemma Turn9()
    ensures Rounds(36, 0xb3707ebf, 0x3b0875c7, 0x8d212ff5, 0x60127b2e, ABC) ==
            Rounds(40, 0x21b117b9, 0x5a2f5ea5, 0x3575227e, 0x6e7429d5, ABC)
  {
    hide Rounds, Operation, ABC;
    WordsOfAbc();
    OperationIs(36, 1, 4, 0xa4beea44, 0, 0xb3707ebf, 0x3b0875c7, 0x8d212ff5, 0x60127b2e, 0x21b117b9);
    OperationIs(37, 4, 11, 0x4bdecfa9, 0, 0x60127b2e, 0x21b117b9, 0x3b0875c7, 0x8d212ff5, 0x6e7429d5);
    OperationIs(38, 7, 16, 0xf6bb4b60, 0, 0x8d212ff5, 0x6e7429d5, 0x21b117b9, 0x3b0875c7, 0x3575227e);
    OperationIs(39, 10, 23, 0xbebfbc70, 0, 0x3b0875c7, 0x3575227e, 0x6e7429d5, 0x21b117b9, 0x5a2f5ea5);
    FourOperations(36, 0xb3707ebf, 0x3b0875c7, 0x8d212ff5, 0x60127b2e, ABC);
  }

  lemma Turn10()
    ensures Rounds(40, 0x21b117b9, 0x5a2f5ea5, 0x3575227e, 0x6e7429d5, ABC) ==
            Rounds(44, 0x11de1779, 0x4c6124f4, 0x31c465ca, 0xfadcaa38, ABC)
  {
    hide Rounds, Operation, ABC;
    WordsOfAbc();
    OperationIs(40, 13, 4, 0x289b7ec6, 0, 0x21b117b9, 0x5a2f5ea5, 0x3575227e, 0x6e7429d5, 0x11de1779);
    OperationIs(41, 0, 11, 0xeaa127fa, 0x80636261, 0x6e7429d5, 0x11de1779, 0x5a2f5ea5, 0x3575227e, 0xfadcaa38);
    OperationIs(42, 3, 16, 0xd4ef3085, 0, 0x3575227e, 0xfadcaa38, 0x11de1779, 0x5a2f5ea5, 0x31c465ca);
    OperationIs(43, 6, 23, 0x04881d05, 0, 0x5a2f5ea5, 0x31c465ca, 0xfadcaa38, 0x11de1779, 0x4c6124f4);
    FourOperations(40, 0x21b117b9, 0x5a2f5ea5, 0x3575227e, 0x6e7429d5, ABC);
  }

  lemma Turn11()
    ensures Rounds(44, 0x11de1779, 0x4c6124f4, 0x31c465ca, 0xfadcaa38, ABC) ==
            Rounds(48, 0x7f2e507b, 0x7beb9700, 0x8fae6399, 0x99d9679d, ABC)
  {
    hide Rounds, Operation, ABC;
    WordsOfAbc();
    OperationIs(44, 9, 4, 0xd9d4d039, 0, 0x11de1779, 0x4c6124f4, 0x31c465ca, 0xfadcaa38, 0x7f2e507b);
    OperationIs(45, 12, 11, 0xe6db99e5, 0, 0xfadcaa38, 0x7f2e507b, 0x4c6124f4, 0x31c465ca, 0x99d9679d);
    OperationIs(46, 15, 16, 0x1fa27cf8, 0, 0x31c465ca, 0x99d9679d, 0x7f2e507b, 0x4c6124f4, 0x8fae6399);
    OperationIs(47, 2, 23, 0xc4ac5665, 0, 0x4c6124f4, 0x8fae6399, 0x99d9679d, 0x7f2e507b, 0x7beb9700);
    FourOperations(44, 0x11de1779, 0x4c6124f4, 0x31c465ca, 0xfadcaa38, ABC);
  }

  lemma Turn12()
    ensures Rounds(48, 0x7f2e507b, 0x7beb9700, 0x8fae6399, 0x99d9679d, ABC) ==
            Rounds(52, 0x7b201df8, 0x8bf025c4, 0xb298cefd, 0xf4e8e96e, ABC)
  {
    hide Rounds, Operation, ABC;
    WordsOfAbc();
    OperationIs(48, 0, 6, 0xf4292244, 0x80636261, 0x7f2e507b, 0x7beb9700, 0x8fae6399, 0x99d9679d, 0x7b201df8);
    OperationIs(49, 7, 10, 0x432aff97, 0, 0x99d9679d, 0x7b201df8, 0x7beb9700, 0x8fae6399, 0xf4e8e96e);
    OperationIs(50, 14, 15, 0xab9423a7, 0x00000018, 0x8fae6399, 0xf4e8e96e, 0x7b201df8, 0x7beb9700, 0xb298cefd);
    OperationIs(51, 5, 21, 0xfc93a039, 0, 0x7beb9700, 0xb298cefd, 0xf4e8e96e, 0x7b201df8, 0x8bf025c4);
    FourOperations(48, 0x7f2e507b, 0x7beb9700, 0x8fae6399, 0x99d9679d, ABC);
  }

  lemma Turn13()
    ensures Rounds(52, 0x7b201df8, 0x8bf025c4, 0xb298cefd, 0xf4e8e96e, ABC) ==
            Rounds(56, 0x06cc5e8a, 0x3bfa2c27, 0x7d632dd0, 0x5b0d97aa, ABC)
  {
    hide Rounds, Operation, ABC;
    WordsOfAbc();
    OperationIs(52, 12, 6, 0x655b59c3, 0, 0x7b201df8, 0x8bf025c4, 0xb298cefd, 0xf4e8e96e, 0x06cc5e8a);
    OperationIs(53, 3, 10, 0x8f0ccc92, 0, 0xf4e8e96e, 0x06cc5e8a, 0x8bf025c4, 0xb298cefd, 0x5b0d97aa);
    OperationIs(54, 10, 15, 0xffeff47d, 0, 0xb298cefd, 0x5b0d97aa, 0x06cc5e8a, 0x8bf025c4, 0x7d632dd0);
    OperationIs(55, 1, 21, 0x85845dd1, 0, 0x8bf025c4, 0x7d632dd0, 0x5b0d97aa, 0x06cc5e8a, 0x3bfa2c27);
    FourOperations(52, 0x7b201df8, 0x8bf025c4, 0xb298cefd, 0xf4e8e96e, ABC);
  }

  lemma Turn14()
    ensures Rounds(56, 0x06cc5e8a, 0x3bfa2c27, 0x7d632dd0, 0x5b0d97aa, ABC) ==
            Rounds(60, 0x7f81cc35, 0x7327d604, 0x4f9dbe3f, 0x094454ab, ABC)
  {
    hide Rounds, Operation, ABC;
    WordsOfAbc();
    OperationIs(56, 8, 6, 0x6fa87e4f, 0, 0x06cc5e8a, 0x3bfa2c27, 0x7d632dd0, 0x5b0d97aa, 0x7f81cc35);
    OperationIs(57, 15, 10, 0xfe2ce6e0, 0, 0x5b0d97aa, 0x7f81cc35, 0x3bfa2c27, 0x7d632dd0, 0x094454ab);
    OperationIs(58, 6, 15, 0xa3014314, 0, 0x7d632dd0, 0x094454ab, 0x7f81cc35, 0x3bfa2c27, 0x4f9dbe3f);
    OperationIs(59, 13, 21, 0x4e0811a1, 0, 0x3bfa2c27, 0x4f9dbe3f, 0x094454ab, 0x7f81cc35, 0x7327d604);
    FourOperations(56, 0x06cc5e8a, 0x3bfa2c27, 0x7d632dd0, 0x5b0d97aa, ABC);
  }

  lemma Turn15()
    ensures Rounds(60, 0x7f81cc35, 0x7327d604, 0x4f9dbe3f, 0x094454ab, ABC) ==
            Rounds(64, 0x310ade8f, 0xc08226b3, 0xe484b9d8, 0x624d8cb2, ABC)
  {
    hide Rounds, Operation, ABC;
    WordsOfAbc();
    OperationIs(60, 4, 6, 0xf7537e82, 0, 0x7f81cc35, 0x7327d604, 0x4f9dbe3f, 0x094454ab, 0x310ade8f);
    OperationIs(61, 11, 10, 0xbd3af235, 0, 0x094454ab, 0x310ade8f, 0x7327d604, 0x4f9dbe3f, 0x624d8cb2);
    OperationIs(62, 2, 15, 0x2ad7d2bb, 0, 0x4f9dbe3f, 0x624d8cb2, 0x310ade8f, 0x7327d604, 0xe484b9d8);
    OperationIs(63, 9, 21, 0xeb86d391, 0, 0x7327d604, 0xe484b9d8, 0x624d8cb2, 0x310ade8f, 0xc08226b3);
    FourOperations(60, 0x7f81cc35, 0x7327d604, 0x4f9dbe3f, 0x094454ab, ABC);
  }

  lemma AbcRounds()
    ensures Rounds(0, 0x67452301, 0xefcdab89, 0x98badcfe, 0x10325476, ABC) ==
            (0x310ade8f, 0xc08226b3, 0xe484b9d8, 0x624d8cb2)
  {
    hide Rounds;
    Turn0(); Turn1(); Turn2(); Turn3();
    Turn4(); Turn5(); Turn6(); Turn7();
    Turn8(); Turn9(); Turn10(); Turn11();
    Turn12(); Turn13(); Turn14(); Turn15();
    assert Rounds(64, 0x310ade8f, 0xc08226b3, 0xe484b9d8, 0x624d8cb2, ABC) ==
           (0x310ade8f, 0xc08226b3, 0xe484b9d8, 0x624d8cb2) by { LastRound(); }
  }

  lemma LastRound()
    ensures Rounds(64, 0x310ade8f, 0xc08226b3, 0xe484b9d8, 0x624d8cb2, ABC) ==
            (0x310ade8f, 0xc08226b3, 0xe484b9d8, 0x624d8cb2)
  {
  }

  lemma AbcState()
    ensures |Padded(MESSAGE)| == 64
    ensures Compress(INIT, Padded(MESSAGE)) == State(0x98500190, 0xb04fd23c, 0x7d3f96d6, 0x727fe128)
  {
    AbcWords();
    AbcRounds();
    AbcSums();
    hide Rounds, AddWord, Register, Padded, BlockWords;
  }

  lemma AbcSums()
    ensures Register(0x67452301) == 0x67452301 && AddWord(0x67452301, 0x310ade8f) == 0x98500190
    ensures Register(0xefcdab89) == 0xefcdab89 && AddWord(0xefcdab89, 0xc08226b3) == 0xb04fd23c
    ensures Register(0x98badcfe) == 0x98badcfe && AddWord(0x98badcfe, 0xe484b9d8) == 0x7d3f96d6
    ensures Register(0x10325476) == 0x10325476 && AddWord(0x10325476, 0x624d8cb2) == 0x727fe128
  {
  }

  // The digest that RFC 1321 gives: 900150983cd24fb0d6963f7d28e17f72.
  lemma DigestOfAbc()
    ensures Digest(MESSAGE) == [
      0x90, 0x1, 0x50, 0x98, 0x3c, 0xd2, 0x4f, 0xb0,
      0xd6, 0x96, 0x3f, 0x7d, 0x28, 0xe1, 0x7f, 0x72]
  {
    AbcState();
    hide Compress, Padded, Fold, EncodeState;
    OneBlock(INIT, Padded(MESSAGE));
    EncodedAbc();
  }

  lemma OneBlock(s: State, block: seq<byte>)
    requires |block| == 64
    ensures Fold(s, block) == Compress(s, block)
  {
    hide Compress;
    assert block[..0] == [] && block[0..] == block;
  }

  lemma EncodedAbc()
    ensures EncodeState(State(0x98500190, 0xb04fd23c, 0x7d3f96d6, 0x727fe128)) == [
      0x90, 0x1, 0x50, 0x98, 0x3c, 0xd2, 0x4f, 0xb0,
      0xd6, 0x96, 0x3f, 0x7d, 0x28, 0xe1, 0x7f, 0x72]
  {
    hide EncodeWord;
    BytesOf(0x90, 0x1, 0x50, 0x98, 0x98500190);
    BytesOf(0x3c, 0xd2, 0x4f, 0xb0, 0xb04fd23c);
    BytesOf(0xd6, 0x96, 0x3f, 0x7d, 0x7d3f96d6);
    BytesOf(0x28, 0xe1, 0x7f, 0x72, 0x727fe128);
  }
}
