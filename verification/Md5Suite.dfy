/** The test suite of RFC 1321, section A.5: digests as literal bytes. */
module Md5Suite {
  import opened Bytes
  import opened Rfc1321
  import opened Md5Transform
  import Md5

  /** One step from literal words to literal words: w is the word that is added, r the new one. */
  lemma {:induction false} Next(q: State, x: seq<word>, i: nat, p: State, w: word, r: word) returns (u: State)
    requires |x| == 16 && Reached(q, x, i, p)
    requires var Row(k, s, t) := Operation(i);
      x[k] == w && Operate(p.a, p.b, Auxiliary(i / 16, p.b, p.c, p.d), w, t, s) == r
    ensures u == State(p.d, r, p.b, p.c) && Reached(q, x, i + 1, u)
  {
    u := State(p.d, r, p.b, p.c);
  }

  /** The block of a message of at most three bytes, after padding: first and last words. */
  predicate Short(x: seq<word>, first: word, bits: word) {
    |x| == 16 && x[0] == first && x[14] == bits && x[15] == 0 && forall j :: 1 <= j < 14 ==> x[j] == 0
  }

  lemma {:induction false} Empty1(q: State, x: seq<word>) returns (p: State)
    requires Short(x, 0x00000080, 0) && Reached(q, x, 0, State(0x67452301, 0xefcdab89, 0x98badcfe, 0x10325476))
    ensures p == State(0xf56c7cf1, 0xd6819c6a, 0x5aa53f75, 0x374943a7) && Reached(q, x, 16, p)
  {
    p := State(0x67452301, 0xefcdab89, 0x98badcfe, 0x10325476);
    p := Next(q, x, 0, p, 0x00000080, 0xa5202774);
    p := Next(q, x, 1, p, 0x00000000, 0xf59592dd);
    p := Next(q, x, 2, p, 0x00000000, 0xe7f06b23);
    p := Next(q, x, 3, p, 0x00000000, 0x1b163203);
    p := Next(q, x, 4, p, 0x00000000, 0x32033344);
    p := Next(q, x, 5, p, 0x00000000, 0x2f35d494);
    p := Next(q, x, 6, p, 0x00000000, 0xf5b158db);
    p := Next(q, x, 7, p, 0x00000000, 0x9bc13ce9);
    p := Next(q, x, 8, p, 0x00000000, 0x3893b991);
    p := Next(q, x, 9, p, 0x00000000, 0xfce4a312);
    p := Next(q, x, 10, p, 0x00000000, 0xe1ef0576);
    p := Next(q, x, 11, p, 0x00000000, 0x70768a29);
    p := Next(q, x, 12, p, 0x00000000, 0xf56c7cf1);
    p := Next(q, x, 13, p, 0x00000000, 0x374943a7);
    p := Next(q, x, 14, p, 0x00000000, 0x5aa53f75);
    p := Next(q, x, 15, p, 0x00000000, 0xd6819c6a);
  }

  lemma {:induction false} Empty2(q: State, x: seq<word>) returns (p: State)
    requires Short(x, 0x00000080, 0) && Reached(q, x, 16, State(0xf56c7cf1, 0xd6819c6a, 0x5aa53f75, 0x374943a7))
    ensures p == State(0x13707036, 0xa2205f1f, 0x1c31c384, 0xae7813db) && Reached(q, x, 32, p)
  {
    p := State(0xf56c7cf1, 0xd6819c6a, 0x5aa53f75, 0x374943a7);
    p := Next(q, x, 16, p, 0x00000000, 0x1c7d7513);
    p := Next(q, x, 17, p, 0x00000000, 0x7bd57a3a);
    p := Next(q, x, 18, p, 0x00000000, 0xc095f13a);
    p := Next(q, x, 19, p, 0x00000080, 0xbd782e17);
    p := Next(q, x, 20, p, 0x00000000, 0x3d1e3e6c);
    p := Next(q, x, 21, p, 0x00000000, 0x68b7b3e3);
    p := Next(q, x, 22, p, 0x00000000, 0xeb41643e);
    p := Next(q, x, 23, p, 0x00000000, 0xe422531a);
    p := Next(q, x, 24, p, 0x00000000, 0x306ec122);
    p := Next(q, x, 25, p, 0x00000000, 0xd28c77c2);
    p := Next(q, x, 26, p, 0x00000000, 0xa3c663da);
    p := Next(q, x, 27, p, 0x00000000, 0xa0572807);
    p := Next(q, x, 28, p, 0x00000000, 0x13707036);
    p := Next(q, x, 29, p, 0x00000000, 0xae7813db);
    p := Next(q, x, 30, p, 0x00000000, 0x1c31c384);
    p := Next(q, x, 31, p, 0x00000000, 0xa2205f1f);
  }

  lemma {:induction false} Empty3(q: State, x: seq<word>) returns (p: State)
    requires Short(x, 0x00000080, 0) && Reached(q, x, 32, State(0x13707036, 0xa2205f1f, 0x1c31c384, 0xae7813db))
    ensures p == State(0x3f55edfd, 0xca7d2dbd, 0x68d84ea2, 0x22a31f54) && Reached(q, x, 48, p)
  {
    p := State(0x13707036, 0xa2205f1f, 0x1c31c384, 0xae7813db);
    p := Next(q, x, 32, p, 0x00000000, 0xdf63eaa1);
    p := Next(q, x, 33, p, 0x00000000, 0xc3689f5b);
    p := Next(q, x, 34, p, 0x00000000, 0x12f3e755);
    p := Next(q, x, 35, p, 0x00000000, 0x004b6669);
    p := Next(q, x, 36, p, 0x00000000, 0x5f7a9b2e);
    p := Next(q, x, 37, p, 0x00000000, 0xabc34e16);
    p := Next(q, x, 38, p, 0x00000000, 0x91ca4cb7);
    p := Next(q, x, 39, p, 0x00000000, 0xc5dc8c15);
    p := Next(q, x, 40, p, 0x00000000, 0x4497169d);
    p := Next(q, x, 41, p, 0x00000080, 0x76fd93d4);
    p := Next(q, x, 42, p, 0x00000000, 0xfd95f243);
    p := Next(q, x, 43, p, 0x00000000, 0x0fe32453);
    p := Next(q, x, 44, p, 0x00000000, 0x3f55edfd);
    p := Next(q, x, 45, p, 0x00000000, 0x22a31f54);
    p := Next(q, x, 46, p, 0x00000000, 0x68d84ea2);
    p := Next(q, x, 47, p, 0x00000000, 0xca7d2dbd);
  }

  lemma {:induction false} Empty4(q: State, x: seq<word>) returns (p: State)
    requires Short(x, 0x00000080, 0) && Reached(q, x, 48, State(0x3f55edfd, 0xca7d2dbd, 0x68d84ea2, 0x22a31f54))
    ensures p == State(0x7246fad3, 0x14e45506, 0xff4ea3eb, 0x6e10a476) && Reached(q, x, 64, p)
  {
    p := State(0x3f55edfd, 0xca7d2dbd, 0x68d84ea2, 0x22a31f54);
    p := Next(q, x, 48, p, 0x00000080, 0x93aa2577);
    p := Next(q, x, 49, p, 0x00000000, 0x1688dc85);
    p := Next(q, x, 50, p, 0x00000000, 0xcd85b8cb);
    p := Next(q, x, 51, p, 0x00000000, 0x561e0689);
    p := Next(q, x, 52, p, 0x00000000, 0x5625a114);
    p := Next(q, x, 53, p, 0x00000000, 0x3450f42b);
    p := Next(q, x, 54, p, 0x00000000, 0x392ad0d0);
    p := Next(q, x, 55, p, 0x00000000, 0x1e77fa61);
    p := Next(q, x, 56, p, 0x00000000, 0x474a9c8c);
    p := Next(q, x, 57, p, 0x00000000, 0xdfce00bc);
    p := Next(q, x, 58, p, 0x00000000, 0x36594b14);
    p := Next(q, x, 59, p, 0x00000000, 0x30130182);
    p := Next(q, x, 60, p, 0x00000000, 0x7246fad3);
    p := Next(q, x, 61, p, 0x00000000, 0x6e10a476);
    p := Next(q, x, 62, p, 0x00000000, 0xff4ea3eb);
    p := Next(q, x, 63, p, 0x00000000, 0x14e45506);
  }

  lemma {:induction false} Empty(q: State, block: seq<byte>)
    requires |block| == 64 && q == State(0x67452301, 0xefcdab89, 0x98badcfe, 0x10325476)
    requires Short(Words(block), 0x00000080, 0)
    ensures Compress(q, block) == State(0xd98c1dd4, 0x04b2008f, 0x980980e9, 0x7e42f8ec)
  {
    var x := Words(block);
    ReachedStart(q, x);
    var p := Empty1(q, x);
    p := Empty2(q, x);
    p := Empty3(q, x);
    p := Empty4(q, x);
    ReachedEnd(q, x, 64, p);
    CompressSteps(q, block);
  }

  lemma {:induction false} LetterA1(q: State, x: seq<word>) returns (p: State)
    requires Short(x, 0x00008061, 8) && Reached(q, x, 0, State(0x67452301, 0xefcdab89, 0x98badcfe, 0x10325476))
    ensures p == State(0x44244cf8, 0xf01e3ce2, 0x6360a45f, 0xd0fe9b27) && Reached(q, x, 16, p)
  {
    p := State(0x67452301, 0xefcdab89, 0x98badcfe, 0x10325476);
    p := Next(q, x, 0, p, 0x00008061, 0xa56017f4);
    p := Next(q, x, 1, p, 0x00000000, 0xf2d58361);
    p := Next(q, x, 2, p, 0x00000000, 0xe65857a7);
    p := Next(q, x, 3, p, 0x00000000, 0x607d9686);
    p := Next(q, x, 4, p, 0x00000000, 0x3a9d5bcc);
    p := Next(q, x, 5, p, 0x00000000, 0xe0a07db7);
    p := Next(q, x, 6, p, 0x00000000, 0xd31ddc83);
    p := Next(q, x, 7, p, 0x00000000, 0xa8af6da5);
    p := Next(q, x, 8, p, 0x00000000, 0xbe580957);
    p := Next(q, x, 9, p, 0x00000000, 0xf386bea6);
    p := Next(q, x, 10, p, 0x00000000, 0xf5fdd933);
    p := Next(q, x, 11, p, 0x00000000, 0x68493d6a);
    p := Next(q, x, 12, p, 0x00000000, 0x44244cf8);
    p := Next(q, x, 13, p, 0x00000000, 0xd0fe9b27);
    p := Next(q, x, 14, p, 0x00000008, 0x6360a45f);
    p := Next(q, x, 15, p, 0x00000000, 0xf01e3ce2);
  }

  lemma {:induction false} LetterA2(q: State, x: seq<word>) returns (p: State)
    requires Short(x, 0x00008061, 8) && Reached(q, x, 16, State(0x44244cf8, 0xf01e3ce2, 0x6360a45f, 0xd0fe9b27))
    ensures p == State(0x93842e98, 0x3745961f, 0x94a2ebee, 0xc7043b64) && Reached(q, x, 32, p)
  {
    p := State(0x44244cf8, 0xf01e3ce2, 0x6360a45f, 0xd0fe9b27);
    p := Next(q, x, 16, p, 0x00000000, 0x9c341767);
    p := Next(q, x, 17, p, 0x00000000, 0x970ab3a9);
    p := Next(q, x, 18, p, 0x00000000, 0xe39ffd23);
    p := Next(q, x, 19, p, 0x00008061, 0x8d25cc66);
    p := Next(q, x, 20, p, 0x00000000, 0x8c444930);
    p := Next(q, x, 21, p, 0x00000000, 0x7267097a);
    p := Next(q, x, 22, p, 0x00000000, 0x2dacb8a3);
    p := Next(q, x, 23, p, 0x00000000, 0x373beab0);
    p := Next(q, x, 24, p, 0x00000000, 0xf175e3ad);
    p := Next(q, x, 25, p, 0x00000008, 0x9d5df67e);
    p := Next(q, x, 26, p, 0x00000000, 0x87b7f475);
    p := Next(q, x, 27, p, 0x00000000, 0xc8f891b4);
    p := Next(q, x, 28, p, 0x00000000, 0x93842e98);
    p := Next(q, x, 29, p, 0x00000000, 0xc7043b64);
    p := Next(q, x, 30, p, 0x00000000, 0x94a2ebee);
    p := Next(q, x, 31, p, 0x00000000, 0x3745961f);
  }

  lemma {:induction false} LetterA3(q: State, x: seq<word>) returns (p: State)
    requires Short(x, 0x00008061, 8) && Reached(q, x, 32, State(0x93842e98, 0x3745961f, 0x94a2ebee, 0xc7043b64))
    ensures p == State(0x0ac50e18, 0x918f93bb, 0x8a4a6356, 0x79ca7845) && Reached(q, x, 48, p)
  {
    p := State(0x93842e98, 0x3745961f, 0x94a2ebee, 0xc7043b64);
    p := Next(q, x, 32, p, 0x00000000, 0xbd607d1e);
    p := Next(q, x, 33, p, 0x00000000, 0xa6f72085);
    p := Next(q, x, 34, p, 0x00000000, 0xbf8b4f98);
    p := Next(q, x, 35, p, 0x00000008, 0xdaf7f308);
    p := Next(q, x, 36, p, 0x00000000, 0x35a82a7a);
    p := Next(q, x, 37, p, 0x00000000, 0x89e0ec97);
    p := Next(q, x, 38, p, 0x00000000, 0x5abe099c);
    p := Next(q, x, 39, p, 0x00000000, 0xcf7e60db);
    p := Next(q, x, 40, p, 0x00000000, 0x75c151e2);
    p := Next(q, x, 41, p, 0x00008061, 0x942e0c86);
    p := Next(q, x, 42, p, 0x00000000, 0x0c0e6ac4);
    p := Next(q, x, 43, p, 0x00000000, 0xcc6f5e9e);
    p := Next(q, x, 44, p, 0x00000000, 0x0ac50e18);
    p := Next(q, x, 45, p, 0x00000000, 0x79ca7845);
    p := Next(q, x, 46, p, 0x00000000, 0x8a4a6356);
    p := Next(q, x, 47, p, 0x00000000, 0x918f93bb);
  }

  lemma {:induction false} LetterA4(q: State, x: seq<word>) returns (p: State)
    requires Short(x, 0x00008061, 8) && Reached(q, x, 48, State(0x0ac50e18, 0x918f93bb, 0x8a4a6356, 0x79ca7845))
    ensures p == State(0x52309e0b, 0xb8e94637, 0x49dee633, 0x50f422f3) && Reached(q, x, 64, p)
  {
    p := State(0x0ac50e18, 0x918f93bb, 0x8a4a6356, 0x79ca7845);
    p := Next(q, x, 48, p, 0x00008061, 0xcab8fe42);
    p := Next(q, x, 49, p, 0x00000000, 0x6a4daeee);
    p := Next(q, x, 50, p, 0x00000008, 0x36269c3f);
    p := Next(q, x, 51, p, 0x00000000, 0x1ee405eb);
    p := Next(q, x, 52, p, 0x00000000, 0x982c7861);
    p := Next(q, x, 53, p, 0x00000000, 0x6812a362);
    p := Next(q, x, 54, p, 0x00000000, 0x71fc7709);
    p := Next(q, x, 55, p, 0x00000000, 0x893501c0);
    p := Next(q, x, 56, p, 0x00000000, 0xfebd62fd);
    p := Next(q, x, 57, p, 0x00000000, 0x28936a74);
    p := Next(q, x, 58, p, 0x00000000, 0x53e33526);
    p := Next(q, x, 59, p, 0x00000000, 0xaa4d8ae3);
    p := Next(q, x, 60, p, 0x00000000, 0x52309e0b);
    p := Next(q, x, 61, p, 0x00000000, 0x50f422f3);
    p := Next(q, x, 62, p, 0x00000000, 0x49dee633);
    p := Next(q, x, 63, p, 0x00000000, 0xb8e94637);
  }

  lemma {:induction false} LetterA(q: State, block: seq<byte>)
    requires |block| == 64 && q == State(0x67452301, 0xefcdab89, 0x98badcfe, 0x10325476)
    requires Short(Words(block), 0x00008061, 8)
    ensures Compress(q, block) == State(0xb975c10c, 0xa8b6f1c0, 0xe299c331, 0x61267769)
  {
    var x := Words(block);
    ReachedStart(q, x);
    var p := LetterA1(q, x);
    p := LetterA2(q, x);
    p := LetterA3(q, x);
    p := LetterA4(q, x);
    ReachedEnd(q, x, 64, p);
    CompressSteps(q, block);
  }

  lemma {:induction false} Abc1(q: State, x: seq<word>) returns (p: State)
    requires Short(x, 0x80636261, 24) && Reached(q, x, 0, State(0x67452301, 0xefcdab89, 0x98badcfe, 0x10325476))
    ensures p == State(0xdda9b9a6, 0x72aff2e0, 0xe396856b, 0xa1051895) && Reached(q, x, 16, p)
  {
    p := State(0x67452301, 0xefcdab89, 0x98badcfe, 0x10325476);
    p := Next(q, x, 0, p, 0x80636261, 0xd6d117b4);
    p := Next(q, x, 1, p, 0x00000000, 0x344a8432);
    p := Next(q, x, 2, p, 0x00000000, 0x2f6fbd72);
    p := Next(q, x, 3, p, 0x00000000, 0x7ad956f2);
    p := Next(q, x, 4, p, 0x00000000, 0xc73741ef);
    p := Next(q, x, 5, p, 0x00000000, 0x8bac3051);
    p := Next(q, x, 6, p, 0x00000000, 0x207dc67b);
    p := Next(q, x, 7, p, 0x00000000, 0x928d99f6);
    p := Next(q, x, 8, p, 0x00000000, 0x854b3712);
    p := Next(q, x, 9, p, 0x00000000, 0x74e2f284);
    p := Next(q, x, 10, p, 0x00000000, 0x3020401c);
    p := Next(q, x, 11, p, 0x00000000, 0x5ed49596);
    p := Next(q, x, 12, p, 0x00000000, 0xdda9b9a6);
    p := Next(q, x, 13, p, 0x00000000, 0xa1051895);
    p := Next(q, x, 14, p, 0x00000018, 0xe396856b);
    p := Next(q, x, 15, p, 0x00000000, 0x72aff2e0);
  }

  lemma {:induction false} Abc2(q: State, x: seq<word>) returns (p: State)
    requires Short(x, 0x80636261, 24) && Reached(q, x, 16, State(0xdda9b9a6, 0x72aff2e0, 0xe396856b, 0xa1051895))
    ensures p == State(0x790a77fb, 0x726342d3, 0xa62884aa, 0x9f47e4f8) && Reached(q, x, 32, p)
  {
    p := State(0xdda9b9a6, 0x72aff2e0, 0xe396856b, 0xa1051895);
    p := Next(q, x, 16, p, 0x00000000, 0x3e9e9126);
    p := Next(q, x, 17, p, 0x00000000, 0x4a1d804e);
    p := Next(q, x, 18, p, 0x00000000, 0xe25e1652);
    p := Next(q, x, 19, p, 0x80636261, 0xb5b204e4);
    p := Next(q, x, 20, p, 0x00000000, 0x59a8ffda);
    p := Next(q, x, 21, p, 0x00000000, 0x6d002f1e);
    p := Next(q, x, 22, p, 0x00000000, 0xabfc7920);
    p := Next(q, x, 23, p, 0x00000000, 0x47092c07);
    p := Next(q, x, 24, p, 0x00000000, 0xb7f268cf);
    p := Next(q, x, 25, p, 0x00000018, 0x09388eff);
    p := Next(q, x, 26, p, 0x00000000, 0xfe1623b1);
    p := Next(q, x, 27, p, 0x00000000, 0x786acb8f);
    p := Next(q, x, 28, p, 0x00000000, 0x790a77fb);
    p := Next(q, x, 29, p, 0x00000000, 0x9f47e4f8);
    p := Next(q, x, 30, p, 0x00000000, 0xa62884aa);
    p := Next(q, x, 31, p, 0x00000000, 0x726342d3);
  }

  lemma {:induction false} Abc3(q: State, x: seq<word>) returns (p: State)
    requires Short(x, 0x80636261, 24) && Reached(q, x, 32, State(0x790a77fb, 0x726342d3, 0xa62884aa, 0x9f47e4f8))
    ensures p == State(0x7f2e507b, 0x7beb9700, 0x8fae6399, 0x99d9679d) && Reached(q, x, 48, p)
  {
    p := State(0x790a77fb, 0x726342d3, 0xa62884aa, 0x9f47e4f8);
    p := Next(q, x, 32, p, 0x00000000, 0xb3707ebf);
    p := Next(q, x, 33, p, 0x00000000, 0x60127b2e);
    p := Next(q, x, 34, p, 0x00000000, 0x8d212ff5);
    p := Next(q, x, 35, p, 0x00000018, 0x3b0875c7);
    p := Next(q, x, 36, p, 0x00000000, 0x21b117b9);
    p := Next(q, x, 37, p, 0x00000000, 0x6e7429d5);
    p := Next(q, x, 38, p, 0x00000000, 0x3575227e);
    p := Next(q, x, 39, p, 0x00000000, 0x5a2f5ea5);
    p := Next(q, x, 40, p, 0x00000000, 0x11de1779);
    p := Next(q, x, 41, p, 0x80636261, 0xfadcaa38);
    p := Next(q, x, 42, p, 0x00000000, 0x31c465ca);
    p := Next(q, x, 43, p, 0x00000000, 0x4c6124f4);
    p := Next(q, x, 44, p, 0x00000000, 0x7f2e507b);
    p := Next(q, x, 45, p, 0x00000000, 0x99d9679d);
    p := Next(q, x, 46, p, 0x00000000, 0x8fae6399);
    p := Next(q, x, 47, p, 0x00000000, 0x7beb9700);
  }

  lemma {:induction false} Abc4(q: State, x: seq<word>) returns (p: State)
    requires Short(x, 0x80636261, 24) && Reached(q, x, 48, State(0x7f2e507b, 0x7beb9700, 0x8fae6399, 0x99d9679d))
    ensures p == State(0x310ade8f, 0xc08226b3, 0xe484b9d8, 0x624d8cb2) && Reached(q, x, 64, p)
  {
    p := State(0x7f2e507b, 0x7beb9700, 0x8fae6399, 0x99d9679d);
    p := Next(q, x, 48, p, 0x80636261, 0x7b201df8);
    p := Next(q, x, 49, p, 0x00000000, 0xf4e8e96e);
    p := Next(q, x, 50, p, 0x00000018, 0xb298cefd);
    p := Next(q, x, 51, p, 0x00000000, 0x8bf025c4);
    p := Next(q, x, 52, p, 0x00000000, 0x06cc5e8a);
    p := Next(q, x, 53, p, 0x00000000, 0x5b0d97aa);
    p := Next(q, x, 54, p, 0x00000000, 0x7d632dd0);
    p := Next(q, x, 55, p, 0x00000000, 0x3bfa2c27);
    p := Next(q, x, 56, p, 0x00000000, 0x7f81cc35);
    p := Next(q, x, 57, p, 0x00000000, 0x094454ab);
    p := Next(q, x, 58, p, 0x00000000, 0x4f9dbe3f);
    p := Next(q, x, 59, p, 0x00000000, 0x7327d604);
    p := Next(q, x, 60, p, 0x00000000, 0x310ade8f);
    p := Next(q, x, 61, p, 0x00000000, 0x624d8cb2);
    p := Next(q, x, 62, p, 0x00000000, 0xe484b9d8);
    p := Next(q, x, 63, p, 0x00000000, 0xc08226b3);
  }

  lemma {:induction false} Abc(q: State, block: seq<byte>)
    requires |block| == 64 && q == State(0x67452301, 0xefcdab89, 0x98badcfe, 0x10325476)
    requires Short(Words(block), 0x80636261, 24)
    ensures Compress(q, block) == State(0x98500190, 0xb04fd23c, 0x7d3f96d6, 0x727fe128)
  {
    var x := Words(block);
    ReachedStart(q, x);
    var p := Abc1(q, x);
    p := Abc2(q, x);
    p := Abc3(q, x);
    p := Abc4(q, x);
    ReachedEnd(q, x, 64, p);
    CompressSteps(q, block);
  }

  predicate FrontWords(x: seq<word>) {
    && |x| == 16
    && x[0] == 0x34333231 && x[1] == 0x38373635 && x[2] == 0x32313039 && x[3] == 0x36353433
    && x[4] == 0x30393837 && x[5] == 0x34333231 && x[6] == 0x38373635 && x[7] == 0x32313039
    && x[8] == 0x36353433 && x[9] == 0x30393837 && x[10] == 0x34333231 && x[11] == 0x38373635
    && x[12] == 0x32313039 && x[13] == 0x36353433 && x[14] == 0x30393837 && x[15] == 0x34333231
  }

  predicate BackWords(x: seq<word>) {
    && |x| == 16
    && x[0] == 0x38373635 && x[1] == 0x32313039 && x[2] == 0x36353433 && x[3] == 0x30393837
    && x[4] == 0x00000080 && x[5] == 0x00000000 && x[6] == 0x00000000 && x[7] == 0x00000000
    && x[8] == 0x00000000 && x[9] == 0x00000000 && x[10] == 0x00000000 && x[11] == 0x00000000
    && x[12] == 0x00000000 && x[13] == 0x00000000 && x[14] == 0x00000280 && x[15] == 0x00000000
  }

  lemma {:induction false} Front1(q: State, x: seq<word>) returns (p: State)
    requires FrontWords(x) && Reached(q, x, 0, State(0x67452301, 0xefcdab89, 0x98badcfe, 0x10325476))
    ensures p == State(0x5157e49e, 0xaf506a03, 0x27e983a0, 0xffac907e) && Reached(q, x, 16, p)
  {
    p := State(0x67452301, 0xefcdab89, 0x98badcfe, 0x10325476);
    p := Next(q, x, 0, p, 0x34333231, 0xbeb8ff8e);
    p := Next(q, x, 1, p, 0x38373635, 0x7d989d89);
    p := Next(q, x, 2, p, 0x32313039, 0xf8cdf95d);
    p := Next(q, x, 3, p, 0x36353433, 0x862797b0);
    p := Next(q, x, 4, p, 0x30393837, 0x8c17de9f);
    p := Next(q, x, 5, p, 0x34333231, 0xc0f32d81);
    p := Next(q, x, 6, p, 0x38373635, 0xe99fec1b);
    p := Next(q, x, 7, p, 0x32313039, 0xc57e78c1);
    p := Next(q, x, 8, p, 0x36353433, 0x7c0aceb7);
    p := Next(q, x, 9, p, 0x30393837, 0x8869d2d8);
    p := Next(q, x, 10, p, 0x34333231, 0x5186a8ba);
    p := Next(q, x, 11, p, 0x38373635, 0xa5f36f8d);
    p := Next(q, x, 12, p, 0x32313039, 0x5157e49e);
    p := Next(q, x, 13, p, 0x36353433, 0xffac907e);
    p := Next(q, x, 14, p, 0x30393837, 0x27e983a0);
    p := Next(q, x, 15, p, 0x34333231, 0xaf506a03);
  }

  lemma {:induction false} Front2(q: State, x: seq<word>) returns (p: State)
    requires FrontWords(x) && Reached(q, x, 16, State(0x5157e49e, 0xaf506a03, 0x27e983a0, 0xffac907e))
    ensures p == State(0xf8bcfbb0, 0x1bf25662, 0x99a0f1b8, 0xd760ed39) && Reached(q, x, 32, p)
  {
    p := State(0x5157e49e, 0xaf506a03, 0x27e983a0, 0xffac907e);
    p := Next(q, x, 16, p, 0x38373635, 0x8d18e0e8);
    p := Next(q, x, 17, p, 0x38373635, 0x07de0df2);
    p := Next(q, x, 18, p, 0x38373635, 0xef223167);
    p := Next(q, x, 19, p, 0x34333231, 0x04280170);
    p := Next(q, x, 20, p, 0x34333231, 0x78929ee0);
    p := Next(q, x, 21, p, 0x34333231, 0x375c6c2c);
    p := Next(q, x, 22, p, 0x34333231, 0xb18aca50);
    p := Next(q, x, 23, p, 0x30393837, 0xad400a91);
    p := Next(q, x, 24, p, 0x30393837, 0xbb45f43f);
    p := Next(q, x, 25, p, 0x30393837, 0xd61f8a0f);
    p := Next(q, x, 26, p, 0x36353433, 0x98ade6b5);
    p := Next(q, x, 27, p, 0x36353433, 0xb70e35a9);
    p := Next(q, x, 28, p, 0x36353433, 0xf8bcfbb0);
    p := Next(q, x, 29, p, 0x32313039, 0xd760ed39);
    p := Next(q, x, 30, p, 0x32313039, 0x99a0f1b8);
    p := Next(q, x, 31, p, 0x32313039, 0x1bf25662);
  }

  lemma {:induction false} Front3(q: State, x: seq<word>) returns (p: State)
    requires FrontWords(x) && Reached(q, x, 32, State(0xf8bcfbb0, 0x1bf25662, 0x99a0f1b8, 0xd760ed39))
    ensures p == State(0x697032ec, 0xdb4197da, 0xefc2c171, 0xfa597bfc) && Reached(q, x, 48, p)
  {
    p := State(0xf8bcfbb0, 0x1bf25662, 0x99a0f1b8, 0xd760ed39);
    p := Next(q, x, 32, p, 0x34333231, 0x3dbd76ca);
    p := Next(q, x, 33, p, 0x36353433, 0xfd056171);
    p := Next(q, x, 34, p, 0x38373635, 0xc7ed7c30);
    p := Next(q, x, 35, p, 0x30393837, 0xe0162f49);
    p := Next(q, x, 36, p, 0x38373635, 0x3b32c408);
    p := Next(q, x, 37, p, 0x30393837, 0x7338d8b7);
    p := Next(q, x, 38, p, 0x32313039, 0x9ef871ad);
    p := Next(q, x, 39, p, 0x34333231, 0x1d4d6f72);
    p := Next(q, x, 40, p, 0x36353433, 0xc661460a);
    p := Next(q, x, 41, p, 0x34333231, 0xd2bf04c9);
    p := Next(q, x, 42, p, 0x36353433, 0xd6d5b879);
    p := Next(q, x, 43, p, 0x38373635, 0x89e3c4d7);
    p := Next(q, x, 44, p, 0x30393837, 0x697032ec);
    p := Next(q, x, 45, p, 0x32313039, 0xfa597bfc);
    p := Next(q, x, 46, p, 0x34333231, 0xefc2c171);
    p := Next(q, x, 47, p, 0x32313039, 0xdb4197da);
  }

  lemma {:induction false} Front4(q: State, x: seq<word>) returns (p: State)
    requires FrontWords(x) && Reached(q, x, 48, State(0x697032ec, 0xdb4197da, 0xefc2c171, 0xfa597bfc))
    ensures p == State(0x614868eb, 0xb4d33102, 0x5133129b, 0xa09f38a7) && Reached(q, x, 64, p)
  {
    p := State(0x697032ec, 0xdb4197da, 0xefc2c171, 0xfa597bfc);
    p := Next(q, x, 48, p, 0x34333231, 0x57b91aca);
    p := Next(q, x, 49, p, 0x32313039, 0x210c9ebc);
    p := Next(q, x, 50, p, 0x30393837, 0x21efbd88);
    p := Next(q, x, 51, p, 0x34333231, 0xcaa25b01);
    p := Next(q, x, 52, p, 0x32313039, 0x633d3f7c);
    p := Next(q, x, 53, p, 0x36353433, 0x1a4d3beb);
    p := Next(q, x, 54, p, 0x34333231, 0xccaa1524);
    p := Next(q, x, 55, p, 0x38373635, 0x7713f5df);
    p := Next(q, x, 56, p, 0x36353433, 0x8448b430);
    p := Next(q, x, 57, p, 0x34333231, 0x71c93463);
    p := Next(q, x, 58, p, 0x38373635, 0x7e294727);
    p := Next(q, x, 59, p, 0x36353433, 0x660a801d);
    p := Next(q, x, 60, p, 0x30393837, 0x614868eb);
    p := Next(q, x, 61, p, 0x38373635, 0xa09f38a7);
    p := Next(q, x, 62, p, 0x32313039, 0x5133129b);
    p := Next(q, x, 63, p, 0x30393837, 0xb4d33102);
  }

  lemma {:induction false} Front(q: State, block: seq<byte>)
    requires |block| == 64 && q == State(0x67452301, 0xefcdab89, 0x98badcfe, 0x10325476) && FrontWords(Words(block))
    ensures Compress(q, block) == State(0xc88d8bec, 0xa4a0dc8b, 0xe9edef99, 0xb0d18d1d)
  {
    var x := Words(block);
    ReachedStart(q, x);
    var p := Front1(q, x);
    p := Front2(q, x);
    p := Front3(q, x);
    p := Front4(q, x);
    ReachedEnd(q, x, 64, p);
    CompressSteps(q, block);
  }

  lemma {:induction false} Back1(q: State, x: seq<word>) returns (p: State)
    requires BackWords(x) && Reached(q, x, 0, State(0xc88d8bec, 0xa4a0dc8b, 0xe9edef99, 0xb0d18d1d))
    ensures p == State(0xdb4ff71c, 0x58b12eab, 0x04396a39, 0x9b6b4960) && Reached(q, x, 16, p)
  {
    p := State(0xc88d8bec, 0xa4a0dc8b, 0xe9edef99, 0xb0d18d1d);
    p := Next(q, x, 0, p, 0x38373635, 0x353af7cf);
    p := Next(q, x, 1, p, 0x32313039, 0x3a4f735a);
    p := Next(q, x, 2, p, 0x36353433, 0x63356537);
    p := Next(q, x, 3, p, 0x30393837, 0x45e88f2c);
    p := Next(q, x, 4, p, 0x00000080, 0x3527497e);
    p := Next(q, x, 5, p, 0x00000000, 0xab92660e);
    p := Next(q, x, 6, p, 0x00000000, 0x948347ae);
    p := Next(q, x, 7, p, 0x00000000, 0x377c7d0a);
    p := Next(q, x, 8, p, 0x00000000, 0xcc912f27);
    p := Next(q, x, 9, p, 0x00000000, 0x6945a3d5);
    p := Next(q, x, 10, p, 0x00000000, 0xae23894d);
    p := Next(q, x, 11, p, 0x00000000, 0xb9ede40c);
    p := Next(q, x, 12, p, 0x00000000, 0xdb4ff71c);
    p := Next(q, x, 13, p, 0x00000000, 0x9b6b4960);
    p := Next(q, x, 14, p, 0x00000280, 0x04396a39);
    p := Next(q, x, 15, p, 0x00000000, 0x58b12eab);
  }

  lemma {:induction false} Back2(q: State, x: seq<word>) returns (p: State)
    requires BackWords(x) && Reached(q, x, 16, State(0xdb4ff71c, 0x58b12eab, 0x04396a39, 0x9b6b4960))
    ensures p == State(0x8761f38e, 0x67092c33, 0x061bc867, 0x7a516116) && Reached(q, x, 32, p)
  {
    p := State(0xdb4ff71c, 0x58b12eab, 0x04396a39, 0x9b6b4960);
    p := Next(q, x, 16, p, 0x32313039, 0x52c00cae);
    p := Next(q, x, 17, p, 0x00000000, 0xaad2a216);
    p := Next(q, x, 18, p, 0x00000000, 0xa476af6f);
    p := Next(q, x, 19, p, 0x38373635, 0x50f8de8c);
    p := Next(q, x, 20, p, 0x00000000, 0x0d6e6d91);
    p := Next(q, x, 21, p, 0x00000000, 0x17d64195);
    p := Next(q, x, 22, p, 0x00000000, 0xd5b7a850);
    p := Next(q, x, 23, p, 0x00000080, 0x043cb080);
    p := Next(q, x, 24, p, 0x00000000, 0x74f9377e);
    p := Next(q, x, 25, p, 0x00000280, 0x01f2addd);
    p := Next(q, x, 26, p, 0x30393837, 0xe775c8ca);
    p := Next(q, x, 27, p, 0x00000000, 0xcb00b96e);
    p := Next(q, x, 28, p, 0x00000000, 0x8761f38e);
    p := Next(q, x, 29, p, 0x36353433, 0x7a516116);
    p := Next(q, x, 30, p, 0x00000000, 0x061bc867);
    p := Next(q, x, 31, p, 0x00000000, 0x67092c33);
  }

  lemma {:induction false} Back3(q: State, x: seq<word>) returns (p: State)
    requires BackWords(x) && Reached(q, x, 32, State(0x8761f38e, 0x67092c33, 0x061bc867, 0x7a516116))
    ensures p == State(0x71123afa, 0x1df7010a, 0xe6a8a386, 0xdc9c8ddb) && Reached(q, x, 48, p)
  {
    p := State(0x8761f38e, 0x67092c33, 0x061bc867, 0x7a516116);
    p := Next(q, x, 32, p, 0x00000000, 0x91044d5d);
    p := Next(q, x, 33, p, 0x00000000, 0x610954eb);
    p := Next(q, x, 34, p, 0x00000000, 0xc0175fa8);
    p := Next(q, x, 35, p, 0x00000280, 0x2ee1e3fe);
    p := Next(q, x, 36, p, 0x32313039, 0xae26ed7d);
    p := Next(q, x, 37, p, 0x00000080, 0x71d8ecea);
    p := Next(q, x, 38, p, 0x00000000, 0xff4a94dc);
    p := Next(q, x, 39, p, 0x00000000, 0xdbd1bff6);
    p := Next(q, x, 40, p, 0x00000000, 0x9c350028);
    p := Next(q, x, 41, p, 0x38373635, 0x97e5da92);
    p := Next(q, x, 42, p, 0x30393837, 0xfacaaf06);
    p := Next(q, x, 43, p, 0x00000000, 0x56b3692f);
    p := Next(q, x, 44, p, 0x00000000, 0x71123afa);
    p := Next(q, x, 45, p, 0x00000000, 0xdc9c8ddb);
    p := Next(q, x, 46, p, 0x00000000, 0xe6a8a386);
    p := Next(q, x, 47, p, 0x36353433, 0x1df7010a);
  }

  lemma {:induction false} Back4(q: State, x: seq<word>) returns (p: State)
    requires BackWords(x) && Reached(q, x, 48, State(0x71123afa, 0x1df7010a, 0xe6a8a386, 0xdc9c8ddb))
    ensures p == State(0xda67616b, 0xb12906a0, 0x44ec5a13, 0xc9e47a04) && Reached(q, x, 64, p)
  {
    p := State(0x71123afa, 0x1df7010a, 0xe6a8a386, 0xdc9c8ddb);
    p := Next(q, x, 48, p, 0x38373635, 0xd29007e7);
    p := Next(q, x, 49, p, 0x00000000, 0x7241a77e);
    p := Next(q, x, 50, p, 0x00000280, 0xd3248109);
    p := Next(q, x, 51, p, 0x00000000, 0xc8797828);
    p := Next(q, x, 52, p, 0x00000000, 0x7a504abd);
    p := Next(q, x, 53, p, 0x30393837, 0x211cc65d);
    p := Next(q, x, 54, p, 0x00000000, 0xa290d6ce);
    p := Next(q, x, 55, p, 0x32313039, 0x9b31b114);
    p := Next(q, x, 56, p, 0x00000000, 0x723fd22d);
    p := Next(q, x, 57, p, 0x00000000, 0xd21d6a3b);
    p := Next(q, x, 58, p, 0x00000000, 0x3d79cf74);
    p := Next(q, x, 59, p, 0x00000000, 0x4dc4f33d);
    p := Next(q, x, 60, p, 0x00000080, 0xda67616b);
    p := Next(q, x, 61, p, 0x00000000, 0xc9e47a04);
    p := Next(q, x, 62, p, 0x36353433, 0x44ec5a13);
    p := Next(q, x, 63, p, 0x00000000, 0xb12906a0);
  }

  lemma {:induction false} Back(q: State, block: seq<byte>)
    requires |block| == 64 && q == State(0xc88d8bec, 0xa4a0dc8b, 0xe9edef99, 0xb0d18d1d) && BackWords(Words(block))
    ensures Compress(q, block) == State(0xa2f4ed57, 0x55c9e32b, 0x2eda49ac, 0x7ab60721)
  {
    var x := Words(block);
    ReachedStart(q, x);
    var p := Back1(q, x);
    p := Back2(q, x);
    p := Back3(q, x);
    p := Back4(q, x);
    ReachedEnd(q, x, 64, p);
    CompressSteps(q, block);
  }

  /** The padding of a message of at most three bytes fits into one block. */
  lemma {:induction false} ShortPad(m: seq<byte>)
    requires |m| <= 3
    ensures |Pad(m)| == 64 && Pad(m)[..|m| + 1] == m + [0x80]
    ensures forall j :: |m| < j < 64 && j != 56 ==> Pad(m)[j] == 0
    ensures Pad(m)[56] == 8 * |m|
  {
    var n := 8 * |m|;
    assert n % 0x1_0000_0000_0000_0000 == n && n / 256 == 0;
    var s := LittleEndian(n, 8);
    FirstOf(n, 8);
    NoHighBytes(7);
    assert s == [n] + LittleEndian(0, 7);
  }

  lemma {:induction false} FirstOf(n: nat, count: nat)
    requires n < 256 && count > 0
    ensures LittleEndian(n, count) == [n] + LittleEndian(0, count - 1)
  {
  }

  lemma {:induction false} NoHighBytes(count: nat)
    ensures forall j :: 0 <= j < count ==> LittleEndian(0, count)[j] == 0
    decreases count
  {
    if count > 0 {
      NoHighBytes(count - 1);
      FirstOf(0, count);
    }
  }

  /** The word with these four bytes. */
  function Assembled(b0: byte, b1: byte, b2: byte, b3: byte): word {
    (b0 as word) | ((b1 as word) << 8) | ((b2 as word) << 16) | ((b3 as word) << 24)
  }

  predicate HasBytes(s: seq<byte>, at: nat, b0: byte, b1: byte, b2: byte, b3: byte)
    requires at + 4 <= |s|
  {
    s[at] == b0 && s[at + 1] == b1 && s[at + 2] == b2 && s[at + 3] == b3
  }

  lemma {:induction false} WordIs(block: seq<byte>, n: nat, b0: byte, b1: byte, b2: byte, b3: byte, w: word)
    requires 4 * n + 4 <= |block| && HasBytes(block, 4 * n, b0, b1, b2, b3) && w == Assembled(b0, b1, b2, b3)
    ensures WordAt(block, n) == w
  {
  }

  lemma {:induction false} ZeroWord(block: seq<byte>, n: nat)
    requires 4 * n + 4 <= |block| && HasBytes(block, 4 * n, 0, 0, 0, 0)
    ensures WordAt(block, n) == 0
  {
    WordIs(block, n, 0, 0, 0, 0, 0);
  }

  /** The words of the padded message, given its first four bytes. */
  lemma {:induction false} ShortWords(m: seq<byte>, b0: byte, b1: byte, b2: byte, b3: byte, first: word, bits: word)
    requires |m| <= 3 && HasBytes(m + [0x80, 0, 0, 0], 0, b0, b1, b2, b3) && first == Assembled(b0, b1, b2, b3)
    requires bits == Assembled(8 * |m|, 0, 0, 0)
    ensures |Pad(m)| == 64 && Short(Words(Pad(m)), first, bits)
  {
    ShortPad(m);
    var block := Pad(m);
    FirstFour(m, block);
    WordIs(block, 0, b0, b1, b2, b3, first);
    WordIs(block, 14, 8 * |m|, 0, 0, 0, bits);
    ZeroWord(block, 15);
    forall j | 1 <= j < 14 ensures Words(block)[j] == 0 {
      ZeroWord(block, j);
    }
  }

  lemma {:induction false} FirstFour(m: seq<byte>, block: seq<byte>)
    requires |m| <= 3 && |block| == 64 && block[..|m| + 1] == m + [0x80] && forall j :: |m| < j < 64 && j != 56 ==> block[j] == 0
    ensures forall j :: 0 <= j < 4 ==> block[j] == (m + [0x80, 0, 0, 0])[j]
  {
    forall j | 0 <= j <= |m| ensures block[j] == (m + [0x80])[j] {
      assert block[..|m| + 1][j] == block[j];
    }
  }

  lemma {:induction false} OneBlock(m: seq<byte>)
    requires |Pad(m)| == 64
    ensures Digest(m) == StateBytes(Compress(INITIAL, Pad(m)))
  {
    Md5.OneBlock(INITIAL, Pad(m));
  }

  lemma {:induction false} BytesOfEmpty()
    ensures StateBytes(State(0xd98c1dd4, 0x04b2008f, 0x980980e9, 0x7e42f8ec))
      == [0xd4, 0x1d, 0x8c, 0xd9, 0x8f, 0x00, 0xb2, 0x04, 0xe9, 0x80, 0x09, 0x98, 0xec, 0xf8, 0x42, 0x7e]
  {
  }

  /** MD5 ("") */
  lemma {:induction false} DigestOfEmpty(m: seq<byte>)
    requires m == []
    ensures Digest(m) == [0xd4, 0x1d, 0x8c, 0xd9, 0x8f, 0x00, 0xb2, 0x04, 0xe9, 0x80, 0x09, 0x98, 0xec, 0xf8, 0x42, 0x7e]
  {
    ShortWords(m, 0x80, 0x00, 0x00, 0x00, 0x00000080, 0);
    Empty(INITIAL, Pad(m));
    OneBlock(m);
    BytesOfEmpty();
  }

  lemma {:induction false} BytesOfLetterA()
    ensures StateBytes(State(0xb975c10c, 0xa8b6f1c0, 0xe299c331, 0x61267769))
      == [0x0c, 0xc1, 0x75, 0xb9, 0xc0, 0xf1, 0xb6, 0xa8, 0x31, 0xc3, 0x99, 0xe2, 0x69, 0x77, 0x26, 0x61]
  {
  }

  /** MD5 ("a") */
  lemma {:induction false} DigestOfLetterA(m: seq<byte>)
    requires m == [0x61]
    ensures Digest(m) == [0x0c, 0xc1, 0x75, 0xb9, 0xc0, 0xf1, 0xb6, 0xa8, 0x31, 0xc3, 0x99, 0xe2, 0x69, 0x77, 0x26, 0x61]
  {
    ShortWords(m, 0x61, 0x80, 0x00, 0x00, 0x00008061, 8);
    LetterA(INITIAL, Pad(m));
    OneBlock(m);
    BytesOfLetterA();
  }

  lemma {:induction false} BytesOfAbc()
    ensures StateBytes(State(0x98500190, 0xb04fd23c, 0x7d3f96d6, 0x727fe128))
      == [0x90, 0x01, 0x50, 0x98, 0x3c, 0xd2, 0x4f, 0xb0, 0xd6, 0x96, 0x3f, 0x7d, 0x28, 0xe1, 0x7f, 0x72]
  {
  }

  /** MD5 ("abc") */
  lemma {:induction false} DigestOfAbc(m: seq<byte>)
    requires m == [0x61, 0x62, 0x63]
    ensures Digest(m) == [0x90, 0x01, 0x50, 0x98, 0x3c, 0xd2, 0x4f, 0xb0, 0xd6, 0x96, 0x3f, 0x7d, 0x28, 0xe1, 0x7f, 0x72]
  {
    ShortWords(m, 0x61, 0x62, 0x63, 0x80, 0x80636261, 24);
    Abc(INITIAL, Pad(m));
    OneBlock(m);
    BytesOfAbc();
  }

  function Digit(j: nat): byte {
    if j % 10 == 9 then 0x30 else 0x31 + j % 10
  }

  /** "1234567890", eight times */
  function Digits(): (m: seq<byte>)
    ensures |m| == 80
  {
    seq(80, j requires 0 <= j => Digit(j))
  }

  lemma {:induction false} DigitsPad(p: seq<byte>)
    requires p == Pad(Digits())
    ensures |p| == 128 && p[80] == 0x80 && p[120] == 0x80 && p[121] == 2
    ensures forall j :: 0 <= j < 80 ==> p[j] == Digit(j)
    ensures forall j :: 81 <= j < 128 && j != 120 && j != 121 ==> p[j] == 0
  {
    FirstOf(2, 7);
    NoHighBytes(6);
    assert LittleEndian(640, 8) == [0x80] + LittleEndian(2, 7);
    var m, zeros := Digits(), Zeros(39);
    assert p == m + [0x80] + zeros + LittleEndian(640, 8);
    forall j | 0 <= j < 80 ensures p[j] == Digit(j) {
      assert p[j] == m[j];
    }
  }

  /** The block begins with digits of the message, from `from` on. */
  ghost predicate HoldsDigits(block: seq<byte>, from: nat, count: nat) {
    |block| == 64 && count <= 64 && forall j {:trigger block[j]} :: 0 <= j < count ==> block[j] == Digit(from + j)
  }

  /** Word n of the block is w. The quantifier keeps the bits of words out of proofs that do not ask for them. */
  ghost predicate HasWord(block: seq<byte>, n: nat, w: word)
    requires |block| == 64
  {
    n < 16 && forall b {:trigger Words(b)} :: b == block ==> Words(b)[n] == w
  }

  lemma {:induction false} DigitRow(block: seq<byte>, from: nat, count: nat, at: nat, b0: byte, b1: byte, b2: byte,
      b3: byte)
    requires HoldsDigits(block, from, count) && at + 4 <= count
    requires Digit(from + at) == b0 && Digit(from + (at + 1)) == b1 && Digit(from + (at + 2)) == b2
    requires Digit(from + (at + 3)) == b3
    ensures HasBytes(block, at, b0, b1, b2, b3)
  {
  }

  lemma {:induction false} BytesOfWord(block: seq<byte>, n: nat, b0: byte, b1: byte, b2: byte, b3: byte, w: word)
    requires |block| == 64 && n < 16 && HasBytes(block, 4 * n, b0, b1, b2, b3) && w == Assembled(b0, b1, b2, b3)
    ensures HasWord(block, n, w)
  {
    WordIs(block, n, b0, b1, b2, b3, w);
  }

  lemma {:induction false} Word1234(block: seq<byte>, from: nat, count: nat, n: nat)
    requires HoldsDigits(block, from, count) && 4 * n + 4 <= count && (from + 4 * n) % 10 == 0
    ensures HasWord(block, n, 0x34333231)
  {
    DigitRow(block, from, count, 4 * n, 0x31, 0x32, 0x33, 0x34);
    BytesOfWord(block, n, 0x31, 0x32, 0x33, 0x34, 0x34333231);
  }

  lemma {:induction false} Word5678(block: seq<byte>, from: nat, count: nat, n: nat)
    requires HoldsDigits(block, from, count) && 4 * n + 4 <= count && (from + 4 * n) % 10 == 4
    ensures HasWord(block, n, 0x38373635)
  {
    DigitRow(block, from, count, 4 * n, 0x35, 0x36, 0x37, 0x38);
    BytesOfWord(block, n, 0x35, 0x36, 0x37, 0x38, 0x38373635);
  }

  lemma {:induction false} Word9012(block: seq<byte>, from: nat, count: nat, n: nat)
    requires HoldsDigits(block, from, count) && 4 * n + 4 <= count && (from + 4 * n) % 10 == 8
    ensures HasWord(block, n, 0x32313039)
  {
    DigitRow(block, from, count, 4 * n, 0x39, 0x30, 0x31, 0x32);
    BytesOfWord(block, n, 0x39, 0x30, 0x31, 0x32, 0x32313039);
  }

  lemma {:induction false} Word3456(block: seq<byte>, from: nat, count: nat, n: nat)
    requires HoldsDigits(block, from, count) && 4 * n + 4 <= count && (from + 4 * n) % 10 == 2
    ensures HasWord(block, n, 0x36353433)
  {
    DigitRow(block, from, count, 4 * n, 0x33, 0x34, 0x35, 0x36);
    BytesOfWord(block, n, 0x33, 0x34, 0x35, 0x36, 0x36353433);
  }

  lemma {:induction false} Word7890(block: seq<byte>, from: nat, count: nat, n: nat)
    requires HoldsDigits(block, from, count) && 4 * n + 4 <= count && (from + 4 * n) % 10 == 6
    ensures HasWord(block, n, 0x30393837)
  {
    DigitRow(block, from, count, 4 * n, 0x37, 0x38, 0x39, 0x30);
    BytesOfWord(block, n, 0x37, 0x38, 0x39, 0x30, 0x30393837);
  }

  lemma {:induction false} FrontOf(block: seq<byte>)
    requires HoldsDigits(block, 0, 64)
    ensures FrontWords(Words(block))
  {
    Word1234(block, 0, 64, 0);
    Word5678(block, 0, 64, 1);
    Word9012(block, 0, 64, 2);
    Word3456(block, 0, 64, 3);
    Word7890(block, 0, 64, 4);
    Word1234(block, 0, 64, 5);
    Word5678(block, 0, 64, 6);
    Word9012(block, 0, 64, 7);
    Word3456(block, 0, 64, 8);
    Word7890(block, 0, 64, 9);
    Word1234(block, 0, 64, 10);
    Word5678(block, 0, 64, 11);
    Word9012(block, 0, 64, 12);
    Word3456(block, 0, 64, 13);
    Word7890(block, 0, 64, 14);
    Word1234(block, 0, 64, 15);
  }

  lemma {:induction false} BackOf(block: seq<byte>)
    requires HoldsDigits(block, 64, 16) && HasBytes(block, 16, 0x80, 0, 0, 0) && HasBytes(block, 56, 0x80, 2, 0, 0)
    requires forall j :: 20 <= j < 64 && j != 56 && j != 57 ==> block[j] == 0
    ensures BackWords(Words(block))
  {
    Word5678(block, 64, 16, 0);
    Word9012(block, 64, 16, 1);
    Word3456(block, 64, 16, 2);
    Word7890(block, 64, 16, 3);
    BackMarks(block);
    BackZeros(block);
    BackAll(block);
  }

  lemma {:induction false} BackAll(block: seq<byte>)
    requires |block| == 64 && HasWord(block, 0, 0x38373635) && HasWord(block, 1, 0x32313039)
    requires HasWord(block, 2, 0x36353433) && HasWord(block, 3, 0x30393837) && HasWord(block, 4, 0x80)
    requires HasWord(block, 14, 0x280)
    requires forall n :: 5 <= n < 14 || n == 15 ==> HasWord(block, n, 0)
    ensures BackWords(Words(block))
  {
    assert HasWord(block, 5, 0) && HasWord(block, 6, 0) && HasWord(block, 7, 0) && HasWord(block, 8, 0) && HasWord(block, 9, 0);
    assert HasWord(block, 10, 0) && HasWord(block, 11, 0) && HasWord(block, 12, 0) && HasWord(block, 13, 0);
    assert HasWord(block, 15, 0);
  }

  lemma {:induction false} BackMarks(block: seq<byte>)
    requires |block| == 64 && HasBytes(block, 16, 0x80, 0, 0, 0) && HasBytes(block, 56, 0x80, 2, 0, 0)
    ensures HasWord(block, 4, 0x80) && HasWord(block, 14, 0x280)
  {
    BytesOfWord(block, 4, 0x80, 0, 0, 0, 0x80);
    BytesOfWord(block, 14, 0x80, 2, 0, 0, 0x280);
  }

  lemma {:induction false} BackZeros(block: seq<byte>)
    requires |block| == 64 && forall j :: 20 <= j < 64 && j != 56 && j != 57 ==> block[j] == 0
    ensures forall n :: 5 <= n < 14 || n == 15 ==> HasWord(block, n, 0)
  {
    forall n | 5 <= n < 14 || n == 15 ensures HasWord(block, n, 0) {
      ZeroWord(block, n);
    }
  }

  lemma {:induction false} BytesOfDigits()
    ensures StateBytes(State(0xa2f4ed57, 0x55c9e32b, 0x2eda49ac, 0x7ab60721))
      == [0x57, 0xed, 0xf4, 0xa2, 0x2b, 0xe3, 0xc9, 0x55, 0xac, 0x49, 0xda, 0x2e, 0x21, 0x07, 0xb6, 0x7a]
  {
  }

  lemma {:induction false} TwoBlocks(q: State, a: seq<byte>, b: seq<byte>)
    requires |a| == |b| == 64
    ensures Fold(q, a + b) == Compress(Compress(q, a), b)
  {
    FoldSplit(q, a, b);
    Md5.OneBlock(q, a);
    Md5.OneBlock(Compress(q, a), b);
  }

  /** MD5 of these 80 digits, over two blocks */
  lemma {:induction false} DigestOfDigits(m: seq<byte>)
    requires m == Digits()
    ensures Digest(m) == [0x57, 0xed, 0xf4, 0xa2, 0x2b, 0xe3, 0xc9, 0x55, 0xac, 0x49, 0xda, 0x2e, 0x21, 0x07, 0xb6, 0x7a]
  {
    var p := Pad(m);
    DigitsPad(p);
    var a, b := p[..64], p[64..];
    assert p == a + b;
    assert HoldsDigits(a, 0, 64) && HoldsDigits(b, 64, 16);
    FrontOf(a);
    BackOf(b);
    Front(INITIAL, a);
    Back(Compress(INITIAL, a), b);
    TwoBlocks(INITIAL, a, b);
    BytesOfDigits();
  }

  /** md5sum of a file that holds "abc", read in pieces */
  method Md5SumOfAbc(pieces: seq<seq<byte>>) returns (digest: seq<byte>)
    requires Md5.Concat(pieces) == [0x61, 0x62, 0x63] && forall p <- pieces :: |p| < 0x1_0000_0000_0000_0000
    ensures digest == [0x90, 0x01, 0x50, 0x98, 0x3c, 0xd2, 0x4f, 0xb0, 0xd6, 0x96, 0x3f, 0x7d, 0x28, 0xe1, 0x7f, 0x72]
  {
    digest := Md5.Md5Sum(pieces);
    DigestOfAbc(Md5.Concat(pieces));
  }
}
