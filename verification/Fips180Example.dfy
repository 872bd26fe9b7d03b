/** The first example of appendix B of FIPS 180-2, worked through: the digest of "abc". */
module Fips180Example {
  import opened Memory
  import opened Fips180
  import opened Sha256

  const ABC: Bytes := [97, 98, 99]

  /** The only block of the padded message. */
  ghost function OnlyBlock(): Block {
    [97, 98, 99, 128] + ZeroBytes(59) + [24]
  }

  lemma PaddedAbc()
    ensures Padded(ABC) == OnlyBlock()
  {
    assert ZeroByteCount(3) == 52;
    assert BigEndian(24, 8) == BigEndian(0, 7) + [24];
    NoHighBytes(7);
    assert ZeroBytes(52) + ZeroBytes(7) == ZeroBytes(59);
  }

  lemma {:induction false} NoHighBytes(n: nat)
    ensures BigEndian(0, n) == ZeroBytes(n)
  {
    if n > 0 {
      NoHighBytes(n - 1);
    }
  }

  // ------------------------------------------------------------------ the message schedule

  ghost predicate Words0(b: Block) {
    && Schedule(b, 0) == 0x61626380 && Schedule(b, 1) == 0x00000000
    && Schedule(b, 2) == 0x00000000 && Schedule(b, 3) == 0x00000000
    && Schedule(b, 4) == 0x00000000 && Schedule(b, 5) == 0x00000000
    && Schedule(b, 6) == 0x00000000 && Schedule(b, 7) == 0x00000000
  }

  ghost predicate Words1(b: Block) {
    && Schedule(b, 8) == 0x00000000 && Schedule(b, 9) == 0x00000000
    && Schedule(b, 10) == 0x00000000 && Schedule(b, 11) == 0x00000000
    && Schedule(b, 12) == 0x00000000 && Schedule(b, 13) == 0x00000000
    && Schedule(b, 14) == 0x00000000 && Schedule(b, 15) == 0x00000018
  }

  ghost predicate Words2(b: Block) {
    && Schedule(b, 16) == 0x61626380 && Schedule(b, 17) == 0x000f0000
    && Schedule(b, 18) == 0x7da86405 && Schedule(b, 19) == 0x600003c6
    && Schedule(b, 20) == 0x3e9d7b78 && Schedule(b, 21) == 0x0183fc00
    && Schedule(b, 22) == 0x12dcbfdb && Schedule(b, 23) == 0xe2e2c38e
  }

  ghost predicate Words3(b: Block) {
    && Schedule(b, 24) == 0xc8215c1a && Schedule(b, 25) == 0xb73679a2
    && Schedule(b, 26) == 0xe5bc3909 && Schedule(b, 27) == 0x32663c5b
    && Schedule(b, 28) == 0x9d209d67 && Schedule(b, 29) == 0xec8726cb
    && Schedule(b, 30) == 0x702138a4 && Schedule(b, 31) == 0xd3b7973b
  }

  ghost predicate Words4(b: Block) {
    && Schedule(b, 32) == 0x93f5997f && Schedule(b, 33) == 0x3b68ba73
    && Schedule(b, 34) == 0xaff4ffc1 && Schedule(b, 35) == 0xf10a5c62
    && Schedule(b, 36) == 0x0a8b3996 && Schedule(b, 37) == 0x72af830a
    && Schedule(b, 38) == 0x9409e33e && Schedule(b, 39) == 0x24641522
  }

  ghost predicate Words5(b: Block) {
    && Schedule(b, 40) == 0x9f47bf94 && Schedule(b, 41) == 0xf0a64f5a
    && Schedule(b, 42) == 0x3e246a79 && Schedule(b, 43) == 0x27333ba3
    && Schedule(b, 44) == 0x0c4763f2 && Schedule(b, 45) == 0x840abf27
    && Schedule(b, 46) == 0x7a290d5d && Schedule(b, 47) == 0x065c43da
  }

  ghost predicate Words6(b: Block) {
    && Schedule(b, 48) == 0xfb3e89cb && Schedule(b, 49) == 0xcc7617db
    && Schedule(b, 50) == 0xb9e66c34 && Schedule(b, 51) == 0xa9993667
    && Schedule(b, 52) == 0x84badedd && Schedule(b, 53) == 0xc21462bc
    && Schedule(b, 54) == 0x1487472c && Schedule(b, 55) == 0xb20f7a99
  }

  ghost predicate Words7(b: Block) {
    && Schedule(b, 56) == 0xef57b9cd && Schedule(b, 57) == 0xebe6b238
    && Schedule(b, 58) == 0x9fe3095e && Schedule(b, 59) == 0x78bc8d4b
    && Schedule(b, 60) == 0xa43fcf15 && Schedule(b, 61) == 0x668b2ff8
    && Schedule(b, 62) == 0xeeaba2cc && Schedule(b, 63) == 0x12b1edeb
  }

  lemma BlockBytes()
    ensures var b := OnlyBlock();
            b[0] == 97 && b[1] == 98 && b[2] == 99 && b[3] == 128 && b[63] == 24 && forall i :: 4 <= i < 63 ==> b[i] == 0
  {}

  lemma SplitJoin(b0: byte, b1: byte, b2: byte, b3: byte)
    ensures var v := Join(b0, b1, b2, b3);
            0 <= v < U32 && v / 0x1000000 == b0 && v / 0x10000 % 256 == b1 && v / 0x100 % 256 == b2 && v % 256 == b3
  {
    assert Join(b0, b1, b2, b3) == 0x10000 * (0x100 * b0 as int + b1) + (0x100 * b2 as int + b3);
  }

  /** The bytes of a word, most significant first. */
  lemma BytesOf(w: Word, b0: byte, b1: byte, b2: byte, b3: byte)
    requires w as nat == Join(b0, b1, b2, b3)
    ensures ByteOf(w, 0) == b0 && ByteOf(w, 1) == b1 && ByteOf(w, 2) == b2 && ByteOf(w, 3) == b3
  {
    hide Join;
    SplitJoin(b0, b1, b2, b3);
  }

  lemma WordOf(b: Block, t: nat, b0: byte, b1: byte, b2: byte, b3: byte, w: Word)
    requires t < 16 && b[4 * t] == b0 && b[4 * t + 1] == b1 && b[4 * t + 2] == b2 && b[4 * t + 3] == b3
    requires w as nat == Join(b0, b1, b2, b3)
    ensures Schedule(b, t) == w
  {
    hide ByteOf, Join;
    BytesOf(w, b0, b1, b2, b3);
    WordBytesRoundTrip(w, b, t);
  }

  lemma FirstWords(b: Block)
    requires b[0] == 97 && b[1] == 98 && b[2] == 99 && b[3] == 128 && b[63] == 24 && forall i :: 4 <= i < 63 ==> b[i] == 0
    ensures Words0(b) && Words1(b)
  {
    hide Schedule;
    WordOf(b, 0, 97, 98, 99, 128, 0x61626380);
    forall t | 1 <= t < 15 ensures Schedule(b, t) == 0 {
      WordOf(b, t, 0, 0, 0, 0, 0);
    }
    WordOf(b, 15, 0, 0, 0, 24, 24);
  }

  /** A later word, by the macros. */
  lemma NextWord(b: Block, t: nat)
    requires 16 <= t < 64
    ensures Schedule(b, t) ==
              Add(Add(Add(Sig1(Schedule(b, t - 2)), Schedule(b, t - 7)), Sig0(Schedule(b, t - 15))), Schedule(b, t - 16))
  {
    hide Add, Sig0, Sig1, SmallSigma0, SmallSigma1;
    Sig1IsStandard(Schedule(b, t - 2));
    Sig0IsStandard(Schedule(b, t - 15));
  }

  lemma Schedule2(b: Block)
    requires Words0(b) && Words1(b)
    ensures Words2(b)
  {
    hide Schedule;
    NextWord(b, 16);
    NextWord(b, 17);
    NextWord(b, 18);
    NextWord(b, 19);
    NextWord(b, 20);
    NextWord(b, 21);
    NextWord(b, 22);
    NextWord(b, 23);
  }

  lemma Schedule3(b: Block)
    requires Words1(b) && Words2(b)
    ensures Words3(b)
  {
    hide Schedule;
    NextWord(b, 24);
    NextWord(b, 25);
    NextWord(b, 26);
    NextWord(b, 27);
    NextWord(b, 28);
    NextWord(b, 29);
    NextWord(b, 30);
    NextWord(b, 31);
  }

  lemma Schedule4(b: Block)
    requires Words2(b) && Words3(b)
    ensures Words4(b)
  {
    hide Schedule;
    NextWord(b, 32);
    NextWord(b, 33);
    NextWord(b, 34);
    NextWord(b, 35);
    NextWord(b, 36);
    NextWord(b, 37);
    NextWord(b, 38);
    NextWord(b, 39);
  }

  lemma Schedule5(b: Block)
    requires Words3(b) && Words4(b)
    ensures Words5(b)
  {
    hide Schedule;
    NextWord(b, 40);
    NextWord(b, 41);
    NextWord(b, 42);
    NextWord(b, 43);
    NextWord(b, 44);
    NextWord(b, 45);
    NextWord(b, 46);
    NextWord(b, 47);
  }

  lemma Schedule6(b: Block)
    requires Words4(b) && Words5(b)
    ensures Words6(b)
  {
    hide Schedule;
    NextWord(b, 48);
    NextWord(b, 49);
    NextWord(b, 50);
    NextWord(b, 51);
    NextWord(b, 52);
    NextWord(b, 53);
    NextWord(b, 54);
    NextWord(b, 55);
  }

  lemma Schedule7(b: Block)
    requires Words5(b) && Words6(b)
    ensures Words7(b)
  {
    hide Schedule;
    NextWord(b, 56);
    NextWord(b, 57);
    NextWord(b, 58);
    NextWord(b, 59);
    NextWord(b, 60);
    NextWord(b, 61);
    NextWord(b, 62);
    NextWord(b, 63);
  }

  // ------------------------------------------------------------------ the working variables

  /** The working variables after t rounds. */
  ghost function AfterRounds(b: Block, t: nat): Vars
    requires t <= 64
  {
    Rounds(Start(INITIAL_HASH), b, t)
  }

  /** One round, by the macros, with everything in it written out: the working variables, the constant, the word of the
      schedule, and the new values of a and e. */
  lemma Turn(block: Block, t: nat, a: Word, b: Word, c: Word, d: Word, e: Word, f: Word, g: Word, h: Word, k: Word,
             w: Word, newA: Word, newE: Word)
    requires t < 64 && AfterRounds(block, t) == Vars(a, b, c, d, e, f, g, h) && K[t] == k && Schedule(block, t) == w
    requires Add(Add(Add(Add(Add(h, Ep1(e)), Ch(e, f, g)), k), w), Add(Ep0(a), Maj(a, b, c))) == newA
    requires Add(d, Add(Add(Add(Add(h, Ep1(e)), Ch(e, f, g)), k), w)) == newE
    ensures AfterRounds(block, t + 1) == Vars(newA, a, b, c, newE, e, f, g)
  {
    hide Add, Ch, Maj, Ep0, Ep1, BigSigma0, BigSigma1, K, Schedule;
    Ep0IsStandard(a);
    Ep1IsStandard(e);
  }

  lemma Rounds0(b: Block)
    requires Words0(b) && AfterRounds(b, 0) ==
      Vars(0x6a09e667, 0xbb67ae85, 0x3c6ef372, 0xa54ff53a,
           0x510e527f, 0x9b05688c, 0x1f83d9ab, 0x5be0cd19)
    ensures AfterRounds(b, 8) ==
      Vars(0x85a07b5f, 0xe5030380, 0x2b4209f5, 0x04409a6a,
           0x0c657a79, 0x9b27a401, 0x714260ad, 0x43ada245)
  {
    hide Schedule, AfterRounds;
    Row0();
    Turn(b, 0, 0x6a09e667, 0xbb67ae85, 0x3c6ef372, 0xa54ff53a, 0x510e527f, 0x9b05688c, 0x1f83d9ab, 0x5be0cd19,
         0x428a2f98, 0x61626380, 0x5d6aebcd, 0xfa2a4622);
    Turn(b, 1, 0x5d6aebcd, 0x6a09e667, 0xbb67ae85, 0x3c6ef372, 0xfa2a4622, 0x510e527f, 0x9b05688c, 0x1f83d9ab,
         0x71374491, 0x00000000, 0x5a6ad9ad, 0x78ce7989);
    Turn(b, 2, 0x5a6ad9ad, 0x5d6aebcd, 0x6a09e667, 0xbb67ae85, 0x78ce7989, 0xfa2a4622, 0x510e527f, 0x9b05688c,
         0xb5c0fbcf, 0x00000000, 0xc8c347a7, 0xf92939eb);
    Turn(b, 3, 0xc8c347a7, 0x5a6ad9ad, 0x5d6aebcd, 0x6a09e667, 0xf92939eb, 0x78ce7989, 0xfa2a4622, 0x510e527f,
         0xe9b5dba5, 0x00000000, 0xd550f666, 0x24e00850);
    Turn(b, 4, 0xd550f666, 0xc8c347a7, 0x5a6ad9ad, 0x5d6aebcd, 0x24e00850, 0xf92939eb, 0x78ce7989, 0xfa2a4622,
         0x3956c25b, 0x00000000, 0x04409a6a, 0x43ada245);
    Turn(b, 5, 0x04409a6a, 0xd550f666, 0xc8c347a7, 0x5a6ad9ad, 0x43ada245, 0x24e00850, 0xf92939eb, 0x78ce7989,
         0x59f111f1, 0x00000000, 0x2b4209f5, 0x714260ad);
    Turn(b, 6, 0x2b4209f5, 0x04409a6a, 0xd550f666, 0xc8c347a7, 0x714260ad, 0x43ada245, 0x24e00850, 0xf92939eb,
         0x923f82a4, 0x00000000, 0xe5030380, 0x9b27a401);
    Turn(b, 7, 0xe5030380, 0x2b4209f5, 0x04409a6a, 0xd550f666, 0x9b27a401, 0x714260ad, 0x43ada245, 0x24e00850,
         0xab1c5ed5, 0x00000000, 0x85a07b5f, 0x0c657a79);
  }

  lemma Rounds1(b: Block)
    requires Words1(b) && AfterRounds(b, 8) ==
      Vars(0x85a07b5f, 0xe5030380, 0x2b4209f5, 0x04409a6a,
           0x0c657a79, 0x9b27a401, 0x714260ad, 0x43ada245)
    ensures AfterRounds(b, 16) ==
      Vars(0xb0fa238e, 0xc0645fde, 0xd932eb16, 0x87912990,
           0x07590dcd, 0x0b92f20c, 0x745a48de, 0x1e578218)
  {
    hide Schedule, AfterRounds;
    Row1();
    Turn(b, 8, 0x85a07b5f, 0xe5030380, 0x2b4209f5, 0x04409a6a, 0x0c657a79, 0x9b27a401, 0x714260ad, 0x43ada245,
         0xd807aa98, 0x00000000, 0x8e04ecb9, 0x32ca2d8c);
    Turn(b, 9, 0x8e04ecb9, 0x85a07b5f, 0xe5030380, 0x2b4209f5, 0x32ca2d8c, 0x0c657a79, 0x9b27a401, 0x714260ad,
         0x12835b01, 0x00000000, 0x8c87346b, 0x1cc92596);
    Turn(b, 10, 0x8c87346b, 0x8e04ecb9, 0x85a07b5f, 0xe5030380, 0x1cc92596, 0x32ca2d8c, 0x0c657a79, 0x9b27a401,
         0x243185be, 0x00000000, 0x4798a3f4, 0x436b23e8);
    Turn(b, 11, 0x4798a3f4, 0x8c87346b, 0x8e04ecb9, 0x85a07b5f, 0x436b23e8, 0x1cc92596, 0x32ca2d8c, 0x0c657a79,
         0x550c7dc3, 0x00000000, 0xf71fc5a9, 0x816fd6e9);
    Turn(b, 12, 0xf71fc5a9, 0x4798a3f4, 0x8c87346b, 0x8e04ecb9, 0x816fd6e9, 0x436b23e8, 0x1cc92596, 0x32ca2d8c,
         0x72be5d74, 0x00000000, 0x87912990, 0x1e578218);
    Turn(b, 13, 0x87912990, 0xf71fc5a9, 0x4798a3f4, 0x8c87346b, 0x1e578218, 0x816fd6e9, 0x436b23e8, 0x1cc92596,
         0x80deb1fe, 0x00000000, 0xd932eb16, 0x745a48de);
    Turn(b, 14, 0xd932eb16, 0x87912990, 0xf71fc5a9, 0x4798a3f4, 0x745a48de, 0x1e578218, 0x816fd6e9, 0x436b23e8,
         0x9bdc06a7, 0x00000000, 0xc0645fde, 0x0b92f20c);
    Turn(b, 15, 0xc0645fde, 0xd932eb16, 0x87912990, 0xf71fc5a9, 0x0b92f20c, 0x745a48de, 0x1e578218, 0x816fd6e9,
         0xc19bf174, 0x00000018, 0xb0fa238e, 0x07590dcd);
  }

  lemma Rounds2(b: Block)
    requires Words2(b) && AfterRounds(b, 16) ==
      Vars(0xb0fa238e, 0xc0645fde, 0xd932eb16, 0x87912990,
           0x07590dcd, 0x0b92f20c, 0x745a48de, 0x1e578218)
    ensures AfterRounds(b, 24) ==
      Vars(0xc5d53d8d, 0xa7a3623f, 0xc2606d6d, 0x9dc68b63,
           0xaa47c347, 0x49f5114a, 0xe1257970, 0x8ada8930)
  {
    hide Schedule, AfterRounds;
    Row2();
    Turn(b, 16, 0xb0fa238e, 0xc0645fde, 0xd932eb16, 0x87912990, 0x07590dcd, 0x0b92f20c, 0x745a48de, 0x1e578218,
         0xe49b69c1, 0x61626380, 0x21da9a9b, 0x8034229c);
    Turn(b, 17, 0x21da9a9b, 0xb0fa238e, 0xc0645fde, 0xd932eb16, 0x8034229c, 0x07590dcd, 0x0b92f20c, 0x745a48de,
         0xefbe4786, 0x000f0000, 0xc2fbd9d1, 0x846ee454);
    Turn(b, 18, 0xc2fbd9d1, 0x21da9a9b, 0xb0fa238e, 0xc0645fde, 0x846ee454, 0x8034229c, 0x07590dcd, 0x0b92f20c,
         0x0fc19dc6, 0x7da86405, 0xfe777bbf, 0xcc899961);
    Turn(b, 19, 0xfe777bbf, 0xc2fbd9d1, 0x21da9a9b, 0xb0fa238e, 0xcc899961, 0x846ee454, 0x8034229c, 0x07590dcd,
         0x240ca1cc, 0x600003c6, 0xe1f20c33, 0xb0638179);
    Turn(b, 20, 0xe1f20c33, 0xfe777bbf, 0xc2fbd9d1, 0x21da9a9b, 0xb0638179, 0xcc899961, 0x846ee454, 0x8034229c,
         0x2de92c6f, 0x3e9d7b78, 0x9dc68b63, 0x8ada8930);
    Turn(b, 21, 0x9dc68b63, 0xe1f20c33, 0xfe777bbf, 0xc2fbd9d1, 0x8ada8930, 0xb0638179, 0xcc899961, 0x846ee454,
         0x4a7484aa, 0x0183fc00, 0xc2606d6d, 0xe1257970);
    Turn(b, 22, 0xc2606d6d, 0x9dc68b63, 0xe1f20c33, 0xfe777bbf, 0xe1257970, 0x8ada8930, 0xb0638179, 0xcc899961,
         0x5cb0a9dc, 0x12dcbfdb, 0xa7a3623f, 0x49f5114a);
    Turn(b, 23, 0xa7a3623f, 0xc2606d6d, 0x9dc68b63, 0xe1f20c33, 0x49f5114a, 0xe1257970, 0x8ada8930, 0xb0638179,
         0x76f988da, 0xe2e2c38e, 0xc5d53d8d, 0xaa47c347);
  }

  lemma Rounds3(b: Block)
    requires Words3(b) && AfterRounds(b, 24) ==
      Vars(0xc5d53d8d, 0xa7a3623f, 0xc2606d6d, 0x9dc68b63,
           0xaa47c347, 0x49f5114a, 0xe1257970, 0x8ada8930)
    ensures AfterRounds(b, 32) ==
      Vars(0x73b33bf5, 0xea992a22, 0xa0060b30, 0x363482c9,
           0xba591112, 0x0109ab3a, 0xade79437, 0x6112a3b7)
  {
    hide Schedule, AfterRounds;
    Row3();
    Turn(b, 24, 0xc5d53d8d, 0xa7a3623f, 0xc2606d6d, 0x9dc68b63, 0xaa47c347, 0x49f5114a, 0xe1257970, 0x8ada8930,
         0x983e5152, 0xc8215c1a, 0x1c2c2838, 0x2823ef91);
    Turn(b, 25, 0x1c2c2838, 0xc5d53d8d, 0xa7a3623f, 0xc2606d6d, 0x2823ef91, 0xaa47c347, 0x49f5114a, 0xe1257970,
         0xa831c66d, 0xb73679a2, 0xcde8037d, 0x14383d8e);
    Turn(b, 26, 0xcde8037d, 0x1c2c2838, 0xc5d53d8d, 0xa7a3623f, 0x14383d8e, 0x2823ef91, 0xaa47c347, 0x49f5114a,
         0xb00327c8, 0xe5bc3909, 0xb62ec4bc, 0xc74c6516);
    Turn(b, 27, 0xb62ec4bc, 0xcde8037d, 0x1c2c2838, 0xc5d53d8d, 0xc74c6516, 0x14383d8e, 0x2823ef91, 0xaa47c347,
         0xbf597fc7, 0x32663c5b, 0x77d37528, 0xedffbff8);
    Turn(b, 28, 0x77d37528, 0xb62ec4bc, 0xcde8037d, 0x1c2c2838, 0xedffbff8, 0xc74c6516, 0x14383d8e, 0x2823ef91,
         0xc6e00bf3, 0x9d209d67, 0x363482c9, 0x6112a3b7);
    Turn(b, 29, 0x363482c9, 0x77d37528, 0xb62ec4bc, 0xcde8037d, 0x6112a3b7, 0xedffbff8, 0xc74c6516, 0x14383d8e,
         0xd5a79147, 0xec8726cb, 0xa0060b30, 0xade79437);
    Turn(b, 30, 0xa0060b30, 0x363482c9, 0x77d37528, 0xb62ec4bc, 0xade79437, 0x6112a3b7, 0xedffbff8, 0xc74c6516,
         0x06ca6351, 0x702138a4, 0xea992a22, 0x0109ab3a);
    Turn(b, 31, 0xea992a22, 0xa0060b30, 0x363482c9, 0x77d37528, 0x0109ab3a, 0xade79437, 0x6112a3b7, 0xedffbff8,
         0x14292967, 0xd3b7973b, 0x73b33bf5, 0xba591112);
  }

  lemma Rounds4(b: Block)
    requires Words4(b) && AfterRounds(b, 32) ==
      Vars(0x73b33bf5, 0xea992a22, 0xa0060b30, 0x363482c9,
           0xba591112, 0x0109ab3a, 0xade79437, 0x6112a3b7)
    ensures AfterRounds(b, 40) ==
      Vars(0x79ea687a, 0x6dc57a8a, 0x34df1604, 0x41a65cb1,
           0x1efbc0a0, 0xf0781bc8, 0xa507a53d, 0x0772a26b)
  {
    hide Schedule, AfterRounds;
    Row4();
    Turn(b, 32, 0x73b33bf5, 0xea992a22, 0xa0060b30, 0x363482c9, 0xba591112, 0x0109ab3a, 0xade79437, 0x6112a3b7,
         0x27b70a85, 0x93f5997f, 0x98e12507, 0x9cd9f5f6);
    Turn(b, 33, 0x98e12507, 0x73b33bf5, 0xea992a22, 0xa0060b30, 0x9cd9f5f6, 0xba591112, 0x0109ab3a, 0xade79437,
         0x2e1b2138, 0x3b68ba73, 0xfe604df5, 0x59249dd3);
    Turn(b, 34, 0xfe604df5, 0x98e12507, 0x73b33bf5, 0xea992a22, 0x59249dd3, 0x9cd9f5f6, 0xba591112, 0x0109ab3a,
         0x4d2c6dfc, 0xaff4ffc1, 0xa9a7738c, 0x085f3833);
    Turn(b, 35, 0xa9a7738c, 0xfe604df5, 0x98e12507, 0x73b33bf5, 0x085f3833, 0x59249dd3, 0x9cd9f5f6, 0xba591112,
         0x53380d13, 0xf10a5c62, 0x65a0cfe4, 0xf4b002d6);
    Turn(b, 36, 0x65a0cfe4, 0xa9a7738c, 0xfe604df5, 0x98e12507, 0xf4b002d6, 0x085f3833, 0x59249dd3, 0x9cd9f5f6,
         0x650a7354, 0x0a8b3996, 0x41a65cb1, 0x0772a26b);
    Turn(b, 37, 0x41a65cb1, 0x65a0cfe4, 0xa9a7738c, 0xfe604df5, 0x0772a26b, 0xf4b002d6, 0x085f3833, 0x59249dd3,
         0x766a0abb, 0x72af830a, 0x34df1604, 0xa507a53d);
    Turn(b, 38, 0x34df1604, 0x41a65cb1, 0x65a0cfe4, 0xa9a7738c, 0xa507a53d, 0x0772a26b, 0xf4b002d6, 0x085f3833,
         0x81c2c92e, 0x9409e33e, 0x6dc57a8a, 0xf0781bc8);
    Turn(b, 39, 0x6dc57a8a, 0x34df1604, 0x41a65cb1, 0x65a0cfe4, 0xf0781bc8, 0xa507a53d, 0x0772a26b, 0xf4b002d6,
         0x92722c85, 0x24641522, 0x79ea687a, 0x1efbc0a0);
  }

  lemma Rounds5(b: Block)
    requires Words5(b) && AfterRounds(b, 40) ==
      Vars(0x79ea687a, 0x6dc57a8a, 0x34df1604, 0x41a65cb1,
           0x1efbc0a0, 0xf0781bc8, 0xa507a53d, 0x0772a26b)
    ensures AfterRounds(b, 48) ==
      Vars(0x4172328d, 0xa14c14b0, 0x72ab4b91, 0x26628815,
           0xfecf0bc6, 0xd57b94a9, 0xb7755da1, 0xa80f11f0)
  {
    hide Schedule, AfterRounds;
    Row5();
    Turn(b, 40, 0x79ea687a, 0x6dc57a8a, 0x34df1604, 0x41a65cb1, 0x1efbc0a0, 0xf0781bc8, 0xa507a53d, 0x0772a26b,
         0xa2bfe8a1, 0x9f47bf94, 0xd6670766, 0x26352d63);
    Turn(b, 41, 0xd6670766, 0x79ea687a, 0x6dc57a8a, 0x34df1604, 0x26352d63, 0x1efbc0a0, 0xf0781bc8, 0xa507a53d,
         0xa81a664b, 0xf0a64f5a, 0xdf46652f, 0x838b2711);
    Turn(b, 42, 0xdf46652f, 0xd6670766, 0x79ea687a, 0x6dc57a8a, 0x838b2711, 0x26352d63, 0x1efbc0a0, 0xf0781bc8,
         0xc24b8b70, 0x3e246a79, 0x17aa0dfe, 0xdecd4715);
    Turn(b, 43, 0x17aa0dfe, 0xdf46652f, 0xd6670766, 0x79ea687a, 0xdecd4715, 0x838b2711, 0x26352d63, 0x1efbc0a0,
         0xc76c51a3, 0x27333ba3, 0x9d4baf93, 0xfda24c2e);
    Turn(b, 44, 0x9d4baf93, 0x17aa0dfe, 0xdf46652f, 0xd6670766, 0xfda24c2e, 0xdecd4715, 0x838b2711, 0x26352d63,
         0xd192e819, 0x0c4763f2, 0x26628815, 0xa80f11f0);
    Turn(b, 45, 0x26628815, 0x9d4baf93, 0x17aa0dfe, 0xdf46652f, 0xa80f11f0, 0xfda24c2e, 0xdecd4715, 0x838b2711,
         0xd6990624, 0x840abf27, 0x72ab4b91, 0xb7755da1);
    Turn(b, 46, 0x72ab4b91, 0x26628815, 0x9d4baf93, 0x17aa0dfe, 0xb7755da1, 0xa80f11f0, 0xfda24c2e, 0xdecd4715,
         0xf40e3585, 0x7a290d5d, 0xa14c14b0, 0xd57b94a9);
    Turn(b, 47, 0xa14c14b0, 0x72ab4b91, 0x26628815, 0x9d4baf93, 0xd57b94a9, 0xb7755da1, 0xa80f11f0, 0xfda24c2e,
         0x106aa070, 0x065c43da, 0x4172328d, 0xfecf0bc6);
  }

  lemma Rounds6(b: Block)
    requires Words6(b) && AfterRounds(b, 48) ==
      Vars(0x4172328d, 0xa14c14b0, 0x72ab4b91, 0x26628815,
           0xfecf0bc6, 0xd57b94a9, 0xb7755da1, 0xa80f11f0)
    ensures AfterRounds(b, 56) ==
      Vars(0x38cc9913, 0x3ec45cdb, 0xf5702fdb, 0x101fd28f,
           0x54cb266b, 0xe50e1b4f, 0x9f4787c3, 0x529e7d00)
  {
    hide Schedule, AfterRounds;
    Row6();
    Turn(b, 48, 0x4172328d, 0xa14c14b0, 0x72ab4b91, 0x26628815, 0xfecf0bc6, 0xd57b94a9, 0xb7755da1, 0xa80f11f0,
         0x19a4c116, 0xfb3e89cb, 0x05757ceb, 0xbd714038);
    Turn(b, 49, 0x05757ceb, 0x4172328d, 0xa14c14b0, 0x72ab4b91, 0xbd714038, 0xfecf0bc6, 0xd57b94a9, 0xb7755da1,
         0x1e376c08, 0xcc7617db, 0xf11bfaa8, 0x6e5c390c);
    Turn(b, 50, 0xf11bfaa8, 0x05757ceb, 0x4172328d, 0xa14c14b0, 0x6e5c390c, 0xbd714038, 0xfecf0bc6, 0xd57b94a9,
         0x2748774c, 0xb9e66c34, 0x7a0508a1, 0x52f1ccf7);
    Turn(b, 51, 0x7a0508a1, 0xf11bfaa8, 0x05757ceb, 0x4172328d, 0x52f1ccf7, 0x6e5c390c, 0xbd714038, 0xfecf0bc6,
         0x34b0bcb5, 0xa9993667, 0x886e7a22, 0x49231c1e);
    Turn(b, 52, 0x886e7a22, 0x7a0508a1, 0xf11bfaa8, 0x05757ceb, 0x49231c1e, 0x52f1ccf7, 0x6e5c390c, 0xbd714038,
         0x391c0cb3, 0x84badedd, 0x101fd28f, 0x529e7d00);
    Turn(b, 53, 0x101fd28f, 0x886e7a22, 0x7a0508a1, 0xf11bfaa8, 0x529e7d00, 0x49231c1e, 0x52f1ccf7, 0x6e5c390c,
         0x4ed8aa4a, 0xc21462bc, 0xf5702fdb, 0x9f4787c3);
    Turn(b, 54, 0xf5702fdb, 0x101fd28f, 0x886e7a22, 0x7a0508a1, 0x9f4787c3, 0x529e7d00, 0x49231c1e, 0x52f1ccf7,
         0x5b9cca4f, 0x1487472c, 0x3ec45cdb, 0xe50e1b4f);
    Turn(b, 55, 0x3ec45cdb, 0xf5702fdb, 0x101fd28f, 0x886e7a22, 0xe50e1b4f, 0x9f4787c3, 0x529e7d00, 0x49231c1e,
         0x682e6ff3, 0xb20f7a99, 0x38cc9913, 0x54cb266b);
  }

  lemma Rounds7(b: Block)
    requires Words7(b) && AfterRounds(b, 56) ==
      Vars(0x38cc9913, 0x3ec45cdb, 0xf5702fdb, 0x101fd28f,
           0x54cb266b, 0xe50e1b4f, 0x9f4787c3, 0x529e7d00)
    ensures AfterRounds(b, 64) ==
      Vars(0x506e3058, 0xd39a2165, 0x04d24d6c, 0xb85e2ce9,
           0x5ef50f24, 0xfb121210, 0x948d25b6, 0x961f4894)
  {
    hide Schedule, AfterRounds;
    Row7();
    Turn(b, 56, 0x38cc9913, 0x3ec45cdb, 0xf5702fdb, 0x101fd28f, 0x54cb266b, 0xe50e1b4f, 0x9f4787c3, 0x529e7d00,
         0x748f82ee, 0xef57b9cd, 0xfcd1887b, 0x9b5e906c);
    Turn(b, 57, 0xfcd1887b, 0x38cc9913, 0x3ec45cdb, 0xf5702fdb, 0x9b5e906c, 0x54cb266b, 0xe50e1b4f, 0x9f4787c3,
         0x78a5636f, 0xebe6b238, 0xc062d46f, 0x7e44008e);
    Turn(b, 58, 0xc062d46f, 0xfcd1887b, 0x38cc9913, 0x3ec45cdb, 0x7e44008e, 0x9b5e906c, 0x54cb266b, 0xe50e1b4f,
         0x84c87814, 0x9fe3095e, 0xffb70472, 0x6d83bfc6);
    Turn(b, 59, 0xffb70472, 0xc062d46f, 0xfcd1887b, 0x38cc9913, 0x6d83bfc6, 0x7e44008e, 0x9b5e906c, 0x54cb266b,
         0x8cc70208, 0x78bc8d4b, 0xb6ae8fff, 0xb21bad3d);
    Turn(b, 60, 0xb6ae8fff, 0xffb70472, 0xc062d46f, 0xfcd1887b, 0xb21bad3d, 0x6d83bfc6, 0x7e44008e, 0x9b5e906c,
         0x90befffa, 0xa43fcf15, 0xb85e2ce9, 0x961f4894);
    Turn(b, 61, 0xb85e2ce9, 0xb6ae8fff, 0xffb70472, 0xc062d46f, 0x961f4894, 0xb21bad3d, 0x6d83bfc6, 0x7e44008e,
         0xa4506ceb, 0x668b2ff8, 0x04d24d6c, 0x948d25b6);
    Turn(b, 62, 0x04d24d6c, 0xb85e2ce9, 0xb6ae8fff, 0xffb70472, 0x948d25b6, 0x961f4894, 0xb21bad3d, 0x6d83bfc6,
         0xbef9a3f7, 0xeeaba2cc, 0xd39a2165, 0xfb121210);
    Turn(b, 63, 0xd39a2165, 0x04d24d6c, 0xb85e2ce9, 0xb6ae8fff, 0xfb121210, 0x948d25b6, 0x961f4894, 0xb21bad3d,
         0xc67178f2, 0x12b1edeb, 0x506e3058, 0x5ef50f24);
  }

  lemma Row0()
    ensures K[0] == 0x428a2f98 && K[1] == 0x71374491 && K[2] == 0xb5c0fbcf && K[3] == 0xe9b5dba5
    ensures K[4] == 0x3956c25b && K[5] == 0x59f111f1 && K[6] == 0x923f82a4 && K[7] == 0xab1c5ed5
  {
    assert forall i :: 0 <= i < 8 ==> K[0 + i] == ROW0[i];
  }

  lemma Row1()
    ensures K[8] == 0xd807aa98 && K[9] == 0x12835b01 && K[10] == 0x243185be && K[11] == 0x550c7dc3
    ensures K[12] == 0x72be5d74 && K[13] == 0x80deb1fe && K[14] == 0x9bdc06a7 && K[15] == 0xc19bf174
  {
    assert forall i :: 0 <= i < 8 ==> K[8 + i] == ROW1[i];
  }

  lemma Row2()
    ensures K[16] == 0xe49b69c1 && K[17] == 0xefbe4786 && K[18] == 0x0fc19dc6 && K[19] == 0x240ca1cc
    ensures K[20] == 0x2de92c6f && K[21] == 0x4a7484aa && K[22] == 0x5cb0a9dc && K[23] == 0x76f988da
  {
    assert forall i :: 0 <= i < 8 ==> K[16 + i] == ROW2[i];
  }

  lemma Row3()
    ensures K[24] == 0x983e5152 && K[25] == 0xa831c66d && K[26] == 0xb00327c8 && K[27] == 0xbf597fc7
    ensures K[28] == 0xc6e00bf3 && K[29] == 0xd5a79147 && K[30] == 0x06ca6351 && K[31] == 0x14292967
  {
    assert forall i :: 0 <= i < 8 ==> K[24 + i] == ROW3[i];
  }

  lemma Row4()
    ensures K[32] == 0x27b70a85 && K[33] == 0x2e1b2138 && K[34] == 0x4d2c6dfc && K[35] == 0x53380d13
    ensures K[36] == 0x650a7354 && K[37] == 0x766a0abb && K[38] == 0x81c2c92e && K[39] == 0x92722c85
  {
    assert forall i :: 0 <= i < 8 ==> K[32 + i] == ROW4[i];
  }

  lemma Row5()
    ensures K[40] == 0xa2bfe8a1 && K[41] == 0xa81a664b && K[42] == 0xc24b8b70 && K[43] == 0xc76c51a3
    ensures K[44] == 0xd192e819 && K[45] == 0xd6990624 && K[46] == 0xf40e3585 && K[47] == 0x106aa070
  {
    assert forall i :: 0 <= i < 8 ==> K[40 + i] == ROW5[i];
  }

  lemma Row6()
    ensures K[48] == 0x19a4c116 && K[49] == 0x1e376c08 && K[50] == 0x2748774c && K[51] == 0x34b0bcb5
    ensures K[52] == 0x391c0cb3 && K[53] == 0x4ed8aa4a && K[54] == 0x5b9cca4f && K[55] == 0x682e6ff3
  {
    assert forall i :: 0 <= i < 8 ==> K[48 + i] == ROW6[i];
  }

  lemma Row7()
    ensures K[56] == 0x748f82ee && K[57] == 0x78a5636f && K[58] == 0x84c87814 && K[59] == 0x8cc70208
    ensures K[60] == 0x90befffa && K[61] == 0xa4506ceb && K[62] == 0xbef9a3f7 && K[63] == 0xc67178f2
  {
    assert forall i :: 0 <= i < 8 ==> K[56 + i] == ROW7[i];
  }


  // ------------------------------------------------------------------ the digest

  lemma AllRounds(b: Block)
    requires Words0(b) && Words1(b)
    ensures AfterRounds(b, 64) ==
      Vars(0x506e3058, 0xd39a2165, 0x04d24d6c, 0xb85e2ce9,
           0x5ef50f24, 0xfb121210, 0x948d25b6, 0x961f4894)
  {
    hide AfterRounds, Schedule;
    StartIsAsGiven(b);
    Schedule2(b);
    Schedule3(b);
    Schedule4(b);
    Schedule5(b);
    Schedule6(b);
    Schedule7(b);
    Rounds0(b);
    Rounds1(b);
    Rounds2(b);
    Rounds3(b);
    Rounds4(b);
    Rounds5(b);
    Rounds6(b);
    Rounds7(b);
  }

  lemma StartIsAsGiven(b: Block)
    ensures AfterRounds(b, 0) ==
      Vars(0x6a09e667, 0xbb67ae85, 0x3c6ef372, 0xa54ff53a,
           0x510e527f, 0x9b05688c, 0x1f83d9ab, 0x5be0cd19)
  {}

  /** The hash value of "abc". */
  lemma HashOfAbc()
    ensures Hashed(Padded(ABC)) == [0xba7816bf, 0x8f01cfea, 0x414140de, 0x5dae2223,
                                    0xb00361a3, 0x96177a9c, 0xb410ff61, 0xf20015ad]
  {
    hide Rounds, Schedule, OnlyBlock;
    var b := OnlyBlock();
    PaddedAbc();
    BlockBytes();
    FirstWords(b);
    AllRounds(b);
    assert Hashed(b) == Compress(INITIAL_HASH, b) by {
      assert b[..|b| - 64] == [] && b[|b| - 64..] == b;
    }
  }

  lemma WordBytes(hash: HashValue, j: nat, b0: byte, b1: byte, b2: byte, b3: byte)
    requires j < 8 && hash[j] as nat == Join(b0, b1, b2, b3)
    ensures var s := HashBytes(hash);
            s[4 * j] == b0 && s[4 * j + 1] == b1 && s[4 * j + 2] == b2 && s[4 * j + 3] == b3
  {
    hide ByteOf, Join;
    BytesOf(hash[j], b0, b1, b2, b3);
  }

  /** ... and its digest, byte by byte. */
  lemma DigestOfAbc()
    ensures Digest(ABC) == [0xba, 0x78, 0x16, 0xbf, 0x8f, 0x01, 0xcf, 0xea, 0x41, 0x41, 0x40, 0xde, 0x5d, 0xae, 0x22, 0x23,
                            0xb0, 0x03, 0x61, 0xa3, 0x96, 0x17, 0x7a, 0x9c, 0xb4, 0x10, 0xff, 0x61, 0xf2, 0x00, 0x15, 0xad]
  {
    hide Hashed, Padded, HashBytes;
    HashOfAbc();
    var hash := Hashed(Padded(ABC));
    WordBytes(hash, 0, 0xba, 0x78, 0x16, 0xbf);
    WordBytes(hash, 1, 0x8f, 0x01, 0xcf, 0xea);
    WordBytes(hash, 2, 0x41, 0x41, 0x40, 0xde);
    WordBytes(hash, 3, 0x5d, 0xae, 0x22, 0x23);
    WordBytes(hash, 4, 0xb0, 0x03, 0x61, 0xa3);
    WordBytes(hash, 5, 0x96, 0x17, 0x7a, 0x9c);
    WordBytes(hash, 6, 0xb4, 0x10, 0xff, 0x61);
    WordBytes(hash, 7, 0xf2, 0x00, 0x15, 0xad);
  }
}
