/** The example of appendix A of FIPS PUB 180-1, worked on machine words: the table that it prints
    for the message "abc" is what the functions of sections 4 to 7 give. */
module Sha1Example {
  import opened Bytes
  import opened Words
  import opened Sha1Spec
  import opened MachineWords

  /** The word buffers in the machine. */
  datatype Machine5 = Machine5(a: bv32, b: bv32, c: bv32, d: bv32, e: bv32)

  function Values(r: Machine5): Buffers {
    Buffers(Value(r.a), Value(r.b), Value(r.c), Value(r.d), Value(r.e))
  }

  /** The logical functions with the machine's operators. */
  function LogicalV(t: nat, b: bv32, c: bv32, d: bv32): bv32 {
    if t < 20 then OrV(AndV(b, c), AndV(NotV(b), d))
    else if t < 40 then XorV(XorV(b, c), d)
    else if t < 60 then OrV(OrV(AndV(b, c), AndV(b, d)), AndV(c, d))
    else XorV(XorV(b, c), d)
  }

  lemma LogicalIs(t: nat, b: bv32, c: bv32, d: bv32)
    ensures Value(LogicalV(t, b, c, d)) == F(t, Value(b), Value(c), Value(d))
  {
    hide Value, And, Not, OrW, XorW, AndV, OrV, XorV, NotV;
    if t < 20 {
      ValueAnd(b, c);
      ValueNot(b);
      ValueAnd(NotV(b), d);
      ValueOr(AndV(b, c), AndV(NotV(b), d));
    } else if 40 <= t < 60 {
      ValueAnd(b, c);
      ValueAnd(b, d);
      ValueAnd(c, d);
      ValueOr(AndV(b, c), AndV(b, d));
      ValueOr(OrV(AndV(b, c), AndV(b, d)), AndV(c, d));
    } else {
      ValueXor(b, c);
      ValueXor(XorV(b, c), d);
    }
  }

  /** What one pass adds up. */
  function NewA(t: nat, r: Machine5, w: bv32): word {
    (Value(Rotate(5, r.a)) + Value(LogicalV(t, r.b, r.c, r.d)) + Value(r.e) + Value(w) + K(t))
    % 0x1_0000_0000
  }

  predicate PassFits(t: nat, r: Machine5, w: bv32, s: Machine5) {
    Value(s.a) == NewA(t, r, w) && s.b == r.a && s.c == Rotate(30, r.b) && s.d == r.c && s.e == r.d
  }

  lemma PassIs(t: nat, r: Machine5, w: bv32, s: Machine5)
    requires PassFits(t, r, w, s)
    ensures Round(t, Values(r), Value(w)) == Values(s)
  {
    hide Value, Rotate, RotateLeft, LogicalV, F, K, Add;
    ValueRotate(5, r.a);
    ValueRotate(30, r.b);
    LogicalIs(t, r.b, r.c, r.d);
    SumOfFive(RotateLeft(5, Value(r.a)), F(t, Value(r.b), Value(r.c), Value(r.d)), Value(r.e), Value(w),
              K(t));
  }

  lemma SumOfFive(x: word, f: word, e: word, w: word, k: word)
    ensures Add(Add(Add(Add(x, f), e), w), k) == (x + f + e + w + k) % 0x1_0000_0000
  {
    AddMod(x + f, e);
    AddMod(x + f + e, w);
    AddMod(x + f + e + w, k);
  }

  lemma AddMod(x: nat, y: nat)
    ensures (x % 0x1_0000_0000 + y) % 0x1_0000_0000 == (x + y) % 0x1_0000_0000
  {
  }

  predicate WordFits(t: nat) {
    t >= 16 ==> ExampleWord(t) == Rotate(1, XorV(XorV(XorV(ExampleWord(t - 3), ExampleWord(t - 8)),
                                                      ExampleWord(t - 14)), ExampleWord(t - 16)))
  }

  lemma WordIs(block: seq<byte>, t: nat)
    requires |block| == 64 && 16 <= t < 80 && WordFits(t)
    requires forall i: nat :: i < t ==> Schedule(block, i) == Value(ExampleWord(i))
    ensures Schedule(block, t) == Value(ExampleWord(t))
  {
    hide Value, ExampleWord, Rotate, RotateLeft, XorW, XorV;
    var x := XorV(ExampleWord(t - 3), ExampleWord(t - 8));
    var y := XorV(x, ExampleWord(t - 14));
    ValueXor(ExampleWord(t - 3), ExampleWord(t - 8));
    ValueXor(x, ExampleWord(t - 14));
    ValueXor(y, ExampleWord(t - 16));
    ValueRotate(1, XorV(y, ExampleWord(t - 16)));
  }

  // ------------------------------------------------------------------ the table

  /** The word sequence. */
  function ExampleWord(t: nat): bv32 {
    if t < 10 then ExampleWord0(t)
    else if t < 20 then ExampleWord1(t)
    else if t < 30 then ExampleWord2(t)
    else if t < 40 then ExampleWord3(t)
    else if t < 50 then ExampleWord4(t)
    else if t < 60 then ExampleWord5(t)
    else if t < 70 then ExampleWord6(t)
    else ExampleWord7(t)
  }

  function ExampleWord0(t: nat): bv32 {
    match t
    case 0 => 0x61626380 case 1 => 0x00000000 case 2 => 0x00000000 case 3 => 0x00000000
    case 4 => 0x00000000 case 5 => 0x00000000 case 6 => 0x00000000 case 7 => 0x00000000
    case 8 => 0x00000000 case _ => 0x00000000
  }

  function ExampleWord1(t: nat): bv32 {
    match t
    case 10 => 0x00000000 case 11 => 0x00000000 case 12 => 0x00000000 case 13 => 0x00000000
    case 14 => 0x00000000 case 15 => 0x00000018 case 16 => 0xC2C4C700 case 17 => 0x00000000
    case 18 => 0x00000030 case _ => 0x85898E01
  }

  function ExampleWord2(t: nat): bv32 {
    match t
    case 20 => 0x00000000 case 21 => 0x00000060 case 22 => 0x0B131C03 case 23 => 0x00000030
    case 24 => 0x85898EC1 case 25 => 0x16263806 case 26 => 0x00000000 case 27 => 0x00000180
    case 28 => 0x2C4C700C case _ => 0x000000F0
  }

  function ExampleWord3(t: nat): bv32 {
    match t
    case 30 => 0x93AFB507 case 31 => 0x5898E048 case 32 => 0x8E9A9202 case 33 => 0x00000600
    case 34 => 0xB131C0F0 case 35 => 0x16263BC6 case 36 => 0x4EBED41E case 37 => 0x626380A1
    case 38 => 0x16263806 case _ => 0x000018C0
  }

  function ExampleWord4(t: nat): bv32 {
    match t
    case 40 => 0xD2E138C4 case 41 => 0x00000F00 case 42 => 0x3AFB5079 case 43 => 0x898E04E5
    case 44 => 0xE2BA3C2B case 45 => 0x000060C0 case 46 => 0x053A37CD case 47 => 0x74458547
    case 48 => 0xDA9415ED case _ => 0x26380A16
  }

  function ExampleWord5(t: nat): bv32 {
    match t
    case 50 => 0x626383A1 case 51 => 0x4EBF54DE case 52 => 0x3835B44B case 53 => 0x0000F600
    case 54 => 0x1E84C7A3 case 55 => 0x98E04D98 case 56 => 0x651D16A0 case 57 => 0x62658CA1
    case 58 => 0x458544D6 case _ => 0x44584CB7
  }

  function ExampleWord6(t: nat): bv32 {
    match t
    case 60 => 0x7BA06619 case 61 => 0x6380AEA2 case 62 => 0x0AE55269 case 63 => 0x627B49A1
    case 64 => 0x7CD45C9D case 65 => 0x000F0000 case 66 => 0xFB50753A case 67 => 0xEC6765E8
    case 68 => 0xBA3C2BE2 case _ => 0x0060C000
  }

  function ExampleWord7(t: nat): bv32 {
    match t
    case 70 => 0x3A37CD05 case 71 => 0x458546F4 case 72 => 0xB8599DD6 case 73 => 0x380A1A26
    case 74 => 0x01E02203 case 75 => 0xE7CC3456 case 76 => 0xE6E60B69 case 77 => 0x00F60A00
    case 78 => 0x5795EF4F case _ => 0x822E0879
  }

  /** The buffers in front of pass `t`, and behind the last one. */
  function Row(t: nat): Machine5 {
    if t < 10 then Row0(t)
    else if t < 20 then Row1(t)
    else if t < 30 then Row2(t)
    else if t < 40 then Row3(t)
    else if t < 50 then Row4(t)
    else if t < 60 then Row5(t)
    else if t < 70 then Row6(t)
    else Row7(t)
  }

  function Row0(t: nat): Machine5 {
    match t
    case 0 => Machine5(0x67452301, 0xEFCDAB89, 0x98BADCFE, 0x10325476, 0xC3D2E1F0)
    case 1 => Machine5(0x0116FC33, 0x67452301, 0x7BF36AE2, 0x98BADCFE, 0x10325476)
    case 2 => Machine5(0x8990536D, 0x0116FC33, 0x59D148C0, 0x7BF36AE2, 0x98BADCFE)
    case 3 => Machine5(0xA1390F08, 0x8990536D, 0xC045BF0C, 0x59D148C0, 0x7BF36AE2)
    case 4 => Machine5(0xCDD8E11B, 0xA1390F08, 0x626414DB, 0xC045BF0C, 0x59D148C0)
    case 5 => Machine5(0xCFD499DE, 0xCDD8E11B, 0x284E43C2, 0x626414DB, 0xC045BF0C)
    case 6 => Machine5(0x3FC7CA40, 0xCFD499DE, 0xF3763846, 0x284E43C2, 0x626414DB)
    case 7 => Machine5(0x993E30C1, 0x3FC7CA40, 0xB3F52677, 0xF3763846, 0x284E43C2)
    case 8 => Machine5(0x9E8C07D4, 0x993E30C1, 0x0FF1F290, 0xB3F52677, 0xF3763846)
    case _ => Machine5(0x4B6AE328, 0x9E8C07D4, 0x664F8C30, 0x0FF1F290, 0xB3F52677)
  }

  function Row1(t: nat): Machine5 {
    match t
    case 10 => Machine5(0x8351F929, 0x4B6AE328, 0x27A301F5, 0x664F8C30, 0x0FF1F290)
    case 11 => Machine5(0xFBDA9E89, 0x8351F929, 0x12DAB8CA, 0x27A301F5, 0x664F8C30)
    case 12 => Machine5(0x63188FE4, 0xFBDA9E89, 0x60D47E4A, 0x12DAB8CA, 0x27A301F5)
    case 13 => Machine5(0x4607B664, 0x63188FE4, 0x7EF6A7A2, 0x60D47E4A, 0x12DAB8CA)
    case 14 => Machine5(0x9128F695, 0x4607B664, 0x18C623F9, 0x7EF6A7A2, 0x60D47E4A)
    case 15 => Machine5(0x196BEE77, 0x9128F695, 0x1181ED99, 0x18C623F9, 0x7EF6A7A2)
    case 16 => Machine5(0x20BDD62F, 0x196BEE77, 0x644A3DA5, 0x1181ED99, 0x18C623F9)
    case 17 => Machine5(0x4E925823, 0x20BDD62F, 0xC65AFB9D, 0x644A3DA5, 0x1181ED99)
    case 18 => Machine5(0x82AA6728, 0x4E925823, 0xC82F758B, 0xC65AFB9D, 0x644A3DA5)
    case _ => Machine5(0xDC64901D, 0x82AA6728, 0xD3A49608, 0xC82F758B, 0xC65AFB9D)
  }

  function Row2(t: nat): Machine5 {
    match t
    case 20 => Machine5(0xFD9E1D7D, 0xDC64901D, 0x20AA99CA, 0xD3A49608, 0xC82F758B)
    case 21 => Machine5(0x1A37B0CA, 0xFD9E1D7D, 0x77192407, 0x20AA99CA, 0xD3A49608)
    case 22 => Machine5(0x33A23BFC, 0x1A37B0CA, 0x7F67875F, 0x77192407, 0x20AA99CA)
    case 23 => Machine5(0x21283486, 0x33A23BFC, 0x868DEC32, 0x7F67875F, 0x77192407)
    case 24 => Machine5(0xD541F12D, 0x21283486, 0x0CE88EFF, 0x868DEC32, 0x7F67875F)
    case 25 => Machine5(0xC7567DC6, 0xD541F12D, 0x884A0D21, 0x0CE88EFF, 0x868DEC32)
    case 26 => Machine5(0x48413BA4, 0xC7567DC6, 0x75507C4B, 0x884A0D21, 0x0CE88EFF)
    case 27 => Machine5(0xBE35FBD5, 0x48413BA4, 0xB1D59F71, 0x75507C4B, 0x884A0D21)
    case 28 => Machine5(0x4AA84D97, 0xBE35FBD5, 0x12104EE9, 0xB1D59F71, 0x75507C4B)
    case _ => Machine5(0x8370B52E, 0x4AA84D97, 0x6F8D7EF5, 0x12104EE9, 0xB1D59F71)
  }

  function Row3(t: nat): Machine5 {
    match t
    case 30 => Machine5(0xC5FBAF5D, 0x8370B52E, 0xD2AA1365, 0x6F8D7EF5, 0x12104EE9)
    case 31 => Machine5(0x1267B407, 0xC5FBAF5D, 0xA0DC2D4B, 0xD2AA1365, 0x6F8D7EF5)
    case 32 => Machine5(0x3B845D33, 0x1267B407, 0x717EEBD7, 0xA0DC2D4B, 0xD2AA1365)
    case 33 => Machine5(0x046FAA0A, 0x3B845D33, 0xC499ED01, 0x717EEBD7, 0xA0DC2D4B)
    case 34 => Machine5(0x2C0EBC11, 0x046FAA0A, 0xCEE1174C, 0xC499ED01, 0x717EEBD7)
    case 35 => Machine5(0x21796AD4, 0x2C0EBC11, 0x811BEA82, 0xCEE1174C, 0xC499ED01)
    case 36 => Machine5(0xDCBBB0CB, 0x21796AD4, 0x4B03AF04, 0x811BEA82, 0xCEE1174C)
    case 37 => Machine5(0x0F511FD8, 0xDCBBB0CB, 0x085E5AB5, 0x4B03AF04, 0x811BEA82)
    case 38 => Machine5(0xDC63973F, 0x0F511FD8, 0xF72EEC32, 0x085E5AB5, 0x4B03AF04)
    case _ => Machine5(0x4C986405, 0xDC63973F, 0x03D447F6, 0xF72EEC32, 0x085E5AB5)
  }

  function Row4(t: nat): Machine5 {
    match t
    case 40 => Machine5(0x32DE1CBA, 0x4C986405, 0xF718E5CF, 0x03D447F6, 0xF72EEC32)
    case 41 => Machine5(0xFC87DEDF, 0x32DE1CBA, 0x53261901, 0xF718E5CF, 0x03D447F6)
    case 42 => Machine5(0x970A0D5C, 0xFC87DEDF, 0x8CB7872E, 0x53261901, 0xF718E5CF)
    case 43 => Machine5(0x7F193DC5, 0x970A0D5C, 0xFF21F7B7, 0x8CB7872E, 0x53261901)
    case 44 => Machine5(0xEE1B1AAF, 0x7F193DC5, 0x25C28357, 0xFF21F7B7, 0x8CB7872E)
    case 45 => Machine5(0x40F28E09, 0xEE1B1AAF, 0x5FC64F71, 0x25C28357, 0xFF21F7B7)
    case 46 => Machine5(0x1C51E1F2, 0x40F28E09, 0xFB86C6AB, 0x5FC64F71, 0x25C28357)
    case 47 => Machine5(0xA01B846C, 0x1C51E1F2, 0x503CA382, 0xFB86C6AB, 0x5FC64F71)
    case 48 => Machine5(0xBEAD02CA, 0xA01B846C, 0x8714787C, 0x503CA382, 0xFB86C6AB)
    case _ => Machine5(0xBAF39337, 0xBEAD02CA, 0x2806E11B, 0x8714787C, 0x503CA382)
  }

  function Row5(t: nat): Machine5 {
    match t
    case 50 => Machine5(0x120731C5, 0xBAF39337, 0xAFAB40B2, 0x2806E11B, 0x8714787C)
    case 51 => Machine5(0x641DB2CE, 0x120731C5, 0xEEBCE4CD, 0xAFAB40B2, 0x2806E11B)
    case 52 => Machine5(0x3847AD66, 0x641DB2CE, 0x4481CC71, 0xEEBCE4CD, 0xAFAB40B2)
    case 53 => Machine5(0xE490436D, 0x3847AD66, 0x99076CB3, 0x4481CC71, 0xEEBCE4CD)
    case 54 => Machine5(0x27E9F1D8, 0xE490436D, 0x8E11EB59, 0x99076CB3, 0x4481CC71)
    case 55 => Machine5(0x7B71F76D, 0x27E9F1D8, 0x792410DB, 0x8E11EB59, 0x99076CB3)
    case 56 => Machine5(0x5E6456AF, 0x7B71F76D, 0x09FA7C76, 0x792410DB, 0x8E11EB59)
    case 57 => Machine5(0xC846093F, 0x5E6456AF, 0x5EDC7DDB, 0x09FA7C76, 0x792410DB)
    case 58 => Machine5(0xD262FF50, 0xC846093F, 0xD79915AB, 0x5EDC7DDB, 0x09FA7C76)
    case _ => Machine5(0x09D785FD, 0xD262FF50, 0xF211824F, 0xD79915AB, 0x5EDC7DDB)
  }

  function Row6(t: nat): Machine5 {
    match t
    case 60 => Machine5(0x3F52DE5A, 0x09D785FD, 0x3498BFD4, 0xF211824F, 0xD79915AB)
    case 61 => Machine5(0xD756C147, 0x3F52DE5A, 0x4275E17F, 0x3498BFD4, 0xF211824F)
    case 62 => Machine5(0x548C9CB2, 0xD756C147, 0x8FD4B796, 0x4275E17F, 0x3498BFD4)
    case 63 => Machine5(0xB66C020B, 0x548C9CB2, 0xF5D5B051, 0x8FD4B796, 0x4275E17F)
    case 64 => Machine5(0x6B61C9E1, 0xB66C020B, 0x9523272C, 0xF5D5B051, 0x8FD4B796)
    case 65 => Machine5(0x19DFA7AC, 0x6B61C9E1, 0xED9B0082, 0x9523272C, 0xF5D5B051)
    case 66 => Machine5(0x101655F9, 0x19DFA7AC, 0x5AD87278, 0xED9B0082, 0x9523272C)
    case 67 => Machine5(0x0C3DF2B4, 0x101655F9, 0x0677E9EB, 0x5AD87278, 0xED9B0082)
    case 68 => Machine5(0x78DD4D2B, 0x0C3DF2B4, 0x4405957E, 0x0677E9EB, 0x5AD87278)
    case _ => Machine5(0x497093C0, 0x78DD4D2B, 0x030F7CAD, 0x4405957E, 0x0677E9EB)
  }

  function Row7(t: nat): Machine5 {
    match t
    case 70 => Machine5(0x3F2588C2, 0x497093C0, 0xDE37534A, 0x030F7CAD, 0x4405957E)
    case 71 => Machine5(0xC199F8C7, 0x3F2588C2, 0x125C24F0, 0xDE37534A, 0x030F7CAD)
    case 72 => Machine5(0x39859DE7, 0xC199F8C7, 0x8FC96230, 0x125C24F0, 0xDE37534A)
    case 73 => Machine5(0xEDB42DE4, 0x39859DE7, 0xF0667E31, 0x8FC96230, 0x125C24F0)
    case 74 => Machine5(0x11793F6F, 0xEDB42DE4, 0xCE616779, 0xF0667E31, 0x8FC96230)
    case 75 => Machine5(0x5EE76897, 0x11793F6F, 0x3B6D0B79, 0xCE616779, 0xF0667E31)
    case 76 => Machine5(0x63F7DAB7, 0x5EE76897, 0xC45E4FDB, 0x3B6D0B79, 0xCE616779)
    case 77 => Machine5(0xA079B7D9, 0x63F7DAB7, 0xD7B9DA25, 0xC45E4FDB, 0x3B6D0B79)
    case 78 => Machine5(0x860D21CC, 0xA079B7D9, 0xD8FDF6AD, 0xD7B9DA25, 0xC45E4FDB)
    case 79 => Machine5(0x5738D5E1, 0x860D21CC, 0x681E6DF6, 0xD8FDF6AD, 0xD7B9DA25)
    case _ => Machine5(0x42541B35, 0x5738D5E1, 0x21834873, 0x681E6DF6, 0xD8FDF6AD)
  }

  /** Pass `t` of the table is one. */
  predicate PassOk(t: nat) {
    PassFits(t, Row(t), ExampleWord(t), Row(t + 1))
  }

  lemma Pass0() ensures PassOk(0) {}
  lemma Pass1() ensures PassOk(1) {}
  lemma Pass2() ensures PassOk(2) {}
  lemma Pass3() ensures PassOk(3) {}
  lemma Pass4() ensures PassOk(4) {}
  lemma Pass5() ensures PassOk(5) {}
  lemma Pass6() ensures PassOk(6) {}
  lemma Pass7() ensures PassOk(7) {}
  lemma Pass8() ensures PassOk(8) {}
  lemma Pass9() ensures PassOk(9) {}
  lemma Pass10() ensures PassOk(10) {}
  lemma Pass11() ensures PassOk(11) {}
  lemma Pass12() ensures PassOk(12) {}
  lemma Pass13() ensures PassOk(13) {}
  lemma Pass14() ensures PassOk(14) {}
  lemma Pass15() ensures PassOk(15) {}
  lemma Pass16() ensures PassOk(16) {}
  lemma Pass17() ensures PassOk(17) {}
  lemma Pass18() ensures PassOk(18) {}
  lemma Pass19() ensures PassOk(19) {}
  lemma Pass20() ensures PassOk(20) {}
  lemma Pass21() ensures PassOk(21) {}
  lemma Pass22() ensures PassOk(22) {}
  lemma Pass23() ensures PassOk(23) {}
  lemma Pass24() ensures PassOk(24) {}
  lemma Pass25() ensures PassOk(25) {}
  lemma Pass26() ensures PassOk(26) {}
  lemma Pass27() ensures PassOk(27) {}
  lemma Pass28() ensures PassOk(28) {}
  lemma Pass29() ensures PassOk(29) {}
  lemma Pass30() ensures PassOk(30) {}
  lemma Pass31() ensures PassOk(31) {}
  lemma Pass32() ensures PassOk(32) {}
  lemma Pass33() ensures PassOk(33) {}
  lemma Pass34() ensures PassOk(34) {}
  lemma Pass35() ensures PassOk(35) {}
  lemma Pass36() ensures PassOk(36) {}
  lemma Pass37() ensures PassOk(37) {}
  lemma Pass38() ensures PassOk(38) {}
  lemma Pass39() ensures PassOk(39) {}
  lemma Pass40() ensures PassOk(40) {}
  lemma Pass41() ensures PassOk(41) {}
  lemma Pass42() ensures PassOk(42) {}
  lemma Pass43() ensures PassOk(43) {}
  lemma Pass44() ensures PassOk(44) {}
  lemma Pass45() ensures PassOk(45) {}
  lemma Pass46() ensures PassOk(46) {}
  lemma Pass47() ensures PassOk(47) {}
  lemma Pass48() ensures PassOk(48) {}
  lemma Pass49() ensures PassOk(49) {}
  lemma Pass50() ensures PassOk(50) {}
  lemma Pass51() ensures PassOk(51) {}
  lemma Pass52() ensures PassOk(52) {}
  lemma Pass53() ensures PassOk(53) {}
  lemma Pass54() ensures PassOk(54) {}
  lemma Pass55() ensures PassOk(55) {}
  lemma Pass56() ensures PassOk(56) {}
  lemma Pass57() ensures PassOk(57) {}
  lemma Pass58() ensures PassOk(58) {}
  lemma Pass59() ensures PassOk(59) {}
  lemma Pass60() ensures PassOk(60) {}
  lemma Pass61() ensures PassOk(61) {}
  lemma Pass62() ensures PassOk(62) {}
  lemma Pass63() ensures PassOk(63) {}
  lemma Pass64() ensures PassOk(64) {}
  lemma Pass65() ensures PassOk(65) {}
  lemma Pass66() ensures PassOk(66) {}
  lemma Pass67() ensures PassOk(67) {}
  lemma Pass68() ensures PassOk(68) {}
  lemma Pass69() ensures PassOk(69) {}
  lemma Pass70() ensures PassOk(70) {}
  lemma Pass71() ensures PassOk(71) {}
  lemma Pass72() ensures PassOk(72) {}
  lemma Pass73() ensures PassOk(73) {}
  lemma Pass74() ensures PassOk(74) {}
  lemma Pass75() ensures PassOk(75) {}
  lemma Pass76() ensures PassOk(76) {}
  lemma Pass77() ensures PassOk(77) {}
  lemma Pass78() ensures PassOk(78) {}
  lemma Pass79() ensures PassOk(79) {}

  lemma Word16() ensures WordFits(16) {}
  lemma Word17() ensures WordFits(17) {}
  lemma Word18() ensures WordFits(18) {}
  lemma Word19() ensures WordFits(19) {}
  lemma Word20() ensures WordFits(20) {}
  lemma Word21() ensures WordFits(21) {}
  lemma Word22() ensures WordFits(22) {}
  lemma Word23() ensures WordFits(23) {}
  lemma Word24() ensures WordFits(24) {}
  lemma Word25() ensures WordFits(25) {}
  lemma Word26() ensures WordFits(26) {}
  lemma Word27() ensures WordFits(27) {}
  lemma Word28() ensures WordFits(28) {}
  lemma Word29() ensures WordFits(29) {}
  lemma Word30() ensures WordFits(30) {}
  lemma Word31() ensures WordFits(31) {}
  lemma Word32() ensures WordFits(32) {}
  lemma Word33() ensures WordFits(33) {}
  lemma Word34() ensures WordFits(34) {}
  lemma Word35() ensures WordFits(35) {}
  lemma Word36() ensures WordFits(36) {}
  lemma Word37() ensures WordFits(37) {}
  lemma Word38() ensures WordFits(38) {}
  lemma Word39() ensures WordFits(39) {}
  lemma Word40() ensures WordFits(40) {}
  lemma Word41() ensures WordFits(41) {}
  lemma Word42() ensures WordFits(42) {}
  lemma Word43() ensures WordFits(43) {}
  lemma Word44() ensures WordFits(44) {}
  lemma Word45() ensures WordFits(45) {}
  lemma Word46() ensures WordFits(46) {}
  lemma Word47() ensures WordFits(47) {}
  lemma Word48() ensures WordFits(48) {}
  lemma Word49() ensures WordFits(49) {}
  lemma Word50() ensures WordFits(50) {}
  lemma Word51() ensures WordFits(51) {}
  lemma Word52() ensures WordFits(52) {}
  lemma Word53() ensures WordFits(53) {}
  lemma Word54() ensures WordFits(54) {}
  lemma Word55() ensures WordFits(55) {}
  lemma Word56() ensures WordFits(56) {}
  lemma Word57() ensures WordFits(57) {}
  lemma Word58() ensures WordFits(58) {}
  lemma Word59() ensures WordFits(59) {}
  lemma Word60() ensures WordFits(60) {}
  lemma Word61() ensures WordFits(61) {}
  lemma Word62() ensures WordFits(62) {}
  lemma Word63() ensures WordFits(63) {}
  lemma Word64() ensures WordFits(64) {}
  lemma Word65() ensures WordFits(65) {}
  lemma Word66() ensures WordFits(66) {}
  lemma Word67() ensures WordFits(67) {}
  lemma Word68() ensures WordFits(68) {}
  lemma Word69() ensures WordFits(69) {}
  lemma Word70() ensures WordFits(70) {}
  lemma Word71() ensures WordFits(71) {}
  lemma Word72() ensures WordFits(72) {}
  lemma Word73() ensures WordFits(73) {}
  lemma Word74() ensures WordFits(74) {}
  lemma Word75() ensures WordFits(75) {}
  lemma Word76() ensures WordFits(76) {}
  lemma Word77() ensures WordFits(77) {}
  lemma Word78() ensures WordFits(78) {}
  lemma Word79() ensures WordFits(79) {}

  lemma AllPasses(t: nat)
    requires t < 80
    ensures PassOk(t)
  {
    hide *;
    if t < 8 {
      Pass0(); Pass1(); Pass2(); Pass3(); Pass4(); Pass5(); Pass6(); Pass7();
    } else if t < 16 {
      Pass8(); Pass9(); Pass10(); Pass11(); Pass12(); Pass13(); Pass14(); Pass15();
    } else if t < 24 {
      Pass16(); Pass17(); Pass18(); Pass19(); Pass20(); Pass21(); Pass22(); Pass23();
    } else if t < 32 {
      Pass24(); Pass25(); Pass26(); Pass27(); Pass28(); Pass29(); Pass30(); Pass31();
    } else if t < 40 {
      Pass32(); Pass33(); Pass34(); Pass35(); Pass36(); Pass37(); Pass38(); Pass39();
    } else if t < 48 {
      Pass40(); Pass41(); Pass42(); Pass43(); Pass44(); Pass45(); Pass46(); Pass47();
    } else if t < 56 {
      Pass48(); Pass49(); Pass50(); Pass51(); Pass52(); Pass53(); Pass54(); Pass55();
    } else if t < 64 {
      Pass56(); Pass57(); Pass58(); Pass59(); Pass60(); Pass61(); Pass62(); Pass63();
    } else if t < 72 {
      Pass64(); Pass65(); Pass66(); Pass67(); Pass68(); Pass69(); Pass70(); Pass71();
    } else {
      Pass72(); Pass73(); Pass74(); Pass75(); Pass76(); Pass77(); Pass78(); Pass79();
    }
  }

  lemma AllWords(t: nat)
    requires 16 <= t < 80
    ensures WordFits(t)
  {
    hide *;
    if t < 18 { Word16(); Word17(); }
    else if t < 20 { Word18(); Word19(); }
    else if t < 22 { Word20(); Word21(); }
    else if t < 24 { Word22(); Word23(); }
    else if t < 26 { Word24(); Word25(); }
    else if t < 28 { Word26(); Word27(); }
    else if t < 30 { Word28(); Word29(); }
    else if t < 32 { Word30(); Word31(); }
    else if t < 34 { Word32(); Word33(); }
    else if t < 36 { Word34(); Word35(); }
    else if t < 38 { Word36(); Word37(); }
    else if t < 40 { Word38(); Word39(); }
    else if t < 42 { Word40(); Word41(); }
    else if t < 44 { Word42(); Word43(); }
    else if t < 46 { Word44(); Word45(); }
    else if t < 48 { Word46(); Word47(); }
    else if t < 50 { Word48(); Word49(); }
    else if t < 52 { Word50(); Word51(); }
    else if t < 54 { Word52(); Word53(); }
    else if t < 56 { Word54(); Word55(); }
    else if t < 58 { Word56(); Word57(); }
    else if t < 60 { Word58(); Word59(); }
    else if t < 62 { Word60(); Word61(); }
    else if t < 64 { Word62(); Word63(); }
    else if t < 66 { Word64(); Word65(); }
    else if t < 68 { Word66(); Word67(); }
    else if t < 70 { Word68(); Word69(); }
    else if t < 72 { Word70(); Word71(); }
    else if t < 74 { Word72(); Word73(); }
    else if t < 76 { Word74(); Word75(); }
    else if t < 78 { Word76(); Word77(); }
    else { Word78(); Word79(); }
  }

  // ------------------------------------------------------------------ the digest

  /** The message of the example. */
  const ABC: seq<byte> := [0x61, 0x62, 0x63]

  /** The padded message is one block. */
  lemma PadOfAbc()
    ensures Pad(ABC) == [0x61, 0x62, 0x63, 0x80] + Zeros(59) + [24]
  {
    assert ZeroCount(3) == 52;
    EndOfLength(7);
    var p := ABC + [0x80] + Zeros(52) + (Zeros(7) + [24]);
    assert p == [0x61, 0x62, 0x63, 0x80] + Zeros(59) + [24];
  }

  lemma {:induction false} EndOfLength(k: nat)
    ensures BigEndian(0, k) == Zeros(k) && BigEndian(24, k + 1) == Zeros(k) + [24]
  {
    if k > 0 {
      EndOfLength(k - 1);
    }
  }

  lemma BlockIs()
    ensures |Pad(ABC)| == 64
    ensures forall t: nat :: t < 16 ==> WordOf(Pad(ABC), t) == Value(ExampleWord(t))
  {
    PadOfAbc();
    FirstWords();
    hide Pad, ExampleWord, Value;
    var p := Pad(ABC);
    forall t: nat | t < 16
      ensures WordOf(p, t) == Value(ExampleWord(t))
    {
      assert WordOf(p, t) == if t == 0 then 0x61626380 else if t == 15 then 24 else 0;
    }
  }

  lemma FirstWords()
    ensures Value(ExampleWord(0)) == 0x61626380 && Value(ExampleWord(15)) == 24
    ensures forall t: nat :: 0 < t < 15 ==> Value(ExampleWord(t)) == 0
  {
    assert Value(0) == 0;
  }

  lemma {:induction false} ScheduleIs(t: nat)
    requires t < 80
    ensures |Pad(ABC)| == 64
    ensures forall i: nat :: i <= t ==> Schedule(Pad(ABC), i) == Value(ExampleWord(i))
  {
    hide Value, ExampleWord, Pad, PassFits, Row;
    BlockIs();
    if t > 0 {
      ScheduleIs(t - 1);
    }
    if t >= 16 {
      AllWords(t);
      WordIs(Pad(ABC), t);
    }
  }

  lemma {:induction false} RowsAre(t: nat)
    requires t <= 80
    ensures |Pad(ABC)| == 64 && Rounds(Pad(ABC), INITIAL, t) == Values(Row(t))
  {
    BlockIs();
    hide Pad, ExampleWord, Schedule;
    if t == 0 {
    } else {
      hide Value, Row;
      RowsAre(t - 1);
      ScheduleIs(t - 1);
      AllPasses(t - 1);
      PassIs(t - 1, Row(t - 1), ExampleWord(t - 1), Row(t));
    }
  }

  /** Appendix A of FIPS PUB 180-1. */
  lemma DigestOfAbc()
    ensures Digest([0x61, 0x62, 0x63])
         == Buffers(0xA9993E36, 0x4706816A, 0xBA3E2571, 0x7850C26C, 0x9CD0D89D)
  {
    hide Pad, Rounds;
    RowsAre(80);
    var p := Pad(ABC);
    assert p[..0] == [] && p[0..] == p;
    assert HashBlocks(p) == Compress(INITIAL, p);
  }
}
