// The register after any number of steps from 1, by multiplication: x to the power m, modulo the
// polynomial.

module CrcPowers {
  import opened Bytes
  import opened Crc

  // The register after m steps from 1.
  function X(m: nat): bv16 { ShiftBits(1, m) }

  lemma XAdd(a: nat, b: nat)
    ensures X(a + b) == ShiftBits(X(a), b)
  {
    ShiftBitsAdd(1, a, b);
    hide ShiftBits;
  }

  lemma XNext(a: nat)
    ensures X(a + 1) == ShiftBit(X(a))
  {
    hide ShiftBit;
  }

  // ----- Steps by multiplication -----

  function Half(v: bv16): (w: bv16)
    ensures v != 0 ==> w < v
  {
    v >> 1
  }

  predicate Odd(v: bv16) { v & 1 != 0 }

  function Add(sum: bv16, yes: bool, q: bv16): bv16 { if yes then Plus(sum, q) else sum }

  // Adds to sum what the bits of v stand for, from the right: the first q, each further one the
  // bit step of the one before.
  function Times(v: bv16, q: bv16, sum: bv16): bv16
    decreases v
  {
    if v == 0 then sum else Times(Half(v), ShiftBit(q), Add(sum, Odd(v), q))
  }

  lemma HalfAndBit(v: bv16)
    ensures v == Add(ShiftBit(Half(v)), Odd(v), 1)
  {
    HalfBits(v);
    assert Half(v) & 0x8000 == 0;
    assert ShiftBit(Half(v)) == Half(v) << 1;
    hide ShiftBit, Half;
  }

  lemma HalfBits(v: bv16)
    ensures (v >> 1) & 0x8000 == 0
    ensures v & 1 != 0 ==> ((v >> 1) << 1) ^ 1 == v
    ensures v & 1 == 0 ==> (v >> 1) << 1 == v
  {
  }

  lemma PlusZero(a: bv16, b: bv16, c: bv16)
    ensures Plus(a, 0) == a && Plus(0, a) == a
    ensures Plus(Plus(a, c), b) == Plus(a, Plus(b, c))
  {
    XorRegroups(a, b, c);
  }

  lemma AddShifts(w: bv16, yes: bool, a: nat)
    ensures ShiftBits(Add(w, yes, 1), a) == Add(ShiftBits(w, a), yes, X(a))
  {
    hide ShiftBits, Plus;
    ShiftBitsLinear(w, 1, a);
  }

  lemma AddMoves(sum: bv16, yes: bool, q: bv16, r: bv16)
    ensures Plus(Add(sum, yes, q), r) == Plus(sum, Add(r, yes, q))
  {
    hide Plus;
    PlusZero(sum, r, q);
  }

  lemma OneStepFirst(w: bv16, a: nat)
    ensures ShiftBits(ShiftBit(w), a) == ShiftBits(w, a + 1)
  {
    ShiftBitsAdd(w, 1, a);
    hide ShiftBit;
    assert ShiftBits(w, 1) == ShiftBit(ShiftBits(w, 0));
  }

  // a steps from v, by what they do to each bit of v.
  lemma {:induction false} TimesSteps(v: bv16, a: nat, sum: bv16)
    ensures Times(v, X(a), sum) == Plus(sum, ShiftBits(v, a))
    decreases v
  {
    TimesStep(v, X(a), sum);
    hide Times, Half, Odd, Add, Plus, ShiftBit, ShiftBits, X;
    if v == 0 {
      ShiftZero(a);
      PlusZero(sum, 0, 0);
      TimesNothing(X(a), sum);
    } else {
      var w, more := Half(v), Add(sum, Odd(v), X(a));
      TimesSteps(w, a + 1, more);
      XNext(a);
      HalfAndBit(v);
      AddShifts(ShiftBit(w), Odd(v), a);
      OneStepFirst(w, a);
      AddMoves(sum, Odd(v), X(a), ShiftBits(w, a + 1));
    }
  }

  lemma TimesNothing(q: bv16, sum: bv16)
    ensures Times(0, q, sum) == sum
  {
  }

  lemma TimesStep(v: bv16, q: bv16, sum: bv16)
    ensures Times(v, q, sum) == Times(Half(v), ShiftBit(q), Add(sum, Odd(v), q))
  {
    hide ShiftBit, Plus;
    assert v == 0 ==> Half(v) == 0 && !Odd(v);
  }

  lemma XTimes(a: nat, b: nat)
    ensures X(a + b) == Times(X(a), X(b), 0)
  {
    hide *;
    XAdd(a, b);
    TimesSteps(X(a), b, 0);
    PlusZero(X(a + b), 0, 0);
  }


  // ----- Values, one bit of a product at a time -----

  lemma One(v: bv16, q: bv16, sum: bv16)
    ensures Times(v, q, sum) ==
            Times(v >> 1, if q & 0x8000 != 0 then (q << 1) ^ 0x1021 else q << 1, if v & 1 != 0 then sum ^ q else sum)
  {
    TimesStep(v, q, sum);
    hide Times;
  }

  lemma X1()
    ensures X(1) == 0x0002
  {
    assert X(0) == 1;
    XNext(0);
    hide X;
  }

  lemma X2()
    ensures X(2) == 0x0004
  {
    X1();
    XTimes(1, 1);
    hide *;
    One(0x0002, 0x0002, 0x0000); One(0x0001, 0x0004, 0x0000);
    TimesNothing(0x0008, 0x0004);
  }

  lemma X4()
    ensures X(4) == 0x0010
  {
    X2();
    XTimes(2, 2);
    hide *;
    One(0x0004, 0x0004, 0x0000); One(0x0002, 0x0008, 0x0000); One(0x0001, 0x0010, 0x0000);
    TimesNothing(0x0020, 0x0010);
  }

  lemma X8()
    ensures X(8) == 0x0100
  {
    X4();
    XTimes(4, 4);
    hide *;
    One(0x0010, 0x0010, 0x0000); One(0x0008, 0x0020, 0x0000); One(0x0004, 0x0040, 0x0000); One(0x0002, 0x0080, 0x0000);
    One(0x0001, 0x0100, 0x0000);
    TimesNothing(0x0200, 0x0100);
  }

  lemma X16()
    ensures X(16) == 0x1021
  {
    X8();
    XTimes(8, 8);
    hide *;
    One(0x0100, 0x0100, 0x0000); One(0x0080, 0x0200, 0x0000); One(0x0040, 0x0400, 0x0000); One(0x0020, 0x0800, 0x0000);
    One(0x0010, 0x1000, 0x0000); One(0x0008, 0x2000, 0x0000); One(0x0004, 0x4000, 0x0000); One(0x0002, 0x8000, 0x0000);
    One(0x0001, 0x1021, 0x0000);
    TimesNothing(0x2042, 0x1021);
  }

  lemma X32()
    ensures X(32) == 0x3730
  {
    X16();
    XTimes(16, 16);
    hide *;
    One(0x1021, 0x1021, 0x0000); One(0x0810, 0x2042, 0x1021); One(0x0408, 0x4084, 0x1021); One(0x0204, 0x8108, 0x1021);
    One(0x0102, 0x1231, 0x1021); One(0x0081, 0x2462, 0x1021); One(0x0040, 0x48C4, 0x3443); One(0x0020, 0x9188, 0x3443);
    One(0x0010, 0x3331, 0x3443); One(0x0008, 0x6662, 0x3443); One(0x0004, 0xCCC4, 0x3443); One(0x0002, 0x89A9, 0x3443);
    One(0x0001, 0x0373, 0x3443);
    TimesNothing(0x06E6, 0x3730);
  }

  lemma X64()
    ensures X(64) == 0xB861
  {
    X32();
    XTimes(32, 32);
    hide *;
    One(0x3730, 0x3730, 0x0000); One(0x1B98, 0x6E60, 0x0000); One(0x0DCC, 0xDCC0, 0x0000); One(0x06E6, 0xA9A1, 0x0000);
    One(0x0373, 0x4363, 0x0000); One(0x01B9, 0x86C6, 0x4363); One(0x00DC, 0x1DAD, 0xC5A5); One(0x006E, 0x3B5A, 0xC5A5);
    One(0x0037, 0x76B4, 0xC5A5); One(0x001B, 0xED68, 0xB311); One(0x000D, 0xCAF1, 0x5E79); One(0x0006, 0x85C3, 0x9488);
    One(0x0003, 0x1BA7, 0x9488); One(0x0001, 0x374E, 0x8F2F);
    TimesNothing(0x6E9C, 0xB861);
  }

  lemma X128()
    ensures X(128) == 0xAEFC
  {
    X64();
    XTimes(64, 64);
    hide *;
    One(0xB861, 0xB861, 0x0000); One(0x5C30, 0x60E3, 0xB861); One(0x2E18, 0xC1C6, 0xB861); One(0x170C, 0x93AD, 0xB861);
    One(0x0B86, 0x377B, 0xB861); One(0x05C3, 0x6EF6, 0xB861); One(0x02E1, 0xDDEC, 0xD697); One(0x0170, 0xABF9, 0x0B7B);
    One(0x00B8, 0x47D3, 0x0B7B); One(0x005C, 0x8FA6, 0x0B7B); One(0x002E, 0x0F6D, 0x0B7B); One(0x0017, 0x1EDA, 0x0B7B);
    One(0x000B, 0x3DB4, 0x15A1); One(0x0005, 0x7B68, 0x2815); One(0x0002, 0xF6D0, 0x537D); One(0x0001, 0xFD81, 0x537D);
    TimesNothing(0xEB23, 0xAEFC);
  }

  lemma X256()
    ensures X(256) == 0x8E29
  {
    X128();
    XTimes(128, 128);
    hide *;
    One(0xAEFC, 0xAEFC, 0x0000); One(0x577E, 0x4DD9, 0x0000); One(0x2BBF, 0x9BB2, 0x0000); One(0x15DF, 0x2745, 0x9BB2);
    One(0x0AEF, 0x4E8A, 0xBCF7); One(0x0577, 0x9D14, 0xF27D); One(0x02BB, 0x2A09, 0x6F69); One(0x015D, 0x5412, 0x4560);
    One(0x00AE, 0xA824, 0x1172); One(0x0057, 0x4069, 0x1172); One(0x002B, 0x80D2, 0x511B); One(0x0015, 0x1185, 0xD1C9);
    One(0x000A, 0x230A, 0xC04C); One(0x0005, 0x4614, 0xC04C); One(0x0002, 0x8C28, 0x8658); One(0x0001, 0x0871, 0x8658);
    TimesNothing(0x10E2, 0x8E29);
  }

  lemma X512()
    ensures X(512) == 0x13FC
  {
    X256();
    XTimes(256, 256);
    hide *;
    One(0x8E29, 0x8E29, 0x0000); One(0x4714, 0x0C73, 0x8E29); One(0x238A, 0x18E6, 0x8E29); One(0x11C5, 0x31CC, 0x8E29);
    One(0x08E2, 0x6398, 0xBFE5); One(0x0471, 0xC730, 0xBFE5); One(0x0238, 0x9E41, 0x78D5); One(0x011C, 0x2CA3, 0x78D5);
    One(0x008E, 0x5946, 0x78D5); One(0x0047, 0xB28C, 0x78D5); One(0x0023, 0x7539, 0xCA59); One(0x0011, 0xEA72, 0xBF60);
    One(0x0008, 0xC4C5, 0x5512); One(0x0004, 0x99AB, 0x5512); One(0x0002, 0x2377, 0x5512); One(0x0001, 0x46EE, 0x5512);
    TimesNothing(0x8DDC, 0x13FC);
  }

  lemma X1024()
    ensures X(1024) == 0x36C4
  {
    X512();
    XTimes(512, 512);
    hide *;
    One(0x13FC, 0x13FC, 0x0000); One(0x09FE, 0x27F8, 0x0000); One(0x04FF, 0x4FF0, 0x0000); One(0x027F, 0x9FE0, 0x4FF0);
    One(0x013F, 0x2FE1, 0xD010); One(0x009F, 0x5FC2, 0xFFF1); One(0x004F, 0xBF84, 0xA033); One(0x0027, 0x6F29, 0x1FB7);
    One(0x0013, 0xDE52, 0x709E); One(0x0009, 0xAC85, 0xAECC); One(0x0004, 0x492B, 0x0249); One(0x0002, 0x9256, 0x0249);
    One(0x0001, 0x348D, 0x0249);
    TimesNothing(0x691A, 0x36C4);
  }

  lemma X2048()
    ensures X(2048) == 0xFD50
  {
    X1024();
    XTimes(1024, 1024);
    hide *;
    One(0x36C4, 0x36C4, 0x0000); One(0x1B62, 0x6D88, 0x0000); One(0x0DB1, 0xDB10, 0x0000); One(0x06D8, 0xA601, 0xDB10);
    One(0x036C, 0x5C23, 0xDB10); One(0x01B6, 0xB846, 0xDB10); One(0x00DB, 0x60AD, 0xDB10); One(0x006D, 0xC15A, 0xBBBD);
    One(0x0036, 0x9295, 0x7AE7); One(0x001B, 0x350B, 0x7AE7); One(0x000D, 0x6A16, 0x4FEC); One(0x0006, 0xD42C, 0x25FA);
    One(0x0003, 0xB879, 0x25FA); One(0x0001, 0x60D3, 0x9D83);
    TimesNothing(0xC1A6, 0xFD50);
  }

  lemma X4096()
    ensures X(4096) == 0xAA9E
  {
    X2048();
    XTimes(2048, 2048);
    hide *;
    One(0xFD50, 0xFD50, 0x0000); One(0x7EA8, 0xEA81, 0x0000); One(0x3F54, 0xC523, 0x0000); One(0x1FAA, 0x9A67, 0x0000);
    One(0x0FD5, 0x24EF, 0x0000); One(0x07EA, 0x49DE, 0x24EF); One(0x03F5, 0x93BC, 0x24EF); One(0x01FA, 0x3759, 0xB753);
    One(0x00FD, 0x6EB2, 0xB753); One(0x007E, 0xDD64, 0xD9E1); One(0x003F, 0xAAE9, 0xD9E1); One(0x001F, 0x45F3, 0x7308);
    One(0x000F, 0x8BE6, 0x36FB); One(0x0007, 0x07ED, 0xBD1D); One(0x0003, 0x0FDA, 0xBAF0); One(0x0001, 0x1FB4, 0xB52A);
    TimesNothing(0x3F68, 0xAA9E);
  }

  lemma X8192()
    ensures X(8192) == 0x881C
  {
    X4096();
    XTimes(4096, 4096);
    hide *;
    One(0xAA9E, 0xAA9E, 0x0000); One(0x554F, 0x451D, 0x0000); One(0x2AA7, 0x8A3A, 0x451D); One(0x1553, 0x0455, 0xCF27);
    One(0x0AA9, 0x08AA, 0xCB72); One(0x0554, 0x1154, 0xC3D8); One(0x02AA, 0x22A8, 0xC3D8); One(0x0155, 0x4550, 0xC3D8);
    One(0x00AA, 0x8AA0, 0x8688); One(0x0055, 0x0561, 0x8688); One(0x002A, 0x0AC2, 0x83E9); One(0x0015, 0x1584, 0x83E9);
    One(0x000A, 0x2B08, 0x966D); One(0x0005, 0x5610, 0x966D); One(0x0002, 0xAC20, 0xC07D); One(0x0001, 0x4861, 0xC07D);
    TimesNothing(0x90C2, 0x881C);
  }

  lemma X16384()
    ensures X(16384) == 0x4458
  {
    X8192();
    XTimes(8192, 8192);
    hide *;
    One(0x881C, 0x881C, 0x0000); One(0x440E, 0x0019, 0x0000); One(0x2207, 0x0032, 0x0000); One(0x1103, 0x0064, 0x0032);
    One(0x0881, 0x00C8, 0x0056); One(0x0440, 0x0190, 0x009E); One(0x0220, 0x0320, 0x009E); One(0x0110, 0x0640, 0x009E);
    One(0x0088, 0x0C80, 0x009E); One(0x0044, 0x1900, 0x009E); One(0x0022, 0x3200, 0x009E); One(0x0011, 0x6400, 0x009E);
    One(0x0008, 0xC800, 0x649E); One(0x0004, 0x8021, 0x649E); One(0x0002, 0x1063, 0x649E); One(0x0001, 0x20C6, 0x649E);
    TimesNothing(0x418C, 0x4458);
  }

  lemma X32768()
    ensures X(32768) == 0x0002
  {
    X16384();
    XTimes(16384, 16384);
    hide *;
    One(0x4458, 0x4458, 0x0000); One(0x222C, 0x88B0, 0x0000); One(0x1116, 0x0141, 0x0000); One(0x088B, 0x0282, 0x0000);
    One(0x0445, 0x0504, 0x0282); One(0x0222, 0x0A08, 0x0786); One(0x0111, 0x1410, 0x0786); One(0x0088, 0x2820, 0x1396);
    One(0x0044, 0x5040, 0x1396); One(0x0022, 0xA080, 0x1396); One(0x0011, 0x5121, 0x1396); One(0x0008, 0xA242, 0x42B7);
    One(0x0004, 0x54A5, 0x42B7); One(0x0002, 0xA94A, 0x42B7); One(0x0001, 0x42B5, 0x42B7);
    TimesNothing(0x856A, 0x0002);
  }

  lemma X192()
    ensures X(192) == 0x650B
  {
    X64();
    X128();
    XTimes(64, 128);
    hide *;
    One(0xB861, 0xAEFC, 0x0000); One(0x5C30, 0x4DD9, 0xAEFC); One(0x2E18, 0x9BB2, 0xAEFC); One(0x170C, 0x2745, 0xAEFC);
    One(0x0B86, 0x4E8A, 0xAEFC); One(0x05C3, 0x9D14, 0xAEFC); One(0x02E1, 0x2A09, 0x33E8); One(0x0170, 0x5412, 0x19E1);
    One(0x00B8, 0xA824, 0x19E1); One(0x005C, 0x4069, 0x19E1); One(0x002E, 0x80D2, 0x19E1); One(0x0017, 0x1185, 0x19E1);
    One(0x000B, 0x230A, 0x0864); One(0x0005, 0x4614, 0x2B6E); One(0x0002, 0x8C28, 0x6D7A); One(0x0001, 0x0871, 0x6D7A);
    TimesNothing(0x10E2, 0x650B);
  }

  lemma X24()
    ensures X(24) == 0x3331
  {
    X8();
    X16();
    XTimes(8, 16);
    hide *;
    One(0x0100, 0x1021, 0x0000); One(0x0080, 0x2042, 0x0000); One(0x0040, 0x4084, 0x0000); One(0x0020, 0x8108, 0x0000);
    One(0x0010, 0x1231, 0x0000); One(0x0008, 0x2462, 0x0000); One(0x0004, 0x48C4, 0x0000); One(0x0002, 0x9188, 0x0000);
    One(0x0001, 0x3331, 0x0000);
    TimesNothing(0x6662, 0x3331);
  }

  lemma X216()
    ensures X(216) == 0xAC61
  {
    X24();
    X192();
    XTimes(24, 192);
    hide *;
    One(0x3331, 0x650B, 0x0000); One(0x1998, 0xCA16, 0x650B); One(0x0CCC, 0x840D, 0x650B); One(0x0666, 0x183B, 0x650B);
    One(0x0333, 0x3076, 0x650B); One(0x0199, 0x60EC, 0x557D); One(0x00CC, 0xC1D8, 0x3591); One(0x0066, 0x9391, 0x3591);
    One(0x0033, 0x3703, 0x3591); One(0x0019, 0x6E06, 0x0292); One(0x000C, 0xDC0C, 0x6C94); One(0x0006, 0xA839, 0x6C94);
    One(0x0003, 0x4053, 0x6C94); One(0x0001, 0x80A6, 0x2CC7);
    TimesNothing(0x116D, 0xAC61);
  }

  lemma X217()
    ensures X(217) == 0x48E3
  {
    X216();
    XNext(216);
    hide X;
  }

  lemma X1056()
    ensures X(1056) == 0xF147
  {
    X32();
    X1024();
    XTimes(32, 1024);
    hide *;
    One(0x3730, 0x36C4, 0x0000); One(0x1B98, 0x6D88, 0x0000); One(0x0DCC, 0xDB10, 0x0000); One(0x06E6, 0xA601, 0x0000);
    One(0x0373, 0x5C23, 0x0000); One(0x01B9, 0xB846, 0x5C23); One(0x00DC, 0x60AD, 0xE465); One(0x006E, 0xC15A, 0xE465);
    One(0x0037, 0x9295, 0xE465); One(0x001B, 0x350B, 0x76F0); One(0x000D, 0x6A16, 0x43FB); One(0x0006, 0xD42C, 0x29ED);
    One(0x0003, 0xB879, 0x29ED); One(0x0001, 0x60D3, 0x9194);
    TimesNothing(0xC1A6, 0xF147);
  }

  lemma X1057()
    ensures X(1057) == 0xF2AF
  {
    X1056();
    XNext(1056);
    hide X;
  }

  lemma X72()
    ensures X(72) == 0x47D3
  {
    X64();
    X8();
    XTimes(64, 8);
    hide *;
    One(0xB861, 0x0100, 0x0000); One(0x5C30, 0x0200, 0x0100); One(0x2E18, 0x0400, 0x0100); One(0x170C, 0x0800, 0x0100);
    One(0x0B86, 0x1000, 0x0100); One(0x05C3, 0x2000, 0x0100); One(0x02E1, 0x4000, 0x2100); One(0x0170, 0x8000, 0x6100);
    One(0x00B8, 0x1021, 0x6100); One(0x005C, 0x2042, 0x6100); One(0x002E, 0x4084, 0x6100); One(0x0017, 0x8108, 0x6100);
    One(0x000B, 0x1231, 0xE008); One(0x0005, 0x2462, 0xF239); One(0x0002, 0x48C4, 0xD65B); One(0x0001, 0x9188, 0xD65B);
    TimesNothing(0x3331, 0x47D3);
  }

  lemma X4608()
    ensures X(4608) == 0x54A0
  {
    X512();
    X4096();
    XTimes(512, 4096);
    hide *;
    One(0x13FC, 0xAA9E, 0x0000); One(0x09FE, 0x451D, 0x0000); One(0x04FF, 0x8A3A, 0x0000); One(0x027F, 0x0455, 0x8A3A);
    One(0x013F, 0x08AA, 0x8E6F); One(0x009F, 0x1154, 0x86C5); One(0x004F, 0x22A8, 0x9791); One(0x0027, 0x4550, 0xB539);
    One(0x0013, 0x8AA0, 0xF069); One(0x0009, 0x0561, 0x7AC9); One(0x0004, 0x0AC2, 0x7FA8); One(0x0002, 0x1584, 0x7FA8);
    One(0x0001, 0x2B08, 0x7FA8);
    TimesNothing(0x5610, 0x54A0);
  }

  lemma X4680()
    ensures X(4680) == 0x1621
  {
    X72();
    X4608();
    XTimes(72, 4608);
    hide *;
    One(0x47D3, 0x54A0, 0x0000); One(0x23E9, 0xA940, 0x54A0); One(0x11F4, 0x42A1, 0xFDE0); One(0x08FA, 0x8542, 0xFDE0);
    One(0x047D, 0x1AA5, 0xFDE0); One(0x023E, 0x354A, 0xE745); One(0x011F, 0x6A94, 0xE745); One(0x008F, 0xD528, 0x8DD1);
    One(0x0047, 0xBA71, 0x58F9); One(0x0023, 0x64C3, 0xE288); One(0x0011, 0xC986, 0x864B); One(0x0008, 0x832D, 0x4FCD);
    One(0x0004, 0x167B, 0x4FCD); One(0x0002, 0x2CF6, 0x4FCD); One(0x0001, 0x59EC, 0x4FCD);
    TimesNothing(0xB3D8, 0x1621);
  }

  lemma X4681()
    ensures X(4681) == 0x2C42
  {
    X4680();
    XNext(4680);
    hide X;
  }
}
