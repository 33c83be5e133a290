/** The block and page checksum (src/crc.cpp; section 5.3 of [MS-PST]). */
module Crc {
  import opened Bytes
  import ByteBits

  const POLY: bv32 := 0xEDB88320

  // ---- The lookup table, sixteen entries to a row ----

  function CrcRow0(i: bv8): bv32 {
    match i
    case 0x00 => 0x00000000 case 0x01 => 0x77073096 case 0x02 => 0xEE0E612C case 0x03 => 0x990951BA
    case 0x04 => 0x076DC419 case 0x05 => 0x706AF48F case 0x06 => 0xE963A535 case 0x07 => 0x9E6495A3
    case 0x08 => 0x0EDB8832 case 0x09 => 0x79DCB8A4 case 0x0A => 0xE0D5E91E case 0x0B => 0x97D2D988
    case 0x0C => 0x09B64C2B case 0x0D => 0x7EB17CBD case 0x0E => 0xE7B82D07 case _ => 0x90BF1D91
  }

  function CrcRow1(i: bv8): bv32 {
    match i
    case 0x10 => 0x1DB71064 case 0x11 => 0x6AB020F2 case 0x12 => 0xF3B97148 case 0x13 => 0x84BE41DE
    case 0x14 => 0x1ADAD47D case 0x15 => 0x6DDDE4EB case 0x16 => 0xF4D4B551 case 0x17 => 0x83D385C7
    case 0x18 => 0x136C9856 case 0x19 => 0x646BA8C0 case 0x1A => 0xFD62F97A case 0x1B => 0x8A65C9EC
    case 0x1C => 0x14015C4F case 0x1D => 0x63066CD9 case 0x1E => 0xFA0F3D63 case _ => 0x8D080DF5
  }

  function CrcRow2(i: bv8): bv32 {
    match i
    case 0x20 => 0x3B6E20C8 case 0x21 => 0x4C69105E case 0x22 => 0xD56041E4 case 0x23 => 0xA2677172
    case 0x24 => 0x3C03E4D1 case 0x25 => 0x4B04D447 case 0x26 => 0xD20D85FD case 0x27 => 0xA50AB56B
    case 0x28 => 0x35B5A8FA case 0x29 => 0x42B2986C case 0x2A => 0xDBBBC9D6 case 0x2B => 0xACBCF940
    case 0x2C => 0x32D86CE3 case 0x2D => 0x45DF5C75 case 0x2E => 0xDCD60DCF case _ => 0xABD13D59
  }

  function CrcRow3(i: bv8): bv32 {
    match i
    case 0x30 => 0x26D930AC case 0x31 => 0x51DE003A case 0x32 => 0xC8D75180 case 0x33 => 0xBFD06116
    case 0x34 => 0x21B4F4B5 case 0x35 => 0x56B3C423 case 0x36 => 0xCFBA9599 case 0x37 => 0xB8BDA50F
    case 0x38 => 0x2802B89E case 0x39 => 0x5F058808 case 0x3A => 0xC60CD9B2 case 0x3B => 0xB10BE924
    case 0x3C => 0x2F6F7C87 case 0x3D => 0x58684C11 case 0x3E => 0xC1611DAB case _ => 0xB6662D3D
  }

  function CrcRow4(i: bv8): bv32 {
    match i
    case 0x40 => 0x76DC4190 case 0x41 => 0x01DB7106 case 0x42 => 0x98D220BC case 0x43 => 0xEFD5102A
    case 0x44 => 0x71B18589 case 0x45 => 0x06B6B51F case 0x46 => 0x9FBFE4A5 case 0x47 => 0xE8B8D433
    case 0x48 => 0x7807C9A2 case 0x49 => 0x0F00F934 case 0x4A => 0x9609A88E case 0x4B => 0xE10E9818
    case 0x4C => 0x7F6A0DBB case 0x4D => 0x086D3D2D case 0x4E => 0x91646C97 case _ => 0xE6635C01
  }

  function CrcRow5(i: bv8): bv32 {
    match i
    case 0x50 => 0x6B6B51F4 case 0x51 => 0x1C6C6162 case 0x52 => 0x856530D8 case 0x53 => 0xF262004E
    case 0x54 => 0x6C0695ED case 0x55 => 0x1B01A57B case 0x56 => 0x8208F4C1 case 0x57 => 0xF50FC457
    case 0x58 => 0x65B0D9C6 case 0x59 => 0x12B7E950 case 0x5A => 0x8BBEB8EA case 0x5B => 0xFCB9887C
    case 0x5C => 0x62DD1DDF case 0x5D => 0x15DA2D49 case 0x5E => 0x8CD37CF3 case _ => 0xFBD44C65
  }

  function CrcRow6(i: bv8): bv32 {
    match i
    case 0x60 => 0x4DB26158 case 0x61 => 0x3AB551CE case 0x62 => 0xA3BC0074 case 0x63 => 0xD4BB30E2
    case 0x64 => 0x4ADFA541 case 0x65 => 0x3DD895D7 case 0x66 => 0xA4D1C46D case 0x67 => 0xD3D6F4FB
    case 0x68 => 0x4369E96A case 0x69 => 0x346ED9FC case 0x6A => 0xAD678846 case 0x6B => 0xDA60B8D0
    case 0x6C => 0x44042D73 case 0x6D => 0x33031DE5 case 0x6E => 0xAA0A4C5F case _ => 0xDD0D7CC9
  }

  function CrcRow7(i: bv8): bv32 {
    match i
    case 0x70 => 0x5005713C case 0x71 => 0x270241AA case 0x72 => 0xBE0B1010 case 0x73 => 0xC90C2086
    case 0x74 => 0x5768B525 case 0x75 => 0x206F85B3 case 0x76 => 0xB966D409 case 0x77 => 0xCE61E49F
    case 0x78 => 0x5EDEF90E case 0x79 => 0x29D9C998 case 0x7A => 0xB0D09822 case 0x7B => 0xC7D7A8B4
    case 0x7C => 0x59B33D17 case 0x7D => 0x2EB40D81 case 0x7E => 0xB7BD5C3B case _ => 0xC0BA6CAD
  }

  function CrcRow8(i: bv8): bv32 {
    match i
    case 0x80 => 0xEDB88320 case 0x81 => 0x9ABFB3B6 case 0x82 => 0x03B6E20C case 0x83 => 0x74B1D29A
    case 0x84 => 0xEAD54739 case 0x85 => 0x9DD277AF case 0x86 => 0x04DB2615 case 0x87 => 0x73DC1683
    case 0x88 => 0xE3630B12 case 0x89 => 0x94643B84 case 0x8A => 0x0D6D6A3E case 0x8B => 0x7A6A5AA8
    case 0x8C => 0xE40ECF0B case 0x8D => 0x9309FF9D case 0x8E => 0x0A00AE27 case _ => 0x7D079EB1
  }

  function CrcRow9(i: bv8): bv32 {
    match i
    case 0x90 => 0xF00F9344 case 0x91 => 0x8708A3D2 case 0x92 => 0x1E01F268 case 0x93 => 0x6906C2FE
    case 0x94 => 0xF762575D case 0x95 => 0x806567CB case 0x96 => 0x196C3671 case 0x97 => 0x6E6B06E7
    case 0x98 => 0xFED41B76 case 0x99 => 0x89D32BE0 case 0x9A => 0x10DA7A5A case 0x9B => 0x67DD4ACC
    case 0x9C => 0xF9B9DF6F case 0x9D => 0x8EBEEFF9 case 0x9E => 0x17B7BE43 case _ => 0x60B08ED5
  }

  function CrcRowA(i: bv8): bv32 {
    match i
    case 0xA0 => 0xD6D6A3E8 case 0xA1 => 0xA1D1937E case 0xA2 => 0x38D8C2C4 case 0xA3 => 0x4FDFF252
    case 0xA4 => 0xD1BB67F1 case 0xA5 => 0xA6BC5767 case 0xA6 => 0x3FB506DD case 0xA7 => 0x48B2364B
    case 0xA8 => 0xD80D2BDA case 0xA9 => 0xAF0A1B4C case 0xAA => 0x36034AF6 case 0xAB => 0x41047A60
    case 0xAC => 0xDF60EFC3 case 0xAD => 0xA867DF55 case 0xAE => 0x316E8EEF case _ => 0x4669BE79
  }

  function CrcRowB(i: bv8): bv32 {
    match i
    case 0xB0 => 0xCB61B38C case 0xB1 => 0xBC66831A case 0xB2 => 0x256FD2A0 case 0xB3 => 0x5268E236
    case 0xB4 => 0xCC0C7795 case 0xB5 => 0xBB0B4703 case 0xB6 => 0x220216B9 case 0xB7 => 0x5505262F
    case 0xB8 => 0xC5BA3BBE case 0xB9 => 0xB2BD0B28 case 0xBA => 0x2BB45A92 case 0xBB => 0x5CB36A04
    case 0xBC => 0xC2D7FFA7 case 0xBD => 0xB5D0CF31 case 0xBE => 0x2CD99E8B case _ => 0x5BDEAE1D
  }

  function CrcRowC(i: bv8): bv32 {
    match i
    case 0xC0 => 0x9B64C2B0 case 0xC1 => 0xEC63F226 case 0xC2 => 0x756AA39C case 0xC3 => 0x026D930A
    case 0xC4 => 0x9C0906A9 case 0xC5 => 0xEB0E363F case 0xC6 => 0x72076785 case 0xC7 => 0x05005713
    case 0xC8 => 0x95BF4A82 case 0xC9 => 0xE2B87A14 case 0xCA => 0x7BB12BAE case 0xCB => 0x0CB61B38
    case 0xCC => 0x92D28E9B case 0xCD => 0xE5D5BE0D case 0xCE => 0x7CDCEFB7 case _ => 0x0BDBDF21
  }

  function CrcRowD(i: bv8): bv32 {
    match i
    case 0xD0 => 0x86D3D2D4 case 0xD1 => 0xF1D4E242 case 0xD2 => 0x68DDB3F8 case 0xD3 => 0x1FDA836E
    case 0xD4 => 0x81BE16CD case 0xD5 => 0xF6B9265B case 0xD6 => 0x6FB077E1 case 0xD7 => 0x18B74777
    case 0xD8 => 0x88085AE6 case 0xD9 => 0xFF0F6A70 case 0xDA => 0x66063BCA case 0xDB => 0x11010B5C
    case 0xDC => 0x8F659EFF case 0xDD => 0xF862AE69 case 0xDE => 0x616BFFD3 case _ => 0x166CCF45
  }

  function CrcRowE(i: bv8): bv32 {
    match i
    case 0xE0 => 0xA00AE278 case 0xE1 => 0xD70DD2EE case 0xE2 => 0x4E048354 case 0xE3 => 0x3903B3C2
    case 0xE4 => 0xA7672661 case 0xE5 => 0xD06016F7 case 0xE6 => 0x4969474D case 0xE7 => 0x3E6E77DB
    case 0xE8 => 0xAED16A4A case 0xE9 => 0xD9D65ADC case 0xEA => 0x40DF0B66 case 0xEB => 0x37D83BF0
    case 0xEC => 0xA9BCAE53 case 0xED => 0xDEBB9EC5 case 0xEE => 0x47B2CF7F case _ => 0x30B5FFE9
  }

  function CrcRowF(i: bv8): bv32 {
    match i
    case 0xF0 => 0xBDBDF21C case 0xF1 => 0xCABAC28A case 0xF2 => 0x53B39330 case 0xF3 => 0x24B4A3A6
    case 0xF4 => 0xBAD03605 case 0xF5 => 0xCDD70693 case 0xF6 => 0x54DE5729 case 0xF7 => 0x23D967BF
    case 0xF8 => 0xB3667A2E case 0xF9 => 0xC4614AB8 case 0xFA => 0x5D681B02 case 0xFB => 0x2A6F2B94
    case 0xFC => 0xB40BBE37 case 0xFD => 0xC30C8EA1 case 0xFE => 0x5A05DF1B case _ => 0x2D02EF8D
  }

  function CrcTable(i: bv8): bv32 {
    if i < 0x10 then CrcRow0(i)
    else if i < 0x20 then CrcRow1(i)
    else if i < 0x30 then CrcRow2(i)
    else if i < 0x40 then CrcRow3(i)
    else if i < 0x50 then CrcRow4(i)
    else if i < 0x60 then CrcRow5(i)
    else if i < 0x70 then CrcRow6(i)
    else if i < 0x80 then CrcRow7(i)
    else if i < 0x90 then CrcRow8(i)
    else if i < 0xA0 then CrcRow9(i)
    else if i < 0xB0 then CrcRowA(i)
    else if i < 0xC0 then CrcRowB(i)
    else if i < 0xD0 then CrcRowC(i)
    else if i < 0xE0 then CrcRowD(i)
    else if i < 0xF0 then CrcRowE(i)
    else CrcRowF(i)
  }

  // ---- The definition: reflected division by POLY, one bit at a time ----

  /** Word operations under a name, so that proofs can treat them as symbols. */
  function Xor(a: bv32, b: bv32): bv32 {
    a ^ b
  }

  predicate Odd(c: bv32) {
    c & 1 == 1
  }

  function Half(c: bv32): bv32 {
    c >> 1
  }

  function BitStep(c: bv32): bv32 {
    if Odd(c) then Xor(Half(c), POLY) else Half(c)
  }

  function EightSteps(c: bv32): bv32 {
    BitStep(BitStep(BitStep(BitStep(BitStep(BitStep(BitStep(BitStep(c))))))))
  }

  /** One byte of the division. */
  function Feed(c: bv32, b: bv8): bv32 {
    EightSteps(Xor(c, b as bv32))
  }

  /** The remainder after all bytes, starting from `c`. */
  function Remainder(c: bv32, data: seq<bv8>): bv32 {
    if data == [] then c else Feed(Remainder(c, data[..|data| - 1]), data[|data| - 1])
  }

  function CrcOf(data: seq<bv8>): bv32 {
    Remainder(0, data)
  }

  // ---- Bit steps are linear over exclusive or, and invertible ----

  lemma HalfOfXor(a: bv32, b: bv32)
    ensures Half(Xor(a, b)) == Xor(Half(a), Half(b))
  {
  }

  lemma OddXor(a: bv32, b: bv32)
    ensures Odd(Xor(a, b)) <==> Odd(a) != Odd(b)
  {
  }

  lemma XorCommutes(u: bv32, v: bv32)
    ensures Xor(u, v) == Xor(v, u)
  {
  }

  lemma XorAssoc(u: bv32, v: bv32, p: bv32)
    ensures Xor(Xor(u, v), p) == Xor(u, Xor(v, p))
  {
  }

  lemma XorSwap(u: bv32, v: bv32, p: bv32)
    ensures Xor(Xor(u, v), p) == Xor(Xor(u, p), v)
  {
    hide Xor;
    XorAssoc(u, v, p);
    XorCommutes(v, p);
    XorAssoc(u, p, v);
  }

  lemma XorTwice(u: bv32, p: bv32)
    ensures Xor(Xor(u, p), p) == u
  {
  }

  lemma XorCancels(u: bv32, v: bv32, p: bv32)
    ensures Xor(Xor(u, p), Xor(v, p)) == Xor(u, v)
  {
    hide Xor;
    XorAssoc(Xor(u, p), v, p);
    XorSwap(u, p, v);
    XorTwice(Xor(u, v), p);
  }

  lemma BitStepLinear(a: bv32, b: bv32)
    ensures BitStep(Xor(a, b)) == Xor(BitStep(a), BitStep(b))
  {
    hide Xor, Half, Odd;
    HalfOfXor(a, b);
    OddXor(a, b);
    XorCancels(Half(a), Half(b), POLY);
    XorSwap(Half(a), Half(b), POLY);
    XorAssoc(Half(a), Half(b), POLY);
  }

  lemma EightStepsLinear(a: bv32, b: bv32)
    ensures EightSteps(Xor(a, b)) == Xor(EightSteps(a), EightSteps(b))
  {
    hide BitStep, Xor;
    var a1, b1 := BitStep(a), BitStep(b);
    var a2, b2 := BitStep(a1), BitStep(b1);
    var a3, b3 := BitStep(a2), BitStep(b2);
    var a4, b4 := BitStep(a3), BitStep(b3);
    var a5, b5 := BitStep(a4), BitStep(b4);
    var a6, b6 := BitStep(a5), BitStep(b5);
    var a7, b7 := BitStep(a6), BitStep(b6);
    BitStepLinear(a, b);
    BitStepLinear(a1, b1);
    BitStepLinear(a2, b2);
    BitStepLinear(a3, b3);
    BitStepLinear(a4, b4);
    BitStepLinear(a5, b5);
    BitStepLinear(a6, b6);
    BitStepLinear(a7, b7);
  }

  // ---- One table lookup is eight bit steps ----

  /** The exclusive or of the eight one-bit remainders selected by `b`. */
  function Selected(b: bv8): bv32 {
    (if b & 0x01 == 0 then 0 else 0x77073096) ^ (if b & 0x02 == 0 then 0 else 0xEE0E612C) ^
    (if b & 0x04 == 0 then 0 else 0x076DC419) ^ (if b & 0x08 == 0 then 0 else 0x0EDB8832) ^
    (if b & 0x10 == 0 then 0 else 0x1DB71064) ^ (if b & 0x20 == 0 then 0 else 0x3B6E20C8) ^
    (if b & 0x40 == 0 then 0 else 0x76DC4190) ^ (if b & 0x80 == 0 then 0 else 0xEDB88320)
  }

  lemma Row0Matches(i: bv8) requires 0x00 <= i < 0x10 ensures CrcRow0(i) == Selected(i) {}
  lemma Row1Matches(i: bv8) requires 0x10 <= i < 0x20 ensures CrcRow1(i) == Selected(i) {}
  lemma Row2Matches(i: bv8) requires 0x20 <= i < 0x30 ensures CrcRow2(i) == Selected(i) {}
  lemma Row3Matches(i: bv8) requires 0x30 <= i < 0x40 ensures CrcRow3(i) == Selected(i) {}
  lemma Row4Matches(i: bv8) requires 0x40 <= i < 0x50 ensures CrcRow4(i) == Selected(i) {}
  lemma Row5Matches(i: bv8) requires 0x50 <= i < 0x60 ensures CrcRow5(i) == Selected(i) {}
  lemma Row6Matches(i: bv8) requires 0x60 <= i < 0x70 ensures CrcRow6(i) == Selected(i) {}
  lemma Row7Matches(i: bv8) requires 0x70 <= i < 0x80 ensures CrcRow7(i) == Selected(i) {}
  lemma Row8Matches(i: bv8) requires 0x80 <= i < 0x90 ensures CrcRow8(i) == Selected(i) {}
  lemma Row9Matches(i: bv8) requires 0x90 <= i < 0xA0 ensures CrcRow9(i) == Selected(i) {}
  lemma RowAMatches(i: bv8) requires 0xA0 <= i < 0xB0 ensures CrcRowA(i) == Selected(i) {}
  lemma RowBMatches(i: bv8) requires 0xB0 <= i < 0xC0 ensures CrcRowB(i) == Selected(i) {}
  lemma RowCMatches(i: bv8) requires 0xC0 <= i < 0xD0 ensures CrcRowC(i) == Selected(i) {}
  lemma RowDMatches(i: bv8) requires 0xD0 <= i < 0xE0 ensures CrcRowD(i) == Selected(i) {}
  lemma RowEMatches(i: bv8) requires 0xE0 <= i < 0xF0 ensures CrcRowE(i) == Selected(i) {}
  lemma RowFMatches(i: bv8) requires 0xF0 <= i ensures CrcRowF(i) == Selected(i) {}

  lemma TableMatches(i: bv8)
    ensures CrcTable(i) == Selected(i)
  {
    hide Selected, CrcRow0, CrcRow1, CrcRow2, CrcRow3, CrcRow4, CrcRow5, CrcRow6, CrcRow7, CrcRow8, CrcRow9, CrcRowA,
         CrcRowB, CrcRowC, CrcRowD, CrcRowE, CrcRowF;
    if i < 0x10 { Row0Matches(i); }
    else if i < 0x20 { Row1Matches(i); }
    else if i < 0x30 { Row2Matches(i); }
    else if i < 0x40 { Row3Matches(i); }
    else if i < 0x50 { Row4Matches(i); }
    else if i < 0x60 { Row5Matches(i); }
    else if i < 0x70 { Row6Matches(i); }
    else if i < 0x80 { Row7Matches(i); }
    else if i < 0x90 { Row8Matches(i); }
    else if i < 0xA0 { Row9Matches(i); }
    else if i < 0xB0 { RowAMatches(i); }
    else if i < 0xC0 { RowBMatches(i); }
    else if i < 0xD0 { RowCMatches(i); }
    else if i < 0xE0 { RowDMatches(i); }
    else if i < 0xF0 { RowEMatches(i); }
    else { RowFMatches(i); }
  }

  lemma Bit01(i: bv8)
    ensures EightSteps((i & 0x01) as bv32) == (if i & 0x01 == 0 then 0 else 0x77073096)
  {
    assert i & 0x01 == 0 || i & 0x01 == 0x01;
  }

  lemma Bit02(i: bv8)
    ensures EightSteps((i & 0x02) as bv32) == (if i & 0x02 == 0 then 0 else 0xEE0E612C)
  {
    assert i & 0x02 == 0 || i & 0x02 == 0x02;
  }

  lemma Bit04(i: bv8)
    ensures EightSteps((i & 0x04) as bv32) == (if i & 0x04 == 0 then 0 else 0x076DC419)
  {
    assert i & 0x04 == 0 || i & 0x04 == 0x04;
  }

  lemma Bit08(i: bv8)
    ensures EightSteps((i & 0x08) as bv32) == (if i & 0x08 == 0 then 0 else 0x0EDB8832)
  {
    assert i & 0x08 == 0 || i & 0x08 == 0x08;
  }

  lemma Bit10(i: bv8)
    ensures EightSteps((i & 0x10) as bv32) == (if i & 0x10 == 0 then 0 else 0x1DB71064)
  {
    assert i & 0x10 == 0 || i & 0x10 == 0x10;
  }

  lemma Bit20(i: bv8)
    ensures EightSteps((i & 0x20) as bv32) == (if i & 0x20 == 0 then 0 else 0x3B6E20C8)
  {
    assert i & 0x20 == 0 || i & 0x20 == 0x20;
  }

  lemma Bit40(i: bv8)
    ensures EightSteps((i & 0x40) as bv32) == (if i & 0x40 == 0 then 0 else 0x76DC4190)
  {
    assert i & 0x40 == 0 || i & 0x40 == 0x40;
  }

  lemma Bit80(i: bv8)
    ensures EightSteps((i & 0x80) as bv32) == (if i & 0x80 == 0 then 0 else 0xEDB88320)
  {
    assert i & 0x80 == 0 || i & 0x80 == 0x80;
  }

  lemma BitsTogether(i: bv8)
    ensures i as bv32 == Xor(Xor(Xor(Xor(Xor(Xor(Xor((i & 0x01) as bv32, (i & 0x02) as bv32), (i & 0x04) as bv32),
                                                     (i & 0x08) as bv32), (i & 0x10) as bv32), (i & 0x20) as bv32),
                                                     (i & 0x40) as bv32), (i & 0x80) as bv32)
  {
  }

  lemma XorOfTwo(a: bv32, b: bv32)
    ensures Xor(a, b) == a ^ b
  {
  }

  lemma SnocThree(x: bv32, a: bv32, b: bv32, c: bv32)
    requires x == a ^ b
    ensures Xor(x, c) == a ^ b ^ c
  {
  }

  lemma SnocFour(x: bv32, a: bv32, b: bv32, c: bv32, d: bv32)
    requires x == a ^ b ^ c
    ensures Xor(x, d) == a ^ b ^ c ^ d
  {
  }

  lemma SnocFive(x: bv32, a: bv32, b: bv32, c: bv32, d: bv32, e: bv32)
    requires x == a ^ b ^ c ^ d
    ensures Xor(x, e) == a ^ b ^ c ^ d ^ e
  {
  }

  lemma SnocSix(x: bv32, a: bv32, b: bv32, c: bv32, d: bv32, e: bv32, f: bv32)
    requires x == a ^ b ^ c ^ d ^ e
    ensures Xor(x, f) == a ^ b ^ c ^ d ^ e ^ f
  {
  }

  lemma SnocSeven(x: bv32, a: bv32, b: bv32, c: bv32, d: bv32, e: bv32, f: bv32, g: bv32)
    requires x == a ^ b ^ c ^ d ^ e ^ f
    ensures Xor(x, g) == a ^ b ^ c ^ d ^ e ^ f ^ g
  {
  }

  lemma SnocEight(x: bv32, a: bv32, b: bv32, c: bv32, d: bv32, e: bv32, f: bv32, g: bv32, h: bv32)
    requires x == a ^ b ^ c ^ d ^ e ^ f ^ g
    ensures Xor(x, h) == a ^ b ^ c ^ d ^ e ^ f ^ g ^ h
  {
  }

  lemma XorOfEight(a: bv32, b: bv32, c: bv32, d: bv32, e: bv32, f: bv32, g: bv32, h: bv32)
    ensures Xor(Xor(Xor(Xor(Xor(Xor(Xor(a, b), c), d), e), f), g), h) == a ^ b ^ c ^ d ^ e ^ f ^ g ^ h
  {
    hide Xor;
    XorOfTwo(a, b);
    SnocThree(Xor(a, b), a, b, c);
    SnocFour(Xor(Xor(a, b), c), a, b, c, d);
    SnocFive(Xor(Xor(Xor(a, b), c), d), a, b, c, d, e);
    SnocSix(Xor(Xor(Xor(Xor(a, b), c), d), e), a, b, c, d, e, f);
    SnocSeven(Xor(Xor(Xor(Xor(Xor(a, b), c), d), e), f), a, b, c, d, e, f, g);
    SnocEight(Xor(Xor(Xor(Xor(Xor(Xor(a, b), c), d), e), f), g), a, b, c, d, e, f, g, h);
  }

  lemma StepsOfSum(a: bv32, b: bv32, c: bv32, d: bv32, e: bv32, f: bv32, g: bv32, h: bv32)
    ensures EightSteps(Xor(Xor(Xor(Xor(Xor(Xor(Xor(a, b), c), d), e), f), g), h)) ==
            Xor(Xor(Xor(Xor(Xor(Xor(Xor(EightSteps(a), EightSteps(b)), EightSteps(c)), EightSteps(d)),
                                    EightSteps(e)), EightSteps(f)), EightSteps(g)), EightSteps(h))
  {
    hide Xor, EightSteps;
    EightStepsLinear(a, b);
    EightStepsLinear(Xor(a, b), c);
    EightStepsLinear(Xor(Xor(a, b), c), d);
    EightStepsLinear(Xor(Xor(Xor(a, b), c), d), e);
    EightStepsLinear(Xor(Xor(Xor(Xor(a, b), c), d), e), f);
    EightStepsLinear(Xor(Xor(Xor(Xor(Xor(a, b), c), d), e), f), g);
    EightStepsLinear(Xor(Xor(Xor(Xor(Xor(Xor(a, b), c), d), e), f), g), h);
  }

  lemma StepsAreSelected(i: bv8)
    ensures EightSteps(i as bv32) == Selected(i)
  {
    hide Xor, EightSteps;
    BitsTogether(i);
    Bit01(i);
    Bit02(i);
    Bit04(i);
    Bit08(i);
    Bit10(i);
    Bit20(i);
    Bit40(i);
    Bit80(i);
    StepsOfSum((i & 0x01) as bv32, (i & 0x02) as bv32, (i & 0x04) as bv32, (i & 0x08) as bv32,
               (i & 0x10) as bv32, (i & 0x20) as bv32, (i & 0x40) as bv32, (i & 0x80) as bv32);
    XorOfEight(if i & 0x01 == 0 then 0 else 0x77073096, if i & 0x02 == 0 then 0 else 0xEE0E612C,
               if i & 0x04 == 0 then 0 else 0x076DC419, if i & 0x08 == 0 then 0 else 0x0EDB8832,
               if i & 0x10 == 0 then 0 else 0x1DB71064, if i & 0x20 == 0 then 0 else 0x3B6E20C8,
               if i & 0x40 == 0 then 0 else 0x76DC4190, if i & 0x80 == 0 then 0 else 0xEDB88320);
  }

  // ---- Bits above the low byte only shift during eight steps ----

  lemma ClearStep(c: bv32, d: bv32)
    requires Halves(c, d)
    ensures BitStep(c) == d
  {
  }

  predicate Halves(c: bv32, d: bv32) {
    c & 1 == 0 && c >> 1 == d
  }

  lemma HalvingEightTimes(x0: bv32, x1: bv32, x2: bv32, x3: bv32, x4: bv32, x5: bv32, x6: bv32, x7: bv32, x8: bv32)
    requires Halves(x0, x1) && Halves(x1, x2) && Halves(x2, x3) && Halves(x3, x4)
    requires Halves(x4, x5) && Halves(x5, x6) && Halves(x6, x7) && Halves(x7, x8)
    ensures EightSteps(x0) == x8
  {
    hide Halves, BitStep;
    ClearStep(x0, x1);
    ClearStep(x1, x2);
    ClearStep(x2, x3);
    ClearStep(x3, x4);
    ClearStep(x4, x5);
    ClearStep(x5, x6);
    ClearStep(x6, x7);
    ClearStep(x7, x8);
  }

  lemma LowZerosHalve(x: bv32)
    requires x & 0xFF == 0
    ensures Halves(x, x >> 1) && Halves(x >> 1, x >> 2) && Halves(x >> 2, x >> 3) && Halves(x >> 3, x >> 4)
    ensures Halves(x >> 4, x >> 5) && Halves(x >> 5, x >> 6) && Halves(x >> 6, x >> 7) && Halves(x >> 7, x >> 8)
  {
  }

  lemma HighBitsShift(x: bv32)
    requires x & 0xFF == 0
    ensures EightSteps(x) == x >> 8
  {
    hide Halves, EightSteps;
    LowZerosHalve(x);
    HalvingEightTimes(x, x >> 1, x >> 2, x >> 3, x >> 4, x >> 5, x >> 6, x >> 7, x >> 8);
  }

  lemma SplitLowByte(x: bv32)
    ensures x == Xor(x & 0xFFFF_FF00, ((x & 0xFF) as bv8) as bv32)
    ensures (x & 0xFFFF_FF00) & 0xFF == 0
    ensures (x & 0xFFFF_FF00) >> 8 == x >> 8
  {
  }

  lemma SumParts(x: bv32, high: bv32, low: bv32, u: bv32, v: bv32)
    requires x == Xor(high, low) && EightSteps(high) == u && EightSteps(low) == v
    ensures EightSteps(x) == Xor(u, v)
  {
    hide EightSteps, Xor;
    EightStepsLinear(high, low);
  }

  lemma LookupIsEightSteps(x: bv32)
    ensures EightSteps(x) == Xor(x >> 8, CrcTable((x & 0xFF) as bv8))
  {
    hide EightSteps, Xor, CrcTable, Selected;
    SplitLowByte(x);
    HighBitsShift(x & 0xFFFF_FF00);
    var low := (x & 0xFF) as bv8;
    TableMatches(low);
    StepsAreSelected(low);
    SumParts(x, x & 0xFFFF_FF00, low as bv32, x >> 8, CrcTable(low));
  }

  lemma ByteStaysLow(c: bv32, b: bv8)
    ensures Xor(c, b as bv32) >> 8 == c >> 8
  {
  }

  /** The table-driven update is one byte of the division. */
  lemma LookupIsFeed(c: bv32, b: bv8)
    ensures Xor(c >> 8, CrcTable((Xor(c, b as bv32) & 0xFF) as bv8)) == Feed(c, b)
  {
    hide EightSteps, CrcTable, Xor;
    ByteStaysLow(c, b);
    LookupIsEightSteps(Xor(c, b as bv32));
  }

  // ---- The routine itself ----

  function Bits(data: seq<Byte>): (s: seq<bv8>)
    ensures |s| == |data| && forall i | 0 <= i < |data| :: s[i] == data[i] as bv8
  {
    seq(|data|, i requires 0 <= i < |data| => data[i] as bv8)
  }

  method Crc32(data: seq<Byte>) returns (crc: bv32)
    ensures crc == CrcOf(Bits(data))
  {
    if |data| == 0 {
      return 0;
    }
    hide CrcTable, Feed, Xor;
    crc := 0;
    for i := 0 to |data|
      invariant crc == CrcOf(Bits(data[..i]))
    {
      var b := data[i] as bv8;
      LookupIsFeed(crc, b);
      assert Bits(data[..i + 1])[..i] == Bits(data[..i]);
      crc := Xor(crc >> 8, CrcTable((Xor(crc, b as bv32) & 0xFF) as bv8));
    }
    assert data[..|data|] == data;
  }

  /** The checksum as the integer that is stored. */
  function Checksum(data: seq<Byte>): UInt32 {
    CrcOf(Bits(data)) as int
  }

  method ComputeChecksum(data: seq<Byte>) returns (c: UInt32)
    ensures c == Checksum(data)
  {
    var crc := Crc32(data);
    c := crc as int;
  }

  // ---- Linearity over whole buffers ----

  function XorBuffers(a: seq<bv8>, b: seq<bv8>): (r: seq<bv8>)
    requires |a| == |b|
    ensures |r| == |a| && forall i | 0 <= i < |a| :: r[i] == a[i] ^ b[i]
  {
    seq(|a|, i requires 0 <= i < |a| => a[i] ^ b[i])
  }

  lemma ByteXor(c: bv32, d: bv32, x: bv8, y: bv8)
    ensures Xor(Xor(c, d), (x ^ y) as bv32) == Xor(Xor(c, x as bv32), Xor(d, y as bv32))
  {
  }

  lemma FeedLinear(c: bv32, d: bv32, x: bv8, y: bv8)
    ensures Feed(Xor(c, d), x ^ y) == Xor(Feed(c, x), Feed(d, y))
  {
    hide EightSteps, Xor;
    ByteXor(c, d, x, y);
    EightStepsLinear(Xor(c, x as bv32), Xor(d, y as bv32));
  }

  lemma {:induction false} RemainderLinear(c: bv32, d: bv32, a: seq<bv8>, b: seq<bv8>)
    requires |a| == |b|
    ensures Remainder(Xor(c, d), XorBuffers(a, b)) == Xor(Remainder(c, a), Remainder(d, b))
  {
    hide Feed, Xor;
    if a == [] {
    } else {
      var n := |a| - 1;
      RemainderLinear(c, d, a[..n], b[..n]);
      assert XorBuffers(a, b)[..n] == XorBuffers(a[..n], b[..n]);
      FeedLinear(Remainder(c, a[..n]), Remainder(d, b[..n]), a[n], b[n]);
    }
  }

  /** The checksum of the exclusive or of two buffers is the exclusive or of their checksums. */
  lemma CrcLinear(a: seq<bv8>, b: seq<bv8>)
    requires |a| == |b|
    ensures CrcOf(XorBuffers(a, b)) == CrcOf(a) ^ CrcOf(b)
  {
    assert Xor(0, 0) == 0 && Xor(CrcOf(a), CrcOf(b)) == CrcOf(a) ^ CrcOf(b);
    hide Xor;
    RemainderLinear(0, 0, a, b);
  }

  // ---- Detecting a change inside any four consecutive bytes ----

  lemma BitStepKernel(c: bv32)
    requires BitStep(c) == 0
    ensures c == 0
  {
  }

  lemma EightStepsKernel(c: bv32)
    requires EightSteps(c) == 0
    ensures c == 0
  {
    hide BitStep;
    var c1 := BitStep(c);
    var c2 := BitStep(c1);
    var c3 := BitStep(c2);
    var c4 := BitStep(c3);
    var c5 := BitStep(c4);
    var c6 := BitStep(c5);
    var c7 := BitStep(c6);
    BitStepKernel(c7);
    BitStepKernel(c6);
    BitStepKernel(c5);
    BitStepKernel(c4);
    BitStepKernel(c3);
    BitStepKernel(c2);
    BitStepKernel(c1);
    BitStepKernel(c);
  }

  lemma ShiftUp(w: bv32)
    requires w & 0xFF00_0000 == 0
    ensures (w << 8) & 0xFF == 0 && (w << 8) >> 8 == w
  {
  }

  lemma SumOfHigh(x: bv32, up: bv32, w: bv32)
    requires up & 0xFF == 0 && up >> 8 == w
    ensures EightSteps(Xor(x, up)) == Xor(EightSteps(x), w)
  {
    hide EightSteps, Xor;
    HighBitsShift(up);
    EightStepsLinear(x, up);
  }

  /** A 24-bit word that cancels the state after a byte would have cancelled it, shifted up, before that byte. */
  lemma PushBack(x: bv32, w: bv32)
    requires w & 0xFF00_0000 == 0 && Xor(EightSteps(x), w) == 0
    ensures Xor(x, w << 8) == 0
  {
    hide EightSteps, Xor;
    ShiftUp(w);
    SumOfHigh(x, w << 8, w);
    EightStepsKernel(Xor(x, w << 8));
  }

  lemma {:induction false} RemainderConcat(c: bv32, a: seq<bv8>, b: seq<bv8>)
    ensures Remainder(c, a + b) == Remainder(Remainder(c, a), b)
  {
    if b == [] {
      assert a + b == a;
    } else {
      assert (a + b)[..|a + b| - 1] == a + b[..|b| - 1];
      RemainderConcat(c, a, b[..|b| - 1]);
    }
  }

  predicate AllZero(s: seq<bv8>) {
    forall i | 0 <= i < |s| :: s[i] == 0
  }

  lemma FeedZero(c: bv32)
    ensures Feed(c, 0) == EightSteps(c)
    ensures Feed(0, 0) == 0
  {
    assert Xor(c, 0 as bv8 as bv32) == c;
  }

  /** Zero bytes neither create a remainder nor remove one. */
  lemma {:induction false} ZerosKeep(c: bv32, z: seq<bv8>)
    requires AllZero(z)
    ensures Remainder(c, z) == 0 <==> c == 0
  {
    hide EightSteps, Feed;
    if z == [] {
    } else {
      ZerosKeep(c, z[..|z| - 1]);
      FeedZero(Remainder(c, z[..|z| - 1]));
      if Remainder(c, z) == 0 {
        EightStepsKernel(Remainder(c, z[..|z| - 1]));
      }
    }
  }

  lemma FourByteWords(d0: bv8, d1: bv8, d2: bv8, d3: bv8, s0: bv32, s1: bv32, s2: bv32)
    ensures var w3, w2, w1 := d3 as bv32, d2 as bv32, d1 as bv32;
            && w3 & 0xFF00_0000 == 0
            && Xor(Xor(s2, w2), w3 << 8) == Xor(s2, Xor(w2, w3 << 8))
            && Xor(w2, w3 << 8) & 0xFF00_0000 == 0
            && Xor(Xor(s1, w1), Xor(w2, w3 << 8) << 8) == Xor(s1, Xor(w1, Xor(w2, w3 << 8) << 8))
            && Xor(w1, Xor(w2, w3 << 8) << 8) & 0xFF00_0000 == 0
    ensures Xor(Xor(0, d0 as bv32), Xor(d1 as bv32, Xor(d2 as bv32, (d3 as bv32) << 8) << 8) << 8) == 0 ==>
              d0 == 0 && d1 == 0 && d2 == 0 && d3 == 0
  {
  }

  /** A nonzero block of four bytes never leaves remainder zero. */
  lemma FourBytesDetected(d0: bv8, d1: bv8, d2: bv8, d3: bv8)
    requires Feed(Feed(Feed(Feed(0, d0), d1), d2), d3) == 0
    ensures d0 == 0 && d1 == 0 && d2 == 0 && d3 == 0
  {
    var s0: bv32 := Feed(0, d0);
    var s1 := Feed(s0, d1);
    var s2 := Feed(s1, d2);
    FourByteWords(d0, d1, d2, d3, 0, s0, s1);
    FourByteWords(d0, d1, d2, d3, s0, s1, s2);
    hide EightSteps, Xor;
    EightStepsKernel(Xor(s2, d3 as bv32));
    PushBack(Xor(s1, d2 as bv32), d3 as bv32);
    PushBack(Xor(s0, d1 as bv32), Xor(d2 as bv32, (d3 as bv32) << 8));
    PushBack(Xor(0, d0 as bv32), Xor(d1 as bv32, Xor(d2 as bv32, (d3 as bv32) << 8) << 8));
  }

  lemma UnrollFour(d: seq<bv8>)
    requires |d| == 4
    ensures CrcOf(d) == Feed(Feed(Feed(Feed(0, d[0]), d[1]), d[2]), d[3])
  {
    hide Feed, Xor;
    assert d[..3][..2] == d[..2] && d[..2][..1] == d[..1] && d[..1][..0] == [];
    assert Remainder(0, d[..1]) == Feed(0, d[0]);
    assert Remainder(0, d[..2]) == Feed(Feed(0, d[0]), d[1]);
    assert Remainder(0, d[..3]) == Feed(Feed(Feed(0, d[0]), d[1]), d[2]);
  }

  lemma ShortNonzero(d: seq<bv8>)
    requires |d| <= 4 && CrcOf(d) == 0
    ensures AllZero(d)
  {
    var z := seq(4 - |d|, _ => 0 as bv8);
    var w := z + d;
    RemainderConcat(0, z, d);
    ZerosKeep(0, z);
    UnrollFour(w);
    FourBytesDetected(w[0], w[1], w[2], w[3]);
    assert forall i | 0 <= i < |d| :: d[i] == w[|z| + i];
  }

  lemma XorZero(x: bv8, y: bv8)
    ensures x ^ y == 0 <==> x == y
  {
  }

  lemma XorZeroWord(x: bv32, y: bv32)
    ensures x ^ y == 0 <==> x == y
  {
  }

  lemma XorBuffersZero(a: seq<bv8>, b: seq<bv8>)
    requires |a| == |b|
    ensures AllZero(XorBuffers(a, b)) <==> a == b
  {
    forall i | 0 <= i < |a| ensures XorBuffers(a, b)[i] == 0 <==> a[i] == b[i] {
      XorZero(a[i], b[i]);
    }
  }

  /** Two buffers that differ, and only inside one window of at most four bytes, have different checksums. */
  lemma WindowDetected(before: seq<bv8>, v: seq<bv8>, w: seq<bv8>, after: seq<bv8>)
    requires |v| == |w| <= 4 && v != w
    ensures CrcOf(before + v + after) != CrcOf(before + w + after)
  {
    hide Feed, AllZero;
    var a, b := before + v + after, before + w + after;
    var z0, d, z1 := XorBuffers(before, before), XorBuffers(v, w), XorBuffers(after, after);
    XorBuffersZero(before, before);
    XorBuffersZero(v, w);
    XorBuffersZero(after, after);
    assert XorBuffers(a, b) == z0 + d + z1;
    RemainderConcat(0, z0 + d, z1);
    RemainderConcat(0, z0, d);
    ZerosKeep(0, z0);
    ZerosKeep(Remainder(0, d), z1);
    if CrcOf(d) == 0 {
      ShortNonzero(d);
    }
    CrcLinear(a, b);
    XorZeroWord(CrcOf(a), CrcOf(b));
  }

  lemma WordRoundTrip(x: bv32)
    ensures (x as int) as bv32 == x
  {
  }

  lemma BitsInjective(v: seq<Byte>, w: seq<Byte>)
    requires Bits(v) == Bits(w)
    ensures v == w
  {
    assert |v| == |w|;
    forall i | 0 <= i < |v| ensures v[i] == w[i] {
      ByteBits.RoundTrip(v[i]);
      ByteBits.RoundTrip(w[i]);
      assert Bits(v)[i] == Bits(w)[i];
    }
  }

  lemma BitsConcat(a: seq<Byte>, b: seq<Byte>)
    ensures Bits(a + b) == Bits(a) + Bits(b)
  {
  }

  /** The same for the stored checksums of byte buffers. */
  lemma ChangeDetected(before: seq<Byte>, v: seq<Byte>, w: seq<Byte>, after: seq<Byte>)
    requires |v| == |w| <= 4 && v != w
    ensures Checksum(before + v + after) != Checksum(before + w + after)
  {
    hide Bits, CrcOf;
    BitsConcat(before + v, after);
    BitsConcat(before, v);
    BitsConcat(before + w, after);
    BitsConcat(before, w);
    if Bits(v) == Bits(w) {
      BitsInjective(v, w);
    }
    WindowDetected(Bits(before), Bits(v), Bits(w), Bits(after));
    WordRoundTrip(CrcOf(Bits(before + v + after)));
    WordRoundTrip(CrcOf(Bits(before + w + after)));
  }
}
