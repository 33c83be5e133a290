/**
 The three substitution tables of the block ciphers, sixteen entries to a row
 (src/encoding.cpp; section 5.1 of [MS-PST]).
 */
module CipherTables {
  import opened Bytes

  function MpbbR0(i: int): Byte {
    match i
    case 0 => 0x41 case 1 => 0x36 case 2 => 0x13 case 3 => 0x62
    case 4 => 0xA8 case 5 => 0x21 case 6 => 0x6E case 7 => 0xBB
    case 8 => 0xF4 case 9 => 0x16 case 10 => 0xCC case 11 => 0x04
    case 12 => 0x7F case 13 => 0x64 case 14 => 0xE8 case _ => 0x5D
  }

  function MpbbR1(i: int): Byte {
    match i
    case 0 => 0x1E case 1 => 0xF2 case 2 => 0xCB case 3 => 0x2A
    case 4 => 0x74 case 5 => 0xC5 case 6 => 0x5E case 7 => 0x35
    case 8 => 0xD2 case 9 => 0x95 case 10 => 0x47 case 11 => 0x9E
    case 12 => 0x96 case 13 => 0x2D case 14 => 0x9A case _ => 0x88
  }

  function MpbbR2(i: int): Byte {
    match i
    case 0 => 0x4C case 1 => 0x7D case 2 => 0x84 case 3 => 0x3F
    case 4 => 0xDB case 5 => 0xAC case 6 => 0x31 case 7 => 0xB6
    case 8 => 0x48 case 9 => 0x5F case 10 => 0xF6 case 11 => 0xC4
    case 12 => 0xD8 case 13 => 0x39 case 14 => 0x8B case _ => 0xE7
  }

  function MpbbR3(i: int): Byte {
    match i
    case 0 => 0x23 case 1 => 0x3B case 2 => 0x38 case 3 => 0x8E
    case 4 => 0xC8 case 5 => 0xC1 case 6 => 0xDF case 7 => 0x25
    case 8 => 0xB1 case 9 => 0x20 case 10 => 0xA5 case 11 => 0x46
    case 12 => 0x60 case 13 => 0x4E case 14 => 0x9C case _ => 0xFB
  }

  function MpbbR4(i: int): Byte {
    match i
    case 0 => 0xAA case 1 => 0xD3 case 2 => 0x56 case 3 => 0x51
    case 4 => 0x45 case 5 => 0x7C case 6 => 0x55 case 7 => 0x00
    case 8 => 0x07 case 9 => 0xC9 case 10 => 0x2B case 11 => 0x9D
    case 12 => 0x85 case 13 => 0x9B case 14 => 0x09 case _ => 0xA0
  }

  function MpbbR5(i: int): Byte {
    match i
    case 0 => 0x8F case 1 => 0xAD case 2 => 0xB3 case 3 => 0x0F
    case 4 => 0x63 case 5 => 0xAB case 6 => 0x89 case 7 => 0x4B
    case 8 => 0xD7 case 9 => 0xA7 case 10 => 0x15 case 11 => 0x5A
    case 12 => 0x71 case 13 => 0x66 case 14 => 0x42 case _ => 0xBF
  }

  function MpbbR6(i: int): Byte {
    match i
    case 0 => 0x26 case 1 => 0x4A case 2 => 0x6B case 3 => 0x98
    case 4 => 0xFA case 5 => 0xEA case 6 => 0x77 case 7 => 0x53
    case 8 => 0xB2 case 9 => 0x70 case 10 => 0x05 case 11 => 0x2C
    case 12 => 0xFD case 13 => 0x59 case 14 => 0x3A case _ => 0x86
  }

  function MpbbR7(i: int): Byte {
    match i
    case 0 => 0x7E case 1 => 0xCE case 2 => 0x06 case 3 => 0xEB
    case 4 => 0x82 case 5 => 0x78 case 6 => 0x57 case 7 => 0xC7
    case 8 => 0x8D case 9 => 0x43 case 10 => 0xAF case 11 => 0xB4
    case 12 => 0x1C case 13 => 0xD4 case 14 => 0x5B case _ => 0xCD
  }

  function MpbbR8(i: int): Byte {
    match i
    case 0 => 0xE2 case 1 => 0xE9 case 2 => 0x27 case 3 => 0x4F
    case 4 => 0xC3 case 5 => 0x08 case 6 => 0x72 case 7 => 0x80
    case 8 => 0xCF case 9 => 0xB0 case 10 => 0xEF case 11 => 0xF5
    case 12 => 0x28 case 13 => 0x6D case 14 => 0xBE case _ => 0x30
  }

  function MpbbR9(i: int): Byte {
    match i
    case 0 => 0x4D case 1 => 0x34 case 2 => 0x92 case 3 => 0xD5
    case 4 => 0x0E case 5 => 0x3C case 6 => 0x22 case 7 => 0x32
    case 8 => 0xE5 case 9 => 0xE4 case 10 => 0xF9 case 11 => 0x9F
    case 12 => 0xC2 case 13 => 0xD1 case 14 => 0x0A case _ => 0x81
  }

  function MpbbRA(i: int): Byte {
    match i
    case 0 => 0x12 case 1 => 0xE1 case 2 => 0xEE case 3 => 0x91
    case 4 => 0x83 case 5 => 0x76 case 6 => 0xE3 case 7 => 0x97
    case 8 => 0xE6 case 9 => 0x61 case 10 => 0x8A case 11 => 0x17
    case 12 => 0x79 case 13 => 0xA4 case 14 => 0xB7 case _ => 0xDC
  }

  function MpbbRB(i: int): Byte {
    match i
    case 0 => 0x90 case 1 => 0x7A case 2 => 0x5C case 3 => 0x8C
    case 4 => 0x02 case 5 => 0xA6 case 6 => 0xCA case 7 => 0x69
    case 8 => 0xDE case 9 => 0x50 case 10 => 0x1A case 11 => 0x11
    case 12 => 0x93 case 13 => 0xB9 case 14 => 0x52 case _ => 0x87
  }

  function MpbbRC(i: int): Byte {
    match i
    case 0 => 0x58 case 1 => 0xFC case 2 => 0xED case 3 => 0x1D
    case 4 => 0x37 case 5 => 0x49 case 6 => 0x1B case 7 => 0x6A
    case 8 => 0xE0 case 9 => 0x29 case 10 => 0x33 case 11 => 0x99
    case 12 => 0xBD case 13 => 0x6C case 14 => 0xD9 case _ => 0x94
  }

  function MpbbRD(i: int): Byte {
    match i
    case 0 => 0xF3 case 1 => 0x40 case 2 => 0x54 case 3 => 0x6F
    case 4 => 0xF0 case 5 => 0xC6 case 6 => 0x73 case 7 => 0xB8
    case 8 => 0xD6 case 9 => 0x3E case 10 => 0x65 case 11 => 0x18
    case 12 => 0x44 case 13 => 0x1F case 14 => 0xDD case _ => 0x67
  }

  function MpbbRE(i: int): Byte {
    match i
    case 0 => 0x10 case 1 => 0xF1 case 2 => 0x0C case 3 => 0x19
    case 4 => 0xEC case 5 => 0xAE case 6 => 0x03 case 7 => 0xA1
    case 8 => 0x14 case 9 => 0x7B case 10 => 0xA9 case 11 => 0x0B
    case 12 => 0xFF case 13 => 0xF8 case 14 => 0xA3 case _ => 0xC0
  }

  function MpbbRF(i: int): Byte {
    match i
    case 0 => 0xA2 case 1 => 0x01 case 2 => 0xF7 case 3 => 0x2E
    case 4 => 0xBC case 5 => 0x24 case 6 => 0x68 case 7 => 0x75
    case 8 => 0x0D case 9 => 0xFE case 10 => 0xBA case 11 => 0x2F
    case 12 => 0xB5 case 13 => 0xD0 case 14 => 0xDA case _ => 0x3D
  }

  /** Encryption. */
  function MpbbR(b: int): Byte {
    var i := b % 0x10;
    match b / 0x10
    case 0 => MpbbR0(i) case 1 => MpbbR1(i) case 2 => MpbbR2(i) case 3 => MpbbR3(i)
    case 4 => MpbbR4(i) case 5 => MpbbR5(i) case 6 => MpbbR6(i) case 7 => MpbbR7(i)
    case 8 => MpbbR8(i) case 9 => MpbbR9(i) case 10 => MpbbRA(i) case 11 => MpbbRB(i)
    case 12 => MpbbRC(i) case 13 => MpbbRD(i) case 14 => MpbbRE(i) case _ => MpbbRF(i)
  }

  function MpbbS0(i: int): Byte {
    match i
    case 0 => 0x14 case 1 => 0x53 case 2 => 0x0F case 3 => 0x56
    case 4 => 0xB3 case 5 => 0xC8 case 6 => 0x7A case 7 => 0x9C
    case 8 => 0xEB case 9 => 0x65 case 10 => 0x48 case 11 => 0x17
    case 12 => 0x16 case 13 => 0x15 case 14 => 0x9F case _ => 0x02
  }

  function MpbbS1(i: int): Byte {
    match i
    case 0 => 0xCC case 1 => 0x54 case 2 => 0x7C case 3 => 0x83
    case 4 => 0x00 case 5 => 0x0D case 6 => 0x0C case 7 => 0x0B
    case 8 => 0xA2 case 9 => 0x62 case 10 => 0xA8 case 11 => 0x76
    case 12 => 0xDB case 13 => 0xD9 case 14 => 0xED case _ => 0xC7
  }

  function MpbbS2(i: int): Byte {
    match i
    case 0 => 0xC5 case 1 => 0xA4 case 2 => 0xDC case 3 => 0xAC
    case 4 => 0x85 case 5 => 0x74 case 6 => 0xD6 case 7 => 0xD0
    case 8 => 0xA7 case 9 => 0x9B case 10 => 0xAE case 11 => 0x9A
    case 12 => 0x96 case 13 => 0x71 case 14 => 0x66 case _ => 0xC3
  }

  function MpbbS3(i: int): Byte {
    match i
    case 0 => 0x63 case 1 => 0x99 case 2 => 0xB8 case 3 => 0xDD
    case 4 => 0x73 case 5 => 0x92 case 6 => 0x8E case 7 => 0x84
    case 8 => 0x7D case 9 => 0xA5 case 10 => 0x5E case 11 => 0xD1
    case 12 => 0x5D case 13 => 0x93 case 14 => 0xB1 case _ => 0x57
  }

  function MpbbS4(i: int): Byte {
    match i
    case 0 => 0x51 case 1 => 0x50 case 2 => 0x80 case 3 => 0x89
    case 4 => 0x52 case 5 => 0x94 case 6 => 0x4F case 7 => 0x4E
    case 8 => 0x0A case 9 => 0x6B case 10 => 0xBC case 11 => 0x8D
    case 12 => 0x7F case 13 => 0x6E case 14 => 0x47 case _ => 0x46
  }

  function MpbbS5(i: int): Byte {
    match i
    case 0 => 0x41 case 1 => 0x40 case 2 => 0x44 case 3 => 0x01
    case 4 => 0x11 case 5 => 0xCB case 6 => 0x03 case 7 => 0x3F
    case 8 => 0xF7 case 9 => 0xF4 case 10 => 0xE1 case 11 => 0xA9
    case 12 => 0x8F case 13 => 0x3C case 14 => 0x3A case _ => 0xF9
  }

  function MpbbS6(i: int): Byte {
    match i
    case 0 => 0xFB case 1 => 0xF0 case 2 => 0x19 case 3 => 0x30
    case 4 => 0x82 case 5 => 0x09 case 6 => 0x2E case 7 => 0xC9
    case 8 => 0x9D case 9 => 0xA0 case 10 => 0x86 case 11 => 0x49
    case 12 => 0xEE case 13 => 0x6F case 14 => 0x4D case _ => 0x6D
  }

  function MpbbS7(i: int): Byte {
    match i
    case 0 => 0xC4 case 1 => 0x2D case 2 => 0x81 case 3 => 0x34
    case 4 => 0x25 case 5 => 0x87 case 6 => 0x1B case 7 => 0x88
    case 8 => 0xAA case 9 => 0xFC case 10 => 0x06 case 11 => 0xA1
    case 12 => 0x12 case 13 => 0x38 case 14 => 0xFD case _ => 0x4C
  }

  function MpbbS8(i: int): Byte {
    match i
    case 0 => 0x42 case 1 => 0x72 case 2 => 0x64 case 3 => 0x13
    case 4 => 0x37 case 5 => 0x24 case 6 => 0x6A case 7 => 0x75
    case 8 => 0x77 case 9 => 0x43 case 10 => 0xFF case 11 => 0xE6
    case 12 => 0xB4 case 13 => 0x4B case 14 => 0x36 case _ => 0x5C
  }

  function MpbbS9(i: int): Byte {
    match i
    case 0 => 0xE4 case 1 => 0xD8 case 2 => 0x35 case 3 => 0x3D
    case 4 => 0x45 case 5 => 0xB9 case 6 => 0x2C case 7 => 0xEC
    case 8 => 0xB7 case 9 => 0x31 case 10 => 0x2B case 11 => 0x29
    case 12 => 0x07 case 13 => 0x68 case 14 => 0xA3 case _ => 0x0E
  }

  function MpbbSA(i: int): Byte {
    match i
    case 0 => 0x69 case 1 => 0x7B case 2 => 0x18 case 3 => 0x9E
    case 4 => 0x21 case 5 => 0x39 case 6 => 0xBE case 7 => 0x28
    case 8 => 0x1A case 9 => 0x5B case 10 => 0x78 case 11 => 0xF5
    case 12 => 0x23 case 13 => 0xCA case 14 => 0x2A case _ => 0xB0
  }

  function MpbbSB(i: int): Byte {
    match i
    case 0 => 0xAF case 1 => 0x3E case 2 => 0xFE case 3 => 0x04
    case 4 => 0x8C case 5 => 0xE7 case 6 => 0xE5 case 7 => 0x98
    case 8 => 0x32 case 9 => 0x95 case 10 => 0xD3 case 11 => 0xF6
    case 12 => 0x4A case 13 => 0xE8 case 14 => 0xA6 case _ => 0xEA
  }

  function MpbbSC(i: int): Byte {
    match i
    case 0 => 0xE9 case 1 => 0xF3 case 2 => 0xD5 case 3 => 0x2F
    case 4 => 0x70 case 5 => 0x20 case 6 => 0xF2 case 7 => 0x1F
    case 8 => 0x05 case 9 => 0x67 case 10 => 0xAD case 11 => 0x55
    case 12 => 0x10 case 13 => 0xCE case 14 => 0xCD case _ => 0xE3
  }

  function MpbbSD(i: int): Byte {
    match i
    case 0 => 0x27 case 1 => 0x3B case 2 => 0xDA case 3 => 0xBA
    case 4 => 0xD7 case 5 => 0xC2 case 6 => 0x26 case 7 => 0xD4
    case 8 => 0x91 case 9 => 0x1D case 10 => 0xD2 case 11 => 0x1C
    case 12 => 0x22 case 13 => 0x33 case 14 => 0xF8 case _ => 0xFA
  }

  function MpbbSE(i: int): Byte {
    match i
    case 0 => 0xF1 case 1 => 0x5A case 2 => 0xEF case 3 => 0xCF
    case 4 => 0x90 case 5 => 0xB6 case 6 => 0x8B case 7 => 0xB5
    case 8 => 0xBD case 9 => 0xC0 case 10 => 0xBF case 11 => 0x08
    case 12 => 0x97 case 13 => 0x1E case 14 => 0x6C case _ => 0xE2
  }

  function MpbbSF(i: int): Byte {
    match i
    case 0 => 0x61 case 1 => 0xE0 case 2 => 0xC6 case 3 => 0xC1
    case 4 => 0x59 case 5 => 0xAB case 6 => 0xBB case 7 => 0x58
    case 8 => 0xDE case 9 => 0x5F case 10 => 0xDF case 11 => 0x60
    case 12 => 0x79 case 13 => 0x7E case 14 => 0xB2 case _ => 0x8A
  }

  /** Mixing, in the cyclic cipher. */
  function MpbbS(b: int): Byte {
    var i := b % 0x10;
    match b / 0x10
    case 0 => MpbbS0(i) case 1 => MpbbS1(i) case 2 => MpbbS2(i) case 3 => MpbbS3(i)
    case 4 => MpbbS4(i) case 5 => MpbbS5(i) case 6 => MpbbS6(i) case 7 => MpbbS7(i)
    case 8 => MpbbS8(i) case 9 => MpbbS9(i) case 10 => MpbbSA(i) case 11 => MpbbSB(i)
    case 12 => MpbbSC(i) case 13 => MpbbSD(i) case 14 => MpbbSE(i) case _ => MpbbSF(i)
  }

  function MpbbI0(i: int): Byte {
    match i
    case 0 => 0x47 case 1 => 0xF1 case 2 => 0xB4 case 3 => 0xE6
    case 4 => 0x0B case 5 => 0x6A case 6 => 0x72 case 7 => 0x48
    case 8 => 0x85 case 9 => 0x4E case 10 => 0x9E case 11 => 0xEB
    case 12 => 0xE2 case 13 => 0xF8 case 14 => 0x94 case _ => 0x53
  }

  function MpbbI1(i: int): Byte {
    match i
    case 0 => 0xE0 case 1 => 0xBB case 2 => 0xA0 case 3 => 0x02
    case 4 => 0xE8 case 5 => 0x5A case 6 => 0x09 case 7 => 0xAB
    case 8 => 0xDB case 9 => 0xE3 case 10 => 0xBA case 11 => 0xC6
    case 12 => 0x7C case 13 => 0xC3 case 14 => 0x10 case _ => 0xDD
  }

  function MpbbI2(i: int): Byte {
    match i
    case 0 => 0x39 case 1 => 0x05 case 2 => 0x96 case 3 => 0x30
    case 4 => 0xF5 case 5 => 0x37 case 6 => 0x60 case 7 => 0x82
    case 8 => 0x8C case 9 => 0xC9 case 10 => 0x13 case 11 => 0x4A
    case 12 => 0x6B case 13 => 0x1D case 14 => 0xF3 case _ => 0xFB
  }

  function MpbbI3(i: int): Byte {
    match i
    case 0 => 0x8F case 1 => 0x26 case 2 => 0x97 case 3 => 0xCA
    case 4 => 0x91 case 5 => 0x17 case 6 => 0x01 case 7 => 0xC4
    case 8 => 0x32 case 9 => 0x2D case 10 => 0x6E case 11 => 0x31
    case 12 => 0x95 case 13 => 0xFF case 14 => 0xD9 case _ => 0x23
  }

  function MpbbI4(i: int): Byte {
    match i
    case 0 => 0xD1 case 1 => 0x00 case 2 => 0x5E case 3 => 0x79
    case 4 => 0xDC case 5 => 0x44 case 6 => 0x3B case 7 => 0x1A
    case 8 => 0x28 case 9 => 0xC5 case 10 => 0x61 case 11 => 0x57
    case 12 => 0x20 case 13 => 0x90 case 14 => 0x3D case _ => 0x83
  }

  function MpbbI5(i: int): Byte {
    match i
    case 0 => 0xB9 case 1 => 0x43 case 2 => 0xBE case 3 => 0x67
    case 4 => 0xD2 case 5 => 0x46 case 6 => 0x42 case 7 => 0x76
    case 8 => 0xC0 case 9 => 0x6D case 10 => 0x5B case 11 => 0x7E
    case 12 => 0xB2 case 13 => 0x0F case 14 => 0x16 case _ => 0x29
  }

  function MpbbI6(i: int): Byte {
    match i
    case 0 => 0x3C case 1 => 0xA9 case 2 => 0x03 case 3 => 0x54
    case 4 => 0x0D case 5 => 0xDA case 6 => 0x5D case 7 => 0xDF
    case 8 => 0xF6 case 9 => 0xB7 case 10 => 0xC7 case 11 => 0x62
    case 12 => 0xCD case 13 => 0x8D case 14 => 0x06 case _ => 0xD3
  }

  function MpbbI7(i: int): Byte {
    match i
    case 0 => 0x69 case 1 => 0x5C case 2 => 0x86 case 3 => 0xD6
    case 4 => 0x14 case 5 => 0xF7 case 6 => 0xA5 case 7 => 0x66
    case 8 => 0x75 case 9 => 0xAC case 10 => 0xB1 case 11 => 0xE9
    case 12 => 0x45 case 13 => 0x21 case 14 => 0x70 case _ => 0x0C
  }

  function MpbbI8(i: int): Byte {
    match i
    case 0 => 0x87 case 1 => 0x9F case 2 => 0x74 case 3 => 0xA4
    case 4 => 0x22 case 5 => 0x4C case 6 => 0x6F case 7 => 0xBF
    case 8 => 0x1F case 9 => 0x56 case 10 => 0xAA case 11 => 0x2E
    case 12 => 0xB3 case 13 => 0x78 case 14 => 0x33 case _ => 0x50
  }

  function MpbbI9(i: int): Byte {
    match i
    case 0 => 0xB0 case 1 => 0xA3 case 2 => 0x92 case 3 => 0xBC
    case 4 => 0xCF case 5 => 0x19 case 6 => 0x1C case 7 => 0xA7
    case 8 => 0x63 case 9 => 0xCB case 10 => 0x1E case 11 => 0x4D
    case 12 => 0x3E case 13 => 0x4B case 14 => 0x1B case _ => 0x9B
  }

  function MpbbIA(i: int): Byte {
    match i
    case 0 => 0x4F case 1 => 0xE7 case 2 => 0xF0 case 3 => 0xEE
    case 4 => 0xAD case 5 => 0x3A case 6 => 0xB5 case 7 => 0x59
    case 8 => 0x04 case 9 => 0xEA case 10 => 0x40 case 11 => 0x55
    case 12 => 0x25 case 13 => 0x51 case 14 => 0xE5 case _ => 0x7A
  }

  function MpbbIB(i: int): Byte {
    match i
    case 0 => 0x89 case 1 => 0x38 case 2 => 0x68 case 3 => 0x52
    case 4 => 0x7B case 5 => 0xFC case 6 => 0x27 case 7 => 0xAE
    case 8 => 0xD7 case 9 => 0xBD case 10 => 0xFA case 11 => 0x07
    case 12 => 0xF4 case 13 => 0xCC case 14 => 0x8E case _ => 0x5F
  }

  function MpbbIC(i: int): Byte {
    match i
    case 0 => 0xEF case 1 => 0x35 case 2 => 0x9C case 3 => 0x84
    case 4 => 0x2B case 5 => 0x15 case 6 => 0xD5 case 7 => 0x77
    case 8 => 0x34 case 9 => 0x49 case 10 => 0xB6 case 11 => 0x12
    case 12 => 0x0A case 13 => 0x7F case 14 => 0x71 case _ => 0x88
  }

  function MpbbID(i: int): Byte {
    match i
    case 0 => 0xFD case 1 => 0x9D case 2 => 0x18 case 3 => 0x41
    case 4 => 0x7D case 5 => 0x93 case 6 => 0xD8 case 7 => 0x58
    case 8 => 0x2C case 9 => 0xCE case 10 => 0xFE case 11 => 0x24
    case 12 => 0xAF case 13 => 0xDE case 14 => 0xB8 case _ => 0x36
  }

  function MpbbIE(i: int): Byte {
    match i
    case 0 => 0xC8 case 1 => 0xA1 case 2 => 0x80 case 3 => 0xA6
    case 4 => 0x99 case 5 => 0x98 case 6 => 0xA8 case 7 => 0x2F
    case 8 => 0x0E case 9 => 0x81 case 10 => 0x65 case 11 => 0x73
    case 12 => 0xE4 case 13 => 0xC2 case 14 => 0xA2 case _ => 0x8A
  }

  function MpbbIF(i: int): Byte {
    match i
    case 0 => 0xD4 case 1 => 0xE1 case 2 => 0x11 case 3 => 0xD0
    case 4 => 0x08 case 5 => 0x8B case 6 => 0x2A case 7 => 0xF2
    case 8 => 0xED case 9 => 0x9A case 10 => 0x64 case 11 => 0x3F
    case 12 => 0xC1 case 13 => 0x6C case 14 => 0xF9 case _ => 0xEC
  }

  /** Decryption. */
  function MpbbI(b: int): Byte {
    var i := b % 0x10;
    match b / 0x10
    case 0 => MpbbI0(i) case 1 => MpbbI1(i) case 2 => MpbbI2(i) case 3 => MpbbI3(i)
    case 4 => MpbbI4(i) case 5 => MpbbI5(i) case 6 => MpbbI6(i) case 7 => MpbbI7(i)
    case 8 => MpbbI8(i) case 9 => MpbbI9(i) case 10 => MpbbIA(i) case 11 => MpbbIB(i)
    case 12 => MpbbIC(i) case 13 => MpbbID(i) case 14 => MpbbIE(i) case _ => MpbbIF(i)
  }

  // ---- What the compile-time checks of the source say, one row at a time ----

  lemma IR00(b: int) requires 0x00 <= b < 0x10 ensures MpbbI(MpbbR(b)) == b {}
  lemma IR10(b: int) requires 0x10 <= b < 0x20 ensures MpbbI(MpbbR(b)) == b {}
  lemma IR20(b: int) requires 0x20 <= b < 0x30 ensures MpbbI(MpbbR(b)) == b {}
  lemma IR30(b: int) requires 0x30 <= b < 0x40 ensures MpbbI(MpbbR(b)) == b {}
  lemma IR40(b: int) requires 0x40 <= b < 0x50 ensures MpbbI(MpbbR(b)) == b {}
  lemma IR50(b: int) requires 0x50 <= b < 0x60 ensures MpbbI(MpbbR(b)) == b {}
  lemma IR60(b: int) requires 0x60 <= b < 0x70 ensures MpbbI(MpbbR(b)) == b {}
  lemma IR70(b: int) requires 0x70 <= b < 0x80 ensures MpbbI(MpbbR(b)) == b {}
  lemma IR80(b: int) requires 0x80 <= b < 0x90 ensures MpbbI(MpbbR(b)) == b {}
  lemma IR90(b: int) requires 0x90 <= b < 0xA0 ensures MpbbI(MpbbR(b)) == b {}
  lemma IRA0(b: int) requires 0xA0 <= b < 0xB0 ensures MpbbI(MpbbR(b)) == b {}
  lemma IRB0(b: int) requires 0xB0 <= b < 0xC0 ensures MpbbI(MpbbR(b)) == b {}
  lemma IRC0(b: int) requires 0xC0 <= b < 0xD0 ensures MpbbI(MpbbR(b)) == b {}
  lemma IRD0(b: int) requires 0xD0 <= b < 0xE0 ensures MpbbI(MpbbR(b)) == b {}
  lemma IRE0(b: int) requires 0xE0 <= b < 0xF0 ensures MpbbI(MpbbR(b)) == b {}
  lemma IRF0(b: int) requires 0xF0 <= b < 0x100 ensures MpbbI(MpbbR(b)) == b {}

  lemma RI00(b: int) requires 0x00 <= b < 0x10 ensures MpbbR(MpbbI(b)) == b {}
  lemma RI10(b: int) requires 0x10 <= b < 0x20 ensures MpbbR(MpbbI(b)) == b {}
  lemma RI20(b: int) requires 0x20 <= b < 0x30 ensures MpbbR(MpbbI(b)) == b {}
  lemma RI30(b: int) requires 0x30 <= b < 0x40 ensures MpbbR(MpbbI(b)) == b {}
  lemma RI40(b: int) requires 0x40 <= b < 0x50 ensures MpbbR(MpbbI(b)) == b {}
  lemma RI50(b: int) requires 0x50 <= b < 0x60 ensures MpbbR(MpbbI(b)) == b {}
  lemma RI60(b: int) requires 0x60 <= b < 0x70 ensures MpbbR(MpbbI(b)) == b {}
  lemma RI70(b: int) requires 0x70 <= b < 0x80 ensures MpbbR(MpbbI(b)) == b {}
  lemma RI80(b: int) requires 0x80 <= b < 0x90 ensures MpbbR(MpbbI(b)) == b {}
  lemma RI90(b: int) requires 0x90 <= b < 0xA0 ensures MpbbR(MpbbI(b)) == b {}
  lemma RIA0(b: int) requires 0xA0 <= b < 0xB0 ensures MpbbR(MpbbI(b)) == b {}
  lemma RIB0(b: int) requires 0xB0 <= b < 0xC0 ensures MpbbR(MpbbI(b)) == b {}
  lemma RIC0(b: int) requires 0xC0 <= b < 0xD0 ensures MpbbR(MpbbI(b)) == b {}
  lemma RID0(b: int) requires 0xD0 <= b < 0xE0 ensures MpbbR(MpbbI(b)) == b {}
  lemma RIE0(b: int) requires 0xE0 <= b < 0xF0 ensures MpbbR(MpbbI(b)) == b {}
  lemma RIF0(b: int) requires 0xF0 <= b < 0x100 ensures MpbbR(MpbbI(b)) == b {}

  lemma SS00(b: int) requires 0x00 <= b < 0x10 ensures MpbbS(MpbbS(b)) == b {}
  lemma SS10(b: int) requires 0x10 <= b < 0x20 ensures MpbbS(MpbbS(b)) == b {}
  lemma SS20(b: int) requires 0x20 <= b < 0x30 ensures MpbbS(MpbbS(b)) == b {}
  lemma SS30(b: int) requires 0x30 <= b < 0x40 ensures MpbbS(MpbbS(b)) == b {}
  lemma SS40(b: int) requires 0x40 <= b < 0x50 ensures MpbbS(MpbbS(b)) == b {}
  lemma SS50(b: int) requires 0x50 <= b < 0x60 ensures MpbbS(MpbbS(b)) == b {}
  lemma SS60(b: int) requires 0x60 <= b < 0x70 ensures MpbbS(MpbbS(b)) == b {}
  lemma SS70(b: int) requires 0x70 <= b < 0x80 ensures MpbbS(MpbbS(b)) == b {}
  lemma SS80(b: int) requires 0x80 <= b < 0x90 ensures MpbbS(MpbbS(b)) == b {}
  lemma SS90(b: int) requires 0x90 <= b < 0xA0 ensures MpbbS(MpbbS(b)) == b {}
  lemma SSA0(b: int) requires 0xA0 <= b < 0xB0 ensures MpbbS(MpbbS(b)) == b {}
  lemma SSB0(b: int) requires 0xB0 <= b < 0xC0 ensures MpbbS(MpbbS(b)) == b {}
  lemma SSC0(b: int) requires 0xC0 <= b < 0xD0 ensures MpbbS(MpbbS(b)) == b {}
  lemma SSD0(b: int) requires 0xD0 <= b < 0xE0 ensures MpbbS(MpbbS(b)) == b {}
  lemma SSE0(b: int) requires 0xE0 <= b < 0xF0 ensures MpbbS(MpbbS(b)) == b {}
  lemma SSF0(b: int) requires 0xF0 <= b < 0x100 ensures MpbbS(MpbbS(b)) == b {}

  /** Decryption undoes encryption. */
  lemma DecryptsEncrypted(b: int)
    requires 0 <= b < 0x100
    ensures MpbbI(MpbbR(b)) == b
  {
    hide MpbbI, MpbbR;
    if b < 0x10 { IR00(b); }
    else if b < 0x20 { IR10(b); }
    else if b < 0x30 { IR20(b); }
    else if b < 0x40 { IR30(b); }
    else if b < 0x50 { IR40(b); }
    else if b < 0x60 { IR50(b); }
    else if b < 0x70 { IR60(b); }
    else if b < 0x80 { IR70(b); }
    else if b < 0x90 { IR80(b); }
    else if b < 0xA0 { IR90(b); }
    else if b < 0xB0 { IRA0(b); }
    else if b < 0xC0 { IRB0(b); }
    else if b < 0xD0 { IRC0(b); }
    else if b < 0xE0 { IRD0(b); }
    else if b < 0xF0 { IRE0(b); }
    else { IRF0(b); }
  }

  /** Encryption undoes decryption. */
  lemma EncryptsDecrypted(b: int)
    requires 0 <= b < 0x100
    ensures MpbbR(MpbbI(b)) == b
  {
    hide MpbbR, MpbbI;
    if b < 0x10 { RI00(b); }
    else if b < 0x20 { RI10(b); }
    else if b < 0x30 { RI20(b); }
    else if b < 0x40 { RI30(b); }
    else if b < 0x50 { RI40(b); }
    else if b < 0x60 { RI50(b); }
    else if b < 0x70 { RI60(b); }
    else if b < 0x80 { RI70(b); }
    else if b < 0x90 { RI80(b); }
    else if b < 0xA0 { RI90(b); }
    else if b < 0xB0 { RIA0(b); }
    else if b < 0xC0 { RIB0(b); }
    else if b < 0xD0 { RIC0(b); }
    else if b < 0xE0 { RID0(b); }
    else if b < 0xF0 { RIE0(b); }
    else { RIF0(b); }
  }

  /** Mixing is its own inverse. */
  lemma MixesTwice(b: int)
    requires 0 <= b < 0x100
    ensures MpbbS(MpbbS(b)) == b
  {
    hide MpbbS;
    if b < 0x10 { SS00(b); }
    else if b < 0x20 { SS10(b); }
    else if b < 0x30 { SS20(b); }
    else if b < 0x40 { SS30(b); }
    else if b < 0x50 { SS40(b); }
    else if b < 0x60 { SS50(b); }
    else if b < 0x70 { SS60(b); }
    else if b < 0x80 { SS70(b); }
    else if b < 0x90 { SS80(b); }
    else if b < 0xA0 { SS90(b); }
    else if b < 0xB0 { SSA0(b); }
    else if b < 0xC0 { SSB0(b); }
    else if b < 0xD0 { SSC0(b); }
    else if b < 0xE0 { SSD0(b); }
    else if b < 0xF0 { SSE0(b); }
    else { SSF0(b); }
  }
}
