/** Values fixed by the standards and by the sources: what the constants, encodings,
    the checksum and the cipher must come to. */
module KnownAnswers {
  import opened Bytes
  import opened Text
  import opened ZipCrypto
  import opened Zip
  import Framing
  import Trace
  import Env
  import Reply
  import Classify
  import Client
  import FakeServer

  // ---- constants, words and integers -------------------------------------------------

  lemma Limits()
    ensures Framing.MAX_CHUNK_SIZE == 16 * 1024 * 1024 && Framing.DEFAULT_CHUNK_SIZE == 32 * 1024
    ensures Trace.MAX_EMPTY_READS == 100 && Reply.MAX_LINE_RESPONSE == 4096
    ensures Client.RECOVERY_TIMEOUT == 2 * 1000 * 1000 * 1000 && Env.ABORT_DEADLINE == 1000 * 1000 * 1000
    ensures WHITESPACE == {9, 10, 11, 12, 13, 0x20} && END_OF_LINE == {13, 10} && Classify.TRAILING == {0x20, 9, 13, 10, 0}
    ensures FakeServer.MAX_FAKE_CHUNK == 64 * 1024 * 1024 && FakeServer.MAX_COMMAND == 129
  {
  }

  /** The command as it is sent, and the replies the classifier knows. */
  lemma Words()
    ensures Framing.EncodeCommand(Framing.INSTREAM) == Ascii("z") + Ascii("INSTREAM") + [0]
    ensures Classify.OK == Ascii("OK") && Classify.STREAM_OK == Ascii("stream: OK") && Classify.FOUND == Ascii(" FOUND")
    ensures Framing.ERROR == Ascii(" ERROR") && Classify.ERROR_WORD == Ascii("ERROR")
    ensures FakeServer.LIMIT_REPLY
         == Ascii("INSTREAM") + Ascii(" ") + Ascii("size limit exceeded") + Ascii(".") + Ascii(" ERROR") + [0]
  {
    InstreamWord();
    assert Ascii("z") == [0x7a] && Ascii(" ") == [0x20] && Ascii(".") == [0x2e];
    hide Ascii, Framing.INSTREAM;
  }

  lemma InstreamWord()
    ensures Framing.INSTREAM == Ascii("INSTREAM")
  {
  }

  lemma ByteOrder()
    ensures Be32(0x01020304) == [1, 2, 3, 4] && U32Be([1, 2, 3, 4]) == 0x01020304
    ensures Le32(0x01020304) == [4, 3, 2, 1] && U32At([4, 3, 2, 1], 0) == 0x01020304
    ensures Le16(0x0102) == [2, 1] && U16At([2, 1], 0) == 0x0102
  {
  }

  // ---- exclusive or, digit by digit ----------------------------------------------------

  type hex = x: nat | x < 16

  function XorDigit(x: hex, y: hex): hex {
    var x3, y3 := if x >= 8 then 1 else 0, if y >= 8 then 1 else 0;
    var x', y' := x - 8 * x3, y - 8 * y3;
    var x2, y2 := if x' >= 4 then 1 else 0, if y' >= 4 then 1 else 0;
    var x'', y'' := x' - 4 * x2, y' - 4 * y2;
    var x1, y1 := if x'' >= 2 then 1 else 0, if y'' >= 2 then 1 else 0;
    (if x3 == y3 then 0 else 8) + (if x2 == y2 then 0 else 4) + (if x1 == y1 then 0 else 2)
    + (if x'' - 2 * x1 == y'' - 2 * y1 then 0 else 1)
  }

  lemma XorBit(x: nat, y: nat, a: nat, b: nat)
    requires x < 2 && y < 2
    ensures Xor(x + 2 * a, y + 2 * b) == (if x == y then 0 else 1) + 2 * Xor(a, b)
  {
    Halves(x, a);
    Halves(y, b);
  }

  lemma XorFourBits(x3: nat, x2: nat, x1: nat, x0: nat, a: nat, y3: nat, y2: nat, y1: nat, y0: nat, b: nat)
    requires x3 < 2 && x2 < 2 && x1 < 2 && x0 < 2 && y3 < 2 && y2 < 2 && y1 < 2 && y0 < 2
    ensures Xor(8 * x3 + 4 * x2 + 2 * x1 + x0 + 16 * a, 8 * y3 + 4 * y2 + 2 * y1 + y0 + 16 * b)
         == (if x3 == y3 then 0 else 8) + (if x2 == y2 then 0 else 4) + (if x1 == y1 then 0 else 2)
            + (if x0 == y0 then 0 else 1) + 16 * Xor(a, b)
  {
    hide Xor;
    XorBit(x3, y3, a, b);
    XorBit(x2, y2, x3 + 2 * a, y3 + 2 * b);
    XorBit(x1, y1, x2 + 2 * (x3 + 2 * a), y2 + 2 * (y3 + 2 * b));
    XorBit(x0, y0, x1 + 2 * (x2 + 2 * (x3 + 2 * a)), y1 + 2 * (y2 + 2 * (y3 + 2 * b)));
  }

  lemma XorHex(a: nat, x: hex, b: nat, y: hex)
    ensures Xor(x + 16 * a, y + 16 * b) == XorDigit(x, y) + 16 * Xor(a, b)
  {
    hide Xor;
    var x3, y3 := if x >= 8 then 1 else 0, if y >= 8 then 1 else 0;
    var x', y' := x - 8 * x3, y - 8 * y3;
    var x2, y2 := if x' >= 4 then 1 else 0, if y' >= 4 then 1 else 0;
    var x'', y'' := x' - 4 * x2, y' - 4 * y2;
    var x1, y1 := if x'' >= 2 then 1 else 0, if y'' >= 2 then 1 else 0;
    XorFourBits(x3, x2, x1, x'' - 2 * x1, a, y3, y2, y1, y'' - 2 * y1, b);
  }

  function Word(h: hex, g: hex, f: hex, e: hex, d: hex, c: hex, b: hex, a: hex): nat {
    a + 16 * (b + 16 * (c + 16 * (d + 16 * (e + 16 * (f + 16 * (g + 16 * h))))))
  }

  /** The exclusive or of two words written in hexadecimal. */
  lemma XorWord(h: hex, g: hex, f: hex, e: hex, d: hex, c: hex, b: hex, a: hex,
                h': hex, g': hex, f': hex, e': hex, d': hex, c': hex, b': hex, a': hex)
    ensures Xor(Word(h, g, f, e, d, c, b, a), Word(h', g', f', e', d', c', b', a'))
         == Word(XorDigit(h, h'), XorDigit(g, g'), XorDigit(f, f'), XorDigit(e, e'),
                 XorDigit(d, d'), XorDigit(c, c'), XorDigit(b, b'), XorDigit(a, a'))
  {
    hide Xor, XorDigit;
    var h1, h1' := g + 16 * h, g' + 16 * h';
    var h2, h2' := f + 16 * h1, f' + 16 * h1';
    var h3, h3' := e + 16 * h2, e' + 16 * h2';
    var h4, h4' := d + 16 * h3, d' + 16 * h3';
    var h5, h5' := c + 16 * h4, c' + 16 * h4';
    var h6, h6' := b + 16 * h5, b' + 16 * h5';
    XorHex(h6, a, h6', a');
    XorHex(h5, b, h5', b');
    XorHex(h4, c, h4', c');
    XorHex(h3, d, h3', d');
    XorHex(h2, e, h2', e');
    XorHex(h1, f, h1', f');
    XorHex(h, g, h', g');
    XorHex(0, h, 0, h');
    XorZero();
  }

  lemma XorZero()
    ensures Xor(0, 0) == 0
  {
  }

  // ---- the checksum ------------------------------------------------------------------------

  lemma CrcStep(c: word, n: nat, next: word)
    requires next == if c % 2 == 1 then Xor(c / 2, 0xedb88320) else c / 2
    ensures CrcBits(c, n + 1) == CrcBits(next, n)
  {
  }

  lemma CrcNoBits(c: word)
    ensures CrcBits(c, 0) == c
  {
  }

  lemma Xor1()
    ensures Xor(0xc, 0xedb88320) == 0xedb8832c
  {
    hide Xor;
    XorWord(0, 0, 0, 0, 0, 0, 0, 0xc, 0xe, 0xd, 0xb, 8, 8, 3, 2, 0);
  }

  lemma Xor2()
    ensures Xor(0x1db71065, 0xedb88320) == 0xf00f9345
  {
    hide Xor;
    XorWord(1, 0xd, 0xb, 7, 1, 0, 6, 5, 0xe, 0xd, 0xb, 8, 8, 3, 2, 0);
  }

  lemma Xor3()
    ensures Xor(0x7807c9a2, 0xedb88320) == 0x95bf4a82
  {
    hide Xor;
    XorWord(7, 8, 0, 7, 0xc, 9, 0xa, 2, 0xe, 0xd, 0xb, 8, 8, 3, 2, 0);
  }

  lemma Xor4()
    ensures Xor(0x256fd2a0, 0xedb88320) == 0xc8d75180
  {
    hide Xor;
    XorWord(2, 5, 6, 0xf, 0xd, 2, 0xa, 0, 0xe, 0xd, 0xb, 8, 8, 3, 2, 0);
  }

  lemma Xor5()
    ensures Xor(0x11, 0xedb88320) == 0xedb88331
  {
    hide Xor;
    XorWord(0, 0, 0, 0, 0, 0, 1, 1, 0xe, 0xd, 0xb, 8, 8, 3, 2, 0);
  }

  lemma Xor6()
    ensures Xor(0x76dc4198, 0xedb88320) == 0x9b64c2b8
  {
    hide Xor;
    XorWord(7, 6, 0xd, 0xc, 4, 1, 9, 8, 0xe, 0xd, 0xb, 8, 8, 3, 2, 0);
  }

  lemma Xor7()
    ensures Xor(0x9b64c2b, 0xedb88320) == 0xe40ecf0b
  {
    hide Xor;
    XorWord(0, 9, 0xb, 6, 4, 0xc, 2, 0xb, 0xe, 0xd, 0xb, 8, 8, 3, 2, 0);
  }

  lemma Xor8()
    ensures Xor(0x72076785, 0xedb88320) == 0x9fbfe4a5
  {
    hide Xor;
    XorWord(7, 2, 0, 7, 6, 7, 8, 5, 0xe, 0xd, 0xb, 8, 8, 3, 2, 0);
  }

  lemma Xor9()
    ensures Xor(0x4fdff252, 0xedb88320) == 0xa2677172
  {
    hide Xor;
    XorWord(4, 0xf, 0xd, 0xf, 0xf, 2, 5, 2, 0xe, 0xd, 0xb, 8, 8, 3, 2, 0);
  }

  lemma Xor10()
    ensures Xor(0xff, 0xe6) == 0x19
  {
    hide Xor;
    XorWord(0, 0, 0, 0, 0, 0, 0xf, 0xf, 0, 0, 0, 0, 0, 0, 0xe, 6);
  }

  lemma Xor11()
    ensures Xor(0x646ba8c0, 0xffffff) == 0x6494573f
  {
    hide Xor;
    XorWord(6, 4, 6, 0xb, 0xa, 8, 0xc, 0, 0, 0, 0xf, 0xf, 0xf, 0xf, 0xf, 0xf);
  }

  lemma Xor12()
    ensures Xor(0x78, 0x61) == 0x19
  {
    hide Xor;
    XorWord(0, 0, 0, 0, 0, 0, 7, 8, 0, 0, 0, 0, 0, 0, 6, 1);
  }

  lemma Xor13()
    ensures Xor(0x646ba8c0, 0x123456) == 0x64799c96
  {
    hide Xor;
    XorWord(6, 4, 6, 0xb, 0xa, 8, 0xc, 0, 0, 0, 1, 2, 3, 4, 5, 6);
  }

  lemma Xor14()
    ensures Xor(0x90, 0xb3) == 0x23
  {
    hide Xor;
    XorWord(0, 0, 0, 0, 0, 0, 9, 0, 0, 0, 0, 0, 0, 0, 0xb, 3);
  }

  lemma Xor15()
    ensures Xor(0xa2677172, 0x345678) == 0xa253270a
  {
    hide Xor;
    XorWord(0xa, 2, 6, 7, 7, 1, 7, 2, 0, 0, 3, 4, 5, 6, 7, 8);
  }

  lemma Xor16()
    ensures Xor(0x1, 0x33) == 0x32
  {
    hide Xor;
    XorWord(0, 0, 0, 0, 0, 0, 0, 1, 0, 0, 0, 0, 0, 0, 3, 3);
  }

  lemma CrcEntry19()
    ensures CrcBits(0x19, 8) == 0x646ba8c0
  {
    hide Xor, CrcBits;
    Xor1();
    Xor2();
    Xor3();
    Xor4();
    CrcStep(0x19, 7, 0xedb8832c);
    CrcStep(0xedb8832c, 6, 0x76dc4196);
    CrcStep(0x76dc4196, 5, 0x3b6e20cb);
    CrcStep(0x3b6e20cb, 4, 0xf00f9345);
    CrcStep(0xf00f9345, 3, 0x95bf4a82);
    CrcStep(0x95bf4a82, 2, 0x4adfa541);
    CrcStep(0x4adfa541, 1, 0xc8d75180);
    CrcStep(0xc8d75180, 0, 0x646ba8c0);
    CrcNoBits(0x646ba8c0);
  }

  lemma CrcEntry23()
    ensures CrcBits(0x23, 8) == 0xa2677172
  {
    hide Xor, CrcBits;
    Xor5();
    Xor6();
    Xor7();
    Xor8();
    Xor9();
    CrcStep(0x23, 7, 0xedb88331);
    CrcStep(0xedb88331, 6, 0x9b64c2b8);
    CrcStep(0x9b64c2b8, 5, 0x4db2615c);
    CrcStep(0x4db2615c, 4, 0x26d930ae);
    CrcStep(0x26d930ae, 3, 0x136c9857);
    CrcStep(0x136c9857, 2, 0xe40ecf0b);
    CrcStep(0xe40ecf0b, 1, 0x9fbfe4a5);
    CrcStep(0x9fbfe4a5, 0, 0xa2677172);
    CrcNoBits(0xa2677172);
  }

  /** The CRC-32 of the byte e6. */
  lemma ChecksumOfByte()
    ensures Crc32([0xe6]) == 0x9b6ba8c0
  {
    hide Xor, CrcBits;
    assert [0xe6][..0] == [];
    Xor10();
    CrcEntry19();
    Xor11();
  }

  // ---- the cipher ----------------------------------------------------------------------------

  lemma FirstKey()
    ensures CrcShift(0x12345678, 0x61) == 0x64799c96
  {
    hide Xor, CrcBits;
    Xor12();
    CrcEntry19();
    Xor13();
  }

  lemma ThirdKey()
    ensures CrcShift(0x34567890, 0xb3) == 0xa253270a
  {
    hide Xor, CrcBits;
    Xor14();
    CrcEntry23();
    Xor15();
  }

  /** The key state after the letter a. */
  lemma KeysAfterA()
    ensures Updated(INITIAL, 0x61) == Keys(0x64799c96, 0xb303049c, 0xa253270a)
  {
    hide CrcShift;
    FirstKey();
    ThirdKey();
  }

  lemma {:induction false} OrNothing(a: nat)
    ensures Or(a, 0) == a
    decreases a
  {
    if a > 0 {
      OrNothing(a / 2);
    }
  }

  lemma {:induction false} XorNothing(a: nat)
    ensures Xor(a, 0) == a
    decreases a
  {
    if a > 0 {
      XorNothing(a / 2);
    }
  }

  /** The keystream byte in plain arithmetic: the low half of k2 with its second bit
      set, times the same with its first bit flipped. */
  lemma StreamByteInNumbers(k: Keys)
    ensures var low := k.k2 % 0x10000;
            var t := if low / 2 % 2 == 1 then low else low + 2;
            StreamByte(k) == t * (if t % 2 == 0 then t + 1 else t - 1) / 0x100 % 0x100
  {
    var low := k.k2 % 0x10000;
    var t := if low / 2 % 2 == 1 then low else low + 2;
    OrNothing(low / 2 / 2);
    assert Or(low, 2) == t by {
      assert Or(low / 2, 1) == 1 + 2 * Or(low / 2 / 2, 0);
    }
    XorNothing(t / 2);
    assert Xor(t, 1) == if t % 2 == 0 then t + 1 else t - 1;
    StreamByteDoesNotWrap(k);
  }

  /** The first byte of what the password a makes of the standard header. */
  lemma FirstStoredByte()
    ensures Encrypted(KeysAfter(INITIAL, [0x61]), [1]) == [0x32]
  {
    hide Xor, Updated, StreamByte;
    assert [0x61][..0] == [] && [1][..0] == [];
    KeysAfterA();
    StreamByteInNumbers(Updated(INITIAL, 0x61));
    assert StreamByte(Updated(INITIAL, 0x61)) == 0x33;
    Xor16();
  }

  // ---- an archive ------------------------------------------------------------------------------

  const BYTE_ENTRY := ZipEntry([0x61], [0xe6], [], false)

  lemma HeaderNumbers()
    ensures Le32(LOCAL_SIGNATURE) == [0x50, 0x4b, 3, 4] && Le32(CENTRAL_SIGNATURE) == [0x50, 0x4b, 1, 2]
    ensures Le32(END_SIGNATURE) == [0x50, 0x4b, 5, 6] && Le32(0x9b6ba8c0) == [0xc0, 0xa8, 0x6b, 0x9b]
    ensures Le16(0) == [0, 0] && Le16(1) == [1, 0] && Le16(20) == [20, 0] && Le16(0x21) == [0x21, 0]
    ensures Le32(0) == [0, 0, 0, 0] && Le32(1) == [1, 0, 0, 0]
    ensures Le32(32) == [32, 0, 0, 0] && Le32(47) == [47, 0, 0, 0]
  {
  }

  const CHECKSUM: word := 0x9b6ba8c0

  const SHARED: bytes :=
    [0x00, 0x00, 0x00, 0x00, 0x00, 0x00, 0x21, 0x00, 0xc0, 0xa8, 0x6b, 0x9b, 0x01, 0x00, 0x00, 0x00,
     0x01, 0x00, 0x00, 0x00, 0x01, 0x00]

  lemma SmallShared()
    ensures SharedFields(0, 0, CHECKSUM, 1, 1, 1) == SHARED
  {
    HeaderNumbers();
    hide Le16, Le32;
  }

  lemma SmallHeaders()
    ensures LocalHeader(0, 0, CHECKSUM, 1, 1, 1) == [0x50, 0x4b, 3, 4, 20, 0] + SHARED + [0, 0]
    ensures CentralHeader(0, 0, CHECKSUM, 1, 1, 1, 0)
         == [0x50, 0x4b, 1, 2, 20, 0, 20, 0] + SHARED + [0, 0, 0, 0, 0, 0, 0, 0, 0, 0, 0, 0, 0, 0, 0, 0]
    ensures EndRecord(1, 47, 32) == [0x50, 0x4b, 5, 6, 0, 0, 0, 0, 1, 0, 1, 0, 47, 0, 0, 0, 32, 0, 0, 0, 0, 0]
  {
    HeaderNumbers();
    SmallShared();
    hide Le16, Le32, SharedFields, SHARED;
  }

  /** The archive of one stored entry, named a and holding the byte e6, in full. */
  lemma SmallArchive(deflate: Codec)
    ensures Encodable([BYTE_ENTRY], deflate)
    ensures Archive([BYTE_ENTRY], deflate)
         == [0x50, 0x4b, 3, 4, 20, 0] + SHARED + [0, 0] + [0x61] + [0xe6]
            + [0x50, 0x4b, 1, 2, 20, 0, 20, 0] + SHARED + [0, 0, 0, 0, 0, 0, 0, 0, 0, 0, 0, 0, 0, 0, 0, 0] + [0x61]
            + [0x50, 0x4b, 5, 6, 0, 0, 0, 0, 1, 0, 1, 0, 47, 0, 0, 0, 32, 0, 0, 0, 0, 0]
  {
    ChecksumOfByte();
    SmallHeaders();
    hide Crc32, SharedFields, LocalHeader, CentralHeader, EndRecord, SHARED;
    assert [BYTE_ENTRY][..0] == [];
    assert BodyLength([], deflate) == 0 && CentralLength([]) == 0;
  }
}
