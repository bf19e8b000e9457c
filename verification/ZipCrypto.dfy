/** The PKWARE traditional cipher (APPNOTE.TXT section 6.1) and the CRC-32 it is
    built on. Words are naturals below 2^32; every wrap-around is written out. */
module ZipCrypto {
  import opened Bytes

  type word = w: int | 0 <= w < 0x1_0000_0000

  // ---- CRC-32 (IEEE 802.3, reflected) -----------------------------------------

  const POLYNOMIAL: word := 0xedb8_8320

  function CrcBits(c: word, n: nat): word
    decreases n
  {
    if n == 0 then c
    else CrcBits(if c % 2 == 1 then Xor32(c / 2, POLYNOMIAL) else c / 2, n - 1)
  }

  /** One byte pushed through the CRC register. */
  function CrcShift(crc: word, b: byte): word {
    Xor32(CrcBits(XorByte(crc % TWO_8, b), 8), crc / TWO_8)
  }

  function CrcFold(crc: word, data: bytes): word {
    if data == [] then crc else CrcShift(CrcFold(crc, data[..|data| - 1]), data[|data| - 1])
  }

  /** The IEEE checksum of `data`. */
  function Crc32(data: bytes): word {
    0xffff_ffff - CrcFold(0xffff_ffff, data)
  }

  // ---- the cipher as functions of the key state --------------------------------

  datatype Keys = Keys(k0: word, k1: word, k2: word)

  const INITIAL := Keys(0x1234_5678, 0x2345_6789, 0x3456_7890)

  function Updated(k: Keys, plain: byte): Keys {
    var k0 := CrcShift(k.k0, plain);
    var k1 := ((k.k1 + k0 % TWO_8) % TWO_32 * 134775813 + 1) % TWO_32;
    Keys(k0, k1, CrcShift(k.k2, k1 / 0x100_0000))
  }

  /** The two factors whose product yields the next keystream byte. */
  function Factors(k2: word): (t: (nat, nat))
    ensures t.0 < TWO_16 && t.1 < TWO_16
  {
    Widths();
    BitsBounded(k2 % TWO_16, 2, 16);
    BitsBounded(Or(k2 % TWO_16, 2), 1, 16);
    (Or(k2 % TWO_16, 2), Xor(Or(k2 % TWO_16, 2), 1))
  }

  function StreamByte(k: Keys): byte {
    SecondByte(Factors(k.k2).0 * Factors(k.k2).1 % TWO_32)
  }

  function SecondByte(n: nat): byte {
    n / TWO_8 % TWO_8
  }

  /** The 32-bit multiplication in the keystream never wraps, so the byte it
      yields is that of the mathematical product. */
  lemma StreamByteDoesNotWrap(k: Keys)
    ensures Factors(k.k2).0 * Factors(k.k2).1 < TWO_32
    ensures StreamByte(k) == SecondByte(Factors(k.k2).0 * Factors(k.k2).1)
  {
    hide Factors, SecondByte;
    ProductBelow(Factors(k.k2).0, Factors(k.k2).1);
  }

  lemma ProductBelow(a: nat, b: nat)
    requires a < TWO_16 && b < TWO_16
    ensures 0 <= a * b < TWO_32
    ensures a * b % TWO_32 == a * b
  {
    MultiplyMonotone(a, b, TWO_16);
    SmallRemainder(a * b);
  }

  lemma SmallRemainder(p: nat)
    requires p < TWO_32
    ensures p % TWO_32 == p
  {
  }

  /** The key state after the plaintext `plain`: it depends on nothing else. */
  function KeysAfter(k: Keys, plain: bytes): Keys {
    if plain == [] then k
    else Updated(KeysAfter(k, plain[..|plain| - 1]), plain[|plain| - 1])
  }

  function Encrypted(k: Keys, plain: bytes): (cipher: bytes)
    ensures |cipher| == |plain|
  {
    if plain == [] then []
    else
      var front := plain[..|plain| - 1];
      Encrypted(k, front) + [XorByte(plain[|plain| - 1], StreamByte(KeysAfter(k, front)))]
  }

  function Decrypted(k: Keys, cipher: bytes): (plain: bytes)
    ensures |plain| == |cipher|
  {
    if cipher == [] then []
    else
      var front := Decrypted(k, cipher[..|cipher| - 1]);
      front + [XorByte(cipher[|cipher| - 1], StreamByte(KeysAfter(k, front)))]
  }

  lemma {:induction false} DecryptUndoesEncrypt(k: Keys, plain: bytes)
    ensures Decrypted(k, Encrypted(k, plain)) == plain
  {
    hide StreamByte, Updated, Xor;
    if plain != [] {
      var n := |plain| - 1;
      DecryptUndoesEncrypt(k, plain[..n]);
      assert Encrypted(k, plain)[..n] == Encrypted(k, plain[..n]);
      XorCancels(plain[n], StreamByte(KeysAfter(k, plain[..n])));
    }
  }

  lemma {:induction false} EncryptUndoesDecrypt(k: Keys, cipher: bytes)
    ensures Encrypted(k, Decrypted(k, cipher)) == cipher
  {
    hide StreamByte, Updated, Xor;
    if cipher != [] {
      var n := |cipher| - 1;
      EncryptUndoesDecrypt(k, cipher[..n]);
      var front := Decrypted(k, cipher[..n]);
      var plain, s := Decrypted(k, cipher), StreamByte(KeysAfter(k, front));
      assert plain == front + [XorByte(cipher[n], s)];
      assert plain[..n] == front && plain[n] == XorByte(cipher[n], s);
      XorCancels(cipher[n], s);
      assert Encrypted(k, plain) == cipher[..n] + [cipher[n]];
    }
  }

  /** Encrypting a concatenation threads the key state through the first part. */
  lemma {:induction false} EncryptThreadsKeys(k: Keys, a: bytes, b: bytes)
    ensures KeysAfter(k, a + b) == KeysAfter(KeysAfter(k, a), b)
    ensures Encrypted(k, a + b) == Encrypted(k, a) + Encrypted(KeysAfter(k, a), b)
  {
    hide StreamByte, Updated, XorByte;
    if b == [] {
      assert a + b == a;
    } else {
      var front, last := b[..|b| - 1], b[|b| - 1];
      EncryptThreadsKeys(k, a, front);
      assert (a + b)[..|a + b| - 1] == a + front && (a + b)[|a + b| - 1] == last;
      var c := XorByte(last, StreamByte(KeysAfter(k, a + front)));
      assert Encrypted(k, a + b) == Encrypted(k, a + front) + [c];
      assert Encrypted(KeysAfter(k, a), b) == Encrypted(KeysAfter(k, a), front) + [c];
    }
  }

  // ---- the cipher as the object that rolls its keys -----------------------------

  class Cipher {
    var k0: word
    var k1: word
    var k2: word

    ghost function State(): Keys
      reads this
    {
      Keys(k0, k1, k2)
    }

    constructor (password: bytes)
      ensures State() == KeysAfter(INITIAL, password)
    {
      k0, k1, k2 := 0x1234_5678, 0x2345_6789, 0x3456_7890;
      new;
      for i := 0 to |password|
        invariant State() == KeysAfter(INITIAL, password[..i])
      {
        Update(password[i]);
        assert password[..i + 1][..i] == password[..i];
      }
      assert password[..|password|] == password;
    }

    method Update(plain: byte)
      modifies this
      ensures State() == Updated(old(State()), plain)
    {
      hide CrcShift;
      k0 := CrcShift(k0, plain);
      k1 := ((k1 + k0 % TWO_8) % TWO_32 * 134775813 + 1) % TWO_32;
      k2 := CrcShift(k2, k1 / 0x100_0000);
    }

    method Encrypt(plain: bytes) returns (cipher: bytes)
      modifies this
      ensures cipher == Encrypted(old(State()), plain)
      ensures State() == KeysAfter(old(State()), plain)
    {
      hide StreamByte, XorByte, CrcShift, Updated;
      var out := new byte[|plain|](_ => 0);
      for i := 0 to |plain|
        invariant State() == KeysAfter(old(State()), plain[..i])
        invariant out[..i] == Encrypted(old(State()), plain[..i])
      {
        assert plain[..i + 1][..i] == plain[..i];
        out[i] := XorByte(plain[i], StreamByte(Keys(k0, k1, k2)));
        Update(plain[i]);
        assert out[..i + 1] == out[..i] + [out[i]];
      }
      assert plain[..|plain|] == plain;
      cipher := out[..];
    }

    method Decrypt(cipher: bytes) returns (plain: bytes)
      modifies this
      ensures plain == Decrypted(old(State()), cipher)
      ensures State() == KeysAfter(old(State()), plain)
    {
      hide StreamByte, XorByte, CrcShift, Updated;
      var out := new byte[|cipher|](_ => 0);
      for i := 0 to |cipher|
        invariant State() == KeysAfter(old(State()), out[..i])
        invariant out[..i] == Decrypted(old(State()), cipher[..i])
      {
        assert cipher[..i + 1][..i] == cipher[..i];
        var p := XorByte(cipher[i], StreamByte(Keys(k0, k1, k2)));
        Update(p);
        out[i] := p;
        assert out[..i + 1] == out[..i] + [p];
        assert out[..i + 1][..i] == out[..i];
      }
      assert cipher[..|cipher|] == cipher;
      plain := out[..];
    }
  }
}
