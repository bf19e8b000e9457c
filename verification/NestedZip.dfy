/** Archives inside archives: each layer stores the previous one as its only entry. */
module NestedZip {
  import opened Bytes
  import opened ZipCrypto
  import opened Zip
  import opened ZipReader

  function Decimal(n: nat): bytes {
    if n < 10 then [0x30 + n] else Decimal(n / 10) + [0x30 + n % 10]
  }

  function LevelName(i: nat): bytes {
    Ascii("level") + Decimal(i) + Ascii(".zip")
  }

  function Plain(name: bytes, data: bytes): ZipEntry {
    ZipEntry(name, data, [], false)
  }

  /** What the writer makes of one stored entry: None where it panics. */
  function Layer(name: bytes, data: bytes, deflate: Codec): Option<bytes> {
    var es := [Plain(name, data)];
    if Encodable(es, deflate) then Some(Archive(es, deflate)) else None
  }

  /** `extra` layers around the innermost archive. */
  function Nested(extra: nat, name: bytes, data: bytes, deflate: Codec): Option<bytes> {
    if extra == 0 then Layer(name, data, deflate)
    else
      var inner := Nested(extra - 1, name, data, deflate);
      if inner.None? then None else Layer(LevelName(extra), inner.value, deflate)
  }

  method Build(depth: int, name: bytes, data: bytes, deflate: Codec) returns (cur: Option<bytes>)
    ensures cur == Nested(Max(depth, 1) - 1, name, data, deflate)
  {
    hide Encodable, Archive, LevelName;
    cur := BuildZip([Plain(name, data)], deflate);
    var i := 1;
    while i < depth && cur.Some?
      invariant 1 <= i <= Max(depth, 1)
      invariant cur == Nested(i - 1, name, data, deflate)
      decreases depth - i
    {
      cur := BuildZip([Plain(LevelName(i), cur.value)], deflate);
      i := i + 1;
    }
    if cur.None? {
      NoneStays(i - 1, Max(depth, 1) - 1, name, data, deflate);
    }
  }

  lemma {:induction false} NoneStays(i: nat, n: nat, name: bytes, data: bytes, deflate: Codec)
    requires i <= n && Nested(i, name, data, deflate).None?
    ensures Nested(n, name, data, deflate).None?
    decreases n - i
  {
    if i < n {
      NoneStays(i + 1, n, name, data, deflate);
    }
  }

  /** Opens `layers` archives, each of which must hold exactly one entry. */
  function Unwrap(a: bytes, layers: nat, inflate: Codec): Option<(bytes, bytes)>
    requires layers > 0
    decreases layers
  {
    var entries := ReadZip(a, [[]], inflate);
    if entries.None? || |entries.value| != 1 then None
    else if layers == 1 then Some((entries.value[0].name, entries.value[0].payload))
    else Unwrap(entries.value[0].payload, layers - 1, inflate)
  }

  lemma LayerReads(name: bytes, data: bytes, deflate: Codec, inflate: Codec)
    requires Layer(name, data, deflate).Some?
    ensures ReadZip(Layer(name, data, deflate).value, [[]], inflate) == Some([Unpacked(Plain(name, data))])
    ensures |Layer(name, data, deflate).value| == 98 + 2 * |name| + |data|
  {
    hide ReadZip, Archive, Unpacked;
    var es := [Plain(name, data)];
    ReadUndoesBuild(es, deflate, inflate);
    assert Passwords(es) == [[]] && AllUnpacked(es) == [Unpacked(es[0])];
    assert es[..0] == [] && BodyLength([], deflate) == 0 && CentralLength([]) == 0;
  }

  /** Unwrapping as many layers as were built yields the original file. */
  lemma {:induction false} UnwrapUndoesNested(extra: nat, name: bytes, data: bytes, deflate: Codec, inflate: Codec)
    requires Nested(extra, name, data, deflate).Some?
    ensures Unwrap(Nested(extra, name, data, deflate).value, extra + 1, inflate) == Some((name, data))
  {
    hide Layer, ReadZip, Crc32, LevelName;
    if extra == 0 {
      LayerReads(name, data, deflate, inflate);
    } else {
      var inner := Nested(extra - 1, name, data, deflate).value;
      LayerReads(LevelName(extra), inner, deflate, inflate);
      UnwrapUndoesNested(extra - 1, name, data, deflate, inflate);
    }
  }

  function DecimalValue(b: bytes): int {
    if b == [] then 0 else 10 * DecimalValue(b[..|b| - 1]) + (b[|b| - 1] as int - 0x30)
  }

  /** The digits of a number read back as it, with no leading zero. */
  lemma {:induction false} DecimalReads(n: nat)
    ensures Decimal(n) != [] && DecimalValue(Decimal(n)) == n
    ensures forall i | 0 <= i < |Decimal(n)| :: 0x30 <= Decimal(n)[i] <= 0x39
    ensures n > 0 ==> Decimal(n)[0] != 0x30
  {
    if n >= 10 {
      DecimalReads(n / 10);
      assert Decimal(n)[..|Decimal(n)| - 1] == Decimal(n / 10);
    } else {
      assert [0x30 + n][..0] == [];
    }
  }

  /** The one entry of layer N is called levelN.zip. */
  lemma LayerNamed(extra: nat, name: bytes, data: bytes, deflate: Codec, inflate: Codec)
    requires extra > 0 && Nested(extra, name, data, deflate).Some?
    ensures Nested(extra - 1, name, data, deflate).Some?
    ensures ReadZip(Nested(extra, name, data, deflate).value, [[]], inflate)
         == Some([Unpacked(Plain(LevelName(extra), Nested(extra - 1, name, data, deflate).value))])
  {
    hide Layer, ReadZip, LevelName, Unpacked;
    LayerReads(LevelName(extra), Nested(extra - 1, name, data, deflate).value, deflate, inflate);
  }

  lemma LevelNamed(i: nat, data: bytes)
    ensures LevelName(i) == Ascii("level") + Decimal(i) + Ascii(".zip")
    ensures Unpacked(Plain(LevelName(i), data)).name == LevelName(i)
  {
    hide Decimal, Crc32;
  }

  /** Every layer costs 98 bytes and its own name twice. */
  function Overhead(extra: nat, name: bytes): nat {
    if extra == 0 then 98 + 2 * |name| else 98 + 2 * |LevelName(extra)| + Overhead(extra - 1, name)
  }

  lemma {:induction false} NestedLength(extra: nat, name: bytes, data: bytes, deflate: Codec)
    requires Nested(extra, name, data, deflate).Some?
    ensures |Nested(extra, name, data, deflate).value| == |data| + Overhead(extra, name)
  {
    hide Layer, LevelName;
    if extra == 0 {
      LayerReads(name, data, deflate, deflate);
    } else {
      NestedLength(extra - 1, name, data, deflate);
      LayerReads(LevelName(extra), Nested(extra - 1, name, data, deflate).value, deflate, deflate);
    }
  }
}
