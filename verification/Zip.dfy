/** The in-memory ZIP writer and the archive it writes. The deflate compressor is a
    parameter: a function from data to bytes. */
module Zip {
  import opened Bytes
  import opened ZipCrypto

  const LOCAL_SIGNATURE: int := 0x0403_4b50
  const CENTRAL_SIGNATURE: int := 0x0201_4b50
  const END_SIGNATURE: int := 0x0605_4b50
  const ENCRYPTION_HEADER: int := 12

  datatype ZipEntry = ZipEntry(name: bytes, data: bytes, password: bytes, deflate: bool)

  type Codec = bytes -> bytes

  // ---- the archive a list of entries denotes ------------------------------------

  function Flags(e: ZipEntry): int {
    if e.password != [] then 1 else 0
  }

  function CompressionMethod(e: ZipEntry): int {
    if e.password == [] && e.deflate then 8 else 0
  }

  function EncryptionHeader(crc: word): (h: bytes)
    ensures |h| == ENCRYPTION_HEADER
  {
    [1, 2, 3, 4, 5, 6, 7, 8, 9, 10, 11, crc / 0x100_0000]
  }

  /** The entry's bytes as stored in the archive. */
  function Stored(e: ZipEntry, deflate: Codec): bytes {
    if e.password != [] then
      Encrypted(KeysAfter(INITIAL, e.password), EncryptionHeader(Crc32(e.data)) + e.data)
    else if e.deflate then deflate(e.data)
    else e.data
  }

  /** The sizes fit their header fields, and the entry is not of the one kind
      the writer refuses. */
  predicate EntryFits(e: ZipEntry, deflate: Codec) {
    && !(e.password != [] && e.deflate)
    && |e.name| < TWO_16
    && |Stored(e, deflate)| < TWO_32
    && |e.data| < TWO_32
  }

  function BodyLength(es: seq<ZipEntry>, deflate: Codec): nat {
    if es == [] then 0
    else
      var last := es[|es| - 1];
      BodyLength(es[..|es| - 1], deflate) + 30 + |last.name| + |Stored(last, deflate)|
  }

  function CentralLength(es: seq<ZipEntry>): nat {
    if es == [] then 0 else CentralLength(es[..|es| - 1]) + 46 + |es[|es| - 1].name|
  }

  predicate Encodable(es: seq<ZipEntry>, deflate: Codec) {
    && (forall i | 0 <= i < |es| :: EntryFits(es[i], deflate))
    && |es| < TWO_16
    && BodyLength(es, deflate) < TWO_32
    && CentralLength(es) < TWO_32
  }

  /** The run of fields that local and central headers share: flags, method,
      modification time and date, CRC, stored size, size and name length. */
  function SharedFields(flags: int, kind: int, crc: int, stored: int, size: int, name: int): (h: bytes)
    requires 0 <= flags < TWO_16 && 0 <= kind < TWO_16 && 0 <= crc < TWO_32
    requires 0 <= stored < TWO_32 && 0 <= size < TWO_32 && 0 <= name < TWO_16
    ensures |h| == 22
  {
    Le16(flags) + Le16(kind) + Le16(0) + Le16(0x21) + Le32(crc) + Le32(stored) + Le32(size) + Le16(name)
  }

  function LocalHeader(flags: int, kind: int, crc: int, stored: int, size: int, name: int): (h: bytes)
    requires 0 <= flags < TWO_16 && 0 <= kind < TWO_16 && 0 <= crc < TWO_32
    requires 0 <= stored < TWO_32 && 0 <= size < TWO_32 && 0 <= name < TWO_16
    ensures |h| == 30
  {
    Le32(LOCAL_SIGNATURE) + Le16(20) + SharedFields(flags, kind, crc, stored, size, name) + Le16(0)
  }

  function CentralHeader(flags: int, kind: int, crc: int, stored: int, size: int, name: int, offset: int): (h: bytes)
    requires 0 <= flags < TWO_16 && 0 <= kind < TWO_16 && 0 <= crc < TWO_32
    requires 0 <= stored < TWO_32 && 0 <= size < TWO_32 && 0 <= name < TWO_16 && 0 <= offset < TWO_32
    ensures |h| == 46
  {
    Le32(CENTRAL_SIGNATURE) + Le16(20) + Le16(20) + SharedFields(flags, kind, crc, stored, size, name)
    + Le16(0) + Le16(0) + Le16(0) + Le16(0) + Le32(0) + Le32(offset)
  }

  function EndRecord(entries: int, central: int, body: int): (h: bytes)
    requires 0 <= entries < TWO_16 && 0 <= central < TWO_32 && 0 <= body < TWO_32
    ensures |h| == 22
  {
    Le32(END_SIGNATURE) + Le16(0) + Le16(0) + Le16(entries) + Le16(entries)
    + Le32(central) + Le32(body) + Le16(0)
  }

  function LocalRecord(e: ZipEntry, deflate: Codec): (r: bytes)
    requires EntryFits(e, deflate)
    ensures |r| == 30 + |e.name| + |Stored(e, deflate)|
  {
    LocalHeader(Flags(e), CompressionMethod(e), Crc32(e.data), |Stored(e, deflate)|, |e.data|, |e.name|)
    + e.name + Stored(e, deflate)
  }

  function CentralRecord(e: ZipEntry, deflate: Codec, offset: int): (r: bytes)
    requires EntryFits(e, deflate) && 0 <= offset < TWO_32
    ensures |r| == 46 + |e.name|
  {
    CentralHeader(Flags(e), CompressionMethod(e), Crc32(e.data), |Stored(e, deflate)|, |e.data|, |e.name|, offset)
    + e.name
  }

  function Body(es: seq<ZipEntry>, deflate: Codec): (b: bytes)
    requires forall i | 0 <= i < |es| :: EntryFits(es[i], deflate)
    ensures |b| == BodyLength(es, deflate)
  {
    if es == [] then []
    else Body(es[..|es| - 1], deflate) + LocalRecord(es[|es| - 1], deflate)
  }

  function Central(es: seq<ZipEntry>, deflate: Codec): (b: bytes)
    requires forall i | 0 <= i < |es| :: EntryFits(es[i], deflate)
    requires BodyLength(es, deflate) < TWO_32
    ensures |b| == CentralLength(es)
  {
    if es == [] then []
    else
      var front := es[..|es| - 1];
      Central(front, deflate) + CentralRecord(es[|es| - 1], deflate, BodyLength(front, deflate))
  }

  function Archive(es: seq<ZipEntry>, deflate: Codec): bytes
    requires Encodable(es, deflate)
  {
    Body(es, deflate) + Central(es, deflate)
    + EndRecord(|es|, CentralLength(es), BodyLength(es, deflate))
  }

  // ---- the writer ---------------------------------------------------------------

  /** The bytes `p` stand in the array from `at` on. */
  ghost predicate HasAt(a: array<byte>, at: nat, p: bytes)
    reads a
  {
    at + |p| <= a.Length && forall k | at <= k < at + |p| :: a[k] == p[k - at]
  }

  method PutU16(a: array<byte>, at: nat, n: int)
    requires 0 <= n < TWO_16 && at + 2 <= a.Length
    modifies a
    ensures HasAt(a, at, Le16(n))
    ensures forall k | 0 <= k < a.Length && !(at <= k < at + 2) :: a[k] == old(a[k])
  {
    a[at] := n % 0x100;
    a[at + 1] := n / 0x100;
  }

  method PutU32(a: array<byte>, at: nat, n: int)
    requires 0 <= n < TWO_32 && at + 4 <= a.Length
    modifies a
    ensures HasAt(a, at, Le32(n))
    ensures forall k | 0 <= k < a.Length && !(at <= k < at + 4) :: a[k] == old(a[k])
  {
    a[at] := n % 0x100;
    a[at + 1] := n / 0x100 % 0x100;
    a[at + 2] := n / 0x1_0000 % 0x100;
    a[at + 3] := n / 0x100_0000;
  }

  method PutSharedFields(a: array<byte>, at: nat,
                         flags: int, kind: int, crc: int, stored: int, size: int, name: int)
    requires 0 <= flags < TWO_16 && 0 <= kind < TWO_16 && 0 <= crc < TWO_32
    requires 0 <= stored < TWO_32 && 0 <= size < TWO_32 && 0 <= name < TWO_16
    requires at + 22 <= a.Length
    modifies a
    ensures HasAt(a, at, SharedFields(flags, kind, crc, stored, size, name))
    ensures forall k | 0 <= k < a.Length && !(at <= k < at + 22) :: a[k] == old(a[k])
  {
    hide Le16, Le32;
    PutU16(a, at, flags);
    PutU16(a, at + 2, kind);
    PutU16(a, at + 4, 0);
    PutU16(a, at + 6, 0x21);
    PutU32(a, at + 8, crc);
    PutU32(a, at + 12, stored);
    PutU32(a, at + 16, size);
    PutU16(a, at + 20, name);
    ghost var tags := Le16(flags) + Le16(kind) + Le16(0) + Le16(0x21);
    FourAt(a, at, Le16(flags), Le16(kind), Le16(0), Le16(0x21));
    FourAt(a, at, tags, Le32(crc), Le32(stored), Le32(size));
    TwoAt(a, at, tags + Le32(crc) + Le32(stored) + Le32(size), Le16(name));
  }

  lemma TwoAt(a: array<byte>, at: nat, p: bytes, q: bytes)
    requires HasAt(a, at, p) && HasAt(a, at + |p|, q)
    ensures HasAt(a, at, p + q)
  {
  }

  lemma FourAt(a: array<byte>, at: nat, p: bytes, q: bytes, r: bytes, s: bytes)
    requires HasAt(a, at, p) && HasAt(a, at + |p|, q)
    requires HasAt(a, at + |p| + |q|, r) && HasAt(a, at + |p| + |q| + |r|, s)
    ensures HasAt(a, at, p + q + r + s)
  {
    TwoAt(a, at, p, q);
    hide HasAt;
    TwoAt(a, at, p + q, r);
    TwoAt(a, at, p + q + r, s);
  }

  lemma AllOf(a: array<byte>, p: bytes)
    requires HasAt(a, 0, p) && |p| == a.Length
    ensures a[..] == p
  {
  }

  lemma ZeroFields()
    ensures Le16(0) == [0, 0] && Le32(0) == [0, 0, 0, 0]
  {
  }

  method WriteLocalHeader(flags: int, kind: int, crc: int, stored: int, size: int, name: int) returns (h: bytes)
    requires 0 <= flags < TWO_16 && 0 <= kind < TWO_16 && 0 <= crc < TWO_32
    requires 0 <= stored < TWO_32 && 0 <= size < TWO_32 && 0 <= name < TWO_16
    ensures h == LocalHeader(flags, kind, crc, stored, size, name)
  {
    hide Le16, Le32, SharedFields;
    var local := new byte[30](_ => 0);
    PutU32(local, 0, LOCAL_SIGNATURE);
    PutU16(local, 4, 20);
    PutSharedFields(local, 6, flags, kind, crc, stored, size, name);
    PutU16(local, 28, 0);
    FourAt(local, 0, Le32(LOCAL_SIGNATURE), Le16(20), SharedFields(flags, kind, crc, stored, size, name), Le16(0));
    AllOf(local, LocalHeader(flags, kind, crc, stored, size, name));
    h := local[..];
  }

  method WriteCentralHeader(flags: int, kind: int, crc: int, stored: int, size: int, name: int, offset: int)
    returns (h: bytes)
    requires 0 <= flags < TWO_16 && 0 <= kind < TWO_16 && 0 <= crc < TWO_32
    requires 0 <= stored < TWO_32 && 0 <= size < TWO_32 && 0 <= name < TWO_16 && 0 <= offset < TWO_32
    ensures h == CentralHeader(flags, kind, crc, stored, size, name, offset)
  {
    hide Le16, Le32, SharedFields;
    var cd := new byte[46](_ => 0);
    PutU32(cd, 0, CENTRAL_SIGNATURE);
    PutU16(cd, 4, 20);
    PutU16(cd, 6, 20);
    PutSharedFields(cd, 8, flags, kind, crc, stored, size, name);
    PutU32(cd, 42, offset);
    ZeroFields();
    ghost var start := Le32(CENTRAL_SIGNATURE) + Le16(20) + Le16(20) + SharedFields(flags, kind, crc, stored, size, name);
    FourAt(cd, 0, Le32(CENTRAL_SIGNATURE), Le16(20), Le16(20), SharedFields(flags, kind, crc, stored, size, name));
    FourAt(cd, 0, start, Le16(0), Le16(0), Le16(0));
    FourAt(cd, 0, start + Le16(0) + Le16(0) + Le16(0), Le16(0), Le32(0), Le32(offset));
    AllOf(cd, CentralHeader(flags, kind, crc, stored, size, name, offset));
    h := cd[..];
  }

  method WriteEndRecord(entries: int, central: int, body: int) returns (h: bytes)
    requires 0 <= entries < TWO_16 && 0 <= central < TWO_32 && 0 <= body < TWO_32
    ensures h == EndRecord(entries, central, body)
  {
    hide Le16, Le32;
    var end := new byte[22](_ => 0);
    PutU32(end, 0, END_SIGNATURE);
    PutU16(end, 8, entries);
    PutU16(end, 10, entries);
    PutU32(end, 12, central);
    PutU32(end, 16, body);
    ZeroFields();
    ghost var start := Le32(END_SIGNATURE) + Le16(0) + Le16(0) + Le16(entries);
    FourAt(end, 0, Le32(END_SIGNATURE), Le16(0), Le16(0), Le16(entries));
    FourAt(end, 0, start, Le16(entries), Le32(central), Le32(body));
    TwoAt(end, 0, start + Le16(entries) + Le32(central) + Le32(body), Le16(0));
    AllOf(end, EndRecord(entries, central, body));
    h := end[..];
  }

  method StoreEntry(e: ZipEntry, deflate: Codec) returns (flags: int, kind: int, stored: bytes)
    requires !(e.password != [] && e.deflate)
    ensures flags == Flags(e) && kind == CompressionMethod(e) && stored == Stored(e, deflate)
  {
    flags, kind := 0, 0;
    if e.password != [] {
      flags := 1;
      var cipher := new Cipher(e.password);
      stored := cipher.Encrypt(EncryptionHeader(Crc32(e.data)) + e.data);
    } else if e.deflate {
      kind := 8;
      stored := deflate(e.data);
    } else {
      stored := e.data;
    }
  }

  /** One turn of the writer's loop: None where it panics. */
  method AppendEntry(body: bytes, central: bytes, e: ZipEntry, deflate: Codec) returns (grown: Option<(bytes, bytes)>)
    ensures grown.Some? <==> EntryFits(e, deflate) && |body| < TWO_32
    ensures grown.Some? ==> grown.value.0 == body + LocalRecord(e, deflate)
    ensures grown.Some? ==> grown.value.1 == central + CentralRecord(e, deflate, |body|)
  {
    hide Stored, Crc32, LocalHeader, CentralHeader;
    if e.password != [] && e.deflate {
      return None;
    }
    var flags, kind, stored := StoreEntry(e, deflate);
    var crc, offset := Crc32(e.data), |body|;
    if offset >= TWO_32 || |stored| >= TWO_32 || |e.data| >= TWO_32 || |e.name| >= TWO_16 {
      return None;
    }
    var local := WriteLocalHeader(flags, kind, crc, |stored|, |e.data|, |e.name|);
    var cd := WriteCentralHeader(flags, kind, crc, |stored|, |e.data|, |e.name|, offset);
    assert body + local + e.name + stored == body + (local + e.name + stored);
    assert central + cd + e.name == central + (cd + e.name);
    grown := Some((body + local + e.name + stored, central + cd + e.name));
  }

  /** None where the source panics: an entry both encrypted and deflated, or a
      size that does not fit its field. */
  method BuildZip(entries: seq<ZipEntry>, deflate: Codec) returns (archive: Option<bytes>)
    ensures archive.Some? <==> Encodable(entries, deflate)
    ensures archive.Some? ==> archive.value == Archive(entries, deflate)
  {
    hide Stored, Crc32, LocalRecord, CentralRecord, EndRecord;
    var body, central: bytes := [], [];
    for i := 0 to |entries|
      invariant forall k | 0 <= k < i :: EntryFits(entries[k], deflate)
      invariant body == Body(entries[..i], deflate)
      invariant |central| == CentralLength(entries[..i])
      invariant |body| < TWO_32 ==> central == Central(entries[..i], deflate)
    {
      assert entries[..i + 1][..i] == entries[..i];
      var grown := AppendEntry(body, central, entries[i], deflate);
      if grown.None? {
        PartsMonotone(entries, i, deflate);
        return None;
      }
      body, central := grown.value.0, grown.value.1;
    }
    assert entries[..|entries|] == entries;
    if |entries| >= TWO_16 || |central| >= TWO_32 || |body| >= TWO_32 {
      return None;
    }
    var end := WriteEndRecord(|entries|, |central|, |body|);
    archive := Some(body + central + end);
  }

  /** What the writer takes, in numbers: nothing smaller is refused. */
  lemma WriterLimits(es: seq<ZipEntry>, deflate: Codec)
    ensures Encodable(es, deflate) <==>
              && |es| <= 65535
              && BodyLength(es, deflate) <= 4294967295 && CentralLength(es) <= 4294967295
              && forall i | 0 <= i < |es| ::
                   && (es[i].password == [] || !es[i].deflate)
                   && |es[i].name| <= 65535 && |es[i].data| <= 4294967295 && |Stored(es[i], deflate)| <= 4294967295
  {
    hide Stored, BodyLength, CentralLength;
  }

  lemma {:induction false} PartsMonotone(es: seq<ZipEntry>, i: nat, deflate: Codec)
    requires i <= |es|
    ensures BodyLength(es[..i], deflate) <= BodyLength(es, deflate)
    ensures CentralLength(es[..i]) <= CentralLength(es)
    decreases |es|
  {
    if i < |es| {
      PartsMonotone(es[..|es| - 1], i, deflate);
      assert es[..|es| - 1][..i] == es[..i];
    } else {
      assert es[..i] == es;
    }
  }
}
