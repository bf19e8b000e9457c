/** A ZIP reader after PKWARE APPNOTE.TXT (sections 4.3.7, 4.3.12, 4.3.16 and
    6.1), written independently of the writer, and the proof that it undoes it. */
module ZipReader {
  import opened Bytes
  import opened ZipCrypto
  import opened Zip

  datatype Extracted = Extracted(name: bytes, flags: int, crc: int, payload: bytes)

  /** The stored bytes made plain, checked against size and CRC. */
  function Payload(raw: bytes, flags: int, kind: int, crc: int, size: int, password: bytes, inflate: Codec): Option<bytes>
  {
    var data :=
      if flags % 2 == 1 then
        var plain := Decrypted(KeysAfter(INITIAL, password), raw);
        if kind == 0 && |raw| >= ENCRYPTION_HEADER && plain[ENCRYPTION_HEADER - 1] == crc / 0x100_0000
        then Some(plain[ENCRYPTION_HEADER..]) else None
      else if kind == 8 then Some(inflate(raw))
      else if kind == 0 then Some(raw)
      else None;
    if data.Some? && |data.value| == size && Crc32(data.value) == crc then data else None
  }

  /** The entry whose central header is at `at`, and where the next one starts. */
  function ReadEntry(a: bytes, at: int, password: bytes, inflate: Codec): Option<(Extracted, int)>
    requires 0 <= at
  {
    if at + 46 > |a| || U32At(a, at) != CENTRAL_SIGNATURE then None
    else
      var flags, kind, crc := U16At(a, at + 8), U16At(a, at + 10), U32At(a, at + 16);
      var stored, size, name := U32At(a, at + 20), U32At(a, at + 24), U16At(a, at + 28);
      var local := U32At(a, at + 42);
      if at + 46 + name > |a| || local + 30 + name > |a|
         || U32At(a, local) != LOCAL_SIGNATURE
         || a[local + 6..local + 28] != a[at + 8..at + 30]
         || a[local + 30..local + 30 + name] != a[at + 46..at + 46 + name] then None
      else
        var data := local + 30 + name + U16At(a, local + 28);
        if data + stored > |a| then None
        else
          var payload := Payload(a[data..data + stored], flags, kind, crc, size, password, inflate);
          if payload.None? then None
          else
            Some((Extracted(a[at + 46..at + 46 + name], flags, crc, payload.value),
                  at + 46 + name + U16At(a, at + 30) + U16At(a, at + 32)))
  }

  /** One entry for each password, from consecutive central headers. */
  function ReadEntries(a: bytes, at: int, passwords: seq<bytes>, inflate: Codec): Option<seq<Extracted>>
    requires 0 <= at
    decreases |passwords|
  {
    if passwords == [] then Some([])
    else
      var first := ReadEntry(a, at, passwords[0], inflate);
      if first.None? then None
      else
        assert first.value.1 >= 0;
        var rest := ReadEntries(a, first.value.1, passwords[1..], inflate);
        if rest.None? then None else Some([first.value.0] + rest.value)
  }

  /** The whole archive: end record, then the central directory it points to.
      The caller knows the password of each entry. */
  function ReadZip(a: bytes, passwords: seq<bytes>, inflate: Codec): Option<seq<Extracted>> {
    var end := |a| - 22;
    if end < 0 || U32At(a, end) != END_SIGNATURE then None
    else if U16At(a, end + 10) != |passwords| then None
    else if U32At(a, end + 16) + U32At(a, end + 12) != end then None
    else ReadEntries(a, U32At(a, end + 16), passwords, inflate)
  }

  // ---- reading back what was written ----------------------------------------------

  ghost predicate At(a: bytes, at: int, s: bytes) {
    0 <= at && at + |s| <= |a| && a[at..at + |s|] == s
  }

  lemma AtPart(a: bytes, at: int, s: bytes, from: int, to: int)
    requires At(a, at, s) && 0 <= from <= to <= |s|
    ensures At(a, at + from, s[from..to])
  {
    forall i | 0 <= i < to - from
      ensures a[at + from..at + to][i] == s[from..to][i]
    {
      assert a[at..at + |s|][from + i] == s[from + i];
    }
  }

  lemma U32Reads(a: bytes, at: int, s: bytes, k: int, n: int)
    requires At(a, at, s) && 0 <= k && k + 4 <= |s| && 0 <= n < TWO_32 && s[k..k + 4] == Le32(n)
    ensures U32At(a, at + k) == n
  {
    AtPart(a, at, s, k, k + 4);
    Le32RoundTrip(n, a, at + k);
  }

  lemma U16Reads(a: bytes, at: int, s: bytes, k: int, n: int)
    requires At(a, at, s) && 0 <= k && k + 2 <= |s| && 0 <= n < TWO_16 && s[k..k + 2] == Le16(n)
    ensures U16At(a, at + k) == n
  {
    AtPart(a, at, s, k, k + 2);
    Le16RoundTrip(n, a, at + k);
  }

  lemma SharedFieldsRead(a: bytes, at: int, flags: int, kind: int, crc: int, stored: int, size: int, name: int)
    requires 0 <= flags < TWO_16 && 0 <= kind < TWO_16 && 0 <= crc < TWO_32
    requires 0 <= stored < TWO_32 && 0 <= size < TWO_32 && 0 <= name < TWO_16
    requires At(a, at, SharedFields(flags, kind, crc, stored, size, name))
    ensures U16At(a, at) == flags && U16At(a, at + 2) == kind && U32At(a, at + 8) == crc
    ensures U32At(a, at + 12) == stored && U32At(a, at + 16) == size && U16At(a, at + 20) == name
  {
    var s := SharedFields(flags, kind, crc, stored, size, name);
    U16Reads(a, at, s, 0, flags);
    U16Reads(a, at, s, 2, kind);
    U32Reads(a, at, s, 8, crc);
    U32Reads(a, at, s, 12, stored);
    U32Reads(a, at, s, 16, size);
    U16Reads(a, at, s, 20, name);
  }

  lemma CentralReads(a: bytes, at: int, e: ZipEntry, deflate: Codec, local: int)
    requires EntryFits(e, deflate) && 0 <= local < TWO_32 && At(a, at, CentralRecord(e, deflate, local))
    ensures at + 46 + |e.name| <= |a|
    ensures U32At(a, at) == CENTRAL_SIGNATURE
    ensures At(a, at + 8, SharedFields(Flags(e), CompressionMethod(e), Crc32(e.data), |Stored(e, deflate)|, |e.data|, |e.name|))
    ensures U16At(a, at + 30) == 0 && U16At(a, at + 32) == 0 && U32At(a, at + 42) == local
    ensures a[at + 46..at + 46 + |e.name|] == e.name
  {
    CentralParts(e, deflate, local);
    hide Stored, Crc32, SharedFields, Le16, Le32, CentralRecord;
    var r := CentralRecord(e, deflate, local);
    AtPart(a, at, r, 8, 30);
    U32Reads(a, at, r, 0, CENTRAL_SIGNATURE);
    U16Reads(a, at, r, 30, 0);
    U16Reads(a, at, r, 32, 0);
    U32Reads(a, at, r, 42, local);
    AtPart(a, at, r, 46, |r|);
  }

  lemma CentralParts(e: ZipEntry, deflate: Codec, local: int)
    requires EntryFits(e, deflate) && 0 <= local < TWO_32
    ensures var r := CentralRecord(e, deflate, local);
            && r[0..4] == Le32(CENTRAL_SIGNATURE)
            && r[8..30] == SharedFields(Flags(e), CompressionMethod(e), Crc32(e.data), |Stored(e, deflate)|, |e.data|, |e.name|)
            && r[30..32] == Le16(0) && r[32..34] == Le16(0) && r[42..46] == Le32(local) && r[46..|r|] == e.name
  {
    hide Stored, Crc32, SharedFields, Le16, Le32;
  }

  lemma LocalReads(a: bytes, at: int, e: ZipEntry, deflate: Codec)
    requires EntryFits(e, deflate) && At(a, at, LocalRecord(e, deflate))
    ensures at + 30 + |e.name| + |Stored(e, deflate)| <= |a|
    ensures U32At(a, at) == LOCAL_SIGNATURE
    ensures At(a, at + 6, SharedFields(Flags(e), CompressionMethod(e), Crc32(e.data), |Stored(e, deflate)|, |e.data|, |e.name|))
    ensures U16At(a, at + 28) == 0
    ensures a[at + 30..at + 30 + |e.name|] == e.name
    ensures a[at + 30 + |e.name|..at + 30 + |e.name| + |Stored(e, deflate)|] == Stored(e, deflate)
  {
    LocalParts(e, deflate);
    hide Stored, Crc32, SharedFields, Le16, Le32, LocalRecord;
    var r := LocalRecord(e, deflate);
    AtPart(a, at, r, 6, 28);
    U32Reads(a, at, r, 0, LOCAL_SIGNATURE);
    U16Reads(a, at, r, 28, 0);
    AtPart(a, at, r, 30, 30 + |e.name|);
    AtPart(a, at, r, 30 + |e.name|, |r|);
  }

  lemma LocalParts(e: ZipEntry, deflate: Codec)
    requires EntryFits(e, deflate)
    ensures var r := LocalRecord(e, deflate);
            && r[0..4] == Le32(LOCAL_SIGNATURE)
            && r[6..28] == SharedFields(Flags(e), CompressionMethod(e), Crc32(e.data), |Stored(e, deflate)|, |e.data|, |e.name|)
            && r[28..30] == Le16(0) && r[30..30 + |e.name|] == e.name && r[30 + |e.name|..|r|] == Stored(e, deflate)
  {
    hide Stored, Crc32, SharedFields, Le16, Le32;
  }

  lemma PayloadReads(e: ZipEntry, deflate: Codec, inflate: Codec)
    requires EntryFits(e, deflate)
    requires e.deflate ==> inflate(deflate(e.data)) == e.data
    ensures Payload(Stored(e, deflate), Flags(e), CompressionMethod(e), Crc32(e.data), |e.data|, e.password, inflate)
         == Some(e.data)
  {
    hide Crc32, Encrypted, Decrypted;
    if e.password != [] {
      var plain := EncryptionHeader(Crc32(e.data)) + e.data;
      DecryptUndoesEncrypt(KeysAfter(INITIAL, e.password), plain);
      assert plain[ENCRYPTION_HEADER..] == e.data;
    }
  }

  /** The three kinds of entry. An encrypted one decrypts to eleven filler bytes, the
      top byte of the CRC, and the data. */
  lemma EntryForms(e: ZipEntry, deflate: Codec)
    ensures e.password != [] ==>
              && Flags(e) == 1 && CompressionMethod(e) == 0
              && Decrypted(KeysAfter(INITIAL, e.password), Stored(e, deflate))
                 == [1, 2, 3, 4, 5, 6, 7, 8, 9, 10, 11, Crc32(e.data) / 0x100_0000] + e.data
    ensures e.password == [] && e.deflate ==>
              Flags(e) == 0 && CompressionMethod(e) == 8 && Stored(e, deflate) == deflate(e.data)
    ensures e.password == [] && !e.deflate ==>
              Flags(e) == 0 && CompressionMethod(e) == 0 && Stored(e, deflate) == e.data
  {
    hide Crc32, Encrypted, Decrypted;
    DecryptUndoesEncrypt(KeysAfter(INITIAL, e.password), EncryptionHeader(Crc32(e.data)) + e.data);
  }

  lemma EndReads(a: bytes, at: int, entries: int, central: int, body: int)
    requires 0 <= entries < TWO_16 && 0 <= central < TWO_32 && 0 <= body < TWO_32
    requires At(a, at, EndRecord(entries, central, body))
    ensures U32At(a, at) == END_SIGNATURE && U16At(a, at + 10) == entries
    ensures U32At(a, at + 12) == central && U32At(a, at + 16) == body
  {
    var end := EndRecord(entries, central, body);
    U32Reads(a, at, end, 0, END_SIGNATURE);
    U16Reads(a, at, end, 10, entries);
    U32Reads(a, at, end, 12, central);
    U32Reads(a, at, end, 16, body);
  }

  function Unpacked(e: ZipEntry): Extracted {
    Extracted(e.name, Flags(e), Crc32(e.data), e.data)
  }

  lemma EntryReads(a: bytes, at: int, local: int, e: ZipEntry, deflate: Codec, inflate: Codec)
    requires EntryFits(e, deflate) && 0 <= local < TWO_32
    requires At(a, at, CentralRecord(e, deflate, local)) && At(a, local, LocalRecord(e, deflate))
    requires e.deflate ==> inflate(deflate(e.data)) == e.data
    ensures ReadEntry(a, at, e.password, inflate) == Some((Unpacked(e), at + 46 + |e.name|))
  {
    hide Stored, Crc32, CentralRecord, LocalRecord, SharedFields, Payload, U16At, U32At;
    CentralReads(a, at, e, deflate, local);
    LocalReads(a, local, e, deflate);
    SharedFieldsRead(a, at + 8, Flags(e), CompressionMethod(e), Crc32(e.data), |Stored(e, deflate)|, |e.data|, |e.name|);
    assert a[local + 6..local + 28] == a[at + 8..at + 30];
    PayloadReads(e, deflate, inflate);
  }

  lemma AtWithin(a: bytes, p: bytes, q: bytes, at: int, s: bytes)
    requires At(a, at, s)
    ensures At(p + a + q, |p| + at, s)
  {
    assert (p + a + q)[|p| + at..|p| + at + |s|] == a[at..at + |s|];
  }

  lemma AtFront(a: bytes, q: bytes, at: int, s: bytes)
    requires At(a, at, s)
    ensures At(a + q, at, s)
  {
    AtWithin(a, [], q, at, s);
    assert [] + a + q == a + q;
  }

  lemma {:induction false} LocalAt(es: seq<ZipEntry>, deflate: Codec, k: nat)
    requires (forall i | 0 <= i < |es| :: EntryFits(es[i], deflate)) && k < |es|
    ensures At(Body(es, deflate), BodyLength(es[..k], deflate), LocalRecord(es[k], deflate))
    decreases |es|
  {
    hide LocalRecord, Stored, EntryFits;
    var n := |es| - 1;
    if k < n {
      assert es[..n][..k] == es[..k];
      LocalAt(es[..n], deflate, k);
      AtFront(Body(es[..n], deflate), LocalRecord(es[n], deflate), BodyLength(es[..k], deflate), LocalRecord(es[k], deflate));
    }
  }

  lemma {:induction false} CentralAt(es: seq<ZipEntry>, deflate: Codec, k: nat)
    requires (forall i | 0 <= i < |es| :: EntryFits(es[i], deflate)) && k < |es|
    requires BodyLength(es, deflate) < TWO_32
    ensures BodyLength(es[..k], deflate) < TWO_32
    ensures At(Central(es, deflate), CentralLength(es[..k]),
               CentralRecord(es[k], deflate, BodyLength(es[..k], deflate)))
    decreases |es|
  {
    hide CentralRecord, Stored, EntryFits;
    var n := |es| - 1;
    PartsMonotone(es, k, deflate);
    PartsMonotone(es, n, deflate);
    if k < n {
      assert es[..n][..k] == es[..k];
      CentralAt(es[..n], deflate, k);
      AtFront(Central(es[..n], deflate), CentralRecord(es[n], deflate, BodyLength(es[..n], deflate)),
              CentralLength(es[..k]), CentralRecord(es[k], deflate, BodyLength(es[..k], deflate)));
    }
  }

  function Passwords(es: seq<ZipEntry>): seq<bytes> {
    seq(|es|, i requires 0 <= i < |es| => es[i].password)
  }

  function AllUnpacked(es: seq<ZipEntry>): seq<Extracted> {
    seq(|es|, i requires 0 <= i < |es| => Unpacked(es[i]))
  }

  lemma ArchiveParts(es: seq<ZipEntry>, deflate: Codec)
    requires Encodable(es, deflate)
    ensures |Archive(es, deflate)| == BodyLength(es, deflate) + CentralLength(es) + 22
    ensures At(Archive(es, deflate), |Archive(es, deflate)| - 22,
               EndRecord(|es|, CentralLength(es), BodyLength(es, deflate)))
  {
    hide EndRecord, Body, Central, BodyLength, CentralLength, EntryFits, Stored;
  }

  lemma InBody(es: seq<ZipEntry>, deflate: Codec, at: int, s: bytes)
    requires Encodable(es, deflate) && At(Body(es, deflate), at, s)
    ensures At(Archive(es, deflate), at, s)
  {
    hide EndRecord, Body, Central, BodyLength, CentralLength, EntryFits, Stored;
    var body, central := Body(es, deflate), Central(es, deflate);
    var end := EndRecord(|es|, CentralLength(es), BodyLength(es, deflate));
    AtWithin(body, [], central + end, at, s);
    assert body + central + end == [] + body + (central + end);
  }

  lemma InCentral(es: seq<ZipEntry>, deflate: Codec, at: int, s: bytes)
    requires Encodable(es, deflate) && At(Central(es, deflate), at, s)
    ensures At(Archive(es, deflate), BodyLength(es, deflate) + at, s)
  {
    hide EndRecord, Body, Central, BodyLength, CentralLength, EntryFits, Stored;
    var end := EndRecord(|es|, CentralLength(es), BodyLength(es, deflate));
    AtWithin(Central(es, deflate), Body(es, deflate), end, at, s);
  }

  lemma ReadNoMore(a: bytes, at: int, inflate: Codec)
    requires 0 <= at
    ensures ReadEntries(a, at, [], inflate) == Some([])
  {
  }

  lemma ReadOneMore(a: bytes, at: int, passwords: seq<bytes>, inflate: Codec, first: Extracted, next: int, rest: seq<Extracted>)
    requires 0 <= at && 0 <= next && passwords != []
    requires ReadEntry(a, at, passwords[0], inflate) == Some((first, next))
    requires ReadEntries(a, next, passwords[1..], inflate) == Some(rest)
    ensures ReadEntries(a, at, passwords, inflate) == Some([first] + rest)
  {
    hide ReadEntry;
  }

  lemma {:induction false} EntriesRead(es: seq<ZipEntry>, deflate: Codec, inflate: Codec, k: nat)
    requires Encodable(es, deflate) && k <= |es|
    requires forall i | 0 <= i < |es| && es[i].deflate :: inflate(deflate(es[i].data)) == es[i].data
    ensures ReadEntries(Archive(es, deflate), BodyLength(es, deflate) + CentralLength(es[..k]), Passwords(es[k..]), inflate)
         == Some(AllUnpacked(es[k..]))
    decreases |es| - k
  {
    hide LocalRecord, CentralRecord, Stored, ReadEntry, ReadEntries, Archive, Unpacked, At, EntryFits, BodyLength, Body, Central;
    if k < |es| {
      var at := BodyLength(es, deflate) + CentralLength(es[..k]);
      var next := at + 46 + |es[k].name|;
      var local := BodyLength(es[..k], deflate);
      LocalAt(es, deflate, k);
      CentralAt(es, deflate, k);
      InBody(es, deflate, local, LocalRecord(es[k], deflate));
      InCentral(es, deflate, CentralLength(es[..k]), CentralRecord(es[k], deflate, local));
      EntryReads(Archive(es, deflate), at, local, es[k], deflate, inflate);
      EntriesRead(es, deflate, inflate, k + 1);
      assert es[..k + 1][..k] == es[..k];
      assert Passwords(es[k..])[1..] == Passwords(es[k + 1..]);
      ReadOneMore(Archive(es, deflate), at, Passwords(es[k..]), inflate, Unpacked(es[k]), next, AllUnpacked(es[k + 1..]));
      assert AllUnpacked(es[k..]) == [Unpacked(es[k])] + AllUnpacked(es[k + 1..]);
    } else {
      ReadNoMore(Archive(es, deflate), BodyLength(es, deflate) + CentralLength(es[..k]), inflate);
      assert Passwords(es[k..]) == [] && AllUnpacked(es[k..]) == [];
    }
  }

  /** For every list of entries the writer accepts, the reader recovers every
      name, flag, CRC and payload, in order. */
  lemma ReadUndoesBuild(es: seq<ZipEntry>, deflate: Codec, inflate: Codec)
    requires Encodable(es, deflate)
    requires forall i | 0 <= i < |es| && es[i].deflate :: inflate(deflate(es[i].data)) == es[i].data
    ensures ReadZip(Archive(es, deflate), Passwords(es), inflate) == Some(AllUnpacked(es))
    ensures |Archive(es, deflate)| == BodyLength(es, deflate) + CentralLength(es) + 22
  {
    hide ReadEntries, Archive, U16At, U32At, EntryFits, EndRecord, Unpacked, BodyLength, Body, Central, Stored, At;
    var a := Archive(es, deflate);
    ArchiveParts(es, deflate);
    EndReads(a, |a| - 22, |es|, CentralLength(es), BodyLength(es, deflate));
    EntriesRead(es, deflate, inflate, 0);
    assert es[0..] == es && es[..0] == [];
  }
}
