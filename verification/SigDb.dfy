/** Secure-boot signature databases: parse_sb_db on a sequence of EFI_SIGNATURE_LIST records. */
module SigDb {
  import opened Bytes
  import opened Options

  const LIST_HEADER: nat := 28 // calcsize("<16sIII")
  const GUID_SIZE: nat := 16
  const LIMIT32: nat := 0x1_0000_0000

  const SHA256_GUID: Data := [0x26, 0x16, 0xC4, 0xC1, 0x4C, 0x50, 0x92, 0x40, 0xAC, 0xA9, 0x41, 0xF9, 0x36, 0x93,
    0x43, 0x28]
  const RSA2048_GUID: Data := [0xE8, 0x66, 0x57, 0x3C, 0x9C, 0x26, 0x34, 0x4E, 0xAA, 0x14, 0xED, 0x77, 0x6E, 0x85,
    0xB3, 0xB6]
  const RSA2048_SHA256_GUID: Data := [0x90, 0x61, 0xB3, 0xE2, 0x9B, 0x87, 0x3D, 0x4A, 0xAD, 0x8D, 0xF2, 0xE7, 0xBB,
    0xA3, 0x27, 0x84]
  const SHA1_GUID: Data := [0x12, 0xA5, 0x6C, 0x82, 0x10, 0xCF, 0xC9, 0x4A, 0xB1, 0x87, 0xBE, 0x01, 0x49, 0x66, 0x31,
    0xBD]
  const RSA2048_SHA1_GUID: Data := [0x4F, 0x44, 0xF8, 0x67, 0x43, 0x87, 0xF1, 0x48, 0xA3, 0x28, 0x1E, 0xAA, 0xB8,
    0x73, 0x60, 0x80]
  const X509_GUID: Data := [0xA1, 0x59, 0xC0, 0xA5, 0xE4, 0x94, 0xA7, 0x4A, 0x87, 0xB5, 0xAB, 0x15, 0x5C, 0x2B, 0xF0,
    0x72]
  const SHA224_GUID: Data := [0x33, 0x52, 0x6E, 0x0B, 0x5C, 0xA6, 0xC9, 0x44, 0x94, 0x07, 0xD9, 0xAB, 0x83, 0xBF,
    0xC8, 0xBD]
  const SHA384_GUID: Data := [0x07, 0x53, 0x3E, 0xFF, 0xD0, 0x9F, 0xC9, 0x48, 0x85, 0xF1, 0x8A, 0xD5, 0x6C, 0x70,
    0x1E, 0x01]
  const SHA512_GUID: Data := [0xAE, 0x0F, 0x3E, 0x09, 0xC4, 0xA6, 0x50, 0x4F, 0x9F, 0x1B, 0xD4, 0x1E, 0x2B, 0x89,
    0xC1, 0x9A]
  const PKCS7_GUID: Data := [0x9D, 0xD2, 0xAF, 0x4A, 0xDF, 0x68, 0xEE, 0x49, 0x8A, 0xA9, 0x34, 0x7D, 0x37, 0x56, 0x65,
    0xA7]

  /** A row of sig_types: the short name, and the signature size or 0 when it varies. */
  datatype SigType = SigType(name: string, size: nat)

  /** sig_types by GUID bytes. Its four lower-case keys never equal an upper-cased GUID, so those types
      are unknown to the parser. */
  function TypeOf(guid: Data): (t: Option<SigType>)
    ensures t.Some? ==> t.value.size == 0 || t.value.size > GUID_SIZE
  {
    if guid == SHA256_GUID then Some(SigType("SHA256", 0x30))
    else if guid == RSA2048_GUID then Some(SigType("RSA2048", 0x110))
    else if guid == RSA2048_SHA256_GUID then Some(SigType("RSA2048_SHA256", 0x110))
    else if guid == SHA1_GUID then Some(SigType("SHA1", 0x24))
    else if guid == RSA2048_SHA1_GUID then Some(SigType("RSA2048_SHA1", 0x110))
    else if guid == X509_GUID then Some(SigType("X509", 0))
    else if guid == SHA224_GUID then Some(SigType("SHA224", 0x2c))
    else if guid == SHA384_GUID then Some(SigType("SHA384", 0x40))
    else if guid == SHA512_GUID then Some(SigType("SHA512", 0x50))
    else if guid == PKCS7_GUID then Some(SigType("PKCS7", 0))
    else None
  }

  /** The short name of a known type. */
  function NameOf(guid: Data): string {
    if TypeOf(guid).Some? then TypeOf(guid).value.name else ""
  }

  /** Whether signatures of this type and size are extracted. */
  predicate Accepted(guid: Data, size: nat) {
    TypeOf(guid).Some? &&
    var t := TypeOf(guid).value;
    (t.size > 0 && t.size == size) || (t.size == 0 && size >= GUID_SIZE)
  }

  /** A file written for one signature: its name is built from the first three fields. */
  datatype SigFile = SigFile(name: string, owner: Data, index: nat, data: Data)

  /** One extracted signature. */
  datatype Blob = Blob(name: string, owner: Data, data: Data)

  // ---------------------------------------------------------------- specification

  /** The signatures in the body of one list, from offset sof. */
  ghost function BlobsIn(name: string, body: Data, size: nat, sof: nat): seq<Blob>
    requires size >= GUID_SIZE
    decreases |body| - sof
  {
    if sof + GUID_SIZE >= |body| then []
    else
      [Blob(name, body[sof..sof + GUID_SIZE], Slice(body, sof + GUID_SIZE, sof + size))]
      + BlobsIn(name, body, size, sof + size)
  }

  /** The fields of the list header at offset dof. */
  datatype Header = Header(kind: Data, listSize: nat, headerSize: nat, sigSize: nat)

  function HeaderAt(db: Data, dof: nat): Header
    requires dof + LIST_HEADER <= |db|
  {
    Header(db[dof..dof + 16], Field(db, dof + 16, 4), Field(db, dof + 20, 4), Field(db, dof + 24, 4))
  }

  ghost function BlobsAt(db: Data, dof: nat): seq<Blob>
    requires dof + LIST_HEADER <= |db|
  {
    var h := HeaderAt(db, dof);
    if Accepted(h.kind, h.sigSize) then
      BlobsIn(NameOf(h.kind), Slice(db, dof + LIST_HEADER + h.headerSize, dof + h.listSize), h.sigSize, 0)
    else []
  }

  ghost function Blobs(db: Data, dof: nat): seq<Blob>
    decreases |db| - dof
  {
    if dof + LIST_HEADER >= |db| || HeaderAt(db, dof).listSize == 0 then []
    else BlobsAt(db, dof) + Blobs(db, dof + HeaderAt(db, dof).listSize)
  }

  ghost function Datas(blobs: seq<Blob>): seq<Data> {
    seq(|blobs|, i requires 0 <= i < |blobs| => blobs[i].data)
  }

  /** The files written for the blobs: numbered in order. */
  ghost function FilesOf(blobs: seq<Blob>): seq<SigFile> {
    seq(|blobs|, i requires 0 <= i < |blobs| => SigFile(blobs[i].name, blobs[i].owner, i, blobs[i].data))
  }

  lemma {:induction false} Append(blobs: seq<Blob>, b: Blob)
    ensures Datas(blobs + [b]) == Datas(blobs) + [b.data]
    ensures FilesOf(blobs + [b]) == FilesOf(blobs) + [SigFile(b.name, b.owner, |blobs|, b.data)]
  {
    assert forall i :: 0 <= i < |blobs| ==> (blobs + [b])[i] == blobs[i];
  }

  /** The sizes that signatures are accepted in. */
  lemma AcceptedSizes(guid: Data, size: nat)
    ensures Accepted(guid, size) <==>
              var name := NameOf(guid);
              || (name == "SHA1" && size == 0x24)
              || (name == "SHA224" && size == 0x2c)
              || (name == "SHA256" && size == 0x30)
              || (name == "SHA384" && size == 0x40)
              || (name == "SHA512" && size == 0x50)
              || (name in {"RSA2048", "RSA2048_SHA1", "RSA2048_SHA256"} && size == 0x110)
              || (name in {"X509", "PKCS7"} && size >= 16)
  {
    NamesDiffer();
  }

  lemma NamesDiffer()
    ensures |"SHA1"| == 4 && |"SHA224"| == 6 && "SHA224"[3..] == "224" && |"SHA256"| == 6 && "SHA256"[3..] == "256"
  {
  }

  /** The known types, each with its GUID in the text form, its name, and its size or 0. */
  lemma KnownTypes(guid: Data)
    ensures TypeOf(guid).Some? ==>
              guid in {SHA1_GUID, SHA224_GUID, SHA256_GUID, SHA384_GUID, SHA512_GUID, RSA2048_GUID, RSA2048_SHA1_GUID,
                       RSA2048_SHA256_GUID, X509_GUID, PKCS7_GUID}
  {
  }

  lemma Sha1Type()
    ensures SHA1_GUID == Guid(0x826CA512, 0xCF10, 0x4AC9, [0xB1, 0x87, 0xBE, 0x01, 0x49, 0x66, 0x31, 0xBD])
    ensures TypeOf(SHA1_GUID) == Some(SigType("SHA1", 0x24))
  {
    DistinctTypes();
  }

  lemma Sha224Type()
    ensures SHA224_GUID == Guid(0x0B6E5233, 0xA65C, 0x44C9, [0x94, 0x07, 0xD9, 0xAB, 0x83, 0xBF, 0xC8, 0xBD])
    ensures TypeOf(SHA224_GUID) == Some(SigType("SHA224", 0x2c))
  {
    DistinctTypes();
  }

  lemma Sha256Type()
    ensures SHA256_GUID == Guid(0xC1C41626, 0x504C, 0x4092, [0xAC, 0xA9, 0x41, 0xF9, 0x36, 0x93, 0x43, 0x28])
    ensures TypeOf(SHA256_GUID) == Some(SigType("SHA256", 0x30))
  {
    DistinctTypes();
  }

  lemma Sha384Type()
    ensures SHA384_GUID == Guid(0xFF3E5307, 0x9FD0, 0x48C9, [0x85, 0xF1, 0x8A, 0xD5, 0x6C, 0x70, 0x1E, 0x01])
    ensures TypeOf(SHA384_GUID) == Some(SigType("SHA384", 0x40))
  {
    DistinctTypes();
  }

  lemma Sha512Type()
    ensures SHA512_GUID == Guid(0x093E0FAE, 0xA6C4, 0x4F50, [0x9F, 0x1B, 0xD4, 0x1E, 0x2B, 0x89, 0xC1, 0x9A])
    ensures TypeOf(SHA512_GUID) == Some(SigType("SHA512", 0x50))
  {
    DistinctTypes();
  }

  lemma Rsa2048Type()
    ensures RSA2048_GUID == Guid(0x3C5766E8, 0x269C, 0x4E34, [0xAA, 0x14, 0xED, 0x77, 0x6E, 0x85, 0xB3, 0xB6])
    ensures TypeOf(RSA2048_GUID) == Some(SigType("RSA2048", 0x110))
  {
    DistinctTypes();
  }

  lemma Rsa2048Sha1Type()
    ensures RSA2048_SHA1_GUID == Guid(0x67F8444F, 0x8743, 0x48F1, [0xA3, 0x28, 0x1E, 0xAA, 0xB8, 0x73, 0x60, 0x80])
    ensures TypeOf(RSA2048_SHA1_GUID) == Some(SigType("RSA2048_SHA1", 0x110))
  {
    DistinctTypes();
  }

  lemma Rsa2048Sha256Type()
    ensures RSA2048_SHA256_GUID == Guid(0xE2B36190, 0x879B, 0x4A3D, [0xAD, 0x8D, 0xF2, 0xE7, 0xBB, 0xA3, 0x27, 0x84])
    ensures TypeOf(RSA2048_SHA256_GUID) == Some(SigType("RSA2048_SHA256", 0x110))
  {
    DistinctTypes();
  }

  lemma X509Type()
    ensures X509_GUID == Guid(0xA5C059A1, 0x94E4, 0x4AA7, [0x87, 0xB5, 0xAB, 0x15, 0x5C, 0x2B, 0xF0, 0x72])
    ensures TypeOf(X509_GUID) == Some(SigType("X509", 0))
  {
    DistinctTypes();
  }

  lemma Pkcs7Type()
    ensures PKCS7_GUID == Guid(0x4AAFD29D, 0x68DF, 0x49EE, [0x8A, 0xA9, 0x34, 0x7D, 0x37, 0x56, 0x65, 0xA7])
    ensures TypeOf(PKCS7_GUID) == Some(SigType("PKCS7", 0))
  {
    DistinctTypes();
  }

  lemma DistinctTypes()
    ensures SHA256_GUID[0] == 0x26 && RSA2048_GUID[0] == 0xE8 && RSA2048_SHA256_GUID[0] == 0x90 && SHA1_GUID[0] == 0x12
    ensures RSA2048_SHA1_GUID[0] == 0x4F && X509_GUID[0] == 0xA1 && SHA224_GUID[0] == 0x33 && SHA384_GUID[0] == 0x07
    ensures SHA512_GUID[0] == 0xAE && PKCS7_GUID[0] == 0x9D
  {
  }

  // ---------------------------------------------------------------- the parser

  /** struct.unpack("16s", b): fails on any other length. */
  function UnpackGuid(b: Data): Data
    requires |b| == GUID_SIZE
  {
    b
  }

  /** Everything extracted so far: the entries, their files and their number. */
  ghost predicate Extracted(done: seq<Blob>, entries: seq<Data>, files: seq<SigFile>, nsig: nat) {
    entries == Datas(done) && files == FilesOf(done) && nsig == |done|
  }

  /** The inner loop of parse_sb_db: the signatures of one list. */
  method ExtractList(name: string, body: Data, size: nat, entries0: seq<Data>, files0: seq<SigFile>, nsig0: nat,
                     ghost before: seq<Blob>)
    returns (entries: seq<Data>, files: seq<SigFile>, nsig: nat)
    requires size >= GUID_SIZE && Extracted(before, entries0, files0, nsig0)
    ensures Extracted(before + BlobsIn(name, body, size, 0), entries, files, nsig)
  {
    hide BlobsIn, Datas, FilesOf;
    entries, files, nsig := entries0, files0, nsig0;
    ghost var done := before;
    var sof := 0;
    while sof + GUID_SIZE < |body|
      invariant done + BlobsIn(name, body, size, sof) == before + BlobsIn(name, body, size, 0)
      invariant Extracted(done, entries, files, nsig)
      decreases |body| - sof
    {
      var sigData := Slice(body, sof, sof + size);
      OneSignature(name, body, size, sof, sigData);
      var owner := UnpackGuid(Slice(sigData, 0, GUID_SIZE));
      var data := Slice(sigData, GUID_SIZE, |sigData|);
      ghost var b := Blob(name, owner, data);
      ghost var rest := BlobsIn(name, body, size, sof + size);
      assert done + ([b] + rest) == done + [b] + rest;
      Append(done, b);
      done := done + [b];
      entries := entries + [data];
      files := files + [SigFile(name, owner, nsig, data)];
      sof := sof + size;
      nsig := nsig + 1;
    }
    NoMore(name, body, size, sof);
    assert done + [] == done;
  }

  /** parse_sb_db. The written files are a result; owner GUIDs stay bytes. */
  method ParseSbDb(db: Data) returns (entries: seq<Data>, files: seq<SigFile>)
    ensures entries == Datas(Blobs(db, 0))
    ensures files == FilesOf(Blobs(db, 0))
  {
    hide BlobsAt, HeaderAt, TypeOf, BlobsIn, Datas, FilesOf, Accepted, NameOf, Slice;
    entries, files := [], [];
    var dof, nsig := 0, 0;
    ghost var done: seq<Blob> := [];
    Nothing();
    assert done + Blobs(db, 0) == Blobs(db, 0);
    if |db| == 0 {
      return;
    }
    while dof + LIST_HEADER < |db|
      invariant done + Blobs(db, dof) == Blobs(db, 0)
      invariant Extracted(done, entries, files, nsig)
      decreases |db| - dof
    {
      var h := HeaderAt(db, dof);
      if h.listSize == 0 {
        assert done + [] == done;
        return;
      }
      ghost var rest := Blobs(db, dof + h.listSize);
      assert done + (BlobsAt(db, dof) + rest) == done + BlobsAt(db, dof) + rest;
      if TypeOf(h.kind).None? {
        NotAccepted(db, dof);
        assert done + [] == done;
        dof := dof + h.listSize;
        continue;
      }
      if Accepted(h.kind, h.sigSize) {
        AcceptedSize(h.kind, h.sigSize);
        var body := Slice(db, dof + LIST_HEADER + h.headerSize, dof + h.listSize);
        AcceptedList(db, dof);
        entries, files, nsig := ExtractList(NameOf(h.kind), body, h.sigSize, entries, files, nsig, done);
        done := done + BlobsAt(db, dof);
      } else {
        NotAccepted(db, dof);
        assert done + [] == done;
      }
      dof := dof + h.listSize;
    }
    assert done + [] == done;
  }

  lemma Nothing()
    ensures Datas([]) == [] && FilesOf([]) == []
  {
  }

  lemma NotAccepted(db: Data, dof: nat)
    requires dof + LIST_HEADER <= |db|
    requires var h := HeaderAt(db, dof); TypeOf(h.kind).None? || !Accepted(h.kind, h.sigSize)
    ensures BlobsAt(db, dof) == []
  {
    hide HeaderAt, TypeOf;
  }

  lemma AcceptedSize(guid: Data, size: nat)
    requires Accepted(guid, size)
    ensures size >= GUID_SIZE
  {
    hide TypeOf;
  }

  lemma AcceptedList(db: Data, dof: nat)
    requires dof + LIST_HEADER <= |db|
    requires var h := HeaderAt(db, dof); Accepted(h.kind, h.sigSize) && h.sigSize >= GUID_SIZE
    ensures var h := HeaderAt(db, dof);
            BlobsAt(db, dof) == BlobsIn(NameOf(h.kind), Slice(db, dof + LIST_HEADER + h.headerSize, dof + h.listSize),
              h.sigSize, 0)
  {
    hide HeaderAt, TypeOf, Slice, BlobsIn;
  }

  lemma OneSignature(name: string, body: Data, size: nat, sof: nat, sigData: Data)
    requires size >= GUID_SIZE && sof + GUID_SIZE < |body| && sigData == Slice(body, sof, sof + size)
    ensures |Slice(sigData, 0, GUID_SIZE)| == GUID_SIZE
    ensures BlobsIn(name, body, size, sof)
         == [Blob(name, Slice(sigData, 0, GUID_SIZE), Slice(sigData, GUID_SIZE, |sigData|))]
           + BlobsIn(name, body, size, sof + size)
  {
    assert Slice(sigData, 0, GUID_SIZE) == body[sof..sof + GUID_SIZE];
    assert Slice(sigData, GUID_SIZE, |sigData|) == Slice(body, sof + GUID_SIZE, sof + size);
  }

  lemma NoMore(name: string, body: Data, size: nat, sof: nat)
    requires size >= GUID_SIZE && sof + GUID_SIZE >= |body|
    ensures BlobsIn(name, body, size, sof) == []
  {
  }

  // ---------------------------------------------------------------- every byte string

  /** The database bytes that the extracted signatures stand for: an owner and the data each. */
  ghost function Weight(blobs: seq<Blob>): nat {
    if blobs == [] then 0 else GUID_SIZE + |blobs[0].data| + Weight(blobs[1..])
  }

  lemma {:induction false} WeightConcat(a: seq<Blob>, b: seq<Blob>)
    ensures Weight(a + b) == Weight(a) + Weight(b)
  {
    if a == [] {
      assert a + b == b;
    } else {
      WeightConcat(a[1..], b);
      assert (a + b)[1..] == a[1..] + b;
    }
  }

  lemma {:induction false} BodyWeight(name: string, body: Data, size: nat, sof: nat)
    requires size >= GUID_SIZE
    ensures Weight(BlobsIn(name, body, size, sof)) <= Max(0, |body| - sof)
    decreases |body| - sof
  {
    if sof + GUID_SIZE < |body| {
      BodyWeight(name, body, size, sof + size);
      var b := Blob(name, body[sof..sof + GUID_SIZE], Slice(body, sof + GUID_SIZE, sof + size));
      assert ([b] + BlobsIn(name, body, size, sof + size))[1..] == BlobsIn(name, body, size, sof + size);
    }
  }

  /** Whatever the bytes, no part of the database is handed out twice: the signatures together are no
      longer than the database. */
  lemma {:induction false} NothingTwice(db: Data, dof: nat)
    ensures Weight(Blobs(db, dof)) <= Max(0, |db| - dof)
    decreases |db| - dof
  {
    hide HeaderAt, BlobsAt, Weight;
    NoWeight();
    if dof + LIST_HEADER < |db| && HeaderAt(db, dof).listSize != 0 {
      var h := HeaderAt(db, dof);
      NothingTwice(db, dof + h.listSize);
      WeightConcat(BlobsAt(db, dof), Blobs(db, dof + h.listSize));
      ListWeight(db, dof);
    }
  }

  lemma NoWeight()
    ensures Weight([]) == 0
  {
  }

  lemma ListWeight(db: Data, dof: nat)
    requires dof + LIST_HEADER <= |db|
    ensures Weight(BlobsAt(db, dof)) <= Min(HeaderAt(db, dof).listSize, |db| - dof)
  {
    hide HeaderAt, TypeOf, BlobsIn, Accepted, NameOf;
    var h := HeaderAt(db, dof);
    if Accepted(h.kind, h.sigSize) {
      AcceptedSize(h.kind, h.sigSize);
      BodyWeight(NameOf(h.kind), Slice(db, dof + LIST_HEADER + h.headerSize, dof + h.listSize), h.sigSize, 0);
    }
  }

  /** A comment in the parser says that leading zeros are skipped; they end the parse instead. */
  lemma LeadingZerosStop(n: nat, rest: Data)
    requires n >= 20
    ensures Blobs(Repeat(0, n) + rest, 0) == []
  {
    var db := Repeat(0, n) + rest;
    if LIST_HEADER < |db| {
      assert db[16..20] == [0, 0, 0, 0];
      assert FromLe([0, 0, 0, 0]) == 0;
    }
  }

  // ---------------------------------------------------------------- parse undoes serialise

  datatype Sig = Sig(owner: Data, data: Data)

  /** An EFI_SIGNATURE_LIST: its type, header bytes, signature size and signatures. */
  datatype SigList = SigList(kind: Data, header: Data, size: nat, sigs: seq<Sig>)

  ghost function SigBytes(sigs: seq<Sig>): Data {
    if sigs == [] then [] else sigs[0].owner + sigs[0].data + SigBytes(sigs[1..])
  }

  ghost predicate SizedSigs(sigs: seq<Sig>, size: nat) {
    forall i :: 0 <= i < |sigs| ==> |sigs[i].owner| == GUID_SIZE && |sigs[i].data| + GUID_SIZE == size
  }

  ghost predicate WellFormed(l: SigList) {
    && |l.kind| == GUID_SIZE && GUID_SIZE <= l.size < LIMIT32
    && LIST_HEADER + |l.header| + |SigBytes(l.sigs)| < LIMIT32
    && SizedSigs(l.sigs, l.size)
  }

  ghost function ListSize(l: SigList): nat {
    LIST_HEADER + |l.header| + |SigBytes(l.sigs)|
  }

  ghost function ListBytes(l: SigList): (b: Data)
    requires WellFormed(l)
    ensures |b| == ListSize(l)
  {
    Pow256Values();
    l.kind + Le(ListSize(l), 4) + Le(|l.header|, 4) + Le(l.size, 4) + l.header + SigBytes(l.sigs)
  }

  ghost predicate AllWellFormed(lists: seq<SigList>) {
    forall i :: 0 <= i < |lists| ==> WellFormed(lists[i])
  }

  ghost function Serialise(lists: seq<SigList>): Data
    requires AllWellFormed(lists)
  {
    if lists == [] then [] else ListBytes(lists[0]) + Serialise(lists[1..])
  }

  /** All signatures of a list as blobs. */
  ghost function SigBlobs(name: string, sigs: seq<Sig>): (r: seq<Blob>)
    ensures |r| == |sigs|
  {
    if sigs == [] then [] else [Blob(name, sigs[0].owner, sigs[0].data)] + SigBlobs(name, sigs[1..])
  }

  /** What the parser recovers of a list: with signatures of size 16, an owner without data, the last is lost. */
  ghost function Recovered(l: SigList): seq<Blob> {
    if !Accepted(l.kind, l.size) then []
    else if l.size == GUID_SIZE && l.sigs != [] then SigBlobs(NameOf(l.kind), l.sigs[..|l.sigs| - 1])
    else SigBlobs(NameOf(l.kind), l.sigs)
  }

  ghost function AllRecovered(lists: seq<SigList>): seq<Blob> {
    if lists == [] then [] else Recovered(lists[0]) + AllRecovered(lists[1..])
  }

  /** Every signature of the lists whose type and size the parser accepts. */
  ghost function AllBlobs(lists: seq<SigList>): seq<Blob> {
    if lists == [] then []
    else
      var l := lists[0];
      (if Accepted(l.kind, l.size) then SigBlobs(NameOf(l.kind), l.sigs) else []) + AllBlobs(lists[1..])
  }

  /** One serialised signature in front of others. */
  lemma FirstSignature(pre: Data, s: Sig, rest: Data, size: nat)
    requires |s.owner| == GUID_SIZE && |s.data| + GUID_SIZE == size
    ensures var body := pre + (s.owner + s.data + rest);
            && body[|pre|..|pre| + GUID_SIZE] == s.owner
            && Slice(body, |pre| + GUID_SIZE, |pre| + size) == s.data
            && body == (pre + s.owner + s.data) + rest
  {
    var body := pre + (s.owner + s.data + rest);
    assert body[|pre| + GUID_SIZE..|pre| + size] == s.data;
  }

  /** The body of a list with signatures longer than an owner. */
  lemma {:induction false} BodyRead(name: string, pre: Data, sigs: seq<Sig>, size: nat)
    requires size > GUID_SIZE && SizedSigs(sigs, size)
    ensures BlobsIn(name, pre + SigBytes(sigs), size, |pre|) == SigBlobs(name, sigs)
    decreases |sigs|
  {
    if sigs != [] {
      var s, rest := sigs[0], SigBytes(sigs[1..]);
      FirstSignature(pre, s, rest, size);
      BodyRead(name, pre + s.owner + s.data, sigs[1..], size);
    }
  }

  /** The body of a list of bare owners: all but the last are read. */
  lemma {:induction false} OwnersRead(name: string, pre: Data, sigs: seq<Sig>)
    requires SizedSigs(sigs, GUID_SIZE) && sigs != []
    ensures BlobsIn(name, pre + SigBytes(sigs), GUID_SIZE, |pre|) == SigBlobs(name, sigs[..|sigs| - 1])
    decreases |sigs|
  {
    var s, rest := sigs[0], SigBytes(sigs[1..]);
    FirstSignature(pre, s, rest, GUID_SIZE);
    if |sigs| == 1 {
      assert sigs[1..] == [] && sigs[..0] == [];
    } else {
      SomeBytes(sigs[1..], GUID_SIZE);
      OwnersRead(name, pre + s.owner + s.data, sigs[1..]);
      assert sigs[1..][..|sigs| - 2] == sigs[..|sigs| - 1][1..];
    }
  }

  lemma SomeBytes(sigs: seq<Sig>, size: nat)
    requires SizedSigs(sigs, size)
    ensures sigs != [] ==> |SigBytes(sigs)| >= GUID_SIZE
  {
  }

  /** The header of a serialised list, wherever it stands, and its body. */
  lemma HeaderRead(pre: Data, l: SigList, post: Data)
    requires WellFormed(l)
    ensures var db := pre + ListBytes(l) + post;
            && HeaderAt(db, |pre|) == Header(l.kind, ListSize(l), |l.header|, l.size)
            && Slice(db, |pre| + LIST_HEADER + |l.header|, |pre| + ListSize(l)) == SigBytes(l.sigs)
  {
    hide SigBytes, FromLe;
    Pow256Values();
    var a, b, c := Le(ListSize(l), 4), Le(|l.header|, 4), Le(l.size, 4);
    HeaderSlices(pre, l.kind, a, b, c, l.header + SigBytes(l.sigs) + post);
    BodySlice(pre + l.kind + a + b + c, l.header, SigBytes(l.sigs), post);
    Regroup(pre, l.kind, a, b, c, l.header, SigBytes(l.sigs), post);
  }

  lemma Regroup(pre: Data, k: Data, a: Data, b: Data, c: Data, h: Data, s: Data, post: Data)
    ensures pre + (k + a + b + c + h + s) + post == pre + k + a + b + c + (h + s + post)
  {
  }

  lemma HeaderSlices(pre: Data, kind: Data, a: Data, b: Data, c: Data, rest: Data)
    requires |kind| == 16 && |a| == |b| == |c| == 4
    ensures var db := pre + kind + a + b + c + rest; var o := |pre|;
            db[o..o + 16] == kind && db[o + 16..o + 20] == a && db[o + 20..o + 24] == b && db[o + 24..o + 28] == c
  {
  }

  lemma BodySlice(pre: Data, header: Data, body: Data, post: Data)
    ensures Slice(pre + (header + body + post), |pre| + |header|, |pre| + |header| + |body|) == body
  {
    var db := pre + (header + body + post);
    assert db[|pre| + |header|..|pre| + |header| + |body|] == body;
  }

  lemma ListRead(pre: Data, l: SigList, post: Data)
    requires WellFormed(l)
    ensures BlobsAt(pre + ListBytes(l) + post, |pre|) == Recovered(l)
  {
    hide SigBytes, HeaderAt, TypeOf, BlobsIn;
    HeaderRead(pre, l, post);
    if Accepted(l.kind, l.size) {
      var body := SigBytes(l.sigs);
      assert [] + body == body;
      if l.size > GUID_SIZE {
        BodyRead(NameOf(l.kind), [], l.sigs, l.size);
      } else if l.sigs == [] {
        EmptyBody();
        NoMore(NameOf(l.kind), body, l.size, 0);
      } else {
        OwnersRead(NameOf(l.kind), [], l.sigs);
      }
    }
  }

  lemma EmptyBody()
    ensures SigBytes([]) == []
  {
  }

  /** A list of the bare header has nothing to recover. */
  lemma BareHeader(l: SigList)
    requires WellFormed(l) && |ListBytes(l)| == LIST_HEADER
    ensures Recovered(l) == []
  {
    hide TypeOf;
    SomeBytes(l.sigs, l.size);
  }

  lemma {:induction false} RecoveredFrom(pre: Data, lists: seq<SigList>)
    requires AllWellFormed(lists)
    ensures Blobs(pre + Serialise(lists), |pre|) == AllRecovered(lists)
    decreases |lists|
  {
    hide BlobsAt, HeaderAt, TypeOf, ListBytes, Recovered, WellFormed;
    var db := pre + Serialise(lists);
    if lists != [] {
      var l, post := lists[0], Serialise(lists[1..]);
      assert db == pre + ListBytes(l) + post == (pre + ListBytes(l)) + post;
      HeaderRead(pre, l, post);
      ListRead(pre, l, post);
      RecoveredFrom(pre + ListBytes(l), lists[1..]);
      if |pre| + LIST_HEADER >= |db| {
        BareHeader(l);
        assert post == [];
      }
    }
  }

  /** Serialising signature lists and parsing them recovers, in order, every signature of the accepted
      lists, except the last of each list of bare owners. */
  lemma SerialiseThenParse(lists: seq<SigList>)
    requires AllWellFormed(lists)
    ensures Blobs(Serialise(lists), 0) == AllRecovered(lists)
  {
    hide Blobs, Serialise, AllRecovered;
    RecoveredFrom([], lists);
    assert [] + Serialise(lists) == Serialise(lists);
  }

  /** A list from which a signature is lost. */
  predicate LosesOne(l: SigList) {
    Accepted(l.kind, l.size) && l.size == GUID_SIZE && l.sigs != []
  }

  lemma {:induction false} LossCount(lists: seq<SigList>)
    ensures |AllRecovered(lists)| <= |AllBlobs(lists)|
    ensures |AllRecovered(lists)| == |AllBlobs(lists)| <==> forall i :: 0 <= i < |lists| ==> !LosesOne(lists[i])
    ensures |AllRecovered(lists)| == |AllBlobs(lists)| ==> AllRecovered(lists) == AllBlobs(lists)
  {
    hide Accepted;
    if lists != [] {
      LossCount(lists[1..]);
      assert forall i :: 0 < i < |lists| ==> lists[i] == lists[1..][i - 1];
      assert (forall i :: 0 <= i < |lists[1..]| ==> !LosesOne(lists[1..][i]))
        <==> (forall i :: 0 < i < |lists| ==> !LosesOne(lists[i]));
    }
  }

  /** The parser returns all signature data of the accepted lists exactly when none of them holds bare owners. */
  lemma RoundTrip(lists: seq<SigList>)
    requires AllWellFormed(lists)
    ensures Blobs(Serialise(lists), 0) == AllBlobs(lists) <==> forall i :: 0 <= i < |lists| ==> !LosesOne(lists[i])
  {
    hide Blobs, Serialise, AllRecovered, AllBlobs, Accepted;
    SerialiseThenParse(lists);
    LossCount(lists);
  }

  /** A list of SHA256 hashes, 0x30 bytes a signature, comes back whole. */
  lemma Sha256List(header: Data, sigs: seq<Sig>)
    requires SizedSigs(sigs, 0x30) && 28 + |header| + |SigBytes(sigs)| < 0x1_0000_0000
    ensures var guid := Guid(0xC1C41626, 0x504C, 0x4092, [0xAC, 0xA9, 0x41, 0xF9, 0x36, 0x93, 0x43, 0x28]);
            var l := SigList(guid, header, 0x30, sigs);
            WellFormed(l) && Blobs(Serialise([l]), 0) == SigBlobs("SHA256", sigs)
  {
    hide Guid, TypeOf, SigBytes, Blobs, Serialise, SigBlobs, ListSize;
    Sha256Type();
    var l := SigList(SHA256_GUID, header, 0x30, sigs);
    assert [l][1..] == [];
    SerialiseThenParse([l]);
    assert SigBlobs("SHA256", sigs) + [] == SigBlobs("SHA256", sigs);
  }

  /** A concrete list that is lost: one X509 signature that is only an owner. */
  lemma BareOwnerLost(owner: Data)
    requires |owner| == GUID_SIZE
    ensures var lists := [SigList(X509_GUID, [], GUID_SIZE, [Sig(owner, [])])];
            AllWellFormed(lists) && Blobs(Serialise(lists), 0) != AllBlobs(lists)
  {
    hide Blobs, Serialise, AllBlobs;
    var l := SigList(X509_GUID, [], GUID_SIZE, [Sig(owner, [])]);
    X509Type();
    assert Accepted(l.kind, l.size) by { hide X509_GUID; }
    assert l.sigs[1..] == [];
    assert |SigBytes(l.sigs)| == 16;
    assert LosesOne([l][0]);
    RoundTrip([l]);
  }
}
