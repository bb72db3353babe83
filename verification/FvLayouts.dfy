/** Volume, file and section headers as literal byte layouts: sections 3.2.1 to 3.2.4 of the UEFI PI Specification
    volume 3. */
module FvLayouts {
  import opened Bits
  import opened Bytes
  import opened FvWalk
  import opened FvAssemble
  import opened Options

  lemma SubSlice(s: Data, i: nat, j: nat, p: nat, q: nat)
    requires i <= j <= |s| && p <= q <= j - i
    ensures s[i..j][p..q] == s[i + p..i + q]
  {
    assert forall k :: 0 <= k < q - p ==> s[i..j][p..q][k] == s[i..j][p + k] == s[i + p + k];
  }

  // ---------------------------------------------------------------- the volume header

  /** A volume header's fields. */
  datatype Fields = Fields(zero: Data, guid: Data, length: nat, attributes: nat, headerLength: nat, checksum: nat,
                           extHeader: nat, reserved: Byte, revision: Byte)

  ghost predicate Fitting(f: Fields) {
    && |f.zero| == 16 && |f.guid| == 16 && f.length < Pow256(8) && f.attributes < Pow256(4)
    && f.headerLength < Pow256(2) && f.checksum < Pow256(2) && f.extHeader < Pow256(2)
  }

  /** Zero vector, file system GUID, length, "_FVH", attributes, header length, checksum, extended-header offset,
      reserved byte and revision. */
  ghost function Packed(f: Fields): (b: Data)
    requires Fitting(f)
    ensures |b| == 56
  {
    f.zero + f.guid + Le(f.length, 8) + [0x5F, 0x46, 0x56, 0x48] + Le(f.attributes, 4) + Le(f.headerLength, 2)
    + Le(f.checksum, 2) + Le(f.extHeader, 2) + [f.reserved, f.revision]
  }

  lemma PackedParts(f: Fields)
    requires Fitting(f)
    ensures var b := Packed(f);
            && b[16..32] == f.guid && b[32..40] == Le(f.length, 8) && b[40..44] == [0x5F, 0x46, 0x56, 0x48]
            && b[44..48] == Le(f.attributes, 4) && b[48..50] == Le(f.headerLength, 2) && b[50..52] == Le(f.checksum, 2)
            && b[52..54] == Le(f.extHeader, 2) && b[54] == f.reserved
  {
    hide Le, Pow256;
  }

  lemma PackedFields(b: Data, at: nat, f: Fields)
    requires Fitting(f) && at + 56 <= |b| && b[at..at + 56] == Packed(f)
    ensures SignatureAt(b, at + 40) && b[at + 16..at + 32] == f.guid && b[at + 54] == f.reserved
    ensures Field(b, at + 32, 8) == f.length && Field(b, at + 44, 4) == f.attributes
    ensures Field(b, at + 48, 2) == f.headerLength && Field(b, at + 50, 2) == f.checksum
    ensures Field(b, at + 52, 2) == f.extHeader
  {
    hide Le, FromLe, Pow256, Packed;
    PackedParts(f);
    SubSlice(b, at, at + 56, 16, 32);
    SubSlice(b, at, at + 56, 32, 40);
    SubSlice(b, at, at + 56, 40, 44);
    SubSlice(b, at, at + 56, 44, 48);
    SubSlice(b, at, at + 56, 48, 50);
    SubSlice(b, at, at + 56, 50, 52);
    SubSlice(b, at, at + 56, 52, 54);
    assert b[at + 54] == b[at..at + 56][54];
  }

  /** What the search returns for such a header: every field but the calculated checksum. */
  ghost predicate Reads(v: Volume, b: Data, at: nat, f: Fields) {
    && v.offset == at && v.guid == f.guid && v.size == f.length && v.attributes == f.attributes
    && v.headerSize == f.headerLength && v.checksum == f.checksum && v.extHeaderOffset == f.extHeader
    && at + f.length <= |b| && v.image == b[at..at + f.length]
  }

  lemma PackedVolume(b: Data, at: nat, f: Fields)
    requires Fitting(f) && at + 56 <= |b| && b[at..at + 56] == Packed(f)
    ensures VolumeHeader(b, at) <==> f.reserved == 0 && f.extHeader < f.length && f.headerLength < f.length
                                     && at + f.length <= |b|
    ensures VolumeHeader(b, at) ==> Reads(VolumeAt(b, at), b, at, f)
  {
    hide Le, FromLe, Pow256, Packed, Field, Checksum16, ChecksummedHeader;
    PackedFields(b, at, f);
  }

  /** A packed header is found again, from any search start at or before its signature with no signature in between,
      exactly when the reserved byte is 0, both header lengths are below the volume's, the volume fits the buffer, and
      at least 96 bytes are left. */
  lemma HeaderRoundTrip(b: Data, fof: nat, at: nat, f: Fields)
    requires Fitting(f) && at + 56 <= |b| && b[at..at + 56] == Packed(f)
    requires fof <= at + 40 && forall q :: fof <= q < at + 40 ==> !SignatureAt(b, q)
    requires fof + 56 < |b|
    ensures var r := NextVolume(b, fof);
            (r.Some? && Reads(r.value, b, at, f))
            <==> f.reserved == 0 && f.extHeader < f.length && f.headerLength < f.length && at + f.length <= |b|
                 && at + 96 <= |b|
  {
    hide Packed, VolumeAt, ValidHeader, SignatureAt, NextVolume, Pow256, Le;
    PackedFields(b, at, f);
    PackedVolume(b, at, f);
    SearchAt(b, fof, at);
    NextVolumeExact(b, fof);
  }

  /** The search at the first signature. */
  lemma SearchAt(b: Data, fof: nat, at: nat)
    requires SignatureAt(b, at + 40) && fof <= at + 40 && forall q :: fof <= q < at + 40 ==> !SignatureAt(b, q)
    requires fof + 56 < |b| && at + 56 <= |b|
    ensures at + 96 > |b| ==> NextVolume(b, fof).None?
    ensures at + 96 <= |b| && VolumeHeader(b, at) ==> NextVolume(b, fof) == Some(VolumeAt(b, at))
  {
    hide VolumeAt, ValidHeader, SignatureAt;
    assert Find(b, fof) == Some(at + 40);
  }

  /** Where a search begins: at off, or behind the last volume, which counts for at least 56 bytes. */
  lemma SearchStarts(off: nat, lastSize: nat)
    ensures lastSize == 0 ==> SearchStart(off, lastSize) == off
    ensures 0 < lastSize <= 56 ==> SearchStart(off, lastSize) == off + 56
    ensures lastSize >= 56 ==> SearchStart(off, lastSize) == off + lastSize
  {
  }

  // ---------------------------------------------------------------- the file header

  lemma SmallPowers()
    ensures Pow2(2) == 4 && Pow2(4) == 0x10 && Pow2(5) == 0x20 && Pow2(6) == 0x40
  {
  }

  /** A single-bit mask, in a value and in its complement. */
  lemma BitSetMeaning(value: nat, n: nat, p: nat, polarity: bool)
    requires p == Pow2(n)
    ensures BitSet(value, p, polarity) <==> (value / p % 2 == 1) != polarity
    ensures And(value, p) != 0 <==> value / p % 2 == 1
  {
    hide And, AndNot;
    AndMaskAs(value, n, 1, p, p, 2 * p);
    OneBit(value, p);
    AndCommutes(p, value);
    AndNotIsDifference(p, value);
  }

  /** A file is acceptable when bit 2, 3 or 4 of its state is set, or clear in a volume of erase polarity; bits 3 and 4
      mark it for update or deleted. */
  lemma StateMeaning(state: nat, polarity: bool)
    ensures Accepted(state, polarity) <==>
              || (state / 4 % 2 == 1) != polarity || (state / 8 % 2 == 1) != polarity
              || (state / 0x10 % 2 == 1) != polarity
    ensures UpdateOrDeleted(state, polarity) <==>
              (state / 8 % 2 == 1) != polarity || (state / 0x10 % 2 == 1) != polarity
  {
    hide BitSet;
    SmallPowers();
    Pow2Values();
    BitSetMeaning(state, 2, 4, polarity);
    BitSetMeaning(state, 3, 8, polarity);
    BitSetMeaning(state, 4, 0x10, polarity);
  }

  /** Bit 0 of the attributes marks a large file, bit 6 a checksummed one. */
  lemma AttributeMeaning(attributes: nat)
    ensures IsLarge(attributes) <==> attributes % 2 == 1
    ensures And(attributes, FFS_ATTRIB_CHECKSUM) != 0 <==> attributes / 0x40 % 2 == 1
  {
    hide And;
    SmallPowers();
    Pow2Values();
    BitSetMeaning(attributes, 0, 1, false);
    BitSetMeaning(attributes, 6, 0x40, false);
  }

  /** A blank header is 24 bytes 0xFF, or 0x00 without erase polarity. */
  lemma BlankMeaning(header: Data, polarity: bool)
    ensures BlankHeader(header, polarity) <==>
              |header| == 24 && forall i :: 0 <= i < 24 ==> header[i] == if polarity then 0xFF else 0x00
  {
  }

  /** The 24-bit size at byte 20; for a large file with room for its header, the low 32 bits of the 64-bit size 24 bytes
      behind the search start, if they are not zero and fit. */
  lemma SizeMeaning(img: Data, limit: nat, fof: nat, cur: nat)
    requires fof <= cur && cur + 24 < Min(limit, |img|)
    ensures var short := img[cur + 20] as int + 0x100 * img[cur + 21] as int + 0x1_0000 * img[cur + 22] as int;
            && (img[cur + 19] % 2 == 0 || |img| <= fof + 32 ==> FileSize(img, limit, fof, cur) == short)
            && (img[cur + 19] % 2 == 1 && |img| > fof + 32 ==>
                  var long := LowWord(img, fof + 24);
                  FileSize(img, limit, fof, cur) == if 0 < long <= limit - cur then long else short)
  {
    hide IsLarge, FromLe;
    AttributeMeaning(img[cur + 19]);
    FromLe3(img[cur + 20..cur + 23]);
    if |img| > fof + 32 {
      LowWordMeaning(img, fof + 24);
    }
  }

  /** Four bytes as a little-endian number. */
  function LowWord(b: Data, o: nat): nat
    requires o + 4 <= |b|
  {
    b[o] as int + 0x100 * b[o + 1] as int + 0x1_0000 * b[o + 2] as int + 0x100_0000 * b[o + 3] as int
  }

  lemma LowWordMeaning(b: Data, o: nat)
    requires o + 8 <= |b|
    ensures Field(b, o, 8) % 0x1_0000_0000 == LowWord(b, o)
  {
    hide FromLe;
    LowOfEight(b[o..o + 8]);
  }

  lemma LowOfEight(w: Data)
    requires |w| == 8
    ensures FromLe(w) % 0x1_0000_0000
         == w[0] as int + 0x100 * w[1] as int + 0x1_0000 * w[2] as int + 0x100_0000 * w[3] as int
  {
    hide FromLe, Pow256;
    assert w == w[..4] + w[4..];
    FromLeConcat(w[..4], w[4..]);
    Pow256Values();
    FromLe4(w[..4]);
    DivModUnique(FromLe(w), 0x1_0000_0000, FromLe(w[4..]), FromLe(w[..4]));
  }

  /** The fields of a file with a given 24-byte header: GUID, checksum, type, attributes and state, the header length
      of 24 or 32, and the calculated checksum: the low byte over the header without checksum and state, the high byte
      over the bytes behind it, or 0xAA. */
  lemma FileFields(h: Data, image: Data, offset: nat, size: nat, polarity: bool)
    requires |h| == 24
    ensures var f := FileFrom(h, image, offset, size, polarity);
            && f.offset == offset && f.size == size && f.image == image && f.guid == h[..16]
            && f.checksum == h[16] as int + 0x100 * h[17] as int && f.ftype == h[18] && f.attributes == h[19]
            && f.state == h[23] && f.headerSize == (if h[19] % 2 == 1 then 32 else 24)
            && f.updateOrDeleted == ((h[23] / 8 % 2 == 1) != polarity || (h[23] / 0x10 % 2 == 1) != polarity)
            && f.calcSum == HeaderSum(h) + 0x100 * BodySum(h, image)
  {
    hide And, Or, Shl, Checksum8, Accepted, UpdateOrDeleted, FromLe, ByteSum, IsLarge;
    AttributeMeaning(h[19]);
    StateMeaning(h[23], polarity);
    TwoBytes(h[16..18]);
    var zeroed := h[..16] + [0, 0] + h[18..23] + [0];
    Checksum8Meaning(zeroed, Checksum8(zeroed));
    ChecksumIs(zeroed);
    var body := Slice(image, 24, |image|);
    ChecksumIs(body);
    JoinSums(HeaderSum(h), BodySum(h, image));
  }

  lemma TwoBytes(w: Data)
    requires |w| == 2
    ensures FromLe(w) == w[0] as int + 0x100 * w[1] as int
  {
    assert FromLe(w) == w[0] as int + 256 * FromLe(w[1..]);
    assert w[1..][1..] == [];
    assert FromLe(w[1..]) == w[1] as int + 256 * FromLe(w[1..][1..]);
  }

  /** The byte that brings a sum to zero. */
  ghost function Complement8(sum: nat): Byte {
    (0x100 - sum % 0x100) % 0x100
  }

  ghost function HeaderSum(h: Data): Byte
    requires |h| == 24
  {
    Complement8(ByteSum(h[..16] + [0, 0] + h[18..23] + [0]))
  }

  ghost function BodySum(h: Data, image: Data): Byte
    requires |h| == 24
  {
    if h[19] / 0x40 % 2 == 1 then Complement8(ByteSum(Slice(image, 24, |image|))) else 0xAA
  }

  lemma ChecksumIs(b: Data)
    ensures Checksum8(b) == Complement8(ByteSum(b))
  {
    hide Checksum8, ByteSum;
    var s := ByteSum(b);
    Checksum8Meaning(b, Complement8(s));
    assert (s + Complement8(s)) % 0x100 == 0;
  }

  lemma JoinSums(low: Byte, high: Byte)
    ensures Or(low, Shl(high, 8)) == low as int + 0x100 * high as int
  {
    hide Or, Shl;
    JoinBytes(low, high);
  }

  // ---------------------------------------------------------------- assembled bytes

  /** A raw section: its length including the 4-byte header, type 0x19, the image, and zeros up to a multiple of 8. */
  lemma RawLayout(image: Data)
    ensures var b, n := AssembleRaw(image), |image| + 4;
            && n <= |b| < n + 8 && |b| % 8 == 0
            && b[..4] == [n % 0x100, n / 0x100 % 0x100, n / 0x1_0000 % 0x100, 0x19]
            && b[4..n] == image && forall i :: n <= i < |b| ==> b[i] == 0
  {
    hide SizeWord;
    RawLength(image);
    WordBytes(|image| + 4, 0x19);
    var s := SizeWord(|image| + 4, EFI_SECTION_RAW) + image;
    assert AssembleRaw(image) == Ljust(s, (|s| + 7) / 8 * 8, 0x00);
  }

  lemma WordBytes(size: nat, top: Byte)
    ensures SizeWord(size, top) == [size % 0x100, size / 0x100 % 0x100, size / 0x1_0000 % 0x100, top]
  {
    hide SizeWord, FromLe;
    SizeWordMeaning(size, top);
    var w := SizeWord(size, top);
    FromLe3(w[0..3]);
    ThreeDigits(w[0], w[1], w[2], size);
  }

  lemma ThreeDigits(a: Byte, b: Byte, c: Byte, n: nat)
    requires a as int + 0x100 * b as int + 0x1_0000 * c as int == n % 0x100_0000
    ensures a == n % 0x100 && b == n / 0x100 % 0x100 && c == n / 0x1_0000 % 0x100
  {
    var q := n / 0x100_0000;
    assert n == 0x100_0000 * q + a as int + 0x100 * b as int + 0x1_0000 * c as int;
    DivModUnique(n, 0x100, 0x1_0000 * q + 0x100 * c as int + b, a);
    DivModUnique(n, 0x1_0000, 0x100 * q + c, 0x100 * b as int + a);
    DivModUnique(n / 0x100, 0x100, 0x100 * q + c, b);
    DivModUnique(n / 0x1_0000, 0x100, q, c);
  }

  /** A compression section: length, type 0x01, the 32-bit uncompressed size, the compression type, and the image. */
  lemma SectionLayout(image: Data, uncompressedSize: nat, compressionType: Byte)
    requires uncompressedSize < Pow256(4)
    ensures var b, n := AssembleSection(image, uncompressedSize, compressionType), |image| + 9;
            && |b| == n && b[..4] == [n % 0x100, n / 0x100 % 0x100, n / 0x1_0000 % 0x100, 0x01]
            && LowWord(b, 4) == uncompressedSize && b[8] == compressionType && b[9..] == image
  {
    hide SizeWord, Le, FromLe;
    WordBytes(9 + |image|, 0x01);
    var b := AssembleSection(image, uncompressedSize, compressionType);
    assert b[4..8] == Le(uncompressedSize, 4);
    FromLe4(b[4..8]);
  }

  /** A file: GUID, checksum, type 0x02, attributes 0x40, length including the 24-byte header, state 0xF8, and the
      image; the checksum bytes bring the header's sum without state and checksum, and the image's, to zero. */
  lemma FileLayout(guid: Data, image: Data)
    requires |guid| == 16
    ensures var b, n := AssembleFile(guid, image), |image| + 24;
            && |b| == n && b[..16] == guid && b[18] == 0x02 && b[19] == 0x40
            && b[20..23] == [n % 0x100, n / 0x100 % 0x100, n / 0x1_0000 % 0x100] && b[23] == 0xF8 && b[24..] == image
            && b[16] == Complement8(ByteSum(b[..16] + [0, 0] + b[18..23] + [0]))
            && b[17] == Complement8(ByteSum(image))
  {
    hide AssembleFile, SizeWord, Checksum8, Or, Shl, FromLe, ByteSum;
    var b, size := AssembleFile(guid, image), 24 + |image|;
    var unsigned := guid + [0, 0] + [EFI_FV_FILETYPE_FREEFORM, 0x40] + SizeWord(size, 0x00);
    AssembledParts(guid, image);
    FromLe3(b[20..23]);
    ThreeDigits(b[20], b[21], b[22], size);
    ChecksumIs(unsigned);
    ChecksumIs(image);
    JoinSums(Checksum8(unsigned), Checksum8(image));
    TwoBytes(b[16..18]);
    TwoDigits(b[16], b[17], Checksum8(unsigned), Checksum8(image));
  }

  lemma TwoDigits(a: Byte, b: Byte, c: Byte, d: Byte)
    requires a as int + 0x100 * b as int == c as int + 0x100 * d as int
    ensures a == c && b == d
  {
  }
}
