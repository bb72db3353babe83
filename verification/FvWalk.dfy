/** Walking firmware volumes and the files in them: NextFwVolume and NextFwFile. */
module FvWalk {
  import opened Bits
  import opened Bytes
  import opened Options

  const VOLUME_HEADER_SIZE: nat := 56
  const FILE_HEADER_SIZE: nat := 24
  const FILE_HEADER2_SIZE: nat := 32
  const FVH_SIGNATURE: Data := [0x5F, 0x46, 0x56, 0x48]

  const FFS_ATTRIB_LARGE_FILE: nat := 0x01
  const FFS_ATTRIB_CHECKSUM: nat := 0x40
  const FFS_FIXED_CHECKSUM: nat := 0xAA
  const EFI_FILE_DATA_VALID: nat := 0x04
  const EFI_FILE_MARKED_FOR_UPDATE: nat := 0x08
  const EFI_FILE_DELETED: nat := 0x10
  const EFI_FVB2_ERASE_POLARITY: nat := 0x800

  // ---------------------------------------------------------------- checksums

  lemma MaskByte(x: nat)
    ensures And(x, 0xFF) == x % 0x100
  {
    hide And;
    Pow2Values();
    AndMaskAs(x, 0, 8, 0xFF, 1, 0x100);
  }

  lemma MaskWord(x: nat)
    ensures And(x, 0xFFFF) == x % 0x1_0000
  {
    hide And;
    Pow2Values();
    AndMaskAs(x, 0, 16, 0xFFFF, 1, 0x1_0000);
  }

  ghost predicate Congruent(a: nat, b: nat, m: nat)
    requires m > 0
  {
    a % m == b % m
  }

  /** One term moves from what is left to sum into the running residue. */
  lemma SumStep(sum: nat, x: nat, rest: nat, total: nat, m: nat)
    requires m > 0 && Congruent(sum + (x + rest), total, m)
    ensures (sum + x) % m < m && Congruent((sum + x) % m + rest, total, m)
  {
    EarlyMod(sum, x, rest, m);
  }

  lemma SumStart(total: nat, m: nat)
    requires m > 0
    ensures Congruent(0 + total, total, m)
  {
  }

  lemma SumEnd(sum: nat, total: nat, m: nat)
    requires sum < m && Congruent(sum + 0, total, m)
    ensures sum == total % m
  {
  }

  lemma ByteSumFrom(b: Data, i: nat)
    requires i <= |b|
    ensures ByteSum(b[i..]) == if i < |b| then b[i] as int + ByteSum(b[i + 1..]) else 0
  {
    assert i < |b| ==> b[i..][1..] == b[i + 1..];
  }

  lemma WordSumFrom(b: Data, i: nat)
    requires i <= |b|
    ensures WordSum(b[i..]) == if i + 1 < |b| then Word(b[i], b[i + 1]) + WordSum(b[i + 2..]) else 0
  {
    assert i + 1 < |b| ==> b[i..][2..] == b[i + 2..];
  }

  method FvSum8(buffer: Data) returns (sum8: nat)
    ensures sum8 == ByteSum(buffer) % 0x100
  {
    hide And, ByteSum, Congruent;
    sum8 := 0;
    assert buffer[0..] == buffer;
    SumStart(ByteSum(buffer), 0x100);
    for i := 0 to |buffer|
      invariant sum8 < 0x100 && Congruent(sum8 + ByteSum(buffer[i..]), ByteSum(buffer), 0x100)
    {
      ByteSumFrom(buffer, i);
      MaskByte(sum8 + buffer[i]);
      SumStep(sum8, buffer[i], ByteSum(buffer[i + 1..]), ByteSum(buffer), 0x100);
      sum8 := And(sum8 + buffer[i], 0xFF);
    }
    ByteSumFrom(buffer, |buffer|);
    SumEnd(sum8, ByteSum(buffer), 0x100);
  }

  method FvSum16(buffer: Data) returns (sum16: nat)
    ensures sum16 == WordSum(buffer) % 0x1_0000
  {
    hide And, Or, WordSum, Congruent, Word;
    sum16 := 0;
    var blen := |buffer| / 2;
    var i := 0;
    assert buffer[0..] == buffer;
    SumStart(WordSum(buffer), 0x1_0000);
    while i < blen
      invariant 0 <= i <= blen && sum16 < 0x1_0000
      invariant Congruent(sum16 + WordSum(buffer[2 * i..]), WordSum(buffer), 0x1_0000)
    {
      var el16 := Or(buffer[2 * i], Shl(buffer[2 * i + 1], 8));
      JoinBytes(buffer[2 * i], buffer[2 * i + 1]);
      WordSumFrom(buffer, 2 * i);
      MaskWord(sum16 + el16);
      SumStep(sum16, el16, WordSum(buffer[2 * i + 2..]), WordSum(buffer), 0x1_0000);
      sum16 := And(sum16 + el16, 0xFFFF);
      i := i + 1;
    }
    WordSumFrom(buffer, 2 * i);
    SumEnd(sum16, WordSum(buffer), 0x1_0000);
  }

  lemma JoinBytes(lo: Byte, hi: Byte)
    ensures Or(lo, Shl(hi, 8)) == Word(lo, hi)
  {
    hide And, Or;
    Pow2Values();
    DisjointHighLow(Shl(hi, 8), lo, 8);
    AndCommutes(lo, Shl(hi, 8));
    OrIsSum(lo, Shl(hi, 8));
  }

  /** FvChecksum8 */
  function Checksum8(b: Data): nat {
    And(0x100 - ByteSum(b) % 0x100, 0xFF)
  }

  /** FvChecksum16 */
  function Checksum16(b: Data): nat {
    And(0x1_0000 - WordSum(b) % 0x1_0000, 0xFFFF)
  }

  /** The byte checksum is the one byte that makes the total vanish modulo 256. */
  lemma Checksum8Meaning(b: Data, c: nat)
    ensures Checksum8(b) < 0x100
    ensures c < 0x100 ==> (c == Checksum8(b) <==> (ByteSum(b) + c) % 0x100 == 0)
  {
    hide And;
    var s := ByteSum(b);
    MaskByte(0x100 - s % 0x100);
    Complement(s, 0x100, c);
  }

  /** The word checksum is the one word that makes the total vanish modulo 65536. */
  lemma Checksum16Meaning(b: Data, c: nat)
    ensures Checksum16(b) < 0x1_0000
    ensures c < 0x1_0000 ==> (c == Checksum16(b) <==> (WordSum(b) + c) % 0x1_0000 == 0)
  {
    hide And;
    var s := WordSum(b);
    MaskWord(0x1_0000 - s % 0x1_0000);
    Complement(s, 0x1_0000, c);
  }

  lemma Complement(s: nat, m: nat, c: nat)
    requires m > 1
    ensures c < m ==> (c == (m - s % m) % m <==> (s + c) % m == 0)
  {
    var q, r := s / m, s % m;
    if c < m {
      if r == 0 {
        DivModUnique(m, m, 1, 0);
        DivModUnique(s + c, m, q, c);
      } else {
        DivModUnique(m - r, m, 0, m - r);
        if r + c < m {
          DivModUnique(s + c, m, q, r + c);
        } else {
          assert s + c == m * (q + 1) + (r + c - m);
          DivModUnique(s + c, m, q + 1, r + c - m);
        }
      }
    }
  }

  /** Reducing an accumulator early does not change the final residue. */
  lemma EarlyMod(s: nat, x: nat, rest: nat, m: nat)
    requires m > 0
    ensures ((s + x) % m + rest) % m == (s + (x + rest)) % m
  {
    var q, r := (s + x) / m, (s + x) % m;
    var q2, r2 := (r + rest) / m, (r + rest) % m;
    assert s + (x + rest) == m * (q + q2) + r2;
    DivModUnique(s + (x + rest), m, q + q2, r2);
  }

  // ---------------------------------------------------------------- volume headers

  datatype Volume = Volume(offset: nat, guid: Data, size: nat, attributes: nat, headerSize: nat,
                           checksum: nat, extHeaderOffset: nat, image: Data, calcSum: nat)

  predicate SignatureAt(b: Data, p: nat) {
    p + 4 <= |b| && b[p..p + 4] == FVH_SIGNATURE
  }

  /** buffer.find("_FVH", from) */
  function Find(b: Data, from: nat): (p: Option<nat>)
    ensures p.Some? ==> from <= p.value && SignatureAt(b, p.value)
    ensures forall q :: from <= q && SignatureAt(b, q) ==> p.Some? && p.value <= q
    decreases |b| - from
  {
    if from + 4 > |b| then None
    else if SignatureAt(b, from) then Some(from)
    else Find(b, from + 1)
  }

  /** The header bytes the volume checksum is taken over: checksum field zeroed, tail appended. */
  function ChecksummedHeader(b: Data, h: nat): (r: Data)
    requires h + VOLUME_HEADER_SIZE <= |b|
  {
    var headerLength := Field(b, h + 48, 2);
    b[h..h + 50] + [0, 0] + b[h + 52..h + 56] +
    if headerLength > VOLUME_HEADER_SIZE then Slice(b, h + VOLUME_HEADER_SIZE, h + headerLength) else []
  }

  /** The volume that a header at offset h describes. */
  function VolumeAt(b: Data, h: nat): Volume
    requires h + VOLUME_HEADER_SIZE <= |b|
  {
    var length := Field(b, h + 32, 8);
    Volume(h, b[h + 16..h + 32], length, Field(b, h + 44, 4), Field(b, h + 48, 2), Field(b, h + 50, 2),
           Field(b, h + 52, 2), Slice(b, h, h + length), Checksum16(ChecksummedHeader(b, h)))
  }

  /** ValidateFwVolumeHeader: a checksum mismatch is only logged. */
  predicate ValidHeader(b: Data, h: nat)
    requires h + VOLUME_HEADER_SIZE <= |b|
  {
    var v := VolumeAt(b, h);
    b[h + 54] == 0 && v.size <= |v.image| && v.extHeaderOffset < v.size && v.headerSize < v.size
  }

  /** A valid header with its signature in place. */
  predicate VolumeHeader(b: Data, h: nat) {
    h + VOLUME_HEADER_SIZE <= |b| && SignatureAt(b, h + 0x28) && ValidHeader(b, h)
  }

  function SearchStart(off: nat, lastSize: nat): nat {
    if lastSize == 0 then off else off + Max(lastSize, VOLUME_HEADER_SIZE)
  }

  /** No valid header has its signature in [from, to). */
  ghost predicate NoHeaderIn(b: Data, from: nat, to: int) {
    forall h: nat :: from <= h + 0x28 < to ==> !VolumeHeader(b, h)
  }

  /** The result of a search from fof: the first valid header at or after it, missing at most one
      whose signature is within the last 56 bytes. */
  ghost predicate FirstVolume(b: Data, fof: nat, r: Option<Volume>) {
    match r
    case None => NoHeaderIn(b, fof, |b| - VOLUME_HEADER_SIZE)
    case Some(v) =>
      && fof <= v.offset + 0x28
      && VolumeHeader(b, v.offset) && v == VolumeAt(b, v.offset)
      && v.offset + v.size <= |b| && v.image == b[v.offset..v.offset + v.size] && v.headerSize < v.size
      && NoHeaderIn(b, fof, v.offset + 0x28)
  }

  method NextFwVolume(buffer: Data, off: nat, lastSize: nat) returns (r: Option<Volume>)
    ensures FirstVolume(buffer, SearchStart(off, lastSize), r)
    ensures r == NextVolume(buffer, SearchStart(off, lastSize))
  {
    hide VolumeAt, ValidHeader, ChecksummedHeader, FirstVolume, Find, SignatureAt, SearchStart;
    var fof := SearchStart(off, lastSize);
    var size := |buffer|;
    NextVolumeExact(buffer, fof);
    while fof + VOLUME_HEADER_SIZE < size
      invariant NextVolume(buffer, fof) == NextVolume(buffer, SearchStart(off, lastSize))
      decreases size - fof
    {
      var found := Find(buffer, fof);
      if found.None? || size - found.value < VOLUME_HEADER_SIZE {
        return None;
      }
      var p := found.value;
      if p < 0x28 {
        fof := p + 4;
        continue;
      }
      var h := p - 0x28;
      if ValidHeader(buffer, h) {
        return Some(VolumeAt(buffer, h));
      }
      fof := h + 0x2C;
    }
    return None;
  }

  lemma NoOverlap(b: Data, p: nat)
    requires SignatureAt(b, p)
    ensures forall q :: p < q < p + 4 ==> !SignatureAt(b, q)
  {
    forall q | p < q < p + 4
      ensures !SignatureAt(b, q)
    {
      assert b[p..p + 4][q - p] == b[q];
      if q + 4 <= |b| {
        assert b[q..q + 4][0] == b[q];
      }
    }
  }

  lemma ValidImage(b: Data, h: nat)
    requires h + VOLUME_HEADER_SIZE <= |b| && ValidHeader(b, h)
    ensures var v := VolumeAt(b, h);
            && v.offset == h && h + v.size <= |b| && v.image == b[h..h + v.size]
            && v.headerSize < v.size
  {
    hide Field, Checksum16, ChecksummedHeader;
  }

  /** The volume the search from a given position returns. */
  function NextVolume(b: Data, fof: nat): Option<Volume>
    decreases |b| - fof
  {
    if fof + VOLUME_HEADER_SIZE >= |b| then None
    else
      match Find(b, fof)
      case None => None
      case Some(p) =>
        if |b| - p < VOLUME_HEADER_SIZE then None
        else if p >= 0x28 && ValidHeader(b, p - 0x28) then Some(VolumeAt(b, p - 0x28))
        else NextVolume(b, p + 4)
  }

  /** Successive volumes start at strictly increasing offsets, so enumeration ends. */
  lemma VolumesAdvance(b: Data, v: Volume)
    requires v.size > 0
    ensures var n := NextVolume(b, SearchStart(v.offset, v.size));
            n.Some? ==>
              v.offset + 16 <= n.value.offset && n.value.offset + VOLUME_HEADER_SIZE <= |b| && n.value.size > 0
  {
    hide VolumeAt, ValidHeader;
    NextVolumeExact(b, SearchStart(v.offset, v.size));
  }

  lemma SkipSignature(b: Data, fof: nat, p: nat)
    requires fof <= p && SignatureAt(b, p) && forall q :: fof <= q && SignatureAt(b, q) ==> p <= q
    requires p >= 0x28 ==> !VolumeHeader(b, p - 0x28)
    ensures NoHeaderIn(b, fof, p + 4)
  {
    hide ValidHeader, SignatureAt;
    NoOverlap(b, p);
  }

  lemma {:induction false} NextVolumeExact(b: Data, fof: nat)
    ensures FirstVolume(b, fof, NextVolume(b, fof))
    decreases |b| - fof
  {
    hide VolumeAt, ValidHeader, ChecksummedHeader, SignatureAt;
    if fof + VOLUME_HEADER_SIZE < |b| {
      var p := Find(b, fof);
      if p.Some? && |b| - p.value >= VOLUME_HEADER_SIZE {
        if p.value >= 0x28 && ValidHeader(b, p.value - 0x28) {
          ValidImage(b, p.value - 0x28);
        } else {
          NextVolumeExact(b, p.value + 4);
          SkipSignature(b, fof, p.value);
        }
      }
    }
  }

  /** With a full-length header, the calculated checksum is the stored one exactly when the
      header's 16-bit words sum to zero. */
  lemma VolumeChecksum(b: Data, h: nat)
    requires VolumeHeader(b, h) && Field(b, h + 48, 2) >= VOLUME_HEADER_SIZE
    ensures var v := VolumeAt(b, h);
            v.calcSum == v.checksum <==> WordSum(b[h..h + v.headerSize]) % 0x1_0000 == 0
  {
    hide Checksum16, Field, WordSum, ValidHeader;
    var n := Field(b, h + 48, 2);
    ValidImage(b, h);
    var pre, post := b[h..h + 50], b[h + 52..h + n];
    var zeroed := ChecksummedHeader(b, h);
    assert zeroed == pre + [0, 0] + post;
    var stored := b[h + 50..h + 52];
    assert b[h..h + n] == pre + stored + post;
    WordSumConcat(pre + [0, 0], post);
    WordSumConcat(pre, [0, 0]);
    WordSumConcat(pre + stored, post);
    WordSumConcat(pre, stored);
    WordOfField(b, h + 50);
    NullWord();
    Checksum16Meaning(zeroed, Field(b, h + 50, 2));
  }

  lemma NullWord()
    ensures WordSum([0, 0]) == 0
  {
    assert [0, 0][2..] == [];
  }

  lemma WordOfField(b: Data, o: nat)
    requires o + 2 <= |b|
    ensures WordSum(b[o..o + 2]) == Field(b, o, 2) < 0x1_0000
  {
    var w := b[o..o + 2];
    assert w[1..][1..] == [];
    assert w[2..] == [];
    assert FromLe(w) == w[0] as int + 256 * FromLe(w[1..]);
    assert FromLe(w[1..]) == w[1] as int + 256 * FromLe(w[1..][1..]);
  }

  // ---------------------------------------------------------------- files

  datatype FfsFile = FfsFile(offset: nat, guid: Data, ftype: nat, attributes: nat, state: nat, checksum: nat,
                             size: nat, image: Data, headerSize: nat, updateOrDeleted: bool, calcSum: nat)

  /** bit_set: with polarity the value is complemented first. */
  predicate BitSet(value: nat, mask: nat, polarity: bool) {
    if polarity then AndNot(mask, value) == mask else And(value, mask) == mask
  }

  predicate UpdateOrDeleted(state: nat, polarity: bool) {
    BitSet(state, EFI_FILE_MARKED_FOR_UPDATE, polarity) || BitSet(state, EFI_FILE_DELETED, polarity)
  }

  predicate Accepted(state: nat, polarity: bool) {
    BitSet(state, EFI_FILE_DATA_VALID, polarity) || UpdateOrDeleted(state, polarity)
  }

  predicate IsLarge(attributes: nat) {
    And(attributes, FFS_ATTRIB_LARGE_FILE) != 0
  }

  predicate BlankHeader(header: Data, polarity: bool) {
    header == Repeat(if polarity then 0xFF else 0x00, FILE_HEADER_SIZE)
  }

  /** The size of the file at cur. The 64-bit size of a large file is read at the offset where the
      search started, fof, not at cur. */
  function FileSize(img: Data, fvLength: nat, fof: nat, cur: nat): nat
    requires fof <= cur && cur + FILE_HEADER_SIZE < Min(fvLength, |img|)
  {
    var big := if IsLarge(img[cur + 19]) && |img| > fof + FILE_HEADER2_SIZE
               then Field(img, fof + FILE_HEADER_SIZE, 8) % 0x1_0000_0000 else 0;
    if big == 0 || big > fvLength - cur then Field(img, cur + 20, 3) else big
  }

  /** The file with the given 24-byte header and image. */
  function FileFrom(header: Data, image: Data, offset: nat, size: nat, polarity: bool): FfsFile
    requires |header| == FILE_HEADER_SIZE
  {
    var attributes := header[19];
    var zeroed := header[..16] + [0, 0] + header[18..23] + [0];
    var body := Slice(image, FILE_HEADER_SIZE, |image|);
    var fsum := if And(attributes, FFS_ATTRIB_CHECKSUM) != 0 then Checksum8(body) else FFS_FIXED_CHECKSUM;
    FfsFile(offset, header[..16], header[18], attributes, header[23], Field(header, 16, 2), size, image,
            if IsLarge(attributes) then FILE_HEADER2_SIZE else FILE_HEADER_SIZE,
            UpdateOrDeleted(header[23], polarity), Or(Checksum8(zeroed), Shl(fsum, 8)))
  }

  /** The file the scan from cur returns, in a search that started at fof. */
  function ScanFile(img: Data, fvLength: nat, fof: nat, cur: nat, polarity: bool): Option<FfsFile>
    requires fof <= cur
    decreases |img| - cur
  {
    if cur + FILE_HEADER_SIZE >= Min(fvLength, |img|) then None
    else
      var header := img[cur..cur + FILE_HEADER_SIZE];
      if BlankHeader(header, polarity) then ScanFile(img, fvLength, fof, cur + 8, polarity)
      else
        var fsize := FileSize(img, fvLength, fof, cur);
        if fsize == 0 || fsize > fvLength - cur then None
        else if !Accepted(header[23], polarity) then ScanFile(img, fvLength, fof, cur + 8, polarity)
        else Some(FileFrom(header, Slice(img, cur, cur + fsize), cur, fsize, polarity))
  }

  function NextFile(img: Data, fvLength: nat, from: nat, polarity: bool): Option<FfsFile> {
    ScanFile(img, fvLength, Align(from, 8), Align(from, 8), polarity)
  }

  lemma LargeSize(x: nat)
    ensures And(x, 0xFFFF_FFFF) == x % 0x1_0000_0000
  {
    hide And;
    Pow2Values();
    AndMaskAs(x, 0, 32, 0xFFFF_FFFF, 1, 0x1_0000_0000);
  }

  lemma NextAligned(cur: nat)
    requires cur % 8 == 0
    ensures Align(cur + 1, 8) == cur + 8 && (cur + 8) % 8 == 0
  {
  }

  method ReadFileSize(fvImage: Data, fvLength: nat, fof: nat, cur: nat) returns (fsize: nat)
    requires fof <= cur && cur + FILE_HEADER_SIZE < Min(fvLength, |fvImage|)
    ensures fsize == FileSize(fvImage, fvLength, fof, cur)
  {
    hide And, IsLarge, Field;
    fsize := 0;
    if IsLarge(fvImage[cur + 19]) && |fvImage| > fof + FILE_HEADER2_SIZE {
      fsize := Field(fvImage, fof + FILE_HEADER_SIZE, 8);
      LargeSize(fsize);
      fsize := And(fsize, 0xFFFF_FFFF);
    }
    if fsize == 0 || fsize > fvLength - cur {
      fsize := Field(fvImage, cur + 20, 3);
    }
  }

  /** f is aligned, non-empty, inside the volume, acceptable, and made of its own bytes. */
  ghost predicate FileIn(img: Data, fvLength: nat, f: FfsFile, polarity: bool) {
    && f.offset % 8 == 0 && f.size > 0
    && f.offset + f.size <= fvLength && f.offset + FILE_HEADER_SIZE < Min(fvLength, |img|)
    && Accepted(img[f.offset + 23], polarity)
    && f == FileFrom(img[f.offset..f.offset + FILE_HEADER_SIZE], Slice(img, f.offset, f.offset + f.size), f.offset,
       f.size, polarity)
  }

  lemma {:induction false} ScanSound(img: Data, fvLength: nat, fof: nat, cur: nat, polarity: bool)
    requires fof <= cur && cur % 8 == 0
    ensures var r := ScanFile(img, fvLength, fof, cur, polarity);
            r.Some? ==> cur <= r.value.offset && FileIn(img, fvLength, r.value, polarity)
    decreases |img| - cur
  {
    hide Accepted, FileSize, BlankHeader, FileFrom;
    if cur + FILE_HEADER_SIZE < Min(fvLength, |img|) {
      ScanSound(img, fvLength, fof, cur + 8, polarity);
      var fsize := FileSize(img, fvLength, fof, cur);
      var header := img[cur..cur + FILE_HEADER_SIZE];
      FromOffset(header, Slice(img, cur, cur + fsize), cur, fsize, polarity);
      assert header[23] == img[cur + 23];
    }
  }

  lemma FromOffset(header: Data, image: Data, offset: nat, size: nat, polarity: bool)
    requires |header| == FILE_HEADER_SIZE
    ensures FileFrom(header, image, offset, size, polarity).offset == offset
    ensures FileFrom(header, image, offset, size, polarity).size == size
  {
  }

  /** A header the search passes over: blank, or of legal size and not in an acceptable state. */
  ghost predicate Passed(img: Data, fvLength: nat, fof: nat, c: nat, polarity: bool) {
    && fof <= c && c + FILE_HEADER_SIZE < Min(fvLength, |img|)
    && (BlankHeader(img[c..c + FILE_HEADER_SIZE], polarity) ||
        (0 < FileSize(img, fvLength, fof, c) <= fvLength - c && !Accepted(img[c + 23], polarity)))
  }

  /** A place where the search gives up: no room for a header, or a header of illegal size. */
  ghost predicate GivesUp(img: Data, fvLength: nat, fof: nat, c: nat, polarity: bool) {
    fof <= c &&
    (c + FILE_HEADER_SIZE >= Min(fvLength, |img|) ||
     (!BlankHeader(img[c..c + FILE_HEADER_SIZE], polarity) && !(0 < FileSize(img, fvLength, fof, c) <= fvLength - c)))
  }

  /** The search looks at every aligned header from cur up to stop, passes over those before stop, and at stop returns
      the acceptable file there or gives up. */
  ghost predicate SearchEnds(img: Data, fvLength: nat, fof: nat, cur: nat, polarity: bool, stop: nat,
                             r: Option<FfsFile>) {
    && fof <= cur <= stop && stop % 8 == 0
    && (forall c :: cur <= c < stop && c % 8 == 0 ==> Passed(img, fvLength, fof, c, polarity))
    && match r
       case None => GivesUp(img, fvLength, fof, stop, polarity)
       case Some(f) =>
         && f.offset == stop && FileIn(img, fvLength, f, polarity) && f.size == FileSize(img, fvLength, fof, stop)
         && !BlankHeader(img[stop..stop + FILE_HEADER_SIZE], polarity)
  }

  /** Sound and complete: nothing acceptable is skipped, and no result means none before the first header of illegal
      size. */
  ghost predicate FirstFile(img: Data, fvLength: nat, from: nat, polarity: bool, r: Option<FfsFile>) {
    exists stop :: SearchEnds(img, fvLength, Align(from, 8), Align(from, 8), polarity, stop, r)
  }

  lemma {:induction false} ScanComplete(img: Data, fvLength: nat, fof: nat, cur: nat, polarity: bool)
    returns (stop: nat)
    requires fof <= cur && cur % 8 == 0
    ensures SearchEnds(img, fvLength, fof, cur, polarity, stop, ScanFile(img, fvLength, fof, cur, polarity))
    decreases |img| - cur
  {
    hide Accepted, FileSize, BlankHeader, FileFrom, FileIn;
    stop := cur;
    if cur + FILE_HEADER_SIZE < Min(fvLength, |img|) {
      var header := img[cur..cur + FILE_HEADER_SIZE];
      var fsize := FileSize(img, fvLength, fof, cur);
      assert header[23] == img[cur + 23];
      if BlankHeader(header, polarity) || (0 < fsize <= fvLength - cur && !Accepted(header[23], polarity)) {
        stop := ScanComplete(img, fvLength, fof, cur + 8, polarity);
        AlignedBetween(cur);
      } else {
        ScanSound(img, fvLength, fof, cur, polarity);
        FromOffset(header, Slice(img, cur, cur + fsize), cur, fsize, polarity);
      }
    }
  }

  lemma AlignedBetween(cur: nat)
    requires cur % 8 == 0
    ensures forall c :: cur < c < cur + 8 ==> c % 8 != 0
  {
  }

  lemma NextFileExact(img: Data, fvLength: nat, from: nat, polarity: bool)
    ensures FirstFile(img, fvLength, from, polarity, NextFile(img, fvLength, from, polarity))
  {
    hide SearchEnds, ScanFile, Align;
    Align8(from);
    var stop := ScanComplete(img, fvLength, Align(from, 8), Align(from, 8), polarity);
  }

  method NextFwFile(fvImage: Data, fvLength: nat, from: nat, polarity: bool) returns (r: Option<FfsFile>)
    ensures r == NextFile(fvImage, fvLength, from, polarity)
    ensures FirstFile(fvImage, fvLength, from, polarity, r)
  {
    hide Accepted, FileFrom, BlankHeader, Align, FileSize, Slice, FirstFile;
    NextFileExact(fvImage, fvLength, from, polarity);
    Align8(from);
    var fof := Align(from, 8);
    var cur := fof;
    while cur + FILE_HEADER_SIZE < Min(fvLength, |fvImage|)
      invariant fof <= cur && cur % 8 == 0
      invariant ScanFile(fvImage, fvLength, fof, cur, polarity) == NextFile(fvImage, fvLength, from, polarity)
      decreases |fvImage| - cur
    {
      NextAligned(cur);
      var header := fvImage[cur..cur + FILE_HEADER_SIZE];
      if BlankHeader(header, polarity) {
        cur := cur + 8;
        continue;
      }
      var fsize := ReadFileSize(fvImage, fvLength, fof, cur);
      if fsize == 0 || fsize > fvLength - cur {
        break;
      }
      if !Accepted(header[23], polarity) {
        cur := Align(cur + 1, 8);
        continue;
      }
      return Some(FileFrom(header, Slice(fvImage, cur, cur + fsize), cur, fsize, polarity));
    }
    return None;
  }

  lemma NextFileSound(img: Data, fvLength: nat, from: nat, polarity: bool)
    ensures var r := NextFile(img, fvLength, from, polarity);
            r.Some? ==> Align(from, 8) <= r.value.offset && FileIn(img, fvLength, r.value, polarity)
  {
    hide FileIn;
    Align8(from);
    ScanSound(img, fvLength, Align(from, 8), Align(from, 8), polarity);
  }

  lemma NextFileBounds(img: Data, fvLength: nat, from: nat, polarity: bool)
    ensures var r := NextFile(img, fvLength, from, polarity);
            r.Some? ==> from <= r.value.offset && r.value.offset % 8 == 0 && r.value.size > 0
                        && r.value.offset + r.value.size <= fvLength
  {
    hide NextFile, Accepted, FileFrom, Align;
    Align8(from);
    NextFileSound(img, fvLength, from, polarity);
  }

  lemma FileHasHeader(img: Data, fvLength: nat, from: nat, polarity: bool)
    ensures var r := NextFile(img, fvLength, from, polarity);
            r.Some? ==> Align(from, 8) <= r.value.offset && r.value.offset + FILE_HEADER_SIZE < fvLength
  {
    hide NextFile, Accepted, FileFrom, Align;
    NextFileSound(img, fvLength, from, polarity);
  }

  /** All files of a volume, each search continuing where the last file ended. */
  ghost function Files(img: Data, fvLength: nat, from: nat, polarity: bool): seq<FfsFile>
    decreases fvLength - from
  {
    match NextFile(img, fvLength, from, polarity)
    case None => []
    case Some(f) =>
      NextFileBounds(img, fvLength, from, polarity);
      [f] + Files(img, fvLength, f.offset + f.size, polarity)
  }

  /** The files of any volume are aligned, non-empty, disjoint, ordered and inside it, and there
      are fewer than one per 8 bytes. */
  lemma {:induction false} FilesOrdered(img: Data, fvLength: nat, from: nat, polarity: bool)
    ensures var fs := Files(img, fvLength, from, polarity);
            && (forall i :: 0 <= i < |fs| ==> from <= fs[i].offset && FileIn(img, fvLength, fs[i], polarity))
            && (forall i, j :: 0 <= i < j < |fs| ==> fs[i].offset + fs[i].size <= fs[j].offset)
            && (fs != [] ==> Align(from, 8) + 8 * |fs| + 16 < fvLength)
    decreases fvLength - from
  {
    hide NextFile, FileIn, Align;
    Align8(from);
    var r := NextFile(img, fvLength, from, polarity);
    if r.Some? {
      NextFileBounds(img, fvLength, from, polarity);
      FileHasHeader(img, fvLength, from, polarity);
      var end := r.value.offset + r.value.size;
      NextFileSound(img, fvLength, from, polarity);
      Align8(end);
      FilesOrdered(img, fvLength, end, polarity);
      assert Files(img, fvLength, from, polarity) == [r.value] + Files(img, fvLength, end, polarity);
    }
  }
}
