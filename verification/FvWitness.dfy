/** Single-volume images: exactly when whole runs conserve and restore them, and concrete images where the conditions
    matter. */
module FvWitness {
  import opened Bits
  import opened Bytes
  import opened FvWalk
  import opened Options
  import opened FvEdit
  import opened FvRun
  import opened FvLocal
  import opened FvRestore
  import opened FvRoundTrip

  // ---------------------------------------------------------------- one volume is the whole image

  /** The image is one volume that holds files. */
  ghost predicate OneVolume(data: Data, v: Volume) {
    && NextVolume(data, 0) == Some(v) && IsFfs(v) && v.offset == 0 && v.size == |data| && v.image == data
    && v.headerSize >= VOLUME_HEADER_SIZE
  }

  lemma NothingBehind(data: Data)
    ensures NextVolume(data, SearchStart(0, |data|)).None?
  {
  }

  /** A run over such an image edits the volume and ends. */
  lemma RunOne(data: Data, v: Volume, e: Edit)
    requires OneVolume(data, v) && Fitting(v, e)
    ensures Run(data, e, 0, 0, 1) == Done(Edited(v, e)) && |Edited(v, e)| == |data|
    ensures AgreeBelow(data, Edited(v, e), v.headerSize)
  {
    hide NextVolume, IsFfs, SearchStart, EditAt, Finish, Fitting, Edited, AgreeBelow, AgreeFrom, ChangeEnd, AnyMatch;
    hide Polarity;
    EditStep(data, e, 0, 0, v);
    RunUnfoldsEdit(data, e, 0, 0, 1, v);
    var out := With(data, v, Edited(v, e));
    assert out == Edited(v, e);
    NothingBehind(out);
  }

  /** The edited image is again one volume. */
  lemma StillOne(data: Data, v: Volume, img: Data)
    requires OneVolume(data, v) && |img| == |data| && AgreeBelow(data, img, v.headerSize)
    ensures OneVolume(img, v.(image := img)) && Polarity(v.(image := img)) == Polarity(v)
  {
    hide NextVolume, SearchStart, AgreeBelow, BitSet;
    SearchPrefix(data, img, 0, v, v.headerSize);
    assert img[0..|img|] == img;
  }

  lemma ClearBehind(data: Data, v: Volume, e: Edit)
    requires OneVolume(data, v)
    ensures Undisturbed(data, v, e)
  {
    hide NextVolume, IsFfs, AnyMatch, Touched;
  }

  /** A whole run and its undoing restore a one-volume image exactly when every file survives. */
  lemma OneVolumeExactly(data: Data, v: Volume, e: Edit, rem: Edit, n: Data)
    requires OneVolume(data, v) && Polarity(v) && HeaderInFront(v, e) && rem.command == CMD_REMOVE && rem.guid == n
    requires Insertable(data, e, n, v.headerSize) && LargeBodies(data, v.headerSize)
    ensures var r := Run(data, e, 0, 0, 1);
            r.Done? && (Run(r.data, rem, 0, 0, 1) == Done(data) <==> Survives(data, e, v.headerSize, 0))
  {
    hide NextVolume, IsFfs, SearchStart, Insertable, LargeBodies, Survives, AnyMatch, HeaderInFront, Run, BitSet;
    var limit := 1;
    NothingBehind(data);
    ClearBehind(data, v, e);
    assert AllEditable(data, e, n, 0, limit);
    RestoresExactly(data, e, rem, n, 0, limit, 0, 0);
    assert AllSurvive(data, e, 0, limit) <==> Survives(data, e, v.headerSize, 0);
  }

  /** A whole removal run conserves a one-volume image exactly when nothing matches or some file has at least 24 bytes.
      */
  lemma OneVolumeRemoval(data: Data, v: Volume, e: Edit)
    requires OneVolume(data, v) && e.command == CMD_REMOVE && data[40] != 0xFF
    ensures v.headerSize <= |data|
    ensures var r := Run(data, e, 0, 0, 1);
            && r.Done?
            && (Conserved([], data, [], v.headerSize, r.data)
                <==> !AnyMatch(data, Polarity(v), e, v.headerSize) || AnyBig(data, Polarity(v), v.headerSize))
  {
    hide NextVolume, IsFfs, SearchStart, EditAt, Finish, AnyMatch, AnyBig, Polarity, Conserved;
    OneVolumeSize(data, v);
    RemovalAlone(data, v, e);
    RunUnfoldsEdit(data, e, 0, 0, 1, v);
    var s := EditAt(data, e, v, 0);
    NothingBehind(Finish(s.data, s.change, s.end));
  }

  lemma OneVolumeSize(data: Data, v: Volume)
    requires OneVolume(data, v)
    ensures v.headerSize <= |data|
  {
    hide NextVolume, IsFfs, FirstVolume;
    NextVolumeExact(data, 0);
    FoundSize(data, 0, v);
  }

  lemma RemovalAlone(data: Data, v: Volume, e: Edit)
    requires OneVolume(data, v) && e.command == CMD_REMOVE && data[40] != 0xFF && v.headerSize <= |data|
    ensures var s := EditAt(data, e, v, 0);
            && s.Spliced? && |Finish(s.data, s.change, s.end)| == |data|
            && (Conserved([], data, [], v.headerSize, Finish(s.data, s.change, s.end))
                <==> !AnyMatch(data, Polarity(v), e, v.headerSize) || AnyBig(data, Polarity(v), v.headerSize))
  {
    hide NextVolume, IsFfs, SearchStart, SpliceFrom, Finish, AnyMatch, AnyBig, Polarity, Conserved;
    assert [] + data + [] == data;
    RemovalConservesExactly([], data, [], Polarity(v), e, v.headerSize, 0, 40);
    RemovalKeepsLength([], data, [], Polarity(v), e, v.headerSize, 0);
  }

  // ---------------------------------------------------------------- bytes of small volumes

  /** A 24-byte file header for a file in a valid state: type 1, no attributes. */
  ghost function FileHeader(guid: Data, size: Byte): Data {
    guid + [0, 0, 1, 0, size, 0, 0, 0xF8]
  }

  /** A 56-byte volume header: FFS version 2, erase polarity set. */
  ghost function VolumeHeader56(size: Byte): Data {
    Repeat(0, 16) + FFS2_GUID + [size, 0, 0, 0, 0, 0, 0, 0] + FVH_SIGNATURE + [0, 8, 0, 0] + [56, 0] + [0, 0] + [0, 0]
      + [0, 2]
  }

  lemma LittleSize(b: Data)
    requires |b| == 3 && b[1] == 0 && b[2] == 0
    ensures FromLe(b) == b[0]
  {
    assert b[1..][1..] == b[2..] && b[2..][1..] == [];
    assert FromLe(b[2..]) == 0;
    assert FromLe(b[1..]) == 0;
  }

  lemma StateF8()
    ensures Accepted(0xF8, true) && !IsLarge(0)
  {
    assert AndNot(0x01, 0x3E) == 1 && AndNot(0x02, 0x7C) == 2 && AndNot(0x04, 0xF8) == 4;
  }

  /** A file header where the scan stands is the file that is found. */
  lemma FileHere(b: Data, fof: nat, at: nat, guid: Data, size: Byte)
    requires fof <= at && |guid| == 16 && at + 24 < |b| && b[at..at + 24] == FileHeader(guid, size)
             && 0 < size <= |b| - at
    ensures var r := ScanFile(b, |b|, fof, at, true);
            r.Some? && r.value.offset == at && r.value.size == size && r.value.guid == guid && r.value.headerSize == 24
  {
    hide Accepted, BlankHeader, FileFrom, IsLarge, FromLe, ScanFile;
    var header := b[at..at + 24];
    assert header[23] == 0xF8 && header[19] == 0 && header[..16] == guid;
    assert b[at + 19] == header[19];
    SubSlice(b, at, at + 24, 20, 23);
    LittleSize(b[at + 20..at + 23]);
    StateF8();
    AcceptedNotBlank(header);
    ScanStep(b, fof, at, true);
    HeaderOf(header, b[at..at + size], at, size);
    FromOffset(header, b[at..at + size], at, size, true);
    FromGuid(header, b[at..at + size], at, size, true);
  }

  lemma HeaderOf(header: Data, image: Data, offset: nat, size: nat)
    requires |header| == 24 && !IsLarge(header[19])
    ensures FileFrom(header, image, offset, size, true).headerSize == 24
  {
    hide Checksum8, IsLarge, UpdateOrDeleted, And, Or, Shl;
  }

  lemma HeaderBytes(size: Byte)
    ensures var h := VolumeHeader56(size);
            && |h| == 56 && h[16..32] == FFS2_GUID && h[32..40] == [size, 0, 0, 0, 0, 0, 0, 0]
               && h[40..44] == FVH_SIGNATURE
            && h[44..48] == [0, 8, 0, 0] && h[48..50] == [56, 0] && h[52..54] == [0, 0] && h[54] == 0
            && (forall q :: 0 <= q < 16 ==> h[q] == 0)
  {
  }

  lemma QuietBytes(size: Byte)
    requires size != 0x5F
    ensures |VolumeHeader56(size)| == 56 && forall q :: 0 <= q < 40 ==> VolumeHeader56(size)[q] != 0x5F
  {
    hide VolumeHeader56;
    HeaderBytes(size);
    var h := VolumeHeader56(size);
    forall q | 0 <= q < 40
      ensures h[q] != 0x5F
    {
      if 16 <= q < 32 {
        assert h[q] == h[16..32][q - 16];
        GuidBytes(q - 16);
      } else if 32 <= q {
        assert h[q] == h[32..40][q - 32];
      }
    }
  }

  /** No byte of such a header before its signature begins one. */
  lemma NoEarlySignature(b: Data, at: nat, size: Byte)
    requires at + 56 <= |b| && b[at..at + 56] == VolumeHeader56(size) && size != 0x5F
    ensures SignatureAt(b, at + 40) && forall q :: at <= q < at + 40 ==> b[q] != 0x5F
  {
    hide VolumeHeader56;
    HeaderBytes(size);
    QuietBytes(size);
    SubSlice(b, at, at + 56, 40, 44);
    assert forall q :: at <= q < at + 40 ==> b[q] == b[at..at + 56][q - at];
  }

  lemma NotASignature(b: Data, q: nat)
    requires q < |b| && b[q] != 0x5F
    ensures !SignatureAt(b, q)
  {
    if q + 4 <= |b| {
      assert b[q..q + 4][0] == b[q];
    }
  }

  lemma GuidBytes(k: nat)
    requires k < 16
    ensures FFS2_GUID[k] != 0x5F
  {
  }

  lemma Fields56(b: Data, at: nat, size: Byte)
    requires at + 56 <= |b| && b[at..at + 56] == VolumeHeader56(size)
    ensures Field(b, at + 32, 8) == size && Field(b, at + 44, 4) == 0x800
    ensures Field(b, at + 48, 2) == 56 && Field(b, at + 52, 2) == 0
    ensures b[at + 54] == 0 && b[at + 16..at + 32] == FFS2_GUID
  {
    hide FromLe;
    HeaderBytes(size);
    assert b[at + 54] == b[at..at + 56][54];
    SubSlice(b, at, at + 56, 16, 32);
    SubSlice(b, at, at + 56, 32, 40);
    SubSlice(b, at, at + 56, 44, 48);
    SubSlice(b, at, at + 56, 48, 50);
    SubSlice(b, at, at + 56, 52, 54);
    Word2(56);
    Word2(0);
    Word4();
    Word8(size);
  }

  lemma Word2(x: Byte)
    ensures FromLe([x, 0]) == x
  {
    assert [x, 0][1..] == [0] && [0][1..] == [];
    assert FromLe([0]) == 0;
  }

  lemma Word4()
    ensures FromLe([0, 8, 0, 0]) == 0x800
  {
    assert [0, 8, 0, 0][1..] == [8, 0, 0];
    LittleSize([8, 0, 0]);
  }

  lemma Word8(x: Byte)
    ensures FromLe([x, 0, 0, 0, 0, 0, 0, 0]) == x
  {
    assert [x, 0, 0, 0, 0, 0, 0, 0][1..] == Repeat(0, 7);
    ZeroBytes(7);
  }

  lemma {:induction false} ZeroBytes(k: nat)
    ensures FromLe(Repeat(0, k)) == 0
  {
    if k > 0 {
      assert Repeat(0, k)[1..] == Repeat(0, k - 1);
      ZeroBytes(k - 1);
    }
  }

  /** The volume that such a header at the end of a buffer describes is the next one found. */
  lemma VolumeFoundAt(b: Data, fof: nat, at: nat, size: Byte) returns (v: Volume)
    requires |b| == at + size && size >= 96 && b[at..at + 56] == VolumeHeader56(size) && fof < at + 40
    requires forall q :: fof <= q < at + 40 ==> !SignatureAt(b, q)
    ensures NextVolume(b, fof) == Some(v) && IsFfs(v) && Polarity(v)
    ensures v.offset == at && v.size == size && v.headerSize == 56 && v.image == b[at..]
  {
    hide Field, Checksum16, ChecksummedHeader, SignatureAt, BitSet, And;
    NoEarlySignature(b, at, size);
    Fields56(b, at, size);
    v := VolumeAt(b, at);
    assert v.image == b[at..];
    assert ValidHeader(b, at);
    PolarityBit();
    assert Find(b, fof) == Some(at + 40);
  }

  /** The volume that fills a buffer starting with such a header. */
  lemma VolumeFound(b: Data, size: Byte) returns (v: Volume)
    requires |b| == size >= 96 && b[..56] == VolumeHeader56(size)
    ensures OneVolume(b, v) && v.headerSize == 56 && Polarity(v)
  {
    hide NextVolume, IsFfs, Polarity;
    NoEarlySignature(b, 0, size);
    forall q | 0 <= q < 40
      ensures !SignatureAt(b, q)
    {
      NotASignature(b, q);
    }
    v := VolumeFoundAt(b, 0, 0, size);
  }

  lemma PolarityBit()
    ensures BitSet(0x800, EFI_FVB2_ERASE_POLARITY, false)
  {
    AndSelf(0x800);
  }

  lemma {:induction false} AndSelf(x: nat)
    ensures And(x, x) == x
  {
    if x > 0 {
      AndSelf(x / 2);
    }
  }

  // ---------------------------------------------------------------- an insertion that cannot be undone

  const G1: Data := [0x11, 0x11, 0x11, 0x11, 0x11, 0x11, 0x11, 0x11, 0x11, 0x11, 0x11, 0x11, 0x11, 0x11, 0x11, 0x11]
  /** Its last four bytes, read eight bytes too early as a header, are the size 64 and an unacceptable state. */
  const G2: Data := [0x22, 0x22, 0x22, 0x22, 0x22, 0x22, 0x22, 0x22, 0x22, 0x22, 0x22, 0x22, 0x40, 0x00, 0x00, 0xFF]
  const G3: Data := [0x33, 0x33, 0x33, 0x33, 0x33, 0x33, 0x33, 0x33, 0x33, 0x33, 0x33, 0x33, 0x33, 0x33, 0x33, 0x33]

  /** A file, eight erased bytes, another file, and 32 bytes of free space. */
  ghost function GapImage(): Data {
    VolumeHeader56(144) + FileHeader(G1, 24) + Repeat(0xFF, 8) + FileHeader(G2, 24) + Repeat(0xFF, 32)
  }

  ghost function GapEdit(): Edit {
    Edit(CMD_INSERT_AFTER, G1, FileHeader(G3, 24))
  }

  lemma GapBytes(b: Data)
    requires b == GapImage()
    ensures |b| == 144 && b[..56] == VolumeHeader56(144) && b[56..80] == FileHeader(G1, 24)
    ensures b[80..88] == Repeat(0xFF, 8) && b[88..112] == FileHeader(G2, 24) && ErasedFrom(b, 112)
  {
    HeaderBytes(144);
  }

  /** The eight erased bytes and the next GUID, read as a header: not blank, not acceptable, size 64. */
  lemma GapHeader(b: Data)
    requires |b| >= 112 && b[80..88] == Repeat(0xFF, 8) && b[88..112] == FileHeader(G2, 24)
    ensures var header := b[80..104]; !BlankHeader(header, true) && header[23] == 0xFF && !IsLarge(b[99])
    ensures Field(b, 100, 3) == 64
  {
    hide FromLe;
    assert b[99] == b[88..112][11] == 0x22;
    assert b[103] == b[88..112][15] == 0xFF;
    assert b[88] == b[88..112][0] == 0x22;
    assert b[80..104][8] == b[88];
    assert b[80..104][23] == b[103];
    SubSlice(b, 88, 112, 12, 15);
    LittleSize(b[100..103]);
    assert Repeat(0xFF, 24)[8] == 0xFF;
    EvenNotLarge(0x11);
  }

  lemma EvenNotLarge(x: nat)
    ensures !IsLarge(2 * x)
  {
    assert And(x, 0) == 0;
  }

  /** The files of the image; shortened by the growth, the search for the second one ends at the gap. */
  lemma GapFiles(b: Data)
    requires b == GapImage()
    ensures var f := NextFile(b, 144, 56, true);
            f.Some? && f.value.offset == 56 && f.value.size == 24 && f.value.guid == G1 && f.value.headerSize == 24
    ensures var f := NextFile(b, 144, 80, true);
            f.Some? && f.value.offset == 88 && f.value.size == 24 && f.value.guid == G2 && f.value.headerSize == 24
    ensures NextFile(b, 144, 112, true).None? && NextFile(b[..120], 120, 80, true).None?
  {
    hide Accepted, BlankHeader, FileFrom, IsLarge, FileHeader, ScanFile, GapImage, Field;
    GapBytes(b);
    GapHeader(b);
    ErasedNotAccepted();
    FileHere(b, 56, 56, G1, 24);
    FileHere(b, 80, 88, G2, 24);
    ScanStep(b, 80, 80, true);
    NoneInErased(b, 112);
    var cut := b[..120];
    assert cut[80..104] == b[80..104] && cut[99] == b[99];
    assert Field(cut, 100, 3) == Field(b, 100, 3) by { assert cut[100..103] == b[100..103]; FieldOf(cut, b); }
    ScanStep(cut, 80, 80, true);
  }

  lemma FieldOf(a: Data, b: Data)
    requires |a| >= 103 && |b| >= 103 && a[100..103] == b[100..103]
    ensures Field(a, 100, 3) == Field(b, 100, 3)
  {
  }

  lemma GapInserts()
    ensures Inserts(GapEdit(), G3)
  {
    hide FromLe, Accepted, IsLarge;
    StateF8();
    var f := FileHeader(G3, 24);
    assert f[..16] == G3 && f[23] == 0xF8 && f[19] == 0;
    LittleSize(f[20..23]);
  }

  /** The insertion is asked for properly, and the second file does not survive it. */
  lemma GapConditions(b: Data)
    requires b == GapImage()
    ensures Insertable(b, GapEdit(), G3, 56) && LargeBodies(b, 56) && !Survives(b, GapEdit(), 56, 0)
    ensures FirstMatchEnd(b, GapEdit(), 56) == 80
  {
    hide NextFile, GapImage, Inserts, PaddedSize, FileHeader;
    GapBytes(b);
    GapFiles(b);
    GapInserts();
    GapLengths();
    InsertedSize(GapEdit(), G3);
    var f1, f2 := NextFile(b, 144, 56, true).value, NextFile(b, 144, 80, true).value;
    assert G1[0] != G3[0] && G2[0] != G3[0] && G1[0] != G2[0];
    assert LastEnd(b, true, 112) == 112 && Change(b, true, GapEdit(), 112) == 0 && Packed(b, GapEdit(), 112, G3)
      && LargeBodies(b, 112);
    assert LastEnd(b, true, 80) == 112 && Change(b, true, GapEdit(), 80) == 0 && Packed(b, GapEdit(), 80, G3)
      && LargeBodies(b, 80);
    assert !Survives(b, GapEdit(), 80, 24);
  }

  lemma GapLengths()
    ensures |GapEdit().file| == 24 && GapEdit().guid == G1 && GapEdit().command == CMD_INSERT_AFTER
  {
  }

  /** A concrete image that insertion and removal do not restore: with eight erased bytes between two files, the second
      file's GUID is tried as a header, and after the insertion its size no longer fits. */
  lemma NotRestored(rem: Edit)
    requires rem.command == CMD_REMOVE && rem.guid == G3
    ensures var r := Run(GapImage(), GapEdit(), 0, 0, 1);
            r.Done? && Run(r.data, rem, 0, 0, 1) != Done(GapImage())
  {
    hide Run, GapImage, GapEdit, FirstMatchEnd, AnyMatch, Insertable, LargeBodies, Survives, OneVolume, Polarity;
    hide VolumeHeader56, FileHeader;
    var b := GapImage();
    GapBytes(b);
    GapConditions(b);
    var v := VolumeFound(b, 144);
    OneIs(b, v);
    OneVolumeExactly(b, v, GapEdit(), rem, G3);
  }

  lemma OneIs(b: Data, v: Volume)
    requires OneVolume(b, v)
    ensures v.image == b
  {
  }

  // ---------------------------------------------------------------- a file shorter than its header

  /** A volume whose one file claims 16 bytes. */
  ghost function ShortImage(): Data {
    VolumeHeader56(96) + FileHeader(G1, 16) + Repeat(0xFF, 16)
  }

  const SHORT_REMOVAL: Edit := Edit(CMD_REMOVE, G1, [])

  lemma ShortBytes(b: Data)
    requires b == ShortImage()
    ensures |b| == 96 && b[..56] == VolumeHeader56(96) && b[56..80] == FileHeader(G1, 16) && b[0] == 0
  {
    HeaderBytes(96);
    assert b[0] == VolumeHeader56(96)[0];
  }

  lemma ShortSplice(b: Data)
    requires b == ShortImage()
    ensures SpliceFrom(b, 0, b, true, SHORT_REMOVAL, 56, 0, 0) == Spliced(b[..56] + b[72..], -16, 0)
  {
    hide NextFile, FileHeader, VolumeHeader56, ShortImage, SpliceFrom;
    ShortBytes(b);
    ShortFile(b);
    var f := NextFile(b, |b|, 56, true).value;
    SpliceUnfolds(b, 0, b, true, SHORT_REMOVAL, 56, 0, 0, f);
    assert NextData(b, 0, SHORT_REMOVAL, f, 0) == b[..56] + b[72..];
    assert NextChange(SHORT_REMOVAL, f, 0) == -16;
    SpliceNone(b[..56] + b[72..], 0, b, true, SHORT_REMOVAL, 72, -16, 0);
  }

  lemma ShortFile(b: Data)
    requires |b| == 96 && b[56..80] == FileHeader(G1, 16)
    ensures var f := NextFile(b, 96, 56, true);
            && f.Some? && f.value.offset == 56 && f.value.size == 16
            && f.value.guid == G1
    ensures NextFile(b, 96, 72, true).None?
  {
    hide ScanFile, FileHeader;
    FileHere(b, 56, 56, G1, 16);
    ScanPastEnd(b, 72, 72, true);
  }

  /** A concrete image that a removal does not conserve: the file is shorter than 24 bytes, so FvEndOffset stays 0 and
      the padding goes in front of the image. The volume's own header moves. */
  lemma ShortFileMisplaced()
    ensures var b := ShortImage();
            var r := Run(b, SHORT_REMOVAL, 0, 0, 1);
            && |b| == 96 && r == Done(Repeat(0xFF, 16) + b[..56] + b[72..])
            && OutsideVolumes(b, 0, 1, 0) && r.data[0] != b[0]
  {
    hide NextVolume, FileHeader, VolumeHeader56, ShortImage, SpliceFrom, Polarity, IsFfs, SearchStart;
    var b := ShortImage();
    ShortBytes(b);
    ShortSplice(b);
    var v := VolumeFound(b, 96);
    RunUnfoldsEdit(b, SHORT_REMOVAL, 0, 0, 1, v);
    var kept := b[..56] + b[72..];
    assert Finish(kept, -16, 0) == Repeat(0xFF, 16) + kept;
    assert Repeat(0xFF, 16) + kept == Repeat(0xFF, 16) + b[..56] + b[72..];
    NothingBehind(Repeat(0xFF, 16) + kept);
    NothingBehind(b);
  }
}
