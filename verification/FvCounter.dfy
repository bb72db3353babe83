/** Concrete images for the limits of the editor: files shorter than their headers, files of 4 GB, endless runs. */
module FvCounter {
  import opened Bits
  import opened Bytes
  import opened FvWalk
  import opened Options
  import opened FvEdit
  import opened FvRun
  import opened FvLocal
  import opened FvRestore
  import opened FvWitness

  const G4: Data := Repeat(0x44, 16)

  /** A 24-byte file with GUID G4. */
  ghost function Small(): Data {
    FileHeader(G4, 24)
  }

  ghost function SmallEdit(): Edit {
    Edit(CMD_INSERT_AFTER, G1, Small())
  }

  lemma SmallLengths()
    ensures |Small()| == 24 && SmallEdit().guid == G1 && SmallEdit().command == CMD_INSERT_AFTER
    ensures SmallEdit().file == Small() && SmallFile(SmallEdit()) && SmallEdit().Valid()
    ensures PaddedSize(Small()) == 24 && Padded(Small()) == Small()
  {
    hide PaddedSize;
    PaddingExact(Small());
  }

  lemma Guids()
    ensures G1 != G2 && G1 != G4 && G2 != G4
  {
    assert G1[0] != G2[0] && G1[0] != G4[0] && G2[0] != G4[0];
  }

  // ---------------------------------------------------------------- a short file behind the match

  /** A 24-byte file, a file that claims 16 bytes, and erased space. */
  ghost function TrimImage(): Data {
    VolumeHeader56(120) + FileHeader(G1, 24) + FileHeader(G2, 16) + Repeat(0xFF, 16)
  }

  lemma TrimBytes(v: Data)
    requires v == TrimImage()
    ensures |v| == 120 && v[..56] == VolumeHeader56(120) && v[56..80] == FileHeader(G1, 24)
    ensures v[80..104] == FileHeader(G2, 16) && v[103] == 0xF8
  {
    HeaderBytes(120);
    assert v[103] == v[80..104][23];
  }

  lemma TrimFiles(v: Data)
    requires v == TrimImage()
    ensures var f := NextFile(v, 120, 56, true);
            && f.Some? && f.value.offset == 56 && f.value.size == 24
            && f.value.guid == G1
    ensures var f := NextFile(v, 120, 80, true);
            && f.Some? && f.value.offset == 80 && f.value.size == 16
            && f.value.guid == G2
    ensures NextFile(v, 120, 96, true).None?
  {
    hide ScanFile, FileHeader, TrimImage;
    TrimBytes(v);
    FileHere(v, 56, 56, G1, 24);
    FileHere(v, 80, 80, G2, 16);
    ScanPastEnd(v, 96, 96, true);
  }

  lemma EndNone(v: Data, e: Edit, o: nat, change: int)
    requires NextFile(v, |v|, o, true).None?
    ensures EndAt(v, true, e, o, change) == None
  {
    hide NextFile;
  }

  /** The trim behind the inserted file takes the short file's header. */
  lemma TrimInserted(v: Data)
    requires v == TrimImage()
    ensures Usable(v, true, SmallEdit(), 56) && Fits(v, true, SmallEdit(), 56)
    ensures EditedImage(v, true, SmallEdit(), 56) == v[..80] + Small() + v[104..]
  {
    hide NextFile, TrimImage, FileHeader, SmallEdit, Small, PaddedSize, Rebuild, EndAt;
    TrimBytes(v);
    TrimFiles(v);
    SmallLengths();
    Guids();
    var e, f1, f2 := SmallEdit(), NextFile(v, 120, 56, true).value, NextFile(v, 120, 80, true).value;
    assert !AnyMatch(v, true, e, 96) && !AnyMatch(v, true, e, 80);
    NoMatchKeeps(v, true, e, 80);
    RebuildUnfolds(v, true, e, 56, f1);
    assert Mapped(v, e, f1) == v[56..80] + Small();
    assert Change(v, true, e, 56) == 24;
    EndNone(v, e, 96, 24);
    EndUnfolds(v, e, 80, 24, f2);
    EndUnfolds(v, e, 56, 0, f1);
    var all := SplicedBytes(v, true, e, 56);
    assert all == v[..80] + Small() + v[80..];
    assert all[..104] == v[..80] + Small() && all[128..] == v[104..];
  }

  lemma TrimmedFiles(b: Data, v: Data)
    requires v == TrimImage() && b == v[..80] + Small() + v[104..]
    ensures var f := NextFile(b, 120, 56, true);
            && f.Some? && f.value.offset == 56 && f.value.size == 24
            && f.value.guid == G1
    ensures var f := NextFile(b, 120, 80, true);
            && f.Some? && f.value.offset == 80 && f.value.size == 24
            && f.value.guid == G4
    ensures |b| == 120 && NextFile(b, 120, 104, true).None?
  {
    hide ScanFile, FileHeader, TrimImage;
    TrimBytes(v);
    SmallLengths();
    assert b[56..80] == v[56..80] && b[80..104] == Small();
    FileHere(b, 56, 56, G1, 24);
    FileHere(b, 80, 80, G4, 24);
    ScanPastEnd(b, 104, 104, true);
  }

  lemma TrimRemoved(b: Data, v: Data, rem: Edit)
    requires v == TrimImage() && b == v[..80] + Small() + v[104..] && rem.command == CMD_REMOVE && rem.guid == G4
    ensures Usable(b, true, rem, 56) && Fits(b, true, rem, 56) && EditedImage(b, true, rem, 56) != v
  {
    hide NextFile, TrimImage, FileHeader, Small, Rebuild, EndAt;
    TrimBytes(v);
    TrimmedFiles(b, v);
    Guids();
    RemovalIsSmall(rem);
    var f1, f2 := NextFile(b, 120, 56, true).value, NextFile(b, 120, 80, true).value;
    RebuildNone(b, true, rem, 104);
    RebuildUnfolds(b, true, rem, 80, f2);
    RebuildUnfolds(b, true, rem, 56, f1);
    assert Change(b, true, rem, 80) == -24 && Change(b, true, rem, 56) == -24;
    EndNone(b, rem, 104, -24);
    EndUnfolds(b, rem, 80, 0, f2);
    EndUnfolds(b, rem, 56, 0, f1);
    var all := SplicedBytes(b, true, rem, 56);
    assert |all| == 96;
    assert EditedImage(b, true, rem, 56)[103] == 0xFF;
  }

  /** A 16-byte file behind a match is lost: FvEndOffset is at the end of the inserted file, so the trim deletes it. */
  lemma ShortFileTrimmed(rem: Edit)
    requires rem.command == CMD_REMOVE && rem.guid == G4
    ensures var r := Run(TrimImage(), SmallEdit(), 0, 0, 1);
            r.Done? && Run(r.data, rem, 0, 0, 1).Done? && Run(r.data, rem, 0, 0, 1) != Done(TrimImage())
  {
    hide Run, TrimImage, SmallEdit, OneVolume, Polarity, VolumeHeader56, FileHeader, EditedImage, Usable, Fits;
    hide AgreeBelow;
    var v := TrimImage();
    TrimBytes(v);
    var vol := VolumeFound(v, 120);
    OneIs(v, vol);
    TrimInserted(v);
    RunOne(v, vol, SmallEdit());
    var b := Edited(vol, SmallEdit());
    StillOne(v, vol, b);
    TrimRemoved(b, v, rem);
    RunOne(b, vol.(image := b), rem);
  }

  // ---------------------------------------------------------------- a short file that matches

  /** A matching file that claims 16 bytes, another file, and erased space. */
  ghost function MatchImage(): Data {
    VolumeHeader56(144) + FileHeader(G1, 16) + FileHeader(G2, 24) + Repeat(0xFF, 40)
  }

  lemma MatchBytes(v: Data)
    requires v == MatchImage()
    ensures |v| == 144 && v[..56] == VolumeHeader56(144) && v[56..80] == FileHeader(G1, 16)
    ensures v[80..104] == FileHeader(G2, 24) && ErasedFrom(v, 104) && v[72] == 0
  {
    HeaderBytes(144);
    assert v[72] == v[56..80][16];
  }

  /** The rest of the short file's header and the next GUID, read as a header: size 64, not acceptable. */
  lemma MatchTail(v: Data)
    requires |v| == 144 && v[56..80] == FileHeader(G1, 16) && v[80..104] == FileHeader(G2, 24)
    ensures var header := v[72..96]; !BlankHeader(header, true) && header[23] == 0xFF && !IsLarge(v[91])
    ensures Field(v, 92, 3) == 64
  {
    hide FromLe;
    assert v[72] == v[56..80][16] == 0 && v[91] == v[80..104][11] == 0x22 && v[95] == v[80..104][15] == 0xFF;
    assert v[72..96][0] == v[72] && v[72..96][23] == v[95];
    assert Repeat(0xFF, 24)[0] == 0xFF;
    SubSlice(v, 80, 104, 12, 15);
    LittleSize(v[92..95]);
    EvenNotLarge(0x11);
  }

  lemma MatchFiles(v: Data)
    requires v == MatchImage()
    ensures var f := NextFile(v, 144, 56, true);
            && f.Some? && f.value.offset == 56 && f.value.size == 16
            && f.value.guid == G1
    ensures var f := NextFile(v, 144, 72, true);
            && f.Some? && f.value.offset == 80 && f.value.size == 24
            && f.value.guid == G2
    ensures NextFile(v, 144, 104, true).None?
  {
    hide ScanFile, FileHeader, MatchImage, Accepted, BlankHeader, FileFrom, IsLarge, Field;
    MatchBytes(v);
    MatchTail(v);
    ErasedNotAccepted();
    FileHere(v, 56, 56, G1, 16);
    FileHere(v, 72, 80, G2, 24);
    ScanStep(v, 72, 72, true);
    NoneInErased(v, 104);
  }

  lemma MatchInserted(v: Data)
    requires v == MatchImage()
    ensures Usable(v, true, SmallEdit(), 56) && Fits(v, true, SmallEdit(), 56)
    ensures EditedImage(v, true, SmallEdit(), 56) == v[..72] + Small() + v[72..104] + v[128..]
  {
    hide NextFile, MatchImage, FileHeader, SmallEdit, Small, PaddedSize, Rebuild, EndAt;
    MatchBytes(v);
    MatchFiles(v);
    SmallLengths();
    Guids();
    var e, f1, f2 := SmallEdit(), NextFile(v, 144, 56, true).value, NextFile(v, 144, 72, true).value;
    assert !AnyMatch(v, true, e, 104) && !AnyMatch(v, true, e, 72);
    NoMatchKeeps(v, true, e, 72);
    RebuildUnfolds(v, true, e, 56, f1);
    assert Mapped(v, e, f1) == v[56..72] + Small();
    assert Change(v, true, e, 56) == 24;
    EndNone(v, e, 104, 24);
    EndUnfolds(v, e, 72, 24, f2);
    EndUnfolds(v, e, 56, 0, f1);
    var all := SplicedBytes(v, true, e, 56);
    assert all == v[..72] + Small() + v[72..];
    assert all[..128] == v[..72] + Small() + v[72..104] && all[152..] == v[128..];
  }

  /** The inserted GUID has taken the place of the short file's state and size: no file is found any more. */
  lemma MatchNoFile(b: Data, v: Data)
    requires v == MatchImage() && b == v[..72] + Small() + v[72..104] + v[128..]
    ensures |b| == 144 && b[72] == 0x44 && NextFile(b, 144, 56, true).None?
  {
    hide ScanFile, FileHeader, MatchImage, IsLarge, FromLe, Accepted;
    MatchBytes(v);
    SmallLengths();
    SmallGuid();
    assert forall i :: 72 <= i < 88 ==> b[i] == Small()[i - 72] == 0x44;
    assert b[56] == v[56] == v[56..80][0] == 0x11 by { FirstOfG1(); }
    assert b[56..80][0] == b[56];
    assert Repeat(0xFF, 24)[0] == 0xFF;
    EvenNotLarge(0x22);
    assert b[75] == 0x44;
    var w := b[76..79];
    assert w[0] == b[76] == 0x44 && w[1] == b[77] == 0x44 && w[2] == b[78] == 0x44;
    FromLe3(w);
    assert FileSize(b, 144, 56, 56) == 0x44_4444;
    ScanStep(b, 56, 56, true);
  }

  lemma SmallGuid()
    ensures forall i :: 0 <= i < 16 ==> Small()[i] == 0x44
  {
  }

  lemma FirstOfG1()
    ensures FileHeader(G1, 16)[0] == 0x11
  {
  }

  /** A matching file of 16 bytes is not restored: the inserted file overwrites the rest of its header, and the removal
      finds nothing. */
  lemma ShortMatchLost(rem: Edit)
    requires rem.command == CMD_REMOVE && rem.guid == G4
    ensures var r := Run(MatchImage(), SmallEdit(), 0, 0, 1);
            r.Done? && Run(r.data, rem, 0, 0, 1) == Done(r.data) && r.data != MatchImage()
  {
    hide Run, MatchImage, SmallEdit, OneVolume, Polarity, VolumeHeader56, FileHeader, EditedImage, Usable, Fits;
    hide AgreeBelow, NextFile;
    var v := MatchImage();
    MatchBytes(v);
    var vol := VolumeFound(v, 144);
    OneIs(v, vol);
    MatchInserted(v);
    RunOne(v, vol, SmallEdit());
    var b := Edited(vol, SmallEdit());
    StillOne(v, vol, b);
    MatchNoFile(b, v);
    RemovalIsSmall(rem);
    UnmatchedImage(b, true, rem, 56);
    RunOne(b, vol.(image := b), rem);
  }

  // ---------------------------------------------------------------- a file of 4 GB

  const LONG: nat := 0x1_0000_0000

  /** Two matching files of 24 bytes each, in a volume of 144 bytes. */
  ghost function TwinImage(): Data {
    VolumeHeader56(144) + FileHeader(G1, 24) + FileHeader(G1, 24) + Repeat(0xFF, 40)
  }

  ghost function LongEdit(): Edit {
    Edit(CMD_INSERT_AFTER, G1, Repeat(0xFF, LONG))
  }

  /** The 32-bit mask leaves nothing of the length, and the file is not padded. */
  lemma LongLengths()
    ensures PaddedSize(LongEdit().file) == 0 && Padded(LongEdit().file) == LongEdit().file
  {
    hide And, Repeat;
    Pow2Values();
    AndMaskAs(LONG + 7, 3, 29, 0xFFFF_FFF8, 8, LONG);
  }

  lemma TwinFiles(v: Data)
    requires v == TwinImage()
    ensures |v| == 144 && v[103] == 0xF8
    ensures var f := NextFile(v, 144, 56, true);
            && f.Some? && f.value.offset == 56 && f.value.size == 24
            && f.value.guid == G1
    ensures var f := NextFile(v, 144, 80, true);
            && f.Some? && f.value.offset == 80 && f.value.size == 24
            && f.value.guid == G1
    ensures NextFile(v, 144, 104, true).None?
  {
    hide ScanFile;
    HeaderBytes(144);
    assert v[56..80] == FileHeader(G1, 24) && v[80..104] == FileHeader(G1, 24);
    assert v[103] == v[80..104][23];
    FileHere(v, 56, 56, G1, 24);
    FileHere(v, 80, 80, G1, 24);
    NoneInErased(v, 104);
  }

  lemma LongSplice(data: Data, cur: nat, nxt: nat)
    requires nxt <= |data|
    ensures SpliceAt(data, cur, nxt, LongEdit()) == data[..nxt] + LongEdit().file + data[nxt..]
  {
    hide Repeat, Padded;
    LongLengths();
  }

  /** With two matches a file of 4 GB is spliced wrongly: its length counts as 0, so the second copy lands inside the
      first. */
  lemma LongFileMisplaced()
    ensures var v, e := TwinImage(), LongEdit();
            var r := SpliceFrom(v, 0, v, true, e, 56, 0, 0);
            |v| == 144 && r.Spliced? && r.data != v[..56] + Rebuild(v, true, e, 56)
  {
    hide NextFile, TwinImage, Repeat, PaddedSize, Padded, SpliceFrom, Rebuild, SpliceAt;
    var v, e, long := TwinImage(), LongEdit(), LongEdit().file;
    TwinFiles(v);
    LongLengths();
    var f1, f2 := NextFile(v, 144, 56, true).value, NextFile(v, 144, 80, true).value;
    var data1 := v[..80] + long + v[80..];
    var data2 := data1[..104] + long + data1[104..];
    LongSplice(v, 56, 80);
    LongSplice(data1, 80, 104);
    SpliceUnfolds(v, 0, v, true, e, 56, 0, 0, f1);
    assert NextData(v, 0, e, f1, 0) == data1 && NextChange(e, f1, 0) == 0;
    SpliceUnfolds(data1, 0, v, true, e, 80, 0, 80, f2);
    assert NextData(data1, 0, e, f2, 0) == data2 && NextChange(e, f2, 0) == 0;
    SpliceNone(data2, 0, v, true, e, 104, 0, 104);
    RebuildUnfolds(v, true, e, 56, f1);
    RebuildUnfolds(v, true, e, 80, f2);
    TwinRebuilt(v, long, Rebuild(v, true, e, 104));
  }

  /** The state byte of the second file, where the rebuild has it, and what the splices leave there. */
  lemma TwinRebuilt(v: Data, long: Data, rest: Data)
    requires |v| == 144 && v[103] == 0xF8 && |long| == LONG && forall i :: 0 <= i < LONG ==> long[i] == 0xFF
    ensures var data1 := v[..80] + long + v[80..];
            data1[..104] + long + data1[104..]
            != v[..56] + (v[56..56] + (v[56..80] + long) + (v[80..80] + (v[80..104] + long) + rest))
  {
    var data1 := v[..80] + long + v[80..];
    var data2 := data1[..104] + long + data1[104..];
    var right := v[..56] + (v[56..56] + (v[56..80] + long) + (v[80..80] + (v[80..104] + long) + rest));
    var k := LONG + 103;
    assert data2[k] == long[k - 104] == 0xFF;
    assert right == v[..80] + long + v[80..104] + (long + rest);
    assert right[k] == v[80..104][23] == v[103];
  }

  // ---------------------------------------------------------------- a run without end

  /** A volume filled by one matching file. */
  ghost function Seed(): Data {
    VolumeHeader56(96) + FileHeader(G1, 40) + Repeat(0xFF, 16)
  }

  /** A file that ends with that volume. */
  ghost function Breeder(): Data {
    FileHeader(G4, 120) + Seed()
  }

  ghost function BreedEdit(): Edit {
    Edit(CMD_INSERT_AFTER, G1, Breeder())
  }

  lemma BreedLengths()
    ensures |Seed()| == 96 && |Breeder()| == 120 && Breeder() == FileHeader(G4, 120) + Seed()
    ensures BreedEdit().file == Breeder() && BreedEdit().guid == G1 && BreedEdit().command == CMD_INSERT_AFTER
    ensures PaddedSize(Breeder()) == 120 && Padded(Breeder()) == Breeder()
  {
    hide PaddedSize;
    HeaderBytes(96);
    PaddingExact(Breeder());
  }

  lemma SeedBytes(w: Data)
    requires w == Seed()
    ensures |w| == 96 && w[..56] == VolumeHeader56(96) && w[56..80] == FileHeader(G1, 40)
  {
    HeaderBytes(96);
  }

  lemma SeedFiles(w: Data)
    requires w == Seed()
    ensures |w| == 96
    ensures var f := NextFile(w, 96, 56, true);
            && f.Some? && f.value.offset == 56 && f.value.size == 40
            && f.value.guid == G1
    ensures NextFile(w, 96, 96, true).None?
  {
    hide ScanFile, FileHeader, Seed;
    SeedBytes(w);
    FileHere(w, 56, 56, G1, 40);
    ScanPastEnd(w, 96, 96, true);
  }

  /** No signature begins in [from, to). */
  ghost predicate NoSignature(b: Data, from: nat, to: nat) {
    forall q :: from <= q < to ==> !SignatureAt(b, q)
  }

  /** The volume at the end of a buffer is found. */
  lemma SeedFound(a: Data, fof: nat) returns (v: Volume)
    requires fof < |a| + 40 && NoSignature(a + Seed(), fof, |a| + 40)
    ensures NextVolume(a + Seed(), fof) == Some(v) && IsFfs(v) && Polarity(v)
    ensures v.offset == |a| && v.size == 96 && v.headerSize == 56 && v.image == Seed()
  {
    hide NextVolume, IsFfs, Polarity, SignatureAt, Seed, VolumeHeader56;
    SeedBytes(Seed());
    var b := a + Seed();
    assert b[|a|..] == Seed();
    SubSlice(b, |a|, |b|, 0, 56);
    v := VolumeFoundAt(b, fof, |a|, 96);
  }

  /** One turn appends the inserted file: what is behind the image is cut off, and that is nothing. */
  lemma BreedStep(a: Data, v: Volume, end: nat)
    requires Polarity(v) && v.offset == |a| && v.size == 96 && v.headerSize == 56 && v.image == Seed()
    ensures var s := EditAt(a + Seed(), BreedEdit(), v, end);
            s.Spliced? && Finish(s.data, s.change, s.end) == a + Seed() + Breeder()
  {
    hide NextFile, Seed, Breeder, BreedEdit, SpliceFrom, PaddedSize, Padded, Polarity, Finish;
    BreedLengths();
    SeedFiles(Seed());
    var b, e, w := a + Seed(), BreedEdit(), Seed();
    var f := NextFile(w, 96, 56, true).value;
    SpliceUnfolds(b, |a|, w, true, e, 56, 0, end, f);
    assert NextData(b, |a|, e, f, 0) == b + Breeder() && NextChange(e, f, 0) == 120;
    SpliceNone(b + Breeder(), |a|, w, true, e, 96, 120, |a| + 216);
    NothingCut(b + Breeder(), 120);
  }

  lemma NothingCut(data: Data, c: nat)
    ensures Finish(data, c, |data|) == data
  {
  }

  /** Between the search's new start and the next signature there is none. */
  lemma NextSeed(a: Data)
    ensures var a' := a + Seed() + FileHeader(G4, 120);
            && |a'| == |a| + 120 && a' + Seed() == a + Seed() + Breeder()
            && NoSignature(a' + Seed(), |a'| - 24, |a'| + 40)
  {
    hide SignatureAt, Seed, Breeder, VolumeHeader56;
    BreedLengths();
    SeedBytes(Seed());
    QuietHeader();
    var y := FileHeader(G4, 120);
    var a' := a + Seed() + y;
    var b := a' + Seed();
    assert a + Seed() + (y + Seed()) == b;
    assert b[|a'|..|a'| + 56] == Seed()[..56];
    NoEarlySignature(b, |a'|, 96);
    forall q | |a'| - 24 <= q < |a'| + 40
      ensures !SignatureAt(b, q)
    {
      if q < |a'| {
        assert b[q] == y[q - |a'| + 24];
      }
      NotASignature(b, q);
    }
  }

  lemma QuietHeader()
    ensures |FileHeader(G4, 120)| == 24 && forall i :: 0 <= i < 24 ==> FileHeader(G4, 120)[i] != 0x5F
  {
  }

  /** A run that never ends: the inserted file brings the next matching volume, which grows past the end of the image
      too. */
  lemma {:induction false} NeverEnds(a: Data, fof: nat, end: nat, limit: nat)
    requires fof < |a| + 40 && NoSignature(a + Seed(), fof, |a| + 40)
    ensures Run(a + Seed(), BreedEdit(), fof, end, limit) == Unfinished
    decreases limit
  {
    hide NextVolume, IsFfs, Polarity, EditAt, Finish, NoSignature, Seed, Breeder, BreedEdit, FileHeader, SearchStart;
    var v := SeedFound(a, fof);
    if limit > 0 {
      BreedStep(a, v, end);
      var s := EditAt(a + Seed(), BreedEdit(), v, end);
      RunUnfoldsEdit(a + Seed(), BreedEdit(), fof, end, limit, v);
      NextSeed(a);
      StartBehind(v);
      NeverEnds(a + Seed() + FileHeader(G4, 120), |a| + 96, s.end, limit - 1);
    }
  }

  lemma StartBehind(v: Volume)
    requires v.size == 96
    ensures SearchStart(v.offset, v.size) == v.offset + 96
  {
  }

  /** On this 96-byte image the editor does not terminate, however many volumes it is given. */
  lemma Endless(limit: nat)
    ensures Run(Seed(), BreedEdit(), 0, 0, limit) == Unfinished
  {
    hide Run, Seed, SignatureAt, BreedEdit, VolumeHeader56;
    SeedBytes(Seed());
    assert [] + Seed() == Seed();
    var w := Seed();
    assert w[0..56] == w[..56];
    NoEarlySignature(w, 0, 96);
    forall q | 0 <= q < 40
      ensures !SignatureAt(w, q)
    {
      NotASignature(w, q);
    }
    NeverEnds([], 0, 0, limit);
  }
}
