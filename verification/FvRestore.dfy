/** Inserting a file and removing it again: when that restores a volume, and when not. */
module FvRestore {
  import opened Bits
  import opened Bytes
  import opened FvWalk
  import opened Options
  import opened FvEdit

  // ---------------------------------------------------------------- scanning shifted bytes

  ghost function Moved(f: FfsFile, d: nat): FfsFile {
    f.(offset := f.offset + d)
  }

  ghost function End(f: FfsFile): nat {
    f.offset + f.size
  }

  /** Where the bytes that finding f depends on end: a file may be shorter than its own header. */
  ghost function Seen(f: FfsFile): nat {
    f.offset + Max(f.size, f.headerSize)
  }

  /** One step of the scan. */
  lemma ScanStep(img: Data, fof: nat, cur: nat, pol: bool)
    requires fof <= cur && cur + FILE_HEADER_SIZE < |img|
    ensures var header := img[cur..cur + FILE_HEADER_SIZE];
            var s := FileSize(img, |img|, fof, cur);
            ScanFile(img, |img|, fof, cur, pol) ==
            if BlankHeader(header, pol) then ScanFile(img, |img|, fof, cur + 8, pol)
            else if s == 0 || s > |img| - cur then None
            else if !Accepted(header[23], pol) then ScanFile(img, |img|, fof, cur + 8, pol)
            else Some(FileFrom(header, img[cur..cur + s], cur, s, pol))
  {
    hide Accepted, BlankHeader, FileFrom, FileSize;
  }

  lemma ScanPastEnd(img: Data, fof: nat, cur: nat, pol: bool)
    requires fof <= cur && cur + FILE_HEADER_SIZE >= |img|
    ensures ScanFile(img, |img|, fof, cur, pol).None?
  {
  }

  lemma SubSlice(s: Data, i: nat, j: nat, p: nat, q: nat)
    requires i <= j <= |s| && p <= q <= j - i
    ensures s[i..j][p..q] == s[i + p..i + q]
  {
    assert forall k :: 0 <= k < q - p ==> s[i..j][p..q][k] == s[i..j][p + k] == s[i + p + k];
  }

  /** x holds the bytes of v from fof up to end, moved by s. */
  ghost predicate Same(v: Data, x: Data, fof: nat, s: nat, end: nat) {
    fof <= end <= |v| && end + s <= |x| && x[fof + s..end + s] == v[fof..end]
  }

  lemma SameSlice(v: Data, x: Data, fof: nat, s: nat, end: nat, at: nat, n: nat)
    requires Same(v, x, fof, s, end) && fof <= at && at + n <= end
    ensures x[at + s..at + s + n] == v[at..at + n]
  {
    SubSlice(v, fof, end, at - fof, at - fof + n);
    SubSlice(x, fof + s, end + s, at - fof, at - fof + n);
  }

  lemma SameAt(v: Data, x: Data, fof: nat, s: nat, end: nat, at: nat)
    requires Same(v, x, fof, s, end) && fof <= at < end
    ensures x[at + s] == v[at]
  {
    SameSlice(v, x, fof, s, end, at, 1);
    assert x[at + s..at + s + 1][0] == v[at..at + 1][0];
  }

  /** A size read from the same bytes is the same when as much of the buffer follows. */
  lemma SizeMoved(a: Data, x: Data, fof: nat, cur: nat, s: nat, end: nat)
    requires Same(a, x, fof, s, end) && |x| == |a| + s
    requires fof <= cur && cur + FILE_HEADER_SIZE <= end && cur + FILE_HEADER_SIZE < |a|
    requires IsLarge(a[cur + 19]) && |a| > fof + FILE_HEADER2_SIZE ==> fof + FILE_HEADER2_SIZE <= end
    ensures FileSize(x, |x|, fof + s, cur + s) == FileSize(a, |a|, fof, cur)
  {
    hide IsLarge, FromLe, Same;
    SameAt(a, x, fof, s, end, cur + 19);
    SameSlice(a, x, fof, s, end, cur + 20, 3);
    if IsLarge(a[cur + 19]) && |a| > fof + FILE_HEADER2_SIZE {
      SameSlice(a, x, fof, s, end, fof + 24, 8);
    }
  }

  lemma FromMoved(header: Data, image: Data, o: nat, d: nat, size: nat, pol: bool)
    requires |header| == FILE_HEADER_SIZE
    ensures Moved(FileFrom(header, image, o, size, pol), d) == FileFrom(header, image, o + d, size, pol)
  {
    hide Checksum8, IsLarge, UpdateOrDeleted, And, Or, Shl;
  }

  lemma FileHeaderSizes(img: Data, fvLength: nat, f: FfsFile, pol: bool)
    requires FileIn(img, fvLength, f, pol)
    ensures f.headerSize == if IsLarge(img[f.offset + 19]) then 32 else 24
    ensures f.offset % 8 == 0 && f.offset + f.size <= fvLength && f.offset + 24 < |img|
  {
    hide And, Accepted, IsLarge, Checksum8, UpdateOrDeleted;
    assert img[f.offset..f.offset + 24][19] == img[f.offset + 19];
  }

  /** Everything the scan reads on its way to a file lies before the end of the file or of its header. */
  lemma ReadsBelow(v: Data, fof: nat, cur: nat, pol: bool, f: FfsFile)
    requires fof <= cur && cur % 8 == 0 && fof % 8 == 0
    requires ScanFile(v, |v|, fof, cur, pol) == Some(f)
    ensures cur <= f.offset && f.offset % 8 == 0 && End(f) <= |v| && f.size > 0
    ensures cur + 24 <= f.offset + 24 <= Seen(f) && cur + 24 < |v|
    ensures IsLarge(v[cur + 19]) ==> fof + 32 <= Seen(f)
  {
    hide ScanFile, FileIn, IsLarge;
    ScanSound(v, |v|, fof, cur, pol);
    FileHeaderSizes(v, |v|, f, pol);
    FileNotEmpty(v, f, pol);
  }

  lemma FileNotEmpty(v: Data, f: FfsFile, pol: bool)
    requires FileIn(v, |v|, f, pol)
    ensures f.size > 0
  {
    hide Accepted, FileFrom;
  }

  /** A volume cut short, and another buffer with the same bytes up to the file and as much behind them: if the cut
      volume shows the file or nothing, the other buffer shows the file, moved, or nothing. */
  lemma {:induction false} ScanSame(v: Data, k: nat, x: Data, fof: nat, cur: nat, s: nat, pol: bool, f: FfsFile)
    requires fof <= cur && cur % 8 == 0 && fof % 8 == 0
    requires ScanFile(v, |v|, fof, cur, pol) == Some(f)
    requires End(f) <= k <= |v| && |x| == k + s && Same(v[..k], x, fof, s, Min(Seen(f), k))
    requires var c := ScanFile(v[..k], k, fof, cur, pol); c.None? || c == Some(f)
    ensures ScanFile(x, |x|, fof + s, cur + s, pol)
         == if ScanFile(v[..k], k, fof, cur, pol).None? then None else Some(Moved(f, s))
    decreases |v| - cur
  {
    hide Accepted, BlankHeader, FileFrom, IsLarge, FileSize, Moved, ScanFile, Same;
    ReadsBelow(v, fof, cur, pol, f);
    var a, end := v[..k], Min(Seen(f), k);
    if cur + 24 >= k {
      ScanPastEnd(a, fof, cur, pol);
      ScanPastEnd(x, fof + s, cur + s, pol);
    } else {
      ScanStep(v, fof, cur, pol);
      ScanStep(a, fof, cur, pol);
      ScanStep(x, fof + s, cur + s, pol);
      SameSlice(a, x, fof, s, end, cur, 24);
      assert a[cur..cur + 24] == v[cur..cur + 24];
      assert a[cur + 19] == v[cur + 19];
      SizeMoved(a, x, fof, cur, s, end);
      var size := FileSize(a, k, fof, cur);
      if BlankHeader(v[cur..cur + 24], pol) || !Accepted(v[cur..cur + 24][23], pol) {
        if BlankHeader(v[cur..cur + 24], pol) || (size != 0 && size <= k - cur) {
          ScanSame(v, k, x, fof, cur + 8, s, pol, f);
        }
      } else if size != 0 && size <= k - cur {
        FromOffset(a[cur..cur + 24], a[cur..cur + size], cur, size, pol);
        SameSlice(a, x, fof, s, end, cur, size);
        FromMoved(a[cur..cur + 24], a[cur..cur + size], cur, s, size, pol);
      }
    }
  }

  /** The size of a file is read the same way from a shorter volume that still holds the file, unless the file is no
      more than a large header at the very end. */
  lemma SizeInCut(v: Data, k: nat, fof: nat, cur: nat, size: nat)
    requires fof <= cur && cur + 24 < k <= |v| && fof % 8 == 0 && cur % 8 == 0
    requires 0 < size == FileSize(v, |v|, fof, cur) && cur + size <= k
    requires IsLarge(v[cur + 19]) ==> fof + 32 < k
    ensures FileSize(v[..k], k, fof, cur) == size
  {
    hide IsLarge, FromLe;
    var cut := v[..k];
    assert cut[cur + 19] == v[cur + 19];
    assert cut[cur + 20..cur + 23] == v[cur + 20..cur + 23];
    if IsLarge(v[cur + 19]) {
      assert cut[fof + 24..fof + 32] == v[fof + 24..fof + 32];
    }
  }

  /** A file found in a volume is found in a shorter one that still holds it, or nothing is. */
  lemma {:induction false} ScanCut(v: Data, k: nat, fof: nat, cur: nat, pol: bool, f: FfsFile)
    requires fof <= cur && cur % 8 == 0 && fof % 8 == 0
    requires ScanFile(v, |v|, fof, cur, pol) == Some(f) && End(f) <= k <= |v|
    requires f.headerSize == 32 ==> f.size > 32
    ensures var c := ScanFile(v[..k], k, fof, cur, pol); c.None? || c == Some(f)
    decreases |v| - cur
  {
    hide Accepted, BlankHeader, FileFrom, IsLarge, FileSize, ScanFile, FileIn;
    ReadsBelow(v, fof, cur, pol, f);
    var a := v[..k];
    if cur + 24 >= k {
      ScanPastEnd(a, fof, cur, pol);
    } else {
      ScanStep(v, fof, cur, pol);
      ScanStep(a, fof, cur, pol);
      assert a[cur..cur + 24] == v[cur..cur + 24];
      if BlankHeader(v[cur..cur + 24], pol) || !Accepted(v[cur..cur + 24][23], pol) {
        ScanCut(v, k, fof, cur + 8, pol, f);
      } else {
        var size := FileSize(v, |v|, fof, cur);
        FromOffset(v[cur..cur + 24], v[cur..cur + size], cur, size, pol);
        ScanSound(v, |v|, fof, cur, pol);
        FileHeaderSizes(v, |v|, f, pol);
        SizeInCut(v, k, fof, cur, size);
        assert a[cur..cur + size] == v[cur..cur + size];
      }
    }
  }

  ghost predicate ErasedFrom(v: Data, o: nat) {
    forall i :: o <= i < |v| ==> v[i] == 0xFF
  }

  /** Erased bytes hold no file. */
  lemma {:induction false} NoFileInErased(v: Data, fof: nat, cur: nat)
    requires fof <= cur && ErasedFrom(v, cur)
    ensures ScanFile(v, |v|, fof, cur, true).None?
    decreases |v| - cur
  {
    hide Accepted, FileFrom, FileSize;
    if cur + FILE_HEADER_SIZE < |v| {
      assert v[cur..cur + FILE_HEADER_SIZE] == Repeat(0xFF, FILE_HEADER_SIZE);
      NoFileInErased(v, fof, cur + 8);
    }
  }

  lemma NoneInErased(v: Data, o: nat)
    requires ErasedFrom(v, o)
    ensures NextFile(v, |v|, o, true).None?
  {
    hide ScanFile;
    Align8(o);
    NoFileInErased(v, Align(o, 8), Align(o, 8));
  }

  // ---------------------------------------------------------------- the volume's files

  /** Files are 8-aligned in size, none has GUID n, and those that match are at least as long as their headers. */
  ghost predicate Packed(img: Data, e: Edit, o: nat, n: Data)
    decreases |img| - o
  {
    match NextFile(img, |img|, o, true)
    case None => true
    case Some(f) =>
      NextFileBounds(img, |img|, o, true);
      && f.size % 8 == 0 && f.guid != n && (f.guid == e.guid ==> f.size >= f.headerSize)
      && Packed(img, e, f.offset + f.size, n)
  }

  lemma PackedFile(v: Data, e: Edit, o: nat, n: Data, f: FfsFile)
    requires Packed(v, e, o, n) && NextFile(v, |v|, o, true) == Some(f)
    ensures f.size % 8 == 0 && f.size > 0 && (f.headerSize == 24 || f.headerSize == 32)
    ensures f.guid != n && (f.guid == e.guid ==> f.size >= f.headerSize) && Packed(v, e, End(f), n)
    ensures o <= f.offset && f.offset % 8 == 0 && End(f) <= |v|
    ensures f.offset + 24 < |v| && Accepted(v[f.offset + 23], true)
  {
    hide NextFile, Accepted;
    NextFileBounds(v, |v|, o, true);
    NextFileSound(v, |v|, o, true);
    FileHeaderSizes(v, |v|, f, true);
  }

  /** The rebuilt files of a volume, without what follows the last one. */
  ghost function Head(img: Data, e: Edit, o: nat): Data
    requires o <= |img|
    decreases |img| - o
  {
    match NextFile(img, |img|, o, true)
    case None => []
    case Some(f) =>
      NextFileBounds(img, |img|, o, true);
      img[o..f.offset] + Mapped(img, e, f) + Head(img, e, f.offset + f.size)
  }

  lemma HeadUnfolds(img: Data, e: Edit, o: nat, f: FfsFile)
    requires o <= |img| && NextFile(img, |img|, o, true) == Some(f)
    ensures o <= f.offset && f.offset % 8 == 0 && f.size > 0 && f.offset + f.size <= |img|
    ensures Head(img, e, o) == img[o..f.offset] + Mapped(img, e, f) + Head(img, e, f.offset + f.size)
    ensures LastEnd(img, true, o) == LastEnd(img, true, f.offset + f.size)
    ensures Change(img, true, e, o) == NextChange(e, f, 0) + Change(img, true, e, f.offset + f.size)
  {
    hide NextFile, Mapped, Delta;
    NextFileBounds(img, |img|, o, true);
  }

  lemma HeadNone(img: Data, e: Edit, o: nat)
    requires o <= |img| && NextFile(img, |img|, o, true).None?
    ensures Head(img, e, o) == [] && LastEnd(img, true, o) == o && Change(img, true, e, o) == 0
    ensures Rebuild(img, true, e, o) == img[o..]
  {
    hide NextFile;
  }

  lemma {:induction false} RebuildIsHead(img: Data, e: Edit, o: nat)
    requires SmallFile(e) && e.Valid() && o <= |img|
    ensures Rebuild(img, true, e, o) == Head(img, e, o) + img[LastEnd(img, true, o)..]
    ensures |Head(img, e, o)| == LastEnd(img, true, o) - o + Change(img, true, e, o)
    decreases |img| - o
  {
    hide NextFile, Mapped, Delta, Rebuild, Head, LastEnd, Change, SmallFile, Edit.Valid;
    var next := NextFile(img, |img|, o, true);
    if next.Some? {
      var f := next.value;
      HeadUnfolds(img, e, o, f);
      RebuildUnfolds(img, true, e, o, f);
      MappedLength(img, e, f);
      RebuildIsHead(img, e, f.offset + f.size);
    } else {
      HeadNone(img, e, o);
    }
  }

  // ---------------------------------------------------------------- the inserted file

  /** The edit inserts a complete, acceptable file with GUID n whose length is a multiple of 8. */
  ghost predicate Inserts(e: Edit, n: Data) {
    && e.command == CMD_INSERT_AFTER
    && 24 <= |e.file| && |e.file| % 8 == 0 && e.file[..16] == n
    && Accepted(e.file[23], true) && !IsLarge(e.file[19]) && Field(e.file, 20, 3) == |e.file|
  }

  lemma InsertedSize(e: Edit, n: Data)
    requires Inserts(e, n)
    ensures SmallFile(e) && e.Valid() && PaddedSize(e.file) == |e.file| && Padded(e.file) == e.file
  {
    hide And, IsLarge, Accepted, FromLe;
    Pow256Values();
    PaddingExact(e.file);
  }

  lemma ErasedNotAccepted()
    ensures !Accepted(0xFF, true)
  {
    assert AndNot(0x01, 0x3F) == 0 && AndNot(0x01, 0x1F) == 0 && AndNot(0x01, 0x0F) == 0;
    assert AndNot(0x02, 0x7F) == 0 && AndNot(0x02, 0x3F) == 0 && AndNot(0x02, 0x1F) == 0;
    assert AndNot(0x04, 0x7F) == 0 && AndNot(0x04, 0x3F) == 0 && AndNot(0x08, 0x7F) == 0;
  }

  lemma AcceptedNotBlank(header: Data)
    requires |header| == 24 && Accepted(header[23], true)
    ensures !BlankHeader(header, true)
  {
    hide Accepted;
    ErasedNotAccepted();
    assert Repeat(0xFF, FILE_HEADER_SIZE)[23] == 0xFF;
  }

  lemma InsertedHeader(b: Data, at: nat, e: Edit, n: Data)
    requires Inserts(e, n) && at + |e.file| <= |b| && at + FILE_HEADER_SIZE < |b| && b[at..at + |e.file|] == e.file
    ensures var header := b[at..at + FILE_HEADER_SIZE]; Accepted(header[23], true) && header[..16] == n
    ensures FileSize(b, |b|, at, at) == |e.file|
  {
    hide Accepted, IsLarge, FromLe;
    var len := |e.file|;
    SubSlice(b, at, at + len, 0, 24);
    SubSlice(b, at, at + len, 20, 23);
    assert b[at..at + len][19] == b[at + 19];
    assert e.file[..24][..16] == e.file[..16];
  }

  lemma FromGuid(header: Data, image: Data, offset: nat, size: nat, pol: bool)
    requires |header| == FILE_HEADER_SIZE
    ensures FileFrom(header, image, offset, size, pol).guid == header[..16]
  {
    hide Checksum8, IsLarge, UpdateOrDeleted, And, Or, Shl;
  }

  /** An inserted file is found where it was put, if at least one byte follows its header. */
  lemma InsertedFound(b: Data, at: nat, e: Edit, n: Data)
    requires Inserts(e, n) && at % 8 == 0 && at + |e.file| <= |b| && at + FILE_HEADER_SIZE < |b|
             && b[at..at + |e.file|] == e.file
    ensures var r := NextFile(b, |b|, at, true);
            r.Some? && r.value.offset == at && r.value.size == |e.file| && r.value.guid == n
  {
    hide Accepted, BlankHeader, FileFrom, IsLarge, FileSize, Align, Inserts, ScanFile;
    InsertsAfter(e, n);
    Align8(at);
    InsertedHeader(b, at, e, n);
    var header, len := b[at..at + 24], |e.file|;
    AcceptedNotBlank(header);
    ScanStep(b, at, at, true);
    FromOffset(header, b[at..at + len], at, len, true);
    FromGuid(header, b[at..at + len], at, len, true);
  }

  // ---------------------------------------------------------------- one volume

  lemma AlignMoved(o: nat, d: nat)
    requires d % 8 == 0
    ensures Align(o + d, 8) == Align(o, 8) + d
  {
  }

  lemma {:induction false} InsertGrows(v: Data, e: Edit, o: nat)
    requires e.command == CMD_INSERT_AFTER
    ensures Change(v, true, e, o) >= 0
    decreases |v| - o
  {
    hide NextFile, PaddedSize;
    var next := NextFile(v, |v|, o, true);
    if next.Some? {
      NextFileBounds(v, |v|, o, true);
      InsertGrows(v, e, next.value.offset + next.value.size);
    }
  }

  ghost function Inserted(e: Edit, f: FfsFile): Data {
    if f.guid == e.guid then e.file else []
  }

  /** From o on, every file is still the next one found when the volume is shortened by what was inserted before it,
      starting with d bytes, and at least one byte follows the header of each inserted file. */
  ghost predicate Survives(v: Data, e: Edit, o: nat, d: nat)
    decreases |v| - o
  {
    match NextFile(v, |v|, o, true)
    case None => true
    case Some(f) =>
      NextFileBounds(v, |v|, o, true);
      && d <= |v| && NextFile(v[..|v| - d], |v| - d, o, true) == Some(f)
      && (f.guid == e.guid ==> End(f) + d + FILE_HEADER_SIZE < |v|)
      && Survives(v, e, End(f), d + |Inserted(e, f)|)
  }

  /** Large files are more than a header. */
  ghost predicate LargeBodies(v: Data, o: nat)
    decreases |v| - o
  {
    match NextFile(v, |v|, o, true)
    case None => true
    case Some(f) =>
      NextFileBounds(v, |v|, o, true);
      (f.headerSize == FILE_HEADER2_SIZE ==> f.size > FILE_HEADER2_SIZE) && LargeBodies(v, End(f))
  }

  /** Where the removal's walk stops: an offset of the original volume, how much was inserted before it, and where the
      last file of at least 24 bytes before it ends. */
  datatype Stop = Stop(at: nat, shift: nat, end: nat)

  ghost function Reach(v: Data, e: Edit, o: nat, d: nat, z: nat): Stop
    decreases |v| - o
  {
    match NextFile(v, |v|, o, true)
    case None => Stop(o, d, z)
    case Some(f) =>
      NextFileBounds(v, |v|, o, true);
      if d > |v| || NextFile(v[..|v| - d], |v| - d, o, true) != Some(f) then Stop(o, d, z)
      else if f.guid == e.guid && End(f) + d + FILE_HEADER_SIZE >= |v| then Stop(End(f), d, End(f))
      else Reach(v, e, End(f), d + |Inserted(e, f)|, NextEnd(e, f, z))
  }

  ghost function NextEnd(e: Edit, f: FfsFile, z: nat): nat {
    if f.guid == e.guid || f.size >= 24 then End(f) else z
  }

  /** In erased free space the last file has at least 24 bytes: a shorter one would have its state byte behind it. */
  ghost predicate LastIsBig(v: Data, o: nat)
    decreases |v| - o
  {
    match NextFile(v, |v|, o, true)
    case None => true
    case Some(f) =>
      NextFileBounds(v, |v|, o, true);
      LastIsBig(v, End(f)) && (NextFile(v, |v|, End(f), true).None? ==> f.size >= 24)
  }

  lemma {:induction false} ErasedLastIsBig(v: Data, e: Edit, o: nat, n: Data)
    requires Packed(v, e, o, n) && ErasedFrom(v, LastEnd(v, true, o))
    ensures LastIsBig(v, o)
    decreases |v| - o
  {
    hide NextFile, Accepted;
    ErasedNotAccepted();
    var next := NextFile(v, |v|, o, true);
    if next.Some? {
      PackedFile(v, e, o, n, next.value);
      ErasedLastIsBig(v, e, End(next.value), n);
    }
  }

  lemma {:induction false} SurvivorsReached(v: Data, e: Edit, n: Data, o: nat, d: nat, z: nat)
    requires Survives(v, e, o, d) && Inserts(e, n) && LastIsBig(v, o)
    ensures var s := Reach(v, e, o, d, z);
            && s.at == LastEnd(v, true, o) && s.shift == d + Change(v, true, e, o)
            && (NextFile(v, |v|, o, true).Some? || z == o ==> s.end == s.at)
    decreases |v| - o
  {
    hide NextFile, Inserts, PaddedSize;
    var next := NextFile(v, |v|, o, true);
    if next.Some? {
      var f := next.value;
      NextFileBounds(v, |v|, o, true);
      InsertedSize(e, n);
      InsertsAfter(e, n);
      SurvivorsReached(v, e, n, End(f), d + |Inserted(e, f)|, NextEnd(e, f, z));
    }
  }

  /** FvEndOffset after the insertions is the shifted end of the last file. */
  lemma {:induction false} EndAtLast(v: Data, e: Edit, o: nat, change: int)
    requires LastIsBig(v, o) && NextFile(v, |v|, o, true).Some?
    ensures EndAt(v, true, e, o, change) == Some(LastEnd(v, true, o) + change + Change(v, true, e, o))
    decreases |v| - o
  {
    hide NextFile, Delta;
    var f := NextFile(v, |v|, o, true).value;
    NextFileBounds(v, |v|, o, true);
    if NextFile(v, |v|, End(f), true).Some? {
      EndAtLast(v, e, End(f), NextChange(e, f, change));
    }
  }

  lemma InsertsAfter(e: Edit, n: Data)
    requires Inserts(e, n)
    ensures e.command == CMD_INSERT_AFTER && |e.file| % 8 == 0 && |e.file| >= 24
  {
  }

  /** What remains of the volume behind its files when growth bytes have been inserted. */
  ghost function Free(v: Data, e: Edit, o: nat, d: nat): int {
    |v| - LastEnd(v, true, o) - Change(v, true, e, o) - d
  }

  /** b holds, from o + d on, the volume from o on with the insertions made and erased space behind. */
  ghost predicate Holds(v: Data, b: Data, e: Edit, n: Data, o: nat, d: nat) {
    && Inserts(e, n) && o <= |v| && Packed(v, e, o, n) && ErasedFrom(v, LastEnd(v, true, o))
    && d % 8 == 0 && |b| == |v| && o + d <= |b| && Free(v, e, o, d) >= 0
    && b[o + d..] == Head(v, e, o) + Repeat(0xFF, Free(v, e, o, d))
  }

  /** What b holds begins with the volume's next file, then the insertion if it matches. */
  lemma HeldFile(v: Data, b: Data, e: Edit, n: Data, o: nat, d: nat, f: FfsFile)
    requires Holds(v, b, e, n, o, d) && NextFile(v, |v|, o, true) == Some(f)
    ensures o <= f.offset && f.offset % 8 == 0 && End(f) <= |v| && End(f) + d + |Inserted(e, f)| <= |b| == |v|
    ensures b[o + d..End(f) + d] == v[o..End(f)]
    ensures b[End(f) + d..End(f) + d + |Inserted(e, f)|] == Inserted(e, f)
    ensures Holds(v, b, e, n, End(f), d + |Inserted(e, f)|)
    ensures (End(f) + d) % 8 == 0
  {
    hide NextFile, Head, LastEnd, Change, Packed, Delta, Mapped, Inserts, Repeat;
    HeadUnfolds(v, e, o, f);
    InsertedSize(e, n);
    InsertsAfter(e, n);
    PackedFile(v, e, o, n, f);
    MappedInsert(v, e, f);
    InsertDelta(e, n, f);
    Sums8(f.offset, f.size, d, |Inserted(e, f)|);
    var gap, own, extra := v[o..f.offset], v[f.offset..End(f)], Inserted(e, f);
    var rest := Head(v, e, End(f)) + Repeat(0xFF, Free(v, e, o, d));
    assert gap + (own + extra) + Head(v, e, End(f)) + Repeat(0xFF, Free(v, e, o, d)) == gap + (own + extra) + rest;
    HeldBytes(b, v, o, d, f.offset, End(f), extra, rest);
  }

  lemma InsertDelta(e: Edit, n: Data, f: FfsFile)
    requires Inserts(e, n)
    ensures NextChange(e, f, 0) == |Inserted(e, f)|
  {
    hide Inserts, PaddedSize;
    InsertedSize(e, n);
    InsertsAfter(e, n);
  }

  lemma Sums8(a: nat, b: nat, c: nat, d: nat)
    requires a % 8 == 0 && b % 8 == 0 && c % 8 == 0 && d % 8 == 0
    ensures (a + b + c) % 8 == 0 && (c + d) % 8 == 0
  {
  }

  lemma MappedInsert(v: Data, e: Edit, f: FfsFile)
    requires f.offset + f.size <= |v| && e.command == CMD_INSERT_AFTER && Padded(e.file) == e.file
    ensures Mapped(v, e, f) == v[f.offset..f.offset + f.size] + if f.guid == e.guid then e.file else []
  {
    hide Padded;
  }

  lemma HeldBytes(b: Data, v: Data, o: nat, d: nat, start: nat, end: nat, extra: Data, rest: Data)
    requires o <= start <= end <= |v| && o + d <= |b|
    requires b[o + d..] == v[o..start] + (v[start..end] + extra) + rest
    ensures end + d + |extra| + |rest| == |b|
    ensures b[o + d..end + d] == v[o..end]
    ensures b[end + d..end + d + |extra|] == extra
    ensures b[end + d + |extra|..] == rest
  {
    var k := end - o;
    assert v[o..start] + v[start..end] == v[o..end];
    var parts := v[o..end] + extra + rest;
    assert b[o + d..] == parts;
    assert parts[..k] == v[o..end] && parts[k..k + |extra|] == extra && parts[k + |extra|..] == rest;
    SubSlice(b, o + d, |b|, 0, k);
    SubSlice(b, o + d, |b|, k, k + |extra|);
    SubSlice(b, o + d, |b|, k + |extra|, |b| - o - d);
  }

  /** b keeps the volume's bytes behind base up to x: nothing is inserted in between, since every file that matches
      behind base has at least 24 bytes. */
  lemma {:induction false} HeldUntil(v: Data, b: Data, e: Edit, n: Data, o: nat, d: nat, base: nat, x: nat)
    requires Holds(v, b, e, n, o, d) && base <= o <= x <= base + 24 && x + d <= |v|
    ensures |b| == |v| && b[o + d..x + d] == v[o..x]
    decreases |v| - o
  {
    hide NextFile, Head, LastEnd, Change, Packed, Inserts, Holds;
    HoldsBounds(v, b, e, n, o, d);
    var next := NextFile(v, |v|, o, true);
    if next.None? {
      ErasedBehind(v, b, e, n, o, d);
      assert forall i :: o <= i < x ==> v[i] == 0xFF == b[i + d];
    } else {
      var f := next.value;
      HeldFile(v, b, e, n, o, d, f);
      PackedFile(v, e, o, n, f);
      if x <= End(f) {
        SubSlice(b, o + d, End(f) + d, 0, x - o);
        SubSlice(v, o, End(f), 0, x - o);
      } else {
        HeldUntil(v, b, e, n, End(f), d, base, x);
        assert b[o + d..x + d] == b[o + d..End(f) + d] + b[End(f) + d..x + d];
        assert v[o..x] == v[o..End(f)] + v[End(f)..x];
      }
    }
  }

  /** b keeps all the bytes that finding the next file depends on. */
  lemma HeldSeen(v: Data, b: Data, e: Edit, n: Data, o: nat, d: nat, f: FfsFile)
    requires Holds(v, b, e, n, o, d) && NextFile(v, |v|, o, true) == Some(f)
    ensures var x := Min(Seen(f), |v| - d);
            |b| == |v| && d <= |v| && o <= End(f) <= x && x + d <= |b| && b[o + d..x + d] == v[o..x]
  {
    hide NextFile, Head, LastEnd, Change, Packed, Inserts, Holds;
    HoldsBounds(v, b, e, n, o, d);
    HeldFile(v, b, e, n, o, d, f);
    PackedFile(v, e, o, n, f);
    var x := Min(Seen(f), |v| - d);
    if x > End(f) {
      HeldUntil(v, b, e, n, End(f), d, End(f), x);
      assert b[o + d..x + d] == b[o + d..End(f) + d] + b[End(f) + d..x + d];
      assert v[o..x] == v[o..End(f)] + v[End(f)..x];
    }
  }

  /** The next file of the shortened volume, when it is the right one or none, is what b shows. */
  lemma FoundMoved(v: Data, b: Data, e: Edit, n: Data, o: nat, d: nat, f: FfsFile)
    requires Holds(v, b, e, n, o, d) && NextFile(v, |v|, o, true) == Some(f)
    ensures d <= |v|
    ensures var c := NextFile(v[..|v| - d], |v| - d, o, true);
            c.None? || c == Some(f) ==> NextFile(b, |b|, o + d, true) == if c.None? then None else Some(Moved(f, d))
  {
    hide ScanFile, Align, Moved, Holds, Same, FileIn, Packed;
    HoldsBounds(v, b, e, n, o, d);
    Align8(o);
    AlignMoved(o, d);
    HeldSeen(v, b, e, n, o, d, f);
    PackedFile(v, e, o, n, f);
    NextFileSound(v, |v|, o, true);
    var fof, k := Align(o, 8), |v| - d;
    var c := ScanFile(v[..k], k, fof, fof, true);
    if c.None? || c == Some(f) {
      SameHere(v, b, k, o, fof, d, Min(Seen(f), k));
      ScanSame(v, k, b, fof, fof, d, true, f);
    }
  }

  lemma SameHere(v: Data, b: Data, k: nat, o: nat, fof: nat, d: nat, end: nat)
    requires o <= fof <= end <= k <= |v| && end + d <= |b| && b[o + d..end + d] == v[o..end]
    ensures Same(v[..k], b, fof, d, end)
  {
    SubSlice(b, o + d, end + d, fof - o, end - o);
    SubSlice(v, o, end, fof - o, end - o);
    assert v[..k][fof..end] == v[fof..end];
  }

  lemma FoundOrNone(v: Data, e: Edit, n: Data, o: nat, k: nat, f: FfsFile)
    requires Packed(v, e, o, n) && LargeBodies(v, o) && NextFile(v, |v|, o, true) == Some(f) && End(f) <= k <= |v|
    ensures var c := NextFile(v[..k], k, o, true); c.None? || c == Some(f)
    ensures LargeBodies(v, End(f))
  {
    hide ScanFile, Align, Packed;
    Align8(o);
    PackedFile(v, e, o, n, f);
    ScanCut(v, k, Align(o, 8), Align(o, 8), true, f);
  }

  /** FvEndOffset of the removal, in offsets of the original volume. */
  ghost predicate EndReached(end: Option<int>, s: Stop, d: nat, z: nat) {
    if end.Some? then end.value == s.end else s.end == z && s.shift == d
  }

  /** What removing GUID n from b, from o + d on, comes to: everything inserted before the stop is gone. */
  ghost predicate Removed(v: Data, b: Data, e: Edit, rem: Edit, o: nat, d: nat, z: nat) {
    var s := Reach(v, e, o, d, z);
    && o <= s.at <= |v| && d <= s.shift && z <= s.end <= s.at && s.at + s.shift <= |b| && o + d <= |b|
    && Change(b, true, rem, o + d) == d - s.shift
    && LastEnd(b, true, o + d) == s.at + s.shift
    && EndReached(EndAt(b, true, rem, o + d, 0 - d as int), s, d, z)
    && Rebuild(b, true, rem, o + d) == v[o..s.at] + b[s.at + s.shift..]
  }

  lemma NothingFound(v: Data, b: Data, e: Edit, rem: Edit, o: nat, d: nat, z: nat)
    requires NextFile(b, |b|, o + d, true).None? && o + d <= |b| && z <= o <= |v|
    requires Reach(v, e, o, d, z) == Stop(o, d, z)
    ensures Removed(v, b, e, rem, o, d, z)
  {
    hide NextFile, Reach;
    HeadNone(b, rem, o + d);
    assert v[o..o] + b[o + d..] == b[o + d..];
  }

  /** The removal from one place is that from a later one, with the bytes of v up to offset m in front, change taken off
      the length in between, and end the last file of at least 24 bytes met in between. */
  ghost predicate Steps(v: Data, b: Data, rem: Edit, o: nat, d: nat, m: nat, d': nat, end: Option<int>) {
    && o <= m <= |v| && o + d <= |b| && m + d' <= |b|
    && Change(b, true, rem, o + d) == d - d' + Change(b, true, rem, m + d')
    && LastEnd(b, true, o + d) == LastEnd(b, true, m + d')
    && Rebuild(b, true, rem, o + d) == v[o..m] + Rebuild(b, true, rem, m + d')
    && var rest := EndAt(b, true, rem, m + d', 0 - d' as int);
       EndAt(b, true, rem, o + d, 0 - d as int) == if rest.Some? then rest else end
  }

  lemma EndUnfolds(b: Data, e: Edit, o: nat, change: int, f: FfsFile)
    requires NextFile(b, |b|, o, true) == Some(f)
    ensures var n, change' := f.offset + f.size, NextChange(e, f, change);
            var rest := EndAt(b, true, e, n, change');
            EndAt(b, true, e, o, change) == if rest.Some? then rest else if f.size >= 24 then Some(n + change')
              else None
  {
    hide NextFile, Delta;
  }

  /** A file that is kept: the removal goes on behind it. */
  lemma KeptFile(v: Data, b: Data, rem: Edit, o: nat, d: nat, f: FfsFile)
    requires NextFile(b, |b|, o + d, true) == Some(Moved(f, d)) && f.guid != rem.guid
    requires o <= f.offset && End(f) <= |v| && End(f) + d <= |b| && o + d <= |b|
    requires b[o + d..End(f) + d] == v[o..End(f)]
    ensures Steps(v, b, rem, o, d, End(f), d, if f.size >= 24 then Some(End(f)) else None)
  {
    hide NextFile, LastEnd, Change, Rebuild, EndAt, Delta, Mapped, Head;
    var g := Moved(f, d);
    HeadUnfolds(b, rem, o + d, g);
    RebuildUnfolds(b, true, rem, o + d, g);
    EndUnfolds(b, rem, o + d, 0 - d as int, g);
    MappedSame(b, rem, g);
    assert b[o + d..g.offset] + b[g.offset..End(f) + d] == b[o + d..End(f) + d];
  }

  /** An inserted file: the removal drops it. */
  lemma DroppedFile(v: Data, b: Data, e: Edit, rem: Edit, n: Data, o: nat, d: nat)
    requires Inserts(e, n) && rem.command == CMD_REMOVE && rem.guid == n && o <= |v|
    requires (o + d) % 8 == 0 && o + d + |e.file| <= |b| && o + d + FILE_HEADER_SIZE < |b|
    requires b[o + d..o + d + |e.file|] == e.file
    ensures Steps(v, b, rem, o, d, o, d + |e.file|, Some(o))
  {
    hide NextFile, LastEnd, Change, Inserts, Rebuild, EndAt, Head;
    InsertsAfter(e, n);
    var at := o + d;
    InsertedFound(b, at, e, n);
    var g := NextFile(b, |b|, at, true).value;
    HeadUnfolds(b, rem, at, g);
    RebuildUnfolds(b, true, rem, at, g);
    EndUnfolds(b, rem, at, 0 - d as int, g);
    assert b[at..at] + [] == [];
    assert v[o..o] == [];
  }

  /** Steps compose. */
  lemma TwoSteps(v: Data, b: Data, rem: Edit, o: nat, d: nat, m: nat, d1: nat, end1: Option<int>, m2: nat, d2: nat,
                 end2: Option<int>)
    requires Steps(v, b, rem, o, d, m, d1, end1) && Steps(v, b, rem, m, d1, m2, d2, end2)
    ensures Steps(v, b, rem, o, d, m2, d2, if end2.Some? then end2 else end1)
  {
    hide LastEnd, Change, Rebuild, EndAt;
    assert v[o..m2] == v[o..m] + v[m..m2];
  }

  /** A step in front of a removal. */
  lemma StepRemoved(v: Data, b: Data, e: Edit, rem: Edit, o: nat, d: nat, z: nat, m: nat, d': nat, z': nat,
                    end: Option<int>)
    requires Steps(v, b, rem, o, d, m, d', end) && Removed(v, b, e, rem, m, d', z')
    requires d <= d' && z <= z' && Reach(v, e, o, d, z) == Reach(v, e, m, d', z')
    requires if end.Some? then end.value == z' else z' == z && d' == d
    ensures Removed(v, b, e, rem, o, d, z)
  {
    hide LastEnd, Change, Rebuild, EndAt, Reach;
    var s := Reach(v, e, o, d, z);
    assert v[o..s.at] == v[o..m] + v[m..s.at];
  }

  /** Removing GUID n from where b holds the inserted volume: the walk stops where Reach says, and everything inserted
      before that is removed. */
  lemma {:induction false} RemoveReaches(v: Data, b: Data, e: Edit, rem: Edit, n: Data, o: nat, d: nat, z: nat)
    requires Holds(v, b, e, n, o, d) && rem.command == CMD_REMOVE && rem.guid == n && z <= o
    requires Survives(v, e, o, d) || LargeBodies(v, o)
    ensures Removed(v, b, e, rem, o, d, z)
    decreases |v| - o
  {
    hide NextFile, Head, LastEnd, Change, Packed, Moved, Inserts, Holds, Rebuild, EndAt, Delta, Removed, Steps;
    HoldsBounds(v, b, e, n, o, d);
    var next := NextFile(v, |v|, o, true);
    if next.None? {
      ErasedBehind(v, b, e, n, o, d);
      NoneInErased(b, o + d);
      NothingFound(v, b, e, rem, o, d, z);
    } else {
      var f := next.value;
      HeldFile(v, b, e, n, o, d, f);
      PackedFile(v, e, o, n, f);
      FoundMoved(v, b, e, n, o, d, f);
      var c := NextFile(v[..|v| - d], |v| - d, o, true);
      if LargeBodies(v, o) {
        FoundOrNone(v, e, n, o, |v| - d, f);
      }
      if c.None? {
        NothingFound(v, b, e, rem, o, d, z);
      } else {
        KeptFile(v, b, rem, o, d, f);
        RemoveAfter(v, b, e, rem, n, o, d, z, f);
      }
    }
  }

  /** The removal behind a file that was found. */
  lemma {:induction false} RemoveAfter(v: Data, b: Data, e: Edit, rem: Edit, n: Data, o: nat, d: nat, z: nat,
                                       f: FfsFile)
    requires Holds(v, b, e, n, o, d) && rem.command == CMD_REMOVE && rem.guid == n && z <= o
    requires NextFile(v, |v|, o, true) == Some(f) && d <= |v| && NextFile(v[..|v| - d], |v| - d, o, true) == Some(f)
    requires Survives(v, e, o, d) || LargeBodies(v, o)
    requires Steps(v, b, rem, o, d, End(f), d, if f.size >= 24 then Some(End(f)) else None)
    ensures Removed(v, b, e, rem, o, d, z)
    decreases |v| - o, 0
  {
    hide NextFile, Head, LastEnd, Change, Packed, Moved, Inserts, Holds, Rebuild, EndAt, Delta, Removed, Steps;
    HoldsInserts(v, b, e, n, o, d);
    HoldsBounds(v, b, e, n, o, d);
    InsertsAfter(e, n);
    HeldFile(v, b, e, n, o, d, f);
    PackedFile(v, e, o, n, f);
    var m, end := End(f), if f.size >= 24 then Some(End(f) as int) else None;
    if f.guid != e.guid {
      RemoveReaches(v, b, e, rem, n, m, d, NextEnd(e, f, z));
      StepRemoved(v, b, e, rem, o, d, z, m, d, NextEnd(e, f, z), end);
    } else if m + d + FILE_HEADER_SIZE >= |v| {
      NoRoomForHeader(b, m + d);
      StoppedBehind(v, b, e, rem, o, d, z, f);
    } else {
      var d' := d + |e.file|;
      DroppedFile(v, b, e, rem, n, m, d);
      TwoSteps(v, b, rem, o, d, m, d, end, m, d', Some(m));
      RemoveReaches(v, b, e, rem, n, m, d', m);
      StepRemoved(v, b, e, rem, o, d, z, m, d', m, Some(m));
    }
  }

  lemma StoppedBehind(v: Data, b: Data, e: Edit, rem: Edit, o: nat, d: nat, z: nat, f: FfsFile)
    requires NextFile(b, |b|, End(f) + d, true).None? && z <= o && f.size >= 24
    requires Steps(v, b, rem, o, d, End(f), d, Some(End(f))) && Reach(v, e, o, d, z) == Stop(End(f), d, End(f))
    ensures Removed(v, b, e, rem, o, d, z)
  {
    hide NextFile, Reach;
    HeadNone(b, rem, End(f) + d);
  }

  lemma NoRoomForHeader(b: Data, at: nat)
    requires at % 8 == 0 && at + FILE_HEADER_SIZE >= |b|
    ensures NextFile(b, |b|, at, true).None?
  {
    hide ScanFile;
    Align8(at);
    ScanPastEnd(b, at, at, true);
  }

  lemma HoldsBounds(v: Data, b: Data, e: Edit, n: Data, o: nat, d: nat)
    requires Holds(v, b, e, n, o, d)
    ensures o <= |v| == |b| && o + d <= |b| && d % 8 == 0
    ensures Packed(v, e, o, n)
  {
  }

  lemma HoldsInserts(v: Data, b: Data, e: Edit, n: Data, o: nat, d: nat)
    requires Holds(v, b, e, n, o, d)
    ensures Inserts(e, n)
  {
  }

  lemma ErasedBehind(v: Data, b: Data, e: Edit, n: Data, o: nat, d: nat)
    requires Holds(v, b, e, n, o, d) && NextFile(v, |v|, o, true).None?
    ensures o + d <= |b| && ErasedFrom(b, o + d) && ErasedFrom(v, o)
  {
    hide NextFile, Packed, Inserts, Head;
    HeadNone(v, e, o);
    assert forall i :: o + d <= i < |b| ==> b[i] == b[o + d..][i - o - d];
  }

  // ---------------------------------------------------------------- when a volume is restored

  /** After the insertion and the removal: the volume up to where FvEndOffset ended, erased bytes for what was removed,
      the volume on to where the walk stopped, and the rest as the insertion left it. */
  ghost function AfterBoth(v: Data, b: Data, s: Stop): Data
    requires s.end <= s.at <= |v| && s.at + s.shift <= |b|
  {
    v[..s.end] + Changed(v, b, s)
  }

  ghost function Changed(v: Data, b: Data, s: Stop): Data
    requires s.end <= s.at <= |v| && s.at + s.shift <= |b|
  {
    Repeat(0xFF, s.shift) + v[s.end..s.at] + b[s.at + s.shift..]
  }

  /** Free space after the last file is erased and takes the growth. */
  ghost predicate Roomy(v: Data, e: Edit, h: nat) {
    ErasedFrom(v, LastEnd(v, true, h)) && LastEnd(v, true, h) + Change(v, true, e, h) <= |v|
  }

  /** What is asked of an insertion: a complete 8-aligned file with a new GUID, files of 8-aligned size, and where there
      is a match, erased space that takes the growth. */
  ghost predicate Insertable(v: Data, e: Edit, n: Data, h: nat) {
    Inserts(e, n) && h <= |v| && Packed(v, e, h, n) && (AnyMatch(v, true, e, h) ==> Roomy(v, e, h))
  }

  lemma {:induction false} MatchIsFile(v: Data, e: Edit, o: nat)
    requires AnyMatch(v, true, e, o)
    ensures NextFile(v, |v|, o, true).Some?
  {
    hide NextFile;
  }

  /** The insertion's image: header, rebuilt files, erased rest. */
  lemma InsertedImage(v: Data, e: Edit, n: Data, h: nat)
    requires Insertable(v, e, n, h) && AnyMatch(v, true, e, h)
    ensures Usable(v, true, e, h) && Fits(v, true, e, h)
    ensures var b := EditedImage(v, true, e, h);
            |b| == |v| && b[..h] == v[..h] && Holds(v, b, e, n, h, 0)
  {
    hide NextFile, Head, LastEnd, Change, Packed, Inserts, Rebuild, AnyMatch, SmallFile, EndAt, Repeat;
    InsertedSize(e, n);
    InsertsAfter(e, n);
    InsertGrows(v, e, h);
    MatchIsFile(v, e, h);
    ErasedLastIsBig(v, e, h, n);
    EndAtLast(v, e, h, 0);
    RebuildIsHead(v, e, h);
    var last, growth, head := LastEnd(v, true, h), Change(v, true, e, h), Head(v, e, h);
    ErasedTail(v, last, growth);
    AdjustedAtLast(v, h, head, last, growth);
  }

  lemma ErasedTail(v: Data, last: nat, growth: nat)
    requires ErasedFrom(v, last) && last + growth <= |v|
    ensures v[last + growth..] == Repeat(0xFF, |v| - last - growth)
  {
  }

  /** Trimming the growth off right behind the last file. */
  lemma AdjustedAtLast(v: Data, h: nat, head: Data, last: nat, growth: nat)
    requires h <= last && last + growth <= |v| && |head| == last - h + growth
    ensures var all := v[..h] + (head + v[last..]);
            && |all| == |v| + growth
            && Adjusted(all, growth, last + growth) == v[..h] + (head + v[last + growth..])
            && (growth == 0 ==> all == v[..h] + (head + v[last + growth..]))
    ensures var b := v[..h] + (head + v[last + growth..]);
            |b| == |v| && b[..h] == v[..h] && b[h..] == head + v[last + growth..]
  {
    var all := v[..h] + (head + v[last..]);
    assert all[..last + growth] == v[..h] + head;
    assert all[last + 2 * growth..] == v[last + growth..];
    assert v[..h] + head + v[last + growth..] == v[..h] + (head + v[last + growth..]);
  }

  lemma RemovalIsSmall(rem: Edit)
    requires rem.command == CMD_REMOVE
    ensures SmallFile(rem) && rem.Valid()
  {
  }

  /** The removal's image, from what the walk reaches. */
  lemma RemovedImage(v: Data, b: Data, e: Edit, rem: Edit, h: nat)
    requires Removed(v, b, e, rem, h, 0, h) && h <= |v| == |b| && b[..h] == v[..h] && rem.command == CMD_REMOVE
    ensures Usable(b, true, rem, h) && Fits(b, true, rem, h)
    ensures EditedImage(b, true, rem, h) == AfterBoth(v, b, Reach(v, e, h, 0, h))
  {
    hide NextFile, Reach, LastEnd, Change, Rebuild, EndAt, AnyMatch, SmallFile, AfterBoth, Adjusted, Repeat;
    RemovalIsSmall(rem);
    PutTogether(v, b, h, Reach(v, e, h, 0, h));
  }

  lemma PutTogether(v: Data, b: Data, h: nat, s: Stop)
    requires h <= s.end <= s.at <= |v| && s.at + s.shift <= |b|
    ensures var all := v[..h] + (v[h..s.at] + b[s.at + s.shift..]);
            && s.end <= |all| && Adjusted(all, 0 - s.shift as int, s.end) == AfterBoth(v, b, s)
            && (s.shift == 0 ==> all == AfterBoth(v, b, s))
  {
    var all, rest := v[..h] + (v[h..s.at] + b[s.at + s.shift..]), b[s.at + s.shift..];
    assert all == v[..s.at] + rest;
    assert all[..s.end] == v[..s.end] && all[s.end..] == v[s.end..s.at] + rest;
    assert v[..s.end] + Repeat(0xFF, s.shift) + (v[s.end..s.at] + rest) == AfterBoth(v, b, s);
    assert all[..s.end] + all[s.end..] == all;
    assert Repeat(0xFF, 0) == [];
  }

  /** Every file survives: the removal reaches the end, and erased bytes take the place of the inserted ones. */
  lemma SurvivorsRestored(v: Data, b: Data, e: Edit, n: Data, h: nat)
    requires Holds(v, b, e, n, h, 0) && Survives(v, e, h, 0)
    ensures var s := Reach(v, e, h, 0, h);
            s.end <= s.at <= |v| && s.at + s.shift <= |b| && AfterBoth(v, b, s) == v
  {
    hide NextFile, Head, LastEnd, Change, Packed, Inserts, Survives, Reach;
    ErasedLastIsBig(v, e, h, n);
    SurvivorsReached(v, e, n, h, 0, h);
    InsertedSize(e, n);
    RebuildIsHead(v, e, h);
    var s, head := Reach(v, e, h, 0, h), Head(v, e, h);
    var free := Repeat(0xFF, Free(v, e, h, 0));
    assert (head + free)[|head|..] == free;
    assert b[h..][|head|..] == b[h + |head|..];
    assert b[s.at + s.shift..] == free;
    assert v[s.at..] == Repeat(0xFF, s.shift) + [] + free;
  }

  /** The walk stops before a file: erased bytes would stand in front of it. */
  lemma StoppedBefore(v: Data, b: Data, e: Edit, n: Data, o: nat, d: nat, z: nat, f: FfsFile)
    requires Holds(v, b, e, n, o, d) && NextFile(v, |v|, o, true) == Some(f) && d > 0 && z <= o
    ensures o <= |v| && o + d <= |b| && v[z..] != Changed(v, b, Stop(o, d, z))
  {
    hide NextFile, Head, LastEnd, Change, Packed, Inserts, Holds, Accepted, Changed;
    HoldsBounds(v, b, e, n, o, d);
    HeldSeen(v, b, e, n, o, d, f);
    PackedFile(v, e, o, n, f);
    ErasedNotAccepted();
    if v[z..] == Changed(v, b, Stop(o, d, z)) {
      Shifted(v, b, o, d, z, Min(Seen(f), |v| - d));
      PeriodicErased(v, z, d, f.offset + 24, f.offset + 23);
    }
  }

  lemma Shifted(v: Data, b: Data, o: nat, d: nat, z: nat, x: nat)
    requires z <= o <= x && x + d <= |v| == |b| && b[o + d..x + d] == v[o..x]
    requires v[z..] == Changed(v, b, Stop(o, d, z))
    ensures forall i :: z <= i < z + d && i < |v| ==> v[i] == 0xFF
    ensures forall i :: z <= i < x ==> v[i + d] == v[i]
  {
    var c := Changed(v, b, Stop(o, d, z));
    forall i | z <= i < z + d && i < |v|
      ensures v[i] == 0xFF
    {
      assert v[i] == c[i - z];
    }
    forall i | z <= i < x
      ensures v[i + d] == v[i]
    {
      assert v[i + d] == c[i + d - z];
      if i >= o {
        assert c[i + d - z] == b[o + d..][i - o] == b[i + d];
        assert b[i + d] == b[o + d..x + d][i - o] == v[o..x][i - o];
      }
    }
  }

  /** The walk stops before the last inserted file, which is only a header: it stays. */
  lemma StoppedAtHeader(v: Data, b: Data, e: Edit, n: Data, o: nat, d: nat, f: FfsFile)
    requires Holds(v, b, e, n, o, d) && NextFile(v, |v|, o, true) == Some(f)
    requires f.guid == e.guid && End(f) + d + FILE_HEADER_SIZE >= |v|
    ensures End(f) + d <= |b| && End(f) <= |v| && v[End(f)..] != Changed(v, b, Stop(End(f), d, End(f)))
  {
    hide NextFile, Head, LastEnd, Change, Packed, Accepted, Inserts;
    HeldFile(v, b, e, n, o, d, f);
    InsertsAfter(e, n);
    InsertGrows(v, e, End(f));
    AcceptedState(e, n);
    ErasedNotAccepted();
    var at := End(f) + d;
    assert b[at + 23] == b[at..at + |e.file|][23];
    assert Changed(v, b, Stop(End(f), d, End(f)))[d + 23] == e.file[23];
    assert v[End(f)..][d + 23] == v[at + 23];
  }

  lemma AcceptedState(e: Edit, n: Data)
    requires Inserts(e, n)
    ensures Accepted(e.file[23], true)
  {
  }

  lemma WholeCut(v: Data)
    ensures v[..|v|] == v
  {
  }

  /** A file that does not survive leaves the volume changed. */
  lemma {:induction false} LostDiffers(v: Data, b: Data, e: Edit, n: Data, o: nat, d: nat, z: nat)
    requires Holds(v, b, e, n, o, d) && !Survives(v, e, o, d) && z <= o
    ensures var s := Reach(v, e, o, d, z);
            s.end <= s.at <= |v| && s.at + s.shift <= |b| && v[s.end..] != Changed(v, b, s)
    decreases |v| - o
  {
    hide NextFile, Head, LastEnd, Change, Packed, Inserts, Holds, Changed;
    HoldsBounds(v, b, e, n, o, d);
    NextFileBounds(v, |v|, o, true);
    WholeCut(v);
    var f := NextFile(v, |v|, o, true).value;
    HeldFile(v, b, e, n, o, d, f);
    if NextFile(v[..|v| - d], |v| - d, o, true) != Some(f) {
      StoppedBefore(v, b, e, n, o, d, z, f);
    } else if f.guid == e.guid && End(f) + d + FILE_HEADER_SIZE >= |v| {
      StoppedAtHeader(v, b, e, n, o, d, f);
    } else {
      LostDiffers(v, b, e, n, End(f), d + |Inserted(e, f)|, NextEnd(e, f, z));
    }
  }

  lemma {:induction false} AbsentUnmatched(v: Data, e: Edit, rem: Edit, o: nat, n: Data)
    requires Packed(v, e, o, n) && rem.guid == n
    ensures !AnyMatch(v, true, rem, o)
    decreases |v| - o
  {
    hide NextFile;
    var next := NextFile(v, |v|, o, true);
    if next.Some? {
      NextFileBounds(v, |v|, o, true);
      AbsentUnmatched(v, e, rem, next.value.offset + next.value.size, n);
    }
  }

  /** Without a match nothing is inserted, so every file survives. */
  lemma {:induction false} UnmatchedSurvives(v: Data, e: Edit, o: nat)
    requires !AnyMatch(v, true, e, o)
    ensures Survives(v, e, o, 0)
    decreases |v| - o
  {
    hide NextFile;
    WholeCut(v);
    var next := NextFile(v, |v|, o, true);
    if next.Some? {
      NextFileBounds(v, |v|, o, true);
      UnmatchedSurvives(v, e, End(next.value));
    }
  }

  /** Without a match both edits leave the volume alone. */
  lemma UnmatchedRestored(v: Data, e: Edit, rem: Edit, n: Data, h: nat)
    requires Insertable(v, e, n, h) && !AnyMatch(v, true, e, h) && rem.command == CMD_REMOVE && rem.guid == n
    ensures Usable(v, true, e, h) && Fits(v, true, e, h) && EditedImage(v, true, e, h) == v
    ensures Usable(v, true, rem, h) && Fits(v, true, rem, h) && EditedImage(v, true, rem, h) == v
    ensures !AnyMatch(v, true, rem, h)
  {
    hide Packed, Inserts, EditedImage, Usable, Fits, AnyMatch, SmallFile, Edit.Valid;
    InsertedSize(e, n);
    UnmatchedImage(v, true, e, h);
    AbsentUnmatched(v, e, rem, h, n);
    RemovalIsSmall(rem);
    UnmatchedImage(v, true, rem, h);
  }

  /** What the two edits of a volume with a match come to. */
  lemma BothEdits(v: Data, e: Edit, rem: Edit, n: Data, h: nat)
    requires Insertable(v, e, n, h) && AnyMatch(v, true, e, h) && rem.command == CMD_REMOVE && rem.guid == n
    requires Survives(v, e, h, 0) || LargeBodies(v, h)
    ensures Usable(v, true, e, h) && Fits(v, true, e, h)
    ensures var b, s := EditedImage(v, true, e, h), Reach(v, e, h, 0, h);
            && |b| == |v| && b[..h] == v[..h] && Holds(v, b, e, n, h, 0)
            && Usable(b, true, rem, h) && Fits(b, true, rem, h) && LastEnd(b, true, h) == s.at + s.shift
            && s.end <= s.at <= |v| && s.at + s.shift <= |b| && EditedImage(b, true, rem, h) == AfterBoth(v, b, s)
            && Change(b, true, rem, h) <= 0
  {
    hide NextFile, Head, LastEnd, Change, Packed, Inserts, EditedImage, Usable, Fits, Roomy, Survives, Reach, Holds;
    hide LargeBodies, AnyMatch, EndAt, Rebuild;
    InsertedImage(v, e, n, h);
    var b := EditedImage(v, true, e, h);
    RemoveReaches(v, b, e, rem, n, h, 0, h);
    RemovedImage(v, b, e, rem, h);
  }

  /** One volume: removing the inserted GUID undoes the insertion if every file survives. */
  lemma VolumeRestored(v: Data, e: Edit, rem: Edit, n: Data, h: nat)
    requires Insertable(v, e, n, h) && Survives(v, e, h, 0) && rem.command == CMD_REMOVE && rem.guid == n
    ensures Usable(v, true, e, h) && Fits(v, true, e, h)
    ensures var b := EditedImage(v, true, e, h);
            && |b| == |v| && b[..h] == v[..h]
            && Usable(b, true, rem, h) && Fits(b, true, rem, h) && EditedImage(b, true, rem, h) == v
  {
    hide EditedImage, Usable, Fits, Survives, Reach, Holds, Insertable, AnyMatch, AfterBoth;
    if AnyMatch(v, true, e, h) {
      BothEdits(v, e, rem, n, h);
      SurvivorsRestored(v, EditedImage(v, true, e, h), e, n, h);
    } else {
      UnmatchedRestored(v, e, rem, n, h);
    }
  }

  /** And only then: the volume is restored exactly when every file survives the shift by what is inserted before it. */
  lemma RestoredExactly(v: Data, e: Edit, rem: Edit, n: Data, h: nat)
    requires Insertable(v, e, n, h) && rem.command == CMD_REMOVE && rem.guid == n
    requires Survives(v, e, h, 0) || LargeBodies(v, h)
    ensures Usable(v, true, e, h) && Fits(v, true, e, h)
    ensures var b := EditedImage(v, true, e, h);
            && Usable(b, true, rem, h) && Fits(b, true, rem, h)
            && (EditedImage(b, true, rem, h) == v <==> Survives(v, e, h, 0))
  {
    hide EditedImage, Usable, Fits, Survives, Reach, Holds, Insertable, AnyMatch, LargeBodies, Repeat;
    if Survives(v, e, h, 0) {
      VolumeRestored(v, e, rem, n, h);
    } else if AnyMatch(v, true, e, h) {
      BothEdits(v, e, rem, n, h);
      var b, s := EditedImage(v, true, e, h), Reach(v, e, h, 0, h);
      LostDiffers(v, b, e, n, h, 0, h);
      assert AfterBoth(v, b, s)[s.end..] == Changed(v, b, s);
    } else {
      UnmatchedSurvives(v, e, h);
    }
  }

  // ---------------------------------------------------------------- what neither edit touches

  /** Where the first matching file ends: no byte before it is changed by the insertion or the removal. */
  ghost function FirstMatchEnd(v: Data, e: Edit, o: nat): nat
    decreases |v| - o
  {
    match NextFile(v, |v|, o, true)
    case None => |v|
    case Some(f) =>
      NextFileBounds(v, |v|, o, true);
      if f.guid == e.guid then End(f) else FirstMatchEnd(v, e, End(f))
  }

  /** Up to the end of the first match the insertion leaves everything in place. */
  lemma {:induction false} HeldFront(v: Data, b: Data, e: Edit, n: Data, o: nat)
    requires Holds(v, b, e, n, o, 0) && AnyMatch(v, true, e, o)
    ensures var m := FirstMatchEnd(v, e, o); o <= m <= |v| == |b| && b[o..m] == v[o..m]
    decreases |v| - o
  {
    hide NextFile, Head, LastEnd, Change, Packed, Inserts, Holds;
    HoldsBounds(v, b, e, n, o, 0);
    NextFileBounds(v, |v|, o, true);
    var f := NextFile(v, |v|, o, true).value;
    HeldFile(v, b, e, n, o, 0, f);
    if f.guid != e.guid {
      HeldFront(v, b, e, n, End(f));
      var m := FirstMatchEnd(v, e, End(f));
      assert v[o..m] == v[o..End(f)] + v[End(f)..m] && b[o..m] == b[o..End(f)] + b[End(f)..m];
    }
  }

  lemma {:induction false} ReachGrows(v: Data, e: Edit, o: nat, d: nat, z: nat)
    requires z <= o
    ensures Reach(v, e, o, d, z).end >= z
    decreases |v| - o
  {
    hide NextFile;
    var next := NextFile(v, |v|, o, true);
    if next.Some? {
      NextFileBounds(v, |v|, o, true);
      ReachGrows(v, e, End(next.value), d + |Inserted(e, next.value)|, NextEnd(e, next.value, z));
    }
  }

  /** If the removal removes anything, it pads no earlier than the first match ends. */
  lemma {:induction false} PadsBehind(v: Data, e: Edit, o: nat, z: nat)
    requires z <= o && AnyMatch(v, true, e, o)
    ensures var s := Reach(v, e, o, 0, z); s.shift > 0 ==> s.end >= FirstMatchEnd(v, e, o)
    decreases |v| - o
  {
    hide NextFile;
    WholeCut(v);
    NextFileBounds(v, |v|, o, true);
    var f := NextFile(v, |v|, o, true).value;
    if f.guid != e.guid {
      PadsBehind(v, e, End(f), NextEnd(e, f, z));
    } else {
      ReachGrows(v, e, End(f), |e.file|, End(f));
    }
  }

  ghost predicate SameByte(a: Data, b: Data, i: nat) {
    i < |a| && i < |b| && a[i] == b[i]
  }

  /** Neither edit changes a byte before the end of the first match; none at all without a match. */
  lemma FrontKept(v: Data, e: Edit, rem: Edit, n: Data, h: nat, i: nat)
    requires Insertable(v, e, n, h) && rem.command == CMD_REMOVE && rem.guid == n
    requires Survives(v, e, h, 0) || LargeBodies(v, h)
    requires i < |v| && (AnyMatch(v, true, e, h) ==> i < FirstMatchEnd(v, e, h))
    ensures Usable(v, true, e, h) && Fits(v, true, e, h)
    ensures var b := EditedImage(v, true, e, h);
            && SameByte(b, v, i) && Usable(b, true, rem, h) && Fits(b, true, rem, h)
            && SameByte(EditedImage(b, true, rem, h), v, i)
  {
    hide EditedImage, Usable, Fits, Survives, Reach, Holds, Insertable, AnyMatch, LargeBodies, Repeat, FirstMatchEnd;
    if AnyMatch(v, true, e, h) {
      BothEdits(v, e, rem, n, h);
      var b, s := EditedImage(v, true, e, h), Reach(v, e, h, 0, h);
      EditedImageShape(b, true, rem, h);
      HeldFront(v, b, e, n, h);
      PadsBehind(v, e, h, h);
      FrontByte(v, b, h, FirstMatchEnd(v, e, h), i);
      FrontOfBoth(v, b, s, i);
    } else {
      UnmatchedRestored(v, e, rem, n, h);
    }
  }

  lemma FrontByte(v: Data, b: Data, h: nat, m: nat, i: nat)
    requires h <= m <= |v| == |b| && b[..h] == v[..h] && b[h..m] == v[h..m] && i < m
    ensures b[i] == v[i]
  {
    if i < h {
      assert b[..h][i] == v[..h][i];
    } else {
      assert b[h..m][i - h] == v[h..m][i - h];
    }
  }

  lemma FrontOfBoth(v: Data, b: Data, s: Stop, i: nat)
    requires s.end <= s.at <= |v| == |b| && s.at + s.shift <= |b| && i < |v| && b[i] == v[i]
    requires s.shift > 0 ==> i < s.end
    requires |AfterBoth(v, b, s)| == |v|
    ensures AfterBoth(v, b, s)[i] == v[i]
  {
  }

  /** The removal's walk ends no later than the insertion's. */
  lemma {:induction false} ReachBound(v: Data, e: Edit, n: Data, o: nat, d: nat, z: nat)
    requires Inserts(e, n)
    ensures var s := Reach(v, e, o, d, z); s.at + s.shift <= LastEnd(v, true, o) + d + Change(v, true, e, o)
    decreases |v| - o
  {
    hide NextFile, Inserts, PaddedSize;
    InsertsAfter(e, n);
    InsertedSize(e, n);
    InsertGrows(v, e, o);
    var next := NextFile(v, |v|, o, true);
    if next.Some? {
      var f := next.value;
      NextFileBounds(v, |v|, o, true);
      InsertGrows(v, e, End(f));
      ReachBound(v, e, n, End(f), d + |Inserted(e, f)|, NextEnd(e, f, z));
    }
  }

  /** The bytes the removal can change end no later than those the insertion can. */
  lemma RemovalTouchesLess(v: Data, e: Edit, rem: Edit, n: Data, h: nat)
    requires Insertable(v, e, n, h) && AnyMatch(v, true, e, h) && rem.command == CMD_REMOVE && rem.guid == n
    requires Survives(v, e, h, 0) || LargeBodies(v, h)
    ensures Usable(v, true, e, h) && Fits(v, true, e, h)
    ensures Touched(EditedImage(v, true, e, h), true, rem, h) <= Touched(v, true, e, h)
  {
    hide EditedImage, Usable, Fits, Survives, Reach, Holds, AnyMatch, LargeBodies, EndAt, LastEnd, Change, Packed;
    hide Inserts, AfterBoth;
    BothEdits(v, e, rem, n, h);
    ReachBound(v, e, n, h, 0, h);
    InsertsAfter(e, n);
    InsertGrows(v, e, h);
    MatchIsFile(v, e, h);
    ErasedLastIsBig(v, e, h, n);
    EndAtLast(v, e, h, 0);
  }
}
