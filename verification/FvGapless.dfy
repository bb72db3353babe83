/** Volumes whose files follow one another without gaps: there an insertion can always be undone. */
module FvGapless {
  import opened Bits
  import opened Bytes
  import opened FvWalk
  import opened Options
  import opened FvEdit
  import opened FvRestore
  import opened FvRun
  import opened FvLocal
  import opened FvRoundTrip

  /** Every file starts at the first 8-aligned offset after the one before. */
  ghost predicate Gapless(v: Data, o: nat)
    decreases |v| - o
  {
    match NextFile(v, |v|, o, true)
    case None => true
    case Some(f) =>
      NextFileBounds(v, |v|, o, true);
      f.offset == Align(o, 8) && Gapless(v, f.offset + f.size)
  }

  /** After the insertions, at least one byte follows every header, of the volume's files and of the inserted ones; the
      first file is moved by d. */
  ghost predicate HeadersInside(v: Data, e: Edit, o: nat, d: nat)
    decreases |v| - o
  {
    match NextFile(v, |v|, o, true)
    case None => true
    case Some(f) =>
      NextFileBounds(v, |v|, o, true);
      && f.offset + f.headerSize + d < |v| && (f.guid == e.guid ==> End(f) + d + FILE_HEADER_SIZE < |v|)
      && HeadersInside(v, e, End(f), d + |Inserted(e, f)|)
  }

  /** A file at the start of the search is also found in a shorter volume that still holds it. */
  lemma FoundInCut(v: Data, k: nat, o: nat, f: FfsFile)
    requires NextFile(v, |v|, o, true) == Some(f) && f.offset == Align(o, 8)
    requires End(f) <= k <= |v| && f.offset + f.headerSize < k
    ensures NextFile(v[..k], k, o, true) == Some(f)
  {
    hide Accepted, BlankHeader, FileFrom, IsLarge, FileSize, ScanFile, Align, FileIn;
    var cut, cur := v[..k], Align(o, 8);
    NextFileSound(v, |v|, o, true);
    FileHeaderSizes(v, |v|, f, true);
    Align8(o);
    ScanSound(v, |v|, cur, cur + 8, true);
    ScanStep(v, cur, cur, true);
    ScanStep(cut, cur, cur, true);
    var s := FileSize(v, |v|, cur, cur);
    FromOffset(v[cur..cur + 24], v[cur..cur + s], cur, s, true);
    SizeInCut(v, k, cur, cur, s);
    assert cut[cur..cur + 24] == v[cur..cur + 24];
    assert cut[cur..cur + s] == v[cur..cur + s];
  }

  /** In a gapless volume every file survives the insertions, down to the last byte of free space. */
  lemma {:induction false} GaplessSurvives(v: Data, e: Edit, n: Data, o: nat, d: nat)
    requires Inserts(e, n) && Gapless(v, o) && Packed(v, e, o, n) && HeadersInside(v, e, o, d)
    requires LastEnd(v, true, o) + Change(v, true, e, o) + d <= |v|
    ensures Survives(v, e, o, d)
    decreases |v| - o
  {
    hide NextFile, Align, Inserts, PaddedSize;
    var next := NextFile(v, |v|, o, true);
    if next.Some? {
      var f := next.value;
      NextFileBounds(v, |v|, o, true);
      PackedFile(v, e, o, n, f);
      InsertDelta(e, n, f);
      InsertsAfter(e, n);
      InsertGrows(v, e, o);
      FoundInCut(v, |v| - d, o, f);
      GaplessSurvives(v, e, n, End(f), d + |Inserted(e, f)|);
    }
  }

  /** A gapless volume of 8-aligned files without GUID n, with erased free space for the growth where there is a match.
      */
  ghost predicate HasRoom(v: Data, e: Edit, n: Data, h: nat) {
    h <= |v| && Gapless(v, h) && Packed(v, e, h, n)
      && (AnyMatch(v, true, e, h) ==> Roomy(v, e, h) && HeadersInside(v, e, h, 0))
  }

  lemma GaplessRestorable(v: Data, e: Edit, n: Data, h: nat)
    requires Inserts(e, n) && HasRoom(v, e, n, h)
    ensures Insertable(v, e, n, h) && Survives(v, e, h, 0)
  {
    hide Packed, LastEnd, Change, Gapless, AnyMatch, HeadersInside, Survives, Inserts;
    if AnyMatch(v, true, e, h) {
      GaplessSurvives(v, e, n, h, 0);
    } else {
      UnmatchedSurvives(v, e, h);
    }
  }

  /** All volumes that hold files are such volumes, with the erase polarity set, no match inside the header, and no
      header behind them that begins inside the grown files. */
  ghost predicate GaplessImage(data: Data, e: Edit, n: Data, fof: nat, limit: nat)
    decreases limit
  {
    match NextVolume(data, fof)
    case None => true
    case Some(v) =>
      && limit > 0
      && (IsFfs(v) ==>
            && Polarity(v) && HeaderInFront(v, e)
            && HasRoom(v.image, e, n, v.headerSize) && Undisturbed(data, v, e))
      && GaplessImage(data, e, n, SearchStart(v.offset, v.size), limit - 1)
  }

  lemma {:induction false} GaplessEditable(data: Data, e: Edit, n: Data, fof: nat, limit: nat)
    requires Inserts(e, n) && GaplessImage(data, e, n, fof, limit)
    ensures AllEditable(data, e, n, fof, limit) && AllSurvive(data, e, fof, limit)
    decreases limit
  {
    hide NextVolume, IsFfs, SearchStart, HasRoom, Inserts, Insertable, Survives, Polarity, Undisturbed, HeaderInFront;
    hide LargeBodies;
    var next := NextVolume(data, fof);
    if next.Some? {
      var v := next.value;
      if IsFfs(v) {
        GaplessRestorable(v.image, e, n, v.headerSize);
      }
      GaplessEditable(data, e, n, SearchStart(v.offset, v.size), limit - 1);
    }
  }

  /** Inserting a file after every match and removing it by its own GUID restores every gapless image byte for byte. */
  lemma GaplessRoundTrip(data: Data, e: Edit, rem: Edit, n: Data, limit: nat)
    requires Inserts(e, n) && GaplessImage(data, e, n, 0, limit) && rem.command == CMD_REMOVE && rem.guid == n
    ensures var r := Run(data, e, 0, 0, limit);
            r.Done? && Run(r.data, rem, 0, 0, limit) == Done(data)
  {
    hide Run, GaplessImage, AllEditable, AllSurvive, Inserts;
    GaplessEditable(data, e, n, 0, limit);
    InsertThenRemove(data, e, rem, n, 0, limit, 0, 0);
  }
}
