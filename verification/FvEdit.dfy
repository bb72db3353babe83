/** Editing firmware volumes in place: modify_uefi_region. */
module FvEdit {
  import opened Bits
  import opened Bytes
  import opened FvWalk
  import opened Options

  const CMD_REMOVE := 0
  const CMD_INSERT_BEFORE := 1
  const CMD_INSERT_AFTER := 2
  const CMD_REPLACE := 3

  // 7A9354D9-0468-444A-81CE-0BF617D890DF and 8C8CE578-8A3D-4F1C-9935-896185C32DD3 as stored
  const FFS1_GUID: Data := [0xD9, 0x54, 0x93, 0x7A, 0x68, 0x04, 0x4A, 0x44, 0x81, 0xCE, 0x0B, 0xF6, 0x17, 0xD8, 0x90,
    0xDF]
  const FFS2_GUID: Data := [0x78, 0xE5, 0x8C, 0x8C, 0x3D, 0x8A, 0x1C, 0x4F, 0x99, 0x35, 0x89, 0x61, 0x85, 0xC3, 0x2D,
    0xD3]

  /** What to do to every file with the given GUID. */
  datatype Edit = Edit(command: int, guid: Data, file: Data) {
    predicate Valid() {
      0 <= command <= 3
    }
  }

  /** (len(uefi_file) + 7) & 0xFFFFFFF8 */
  function PaddedSize(file: Data): nat {
    And(|file| + 7, 0xFFFF_FFF8)
  }

  function Padded(file: Data): Data {
    Ljust(file, PaddedSize(file), 0xFF)
  }

  /** The padded file has the size the editor counts with exactly when the 32-bit mask drops nothing. */
  lemma PaddingExact(file: Data)
    ensures |Padded(file)| == PaddedSize(file) <==> |file| + 7 < 0x1_0000_0000
    ensures |file| + 7 < 0x1_0000_0000 ==> PaddedSize(file) % 8 == 0 && |file| <= PaddedSize(file) < |file| + 8
  {
    hide And;
    Pow2Values();
    var n := |file| + 7;
    AndMaskAs(n, 3, 29, 0xFFFF_FFF8, 8, 0x1_0000_0000);
    RoundDown(n, 8, 0x2000_0000);
  }

  predicate Polarity(v: Volume) {
    BitSet(v.attributes, EFI_FVB2_ERASE_POLARITY, false)
  }

  /** What the running length change grows by at a matching file. */
  function Delta(e: Edit, f: FfsFile): int {
    if e.command == CMD_REMOVE then 0 - f.size as int
    else if e.command == CMD_REPLACE then PaddedSize(e.file) - f.size
    else PaddedSize(e.file)
  }

  /** The splice at a matching file that now occupies data[cur..nxt]. */
  function SpliceAt(data: Data, cur: nat, nxt: nat, e: Edit): Data {
    if e.command == CMD_REMOVE then Slice(data, 0, cur) + Slice(data, nxt, |data|)
    else if e.command == CMD_INSERT_BEFORE then Slice(data, 0, cur) + Padded(e.file) + Slice(data, cur, |data|)
    else if e.command == CMD_INSERT_AFTER then Slice(data, 0, nxt) + Padded(e.file) + Slice(data, nxt, |data|)
    else Slice(data, 0, cur) + Padded(e.file) + Slice(data, nxt, |data|)
  }

  /** After the file loop: the image, the accumulated length change and FvEndOffset; or the
      exception an unknown command raises at the first matching file. */
  datatype Spliced = Spliced(data: Data, change: int, end: nat) | InvalidCommand

  /** The state the file loop reaches from file offset o of the volume image at base. */
  ghost function SpliceFrom(data: Data, base: nat, img: Data, pol: bool, e: Edit, o: nat, change: int,
                            end: nat): Spliced
    requires o + change >= 0
    decreases |img| - o
  {
    match NextFile(img, |img|, o, pol)
    case None => Spliced(data, change, end)
    case Some(f) =>
      NextFileBounds(img, |img|, o, pol);
      var next := f.offset + f.size;
      if f.guid == e.guid && !e.Valid() then InvalidCommand
      else
        var hit := f.guid == e.guid;
        var data' := if hit then SpliceAt(data, base + f.offset + change, base + next + change, e) else data;
        var change' := if hit then change + Delta(e, f) else change;
        SpliceFrom(data', base, img, pol, e, next, change', if f.size >= 24 then base + next + change' else end)
  }

  /** The final pad or trim at FvEndOffset. */
  function Finish(data: Data, change: int, end: nat): Data {
    if change >= 0 then Slice(data, 0, end) + Slice(data, end + change, |data|)
    else Slice(data, 0, end) + Repeat(0xFF, -change) + Slice(data, end, |data|)
  }

  /** The inner loop of modify_uefi_region, for one volume. */
  method SpliceFiles(input: Data, v: Volume, e: Edit, endIn: nat) returns (r: Spliced)
    requires v.size == |v.image|
    ensures r == SpliceFrom(input, v.offset, v.image, Polarity(v), e, v.headerSize, 0, endIn)
  {
    hide NextFile, Polarity, SpliceAt, Edit.Valid, FirstFile;
    var polarity := Polarity(v);
    var data, change := input, 0;
    var end: nat := endIn;
    ghost var o := v.headerSize;
    var fwbin := NextFwFile(v.image, v.size, v.headerSize, polarity);
    while fwbin.Some?
      invariant o + change >= 0
      invariant fwbin == NextFile(v.image, |v.image|, o, polarity)
      invariant SpliceFrom(data, v.offset, v.image, polarity, e, o, change, end)
             == SpliceFrom(input, v.offset, v.image, polarity, e, v.headerSize, 0, endIn)
      decreases |v.image| - o
    {
      var f := fwbin.value;
      NextFileBounds(v.image, |v.image|, o, polarity);
      var nextOffset := f.size + f.offset;
      if f.guid == e.guid {
        if !e.Valid() {
          return InvalidCommand;
        }
        data := SpliceAt(data, v.offset + f.offset + change, v.offset + nextOffset + change, e);
        change := change + Delta(e, f);
      }
      if f.size >= 24 {
        end := v.offset + nextOffset + change;
      }
      fwbin := NextFwFile(v.image, v.size, nextOffset, polarity);
      o := nextOffset;
    }
    r := Spliced(data, change, end);
  }

  // ---------------------------------------------------------------- the one-pass rebuild

  /** What one file becomes. */
  ghost function Mapped(img: Data, e: Edit, f: FfsFile): Data
    requires f.offset + f.size <= |img|
  {
    var own := img[f.offset..f.offset + f.size];
    if f.guid != e.guid then own
    else if e.command == CMD_REMOVE then []
    else if e.command == CMD_INSERT_BEFORE then Padded(e.file) + own
    else if e.command == CMD_INSERT_AFTER then own + Padded(e.file)
    else Padded(e.file)
  }

  /** The bytes 0xFF that bring a length to the next multiple of 8. */
  ghost function Fill(n: nat): Data {
    seq((8 - n % 8) % 8, _ => 0xFF)
  }

  lemma FillMeaning(n: nat)
    ensures |Fill(n)| < 8 && (n + |Fill(n)|) % 8 == 0 && forall i :: 0 <= i < |Fill(n)| ==> Fill(n)[i] == 0xFF
  {
  }

  /** What each command makes of a file, below 4 GB: 0 removes it, 1 and 2 put the new file before and behind it, 3
      puts it in its place; the new file is followed by bytes 0xFF up to the next multiple of 8. */
  lemma MappedMeaning(img: Data, e: Edit, f: FfsFile)
    requires f.offset + f.size <= |img| && |e.file| + 7 < 0x1_0000_0000
    ensures var own, added := img[f.offset..f.offset + f.size], e.file + Fill(|e.file|);
            && (f.guid != e.guid ==> Mapped(img, e, f) == own)
            && (f.guid == e.guid && e.command == 0 ==> Mapped(img, e, f) == [])
            && (f.guid == e.guid && e.command == 1 ==> Mapped(img, e, f) == added + own)
            && (f.guid == e.guid && e.command == 2 ==> Mapped(img, e, f) == own + added)
            && (f.guid == e.guid && e.command == 3 ==> Mapped(img, e, f) == added)
    ensures e.Valid() <==> e.command in {0, 1, 2, 3}
  {
    hide PaddedSize;
    PaddingExact(e.file);
    FillMeaning(|e.file|);
    assert PaddedSize(e.file) == |e.file| + |Fill(|e.file|)|;
    assert Padded(e.file) == e.file + Fill(|e.file|);
  }

  /** The erase polarity is bit 11 of the volume's attributes. */
  lemma PolarityMeaning(v: Volume)
    ensures Polarity(v) <==> v.attributes / 0x800 % 2 == 1
  {
    hide And;
    Pow2Values();
    assert Pow2(11) == 0x800 by { TwoTo11(); }
    AndMaskAs(v.attributes, 11, 1, 0x800, 0x800, 0x1000);
    OneBit(v.attributes, 0x800);
  }

  lemma TwoTo11()
    ensures Pow2(11) == 0x800
  {
    assert Pow2(9) == 0x200;
  }

  /** The volume from offset o on, rebuilt in one pass: gaps kept, files mapped. */
  ghost function Rebuild(img: Data, pol: bool, e: Edit, o: nat): Data
    requires o <= |img|
    decreases |img| - o
  {
    match NextFile(img, |img|, o, pol)
    case None => img[o..]
    case Some(f) =>
      NextFileBounds(img, |img|, o, pol);
      img[o..f.offset] + Mapped(img, e, f) + Rebuild(img, pol, e, f.offset + f.size)
  }

  /** The total length change from offset o on. */
  ghost function Change(img: Data, pol: bool, e: Edit, o: nat): int
    decreases |img| - o
  {
    match NextFile(img, |img|, o, pol)
    case None => 0
    case Some(f) =>
      NextFileBounds(img, |img|, o, pol);
      (if f.guid == e.guid then Delta(e, f) else 0) + Change(img, pol, e, f.offset + f.size)
  }

  /** Where the last file from offset o on ends; o itself when there is none. */
  ghost function LastEnd(img: Data, pol: bool, o: nat): (end: nat)
    ensures o <= end && (o <= |img| ==> end <= |img|)
    decreases |img| - o
  {
    match NextFile(img, |img|, o, pol)
    case None => o
    case Some(f) =>
      NextFileBounds(img, |img|, o, pol);
      LastEnd(img, pol, f.offset + f.size)
  }

  /** Some file from offset o on is at least as long as a file header. */
  ghost predicate AnyBig(img: Data, pol: bool, o: nat)
    decreases |img| - o
  {
    match NextFile(img, |img|, o, pol)
    case None => false
    case Some(f) =>
      NextFileBounds(img, |img|, o, pol);
      f.size >= 24 || AnyBig(img, pol, f.offset + f.size)
  }

  /** FvEndOffset, relative to the volume, after the loop from offset o on when the length has changed by change: behind
      the last file of at least 24 bytes. */
  ghost function EndAt(img: Data, pol: bool, e: Edit, o: nat, change: int): Option<int>
    decreases |img| - o
  {
    match NextFile(img, |img|, o, pol)
    case None => None
    case Some(f) =>
      NextFileBounds(img, |img|, o, pol);
      var n, change' := f.offset + f.size, NextChange(e, f, change);
      var rest := EndAt(img, pol, e, n, change');
      if rest.Some? then rest else if f.size >= 24 then Some(n + change') else None
  }

  ghost predicate AnyMatch(img: Data, pol: bool, e: Edit, o: nat)
    decreases |img| - o
  {
    match NextFile(img, |img|, o, pol)
    case None => false
    case Some(f) =>
      NextFileBounds(img, |img|, o, pol);
      f.guid == e.guid || AnyMatch(img, pol, e, f.offset + f.size)
  }

  /** The file's length fits the 32-bit mask it is padded with; a removal uses no file. */
  ghost predicate SmallFile(e: Edit) {
    e.command == CMD_REMOVE || |e.file| + 7 < 0x1_0000_0000
  }

  lemma MappedLength(img: Data, e: Edit, f: FfsFile)
    requires f.offset + f.size <= |img| && SmallFile(e)
    ensures f.guid == e.guid && e.Valid() ==> |Mapped(img, e, f)| == f.size + Delta(e, f)
    ensures f.guid != e.guid ==> |Mapped(img, e, f)| == f.size
  {
    hide PaddedSize;
    PaddingExact(e.file);
  }

  lemma Cut(a: Data, own: Data, b: Data)
    ensures var data := a + own + b;
            && Slice(data, 0, |a|) == a
            && Slice(data, 0, |a| + |own|) == a + own
            && Slice(data, |a|, |data|) == own + b
            && Slice(data, |a| + |own|, |data|) == b
  {
    var data := a + own + b;
    assert data[..|a|] == a;
    assert data[..|a| + |own|] == a + own;
    assert data[|a|..] == own + b;
    assert data[|a| + |own|..] == b;
  }

  /** One splice, on data laid out as what precedes the file, the file, what follows it. */
  lemma SpliceStep(a: Data, img: Data, b: Data, e: Edit, f: FfsFile)
    requires f.offset + f.size <= |img| && e.Valid() && f.guid == e.guid
    ensures SpliceAt(a + img[f.offset..f.offset + f.size] + b, |a|, |a| + f.size, e) == a + Mapped(img, e, f) + b
  {
    hide Padded, Slice;
    var own := img[f.offset..f.offset + f.size];
    Cut(a, own, b);
    var p := Padded(e.file);
    assert a + p + (own + b) == a + (p + own) + b;
    assert a + own + p + b == a + (own + p) + b;
    assert a + b == a + [] + b;
  }

  /** The untouched rest of the volume, split at its next file. */
  lemma Layout(left: Data, img: Data, post: Data, o: nat, f: FfsFile)
    requires o <= f.offset && f.offset + f.size <= |img|
    ensures left + img[o..] + post ==
            (left + img[o..f.offset]) + img[f.offset..f.offset + f.size] + (img[f.offset + f.size..] + post)
  {
    assert img[o..] == img[o..f.offset] + img[f.offset..f.offset + f.size] + img[f.offset + f.size..];
  }

  lemma Regroup(left: Data, gap: Data, mapped: Data, rest: Data, post: Data)
    ensures (left + gap) + mapped + (rest + post) == (left + gap + mapped) + rest + post
    ensures (left + gap + mapped) + rest + post == left + (gap + mapped + rest) + post
  {
  }

  /** What the loop counts: it raises exactly at a match with an unknown command; the change is the sum over all
      matches; FvEndOffset is behind the last file of at least 24 bytes, or what it was before. */
  lemma {:induction false} SpliceCounts(data: Data, base: nat, img: Data, pol: bool, e: Edit, o: nat, change: int,
                                        end: nat)
    requires o + change >= 0
    ensures var r := SpliceFrom(data, base, img, pol, e, o, change, end);
            var at := EndAt(img, pol, e, o, change);
            && (r.InvalidCommand? <==> !e.Valid() && AnyMatch(img, pol, e, o))
            && (r.Spliced? ==> r.change == change + Change(img, pol, e, o))
            && (r.Spliced? ==> r.end == if at.Some? then base + at.value else end)
    decreases |img| - o
  {
    hide NextFile, SpliceAt, Delta, Edit.Valid;
    var next := NextFile(img, |img|, o, pol);
    if next.Some? {
      var f := next.value;
      NextFileBounds(img, |img|, o, pol);
      var n := f.offset + f.size;
      if f.guid != e.guid || e.Valid() {
        DeltaBound(e, f);
        var hit := f.guid == e.guid;
        var data' := if hit then SpliceAt(data, base + f.offset + change, base + n + change, e) else data;
        var change' := if hit then change + Delta(e, f) else change;
        SpliceCounts(data', base, img, pol, e, n, change', if f.size >= 24 then base + n + change' else end);
      }
    }
  }

  /** FvEndOffset lies between where the loop begins and the shifted end of the last file. */
  lemma {:induction false} EndAtBounds(img: Data, pol: bool, e: Edit, o: nat, change: int)
    ensures var at := EndAt(img, pol, e, o, change);
            && o + change <= LastEnd(img, pol, o) + change + Change(img, pol, e, o)
            && (at.Some? ==> o + change <= at.value <= LastEnd(img, pol, o) + change + Change(img, pol, e, o))
            && (at.Some? <==> AnyBig(img, pol, o))
    decreases |img| - o
  {
    hide NextFile, Delta;
    var next := NextFile(img, |img|, o, pol);
    if next.Some? {
      var f := next.value;
      NextFileBounds(img, |img|, o, pol);
      DeltaBound(e, f);
      EndAtBounds(img, pol, e, f.offset + f.size, NextChange(e, f, change));
    }
  }

  lemma DeltaBound(e: Edit, f: FfsFile)
    ensures Delta(e, f) >= 0 - f.size as int
  {
    hide PaddedSize;
  }

  ghost function NextChange(e: Edit, f: FfsFile, change: int): int {
    if f.guid == e.guid then change + Delta(e, f) else change
  }

  ghost function NextData(data: Data, base: nat, e: Edit, f: FfsFile, change: int): Data
    requires base + f.offset + change >= 0
  {
    if f.guid == e.guid then SpliceAt(data, base + f.offset + change, base + f.offset + f.size + change, e) else data
  }

  lemma SpliceUnfolds(data: Data, base: nat, img: Data, pol: bool, e: Edit, o: nat, change: int, end: nat, f: FfsFile)
    requires NextFile(img, |img|, o, pol) == Some(f) && (f.guid == e.guid ==> e.Valid())
    requires o + change >= 0 && o <= f.offset
    ensures var n, change' := f.offset + f.size, NextChange(e, f, change);
            && n + change' >= 0
            && SpliceFrom(data, base, img, pol, e, o, change, end)
               == SpliceFrom(NextData(data, base, e, f, change), base, img, pol, e, n, change',
                             if f.size >= 24 then base + n + change' else end)
  {
    hide NextFile, SpliceAt, Delta, Edit.Valid;
    DeltaBound(e, f);
    NextFileBounds(img, |img|, o, pol);
  }

  /** One turn of the file loop moves the file, mapped, from the untouched part to the left. */
  lemma SpliceOnce(left: Data, base: nat, img: Data, post: Data, e: Edit, o: nat, change: int, f: FfsFile)
    requires SmallFile(e) && o <= |img| && |left| == base + o + change && o + change >= 0
    requires o <= f.offset && f.offset + f.size <= |img| && (f.guid == e.guid ==> e.Valid())
    ensures var n := f.offset + f.size;
            var left' := left + img[o..f.offset] + Mapped(img, e, f);
            && |left'| == base + n + NextChange(e, f, change)
            && NextData(left + img[o..] + post, base, e, f, change) == left' + img[n..] + post
  {
    hide SpliceAt, Mapped, Delta, Edit.Valid, SmallFile;
    var n, gap := f.offset + f.size, img[o..f.offset];
    MappedLength(img, e, f);
    Layout(left, img, post, o, f);
    Regroup(left, gap, Mapped(img, e, f), img[n..], post);
    if f.guid == e.guid {
      SpliceStep(left + gap, img, img[n..] + post, e, f);
    } else {
      MappedSame(img, e, f);
    }
  }

  /** The splice loop with its running shift produces exactly the one-pass rebuild. */
  lemma {:induction false} SpliceIsRebuild(left: Data, base: nat, img: Data, post: Data,
                                           pol: bool, e: Edit, o: nat, change: int, end: nat)
    requires SmallFile(e) && o <= |img| && |left| == base + o + change && o + change >= 0
    requires e.Valid() || !AnyMatch(img, pol, e, o)
    ensures var r := SpliceFrom(left + img[o..] + post, base, img, pol, e, o, change, end);
            && r.Spliced?
            && r.data == left + Rebuild(img, pol, e, o) + post
            && |Rebuild(img, pol, e, o)| == |img| - o + Change(img, pol, e, o)
    decreases |img| - o
  {
    hide NextFile, NextData, Mapped, Delta, Edit.Valid, SmallFile, SpliceFrom;
    var next := NextFile(img, |img|, o, pol);
    if next.Some? {
      var f := next.value;
      NextFileBounds(img, |img|, o, pol);
      var n, gap, mapped := f.offset + f.size, img[o..f.offset], Mapped(img, e, f);
      var change' := NextChange(e, f, change);
      SpliceOnce(left, base, img, post, e, o, change, f);
      SpliceUnfolds(left + img[o..] + post, base, img, pol, e, o, change, end, f);
      SpliceIsRebuild(left + gap + mapped, base, img, post, pol, e, n, change',
        if f.size >= 24 then base + n + change' else end);
      Regroup(left, gap, mapped, Rebuild(img, pol, e, n), post);
    } else {
      SpliceNone(left + img[o..] + post, base, img, pol, e, o, change, end);
    }
  }

  /** At most one file from o on has the GUID. */
  ghost predicate AtMostOne(img: Data, pol: bool, e: Edit, o: nat)
    decreases |img| - o
  {
    match NextFile(img, |img|, o, pol)
    case None => true
    case Some(f) =>
      NextFileBounds(img, |img|, o, pol);
      if f.guid == e.guid then !AnyMatch(img, pol, e, f.offset + f.size) else AtMostOne(img, pol, e, f.offset + f.size)
  }

  /** Without a match the loop leaves the data alone, whatever it has counted so far. */
  lemma {:induction false} SpliceUntouched(data: Data, base: nat, img: Data, pol: bool, e: Edit, o: nat, change: int,
                                           end: nat)
    requires o + change >= 0 && !AnyMatch(img, pol, e, o)
    ensures var r := SpliceFrom(data, base, img, pol, e, o, change, end); r.Spliced? && r.data == data
    decreases |img| - o
  {
    hide NextFile, SpliceAt, Delta, Edit.Valid;
    var next := NextFile(img, |img|, o, pol);
    if next.Some? {
      var f := next.value;
      NextFileBounds(img, |img|, o, pol);
      SpliceUntouched(data, base, img, pol, e, f.offset + f.size, change,
        if f.size >= 24 then base + f.offset + f.size + change else end);
    }
  }

  /** With at most one match the loop is the one-pass rebuild for a file of any length: a wrong count is never used
      again. */
  lemma {:induction false} SpliceOneMatch(left: Data, base: nat, img: Data, post: Data,
                                          pol: bool, e: Edit, o: nat, change: int, end: nat)
    requires o <= |img| && |left| == base + o + change && o + change >= 0 && AtMostOne(img, pol, e, o)
    requires e.Valid() || !AnyMatch(img, pol, e, o)
    ensures var r := SpliceFrom(left + img[o..] + post, base, img, pol, e, o, change, end);
            r.Spliced? && r.data == left + Rebuild(img, pol, e, o) + post
    decreases |img| - o
  {
    hide NextFile, Mapped, Delta, Edit.Valid, SpliceFrom, Rebuild, NextData;
    var next := NextFile(img, |img|, o, pol);
    if next.None? {
      SpliceNone(left + img[o..] + post, base, img, pol, e, o, change, end);
      RebuildNone(img, pol, e, o);
    } else {
      var f := next.value;
      NextFileBounds(img, |img|, o, pol);
      SpliceUnfolds(left + img[o..] + post, base, img, pol, e, o, change, end, f);
      RebuildUnfolds(img, pol, e, o, f);
      MovedFile(left, base, img, post, e, o, change, f);
      var n, gap := f.offset + f.size, img[o..f.offset];
      var end' := if f.size >= 24 then base + n + NextChange(e, f, change) else end;
      Regroup(left, gap, Mapped(img, e, f), Rebuild(img, pol, e, n), post);
      if f.guid == e.guid {
        SpliceUntouched(left + gap + Mapped(img, e, f) + img[n..] + post, base, img, pol, e, n,
          NextChange(e, f, change), end');
        NoMatchKeeps(img, pol, e, n);
      } else {
        MappedSame(img, e, f);
        SpliceOneMatch(left + gap + Mapped(img, e, f), base, img, post, pol, e, n, change, end');
      }
    }
  }

  /** One turn of the file loop, for a file of any length. */
  lemma MovedFile(left: Data, base: nat, img: Data, post: Data, e: Edit, o: nat, change: int, f: FfsFile)
    requires o <= |img| && |left| == base + o + change && o + change >= 0
    requires o <= f.offset && f.offset + f.size <= |img| && (f.guid == e.guid ==> e.Valid())
    ensures var left' := left + img[o..f.offset] + Mapped(img, e, f);
            NextData(left + img[o..] + post, base, e, f, change) == left' + img[f.offset + f.size..] + post
  {
    hide SpliceAt, Mapped, Delta, Edit.Valid;
    var n, gap := f.offset + f.size, img[o..f.offset];
    Layout(left, img, post, o, f);
    Regroup(left, gap, Mapped(img, e, f), img[n..], post);
    if f.guid == e.guid {
      SpliceStep(left + gap, img, img[n..] + post, e, f);
    } else {
      MappedSame(img, e, f);
    }
  }

  lemma SpliceNone(data: Data, base: nat, img: Data, pol: bool, e: Edit, o: nat, change: int, end: nat)
    requires o + change >= 0 && NextFile(img, |img|, o, pol).None?
    ensures SpliceFrom(data, base, img, pol, e, o, change, end) == Spliced(data, change, end)
  {
    hide NextFile;
  }

  lemma MappedSame(img: Data, e: Edit, f: FfsFile)
    requires f.offset + f.size <= |img| && f.guid != e.guid
    ensures Mapped(img, e, f) == img[f.offset..f.offset + f.size]
  {
  }

  // ---------------------------------------------------------------- pad or trim

  lemma RebuildUnfolds(img: Data, pol: bool, e: Edit, o: nat, f: FfsFile)
    requires o <= |img| && NextFile(img, |img|, o, pol) == Some(f)
    ensures o <= f.offset && f.offset + f.size <= |img|
    ensures Rebuild(img, pol, e, o) == (img[o..f.offset] + Mapped(img, e, f)) + Rebuild(img, pol, e, f.offset + f.size)
  {
    hide NextFile, Mapped;
    NextFileBounds(img, |img|, o, pol);
  }

  /** Everything after the last file survives the rebuild, shifted by the total change. */
  lemma {:induction false} RebuildTail(img: Data, pol: bool, e: Edit, o: nat)
    requires SmallFile(e) && o <= |img| && (e.Valid() || !AnyMatch(img, pol, e, o))
    ensures |Rebuild(img, pol, e, o)| == |img| - o + Change(img, pol, e, o)
    ensures var k := LastEnd(img, pol, o) - o + Change(img, pol, e, o);
            0 <= k <= |Rebuild(img, pol, e, o)| && Rebuild(img, pol, e, o)[k..] == img[LastEnd(img, pol, o)..]
    decreases |img| - o
  {
    hide NextFile, Mapped, Delta, Edit.Valid, SmallFile, Rebuild;
    var next := NextFile(img, |img|, o, pol);
    if next.Some? {
      var f := next.value;
      NextFileBounds(img, |img|, o, pol);
      var n := f.offset + f.size;
      MappedLength(img, e, f);
      RebuildUnfolds(img, pol, e, o, f);
      RebuildTail(img, pol, e, n);
      DropPrefix(img[o..f.offset] + Mapped(img, e, f), Rebuild(img, pol, e, n),
        LastEnd(img, pol, n) - n + Change(img, pol, e, n));
    } else {
      RebuildNone(img, pol, e, o);
    }
  }

  lemma RebuildNone(img: Data, pol: bool, e: Edit, o: nat)
    requires o <= |img| && NextFile(img, |img|, o, pol).None?
    ensures Rebuild(img, pol, e, o) == img[o..]
  {
    hide NextFile;
  }

  lemma DropPrefix(a: Data, b: Data, k: nat)
    requires k <= |b|
    ensures (a + b)[|a| + k..] == b[k..]
  {
  }

  /** The final pad or trim falls inside the volume: the length does not change, or FvEndOffset has been set, and set to
      an offset inside the volume. */
  ghost predicate Fits(img: Data, pol: bool, e: Edit, h: nat) {
    Change(img, pol, e, h) == 0 ||
    (EndAt(img, pol, e, h, 0).Some? && EndAt(img, pol, e, h, 0).value <= |img|)
  }

  ghost predicate Usable(img: Data, pol: bool, e: Edit, h: nat) {
    SmallFile(e) && h <= |img| && (e.Valid() || !AnyMatch(img, pol, e, h))
  }

  /** The spliced bytes of a volume. */
  ghost function SplicedBytes(img: Data, pol: bool, e: Edit, h: nat): Data
    requires h <= |img|
  {
    img[..h] + Rebuild(img, pol, e, h)
  }

  /** Trimmed by c bytes at offset at, or padded there with -c bytes 0xFF. */
  ghost function Adjusted(all: Data, c: int, at: nat): Data
    requires at + Max(c, 0) <= |all|
  {
    if c >= 0 then all[..at] + all[at + c..] else all[..at] + Repeat(0xFF, -c) + all[at..]
  }

  /** The volume after the edit: rebuilt files, then trimmed or padded with 0xFF at FvEndOffset. */
  ghost function EditedImage(img: Data, pol: bool, e: Edit, h: nat): (r: Data)
    requires Usable(img, pol, e, h) && Fits(img, pol, e, h)
  {
    RebuildTail(img, pol, e, h);
    EndAtBounds(img, pol, e, h, 0);
    var c := Change(img, pol, e, h);
    if c == 0 then SplicedBytes(img, pol, e, h)
      else Adjusted(SplicedBytes(img, pol, e, h), c, EndAt(img, pol, e, h, 0).value)
  }

  lemma SplicedShape(img: Data, pol: bool, e: Edit, h: nat)
    requires Usable(img, pol, e, h)
    ensures var all, last, c := SplicedBytes(img, pol, e, h), LastEnd(img, pol, h), Change(img, pol, e, h);
            && h <= last + c && h <= last <= |img| && |all| == |img| + c && all[..h] == img[..h]
            && all[last + c..] == img[last..]
  {
    hide LastEnd, Change, Rebuild, SmallFile, Edit.Valid, AnyMatch;
    RebuildTail(img, pol, e, h);
    EndAtBounds(img, pol, e, h, 0);
    DropPrefix(img[..h], Rebuild(img, pol, e, h), LastEnd(img, pol, h) - h + Change(img, pol, e, h));
  }

  lemma AdjustedShape(all: Data, c: int, at: nat, h: nat)
    requires h <= at && at + Max(c, 0) <= |all|
    ensures |Adjusted(all, c, at)| == |all| - c && Adjusted(all, c, at)[..h] == all[..h]
    ensures forall i :: at + Max(-c, 0) <= i < |all| - c ==> Adjusted(all, c, at)[i] == all[i + c]
  {
  }

  /** An edit that fits keeps the volume's length and header. */
  lemma EditedImageShape(img: Data, pol: bool, e: Edit, h: nat)
    requires Usable(img, pol, e, h) && Fits(img, pol, e, h)
    ensures |EditedImage(img, pol, e, h)| == |img| && EditedImage(img, pol, e, h)[..h] == img[..h]
  {
    hide LastEnd, Change, Rebuild, SmallFile, Edit.Valid, AnyMatch, SplicedBytes, Adjusted, EndAt;
    SplicedShape(img, pol, e, h);
    EndAtBounds(img, pol, e, h, 0);
    var c := Change(img, pol, e, h);
    if c != 0 {
      AdjustedShape(SplicedBytes(img, pol, e, h), c, EndAt(img, pol, e, h, 0).value, h);
    }
  }

  lemma {:induction false} NoMatchKeeps(img: Data, pol: bool, e: Edit, o: nat)
    requires o <= |img| && !AnyMatch(img, pol, e, o)
    ensures Change(img, pol, e, o) == 0 && Rebuild(img, pol, e, o) == img[o..]
    decreases |img| - o
  {
    hide NextFile, Mapped, Delta, Rebuild;
    var next := NextFile(img, |img|, o, pol);
    if next.Some? {
      var f := next.value;
      NextFileBounds(img, |img|, o, pol);
      RebuildUnfolds(img, pol, e, o, f);
      MappedSame(img, e, f);
      NoMatchKeeps(img, pol, e, f.offset + f.size);
      assert img[o..f.offset] + img[f.offset..f.offset + f.size] + img[f.offset + f.size..] == img[o..];
    } else {
      RebuildNone(img, pol, e, o);
    }
  }

  /** An edit that matches no file leaves the volume alone, whatever the file sizes. */
  lemma UnmatchedImage(img: Data, pol: bool, e: Edit, h: nat)
    requires SmallFile(e) && h <= |img| && !AnyMatch(img, pol, e, h)
    ensures Usable(img, pol, e, h) && Fits(img, pol, e, h) && EditedImage(img, pol, e, h) == img
  {
    hide AnyMatch, LastEnd, Change, Rebuild, SmallFile, EndAt;
    NoMatchKeeps(img, pol, e, h);
    assert img[..h] + img[h..] == img;
  }

  /** Where the bytes an edit can change end: behind the last file, and behind FvEndOffset after growth. */
  ghost function Touched(img: Data, pol: bool, e: Edit, h: nat): (t: int)
    ensures t >= 0
  {
    var last, at := LastEnd(img, pol, h), EndAt(img, pol, e, h, 0);
    if Change(img, pol, e, h) > 0 && at.Some? then Max(last, at.value) else last
  }

  /** Bytes behind that stay where they are. */
  lemma EditedImageTail(img: Data, pol: bool, e: Edit, h: nat, i: nat)
    requires Usable(img, pol, e, h) && Fits(img, pol, e, h) && Touched(img, pol, e, h) <= i < |img|
    ensures |EditedImage(img, pol, e, h)| == |img| && EditedImage(img, pol, e, h)[i] == img[i]
  {
    hide LastEnd, Change, Rebuild, SmallFile, Edit.Valid, AnyMatch, SplicedBytes, Adjusted, EndAt;
    EditedImageShape(img, pol, e, h);
    SplicedShape(img, pol, e, h);
    EndAtBounds(img, pol, e, h, 0);
    var all, last, c := SplicedBytes(img, pol, e, h), LastEnd(img, pol, h), Change(img, pol, e, h);
    assert all[i + c] == all[last + c..][i - last] == img[last..][i - last];
    if c != 0 {
      AdjustedShape(all, c, EndAt(img, pol, e, h, 0).value, h);
    }
  }

  lemma Assoc3(a: Data, b: Data, c: Data, d: Data)
    ensures a + (b + c) + d == (a + b) + (c + d)
  {
  }

  lemma TrimParts(pre: Data, head: Data, mid: Data, tail: Data, post: Data)
    ensures Finish(pre + (head + (mid + tail)) + post, |mid|, |pre| + |head|) == pre + (head + tail) + post
  {
    hide Slice;
    Assoc3(pre, head, mid + tail, post);
    Assoc3(pre, head, tail, post);
    assert (pre + head) + ((mid + tail) + post) == (pre + head) + mid + (tail + post);
    Cut(pre + head, mid, tail + post);
  }

  lemma PadAt(left: Data, right: Data, n: nat)
    requires n > 0
    ensures Finish(left + right, 0 - n as int, |left|) == left + Repeat(0xFF, n) + right
  {
    hide Repeat;
    assert (left + right)[..|left|] == left && (left + right)[|left|..] == right;
  }

  lemma Assoc4(a: Data, b: Data, c: Data, d: Data, e: Data)
    ensures a + (b + (c + d)) + e == (a + b) + c + (d + e)
  {
  }

  lemma PadParts(pre: Data, head: Data, tail: Data, post: Data, n: nat)
    requires n > 0
    ensures Finish(pre + (head + tail) + post, 0 - n as int, |pre| + |head|)
            == pre + (head + (Repeat(0xFF, n) + tail)) + post
  {
    hide Finish, Repeat;
    Assoc3(pre, head, tail, post);
    PadAt(pre + head, tail + post, n);
    Assoc4(pre, head, Repeat(0xFF, n), tail, post);
  }

  lemma NoChange(data: Data, end: nat)
    ensures Finish(data, 0, end) == data
  {
  }

  lemma JoinParts(pre: Data, x: Data, y: Data, post: Data)
    ensures pre + x + y + post == pre + (x + y) + post
  {
  }

  /** The whole splice of a volume, before the final pad or trim. */
  lemma SplicedVolume(pre: Data, img: Data, post: Data, pol: bool, e: Edit, h: nat, endIn: nat)
    requires Usable(img, pol, e, h)
    ensures var r := SpliceFrom(pre + img + post, |pre|, img, pol, e, h, 0, endIn);
            var at := EndAt(img, pol, e, h, 0);
            && r.Spliced? && r.change == Change(img, pol, e, h) && r.data == pre + SplicedBytes(img, pol, e, h) + post
            && r.end == if at.Some? then |pre| + at.value else endIn
  {
    hide NextFile, Rebuild, LastEnd, Change, SmallFile, Edit.Valid, AnyMatch, SpliceFrom, EndAt;
    JoinParts(pre, img[..h], img[h..], post);
    JoinParts(pre, img[..h], Rebuild(img, pol, e, h), post);
    assert img[..h] + img[h..] == img;
    SpliceIsRebuild(pre + img[..h], |pre|, img, post, pol, e, h, 0, endIn);
    SpliceCounts(pre + img + post, |pre|, img, pol, e, h, 0, endIn);
  }

  /** An edit that fits replaces the volume's image and nothing else. */
  lemma EditConserves(pre: Data, img: Data, post: Data, pol: bool, e: Edit, h: nat, endIn: nat)
    requires Usable(img, pol, e, h) && Fits(img, pol, e, h)
    ensures var r := SpliceFrom(pre + img + post, |pre|, img, pol, e, h, 0, endIn);
            r.Spliced? && Finish(r.data, r.change, r.end) == pre + EditedImage(img, pol, e, h) + post
  {
    hide NextFile, Rebuild, LastEnd, Change, SmallFile, Edit.Valid, AnyMatch, SpliceFrom, Finish, Repeat;
    hide SplicedBytes, Adjusted, EndAt;
    SplicedVolume(pre, img, post, pol, e, h, endIn);
    SplicedShape(img, pol, e, h);
    EndAtBounds(img, pol, e, h, 0);
    var r := SpliceFrom(pre + img + post, |pre|, img, pol, e, h, 0, endIn);
    var all, c := SplicedBytes(img, pol, e, h), Change(img, pol, e, h);
    if c == 0 {
      NoChange(r.data, r.end);
    } else {
      FinishExact(pre, all, post, c, EndAt(img, pol, e, h, 0).value);
    }
  }

  lemma FinishExact(pre: Data, all: Data, post: Data, c: int, at: nat)
    requires c != 0 && at + Max(c, 0) <= |all|
    ensures Finish(pre + all + post, c, |pre| + at) == pre + Adjusted(all, c, at) + post
  {
    hide Finish, Repeat;
    var head, rest := all[..at], all[at..];
    assert all == head + rest;
    if c > 0 {
      assert rest == rest[..c] + rest[c..] && rest[c..] == all[at + c..];
      TrimParts(pre, head, rest[..c], rest[c..], post);
    } else {
      PadParts(pre, head, rest, post, -c);
      assert head + (Repeat(0xFF, -c) + rest) == head + Repeat(0xFF, -c) + rest;
    }
  }

  // ---------------------------------------------------------------- when a removal conserves

  lemma {:induction false} RemovalCounts(img: Data, pol: bool, e: Edit, o: nat)
    requires e.command == CMD_REMOVE
    ensures Change(img, pol, e, o) <= 0
    ensures Change(img, pol, e, o) < 0 <==> AnyMatch(img, pol, e, o)
    decreases |img| - o
  {
    hide NextFile;
    var next := NextFile(img, |img|, o, pol);
    if next.Some? {
      NextFileBounds(img, |img|, o, pol);
      RemovalCounts(img, pol, e, next.value.offset + next.value.size);
    }
  }

  /** Bytes that start erased and repeat with a period are all erased. */
  lemma {:induction false} PeriodicErased(v: Data, o: nat, d: nat, end: nat, k: nat)
    requires d > 0 && o <= k < end <= |v|
    requires forall i :: o <= i < o + d && i < end ==> v[i] == 0xFF
    requires forall i :: o <= i && i + d < end ==> v[i + d] == v[i]
    ensures v[k] == 0xFF
    decreases k
  {
    if k >= o + d {
      PeriodicErased(v, o, d, end, k - d);
      assert v[k - d + d] == v[k - d];
    }
  }

  /** Padding in front of a byte that is not 0xFF moves it. */
  lemma PadMoves(data: Data, n: nat, end: nat, p: nat, k: nat)
    requires 0 < n && end <= k < p <= |data| && data[k] != 0xFF
    ensures |Finish(data, 0 - n as int, end)| == |data| + n && Finish(data, 0 - n as int, end)[..p] != data[..p]
  {
    var out := Finish(data, 0 - n as int, end);
    assert out == data[..end] + Repeat(0xFF, n) + data[end..];
    if out[..p] == data[..p] {
      forall i | end <= i < end + n && i < p
        ensures data[i] == 0xFF
      {
        assert data[..p][i] == out[..p][i] == out[i] == 0xFF;
      }
      forall i | end <= i && i + n < p
        ensures data[i + n] == data[i]
      {
        assert data[..p][i + n] == out[..p][i + n] == out[i + n] == data[i];
      }
      PeriodicErased(data, end, n, p, k);
    }
  }

  /** The image keeps its length, everything up to the volume's files, and everything behind the volume. */
  ghost predicate Conserved(pre: Data, img: Data, post: Data, h: nat, out: Data)
    requires h <= |img|
  {
    && |out| == |pre| + |img| + |post| && out[..|pre| + h] == pre + img[..h] && out[|pre| + |img|..] == post
  }

  /** A removal conserves exactly when nothing matches or some file has at least 24 bytes, if some header byte behind
      the FvEndOffset carried in is not 0xFF; a volume signature is such a byte. */
  lemma RemovalConservesExactly(pre: Data, img: Data, post: Data, pol: bool, e: Edit, h: nat, endIn: nat, k: nat)
    requires e.command == CMD_REMOVE && k < h <= |img| && img[k] != 0xFF && endIn <= |pre| + k
    ensures var r := SpliceFrom(pre + img + post, |pre|, img, pol, e, h, 0, endIn);
            && r.Spliced?
            && (Conserved(pre, img, post, h, Finish(r.data, r.change, r.end))
                <==> !AnyMatch(img, pol, e, h) || AnyBig(img, pol, h))
  {
    hide NextFile, Rebuild, LastEnd, Change, AnyMatch, SpliceFrom, Finish, SplicedBytes, EndAt, EditedImage;
    RemovalCounts(img, pol, e, h);
    EndAtBounds(img, pol, e, h, 0);
    SplicedShape(img, pol, e, h);
    SplicedVolume(pre, img, post, pol, e, h, endIn);
    var r, all := SpliceFrom(pre + img + post, |pre|, img, pol, e, h, 0, endIn), SplicedBytes(img, pol, e, h);
    if Fits(img, pol, e, h) {
      EditConserves(pre, img, post, pol, e, h, endIn);
      EditedImageShape(img, pol, e, h);
      ReplacedConserves(pre, img, post, h, EditedImage(img, pol, e, h));
    } else {
      var p, out := |pre| + h, Finish(r.data, r.change, r.end);
      KeptStart(pre, all, img, post, h, k);
      PadMoves(r.data, -r.change, endIn, p, |pre| + k);
    }
  }

  lemma KeptStart(pre: Data, all: Data, img: Data, post: Data, h: nat, k: nat)
    requires k < h <= |all| && h <= |img| && all[..h] == img[..h]
    ensures var data := pre + all + post; data[..|pre| + h] == pre + img[..h] && data[|pre| + k] == img[k]
  {
    var data := pre + all + post;
    assert data[|pre| + k] == all[k] == all[..h][k] == img[..h][k];
    assert data[..|pre| + h] == pre + all[..h];
  }

  lemma ReplacedConserves(pre: Data, img: Data, post: Data, h: nat, img': Data)
    requires h <= |img| == |img'| && img'[..h] == img[..h]
    ensures Conserved(pre, img, post, h, pre + img' + post)
  {
    var out := pre + img' + post;
    assert out[..|pre| + h] == pre + img'[..h];
    assert out[|pre| + |img|..] == post;
  }

  /** Removal keeps the length of the image whatever the file sizes. */
  lemma RemovalKeepsLength(pre: Data, img: Data, post: Data, pol: bool, e: Edit, h: nat, endIn: nat)
    requires e.command == CMD_REMOVE && h <= |img|
    ensures var r := SpliceFrom(pre + img + post, |pre|, img, pol, e, h, 0, endIn);
            r.Spliced? && |Finish(r.data, r.change, r.end)| == |pre + img + post|
  {
    hide NextFile, Rebuild, Change, AnyMatch, SpliceFrom;
    assert pre + img[..h] + img[h..] + post == pre + img + post;
    SpliceIsRebuild(pre + img[..h], |pre|, img, post, pol, e, h, 0, endIn);
    SpliceCounts(pre + img + post, |pre|, img, pol, e, h, 0, endIn);
    RemovalCounts(img, pol, e, h);
  }
}
