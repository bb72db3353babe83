/** Whole runs of modify_uefi_region over all volumes of an image. */
module FvRun {
  import opened Bits
  import opened Bytes
  import opened FvWalk
  import opened Options
  import opened FvEdit

  /** The edited image, the exception of an unknown command, or more volumes than the given limit: when growth
      runs past the end of the image, an inserted file can bring in further volumes. */
  datatype Outcome = Done(data: Data) | Raised | Unfinished

  predicate IsFfs(v: Volume) {
    v.guid == FFS2_GUID || v.guid == FFS1_GUID
  }

  /** Volumes of the file systems 8C8CE578-8A3D-4F1C-9935-896185C32DD3 and 7A9354D9-0468-444A-81CE-0BF617D890DF. */
  lemma FfsGuids(v: Volume)
    ensures IsFfs(v) <==>
              || v.guid == Guid(0x8C8CE578, 0x8A3D, 0x4F1C, [0x99, 0x35, 0x89, 0x61, 0x85, 0xC3, 0x2D, 0xD3])
              || v.guid == Guid(0x7A9354D9, 0x0468, 0x444A, [0x81, 0xCE, 0x0B, 0xF6, 0x17, 0xD8, 0x90, 0xDF])
  {
    assert FFS2_GUID == Guid(0x8C8CE578, 0x8A3D, 0x4F1C, [0x99, 0x35, 0x89, 0x61, 0x85, 0xC3, 0x2D, 0xD3]);
    assert FFS1_GUID == Guid(0x7A9354D9, 0x0468, 0x444A, [0x81, 0xCE, 0x0B, 0xF6, 0x17, 0xD8, 0x90, 0xDF]);
  }

  ghost function EditAt(data: Data, e: Edit, v: Volume, end: nat): Spliced {
    SpliceFrom(data, v.offset, v.image, Polarity(v), e, v.headerSize, 0, end)
  }

  /** A run of at most limit volumes, searching from fof. */
  ghost function Run(data: Data, e: Edit, fof: nat, end: nat, limit: nat): Outcome
    decreases limit
  {
    match NextVolume(data, fof)
    case None => Done(data)
    case Some(v) =>
      if limit == 0 then Unfinished
      else if !IsFfs(v) then Run(data, e, SearchStart(v.offset, v.size), end, limit - 1)
      else
        match EditAt(data, e, v, end)
        case InvalidCommand => Raised
        case Spliced(d, c, n) => Run(Finish(d, c, n), e, SearchStart(v.offset, v.size), n, limit - 1)
  }

  method ModifyUefiRegion(input: Data, e: Edit, limit: nat) returns (r: Outcome)
    ensures r == Run(input, e, 0, 0, limit)
  {
    hide NextVolume, SpliceFrom, Finish, SearchStart, IsFfs, Polarity, FirstVolume;
    var data := input;
    var end: nat := 0;
    var left := limit;
    ghost var fof := SearchStart(0, 0);
    assert fof == 0 by { StartOfData(); }
    var fv := NextFwVolume(data, 0, 0);
    while fv.Some?
      invariant fv == NextVolume(data, fof) && FirstVolume(data, fof, fv)
      invariant Run(data, e, fof, end, left) == Run(input, e, 0, 0, limit)
      decreases left
    {
      var v := fv.value;
      if left == 0 {
        return Unfinished;
      }
      FoundImage(data, fof, v);
      left := left - 1;
      if IsFfs(v) {
        var spliced := SpliceFiles(data, v, e, end);
        if spliced.InvalidCommand? {
          return Raised;
        }
        end := spliced.end;
        data := Finish(spliced.data, spliced.change, spliced.end);
      }
      fv := NextFwVolume(data, v.offset, v.size);
      fof := SearchStart(v.offset, v.size);
    }
    r := Done(data);
  }

  lemma StartOfData()
    ensures SearchStart(0, 0) == 0
  {
  }

  lemma FoundImage(b: Data, fof: nat, v: Volume)
    requires FirstVolume(b, fof, Some(v))
    ensures v.size == |v.image|
  {
    hide VolumeAt, ValidHeader;
  }

  lemma FoundSize(b: Data, fof: nat, v: Volume)
    requires FirstVolume(b, fof, Some(v))
    ensures fof <= v.offset + 0x28 && v.offset + v.size <= |b| && v.size == |v.image| && v.headerSize < v.size
    ensures b == b[..v.offset] + v.image + b[v.offset + v.size..] && v.image == b[v.offset..v.offset + v.size]
    ensures v.offset + VOLUME_HEADER_SIZE <= |b|
    ensures SearchStart(v.offset, v.size) >= v.offset + v.size
    ensures SearchStart(v.offset, v.size) >= fof + 16
  {
    hide VolumeAt, ValidHeader;
  }

  // ---------------------------------------------------------------- conservation over a run

  /** In every volume the run edits, the final pad or trim falls inside the volume. */
  ghost predicate RunFits(data: Data, e: Edit, fof: nat, end: nat, limit: nat)
    decreases limit
  {
    match NextVolume(data, fof)
    case None => true
    case Some(v) =>
      limit > 0 ==>
        if !IsFfs(v) then RunFits(data, e, SearchStart(v.offset, v.size), end, limit - 1)
        else
          && Usable(v.image, Polarity(v), e, v.headerSize) && Fits(v.image, Polarity(v), e, v.headerSize)
          && var s := EditAt(data, e, v, end);
             s.Spliced? ==> RunFits(Finish(s.data, s.change, s.end), e, SearchStart(v.offset, v.size), s.end, limit - 1)
  }

  /** Byte x belongs to no volume body the run edits. */
  ghost predicate Outside(data: Data, e: Edit, fof: nat, end: nat, limit: nat, x: nat)
    decreases limit
  {
    match NextVolume(data, fof)
    case None => true
    case Some(v) =>
      limit > 0 ==>
        if !IsFfs(v) then Outside(data, e, SearchStart(v.offset, v.size), end, limit - 1, x)
        else
          && !(v.offset + v.headerSize <= x < v.offset + v.size)
          && var s := EditAt(data, e, v, end);
             s.Spliced? ==> Outside(Finish(s.data, s.change, s.end), e, SearchStart(v.offset, v.size), s.end,
               limit - 1, x)
  }

  /** One edited volume: same length, and only its body changes. */
  lemma StepConserves(data: Data, e: Edit, fof: nat, end: nat, v: Volume)
    requires FirstVolume(data, fof, Some(v))
    requires Usable(v.image, Polarity(v), e, v.headerSize) && Fits(v.image, Polarity(v), e, v.headerSize)
    ensures var s := EditAt(data, e, v, end);
            && s.Spliced?
            && var out := Finish(s.data, s.change, s.end);
               && out == data[..v.offset] + EditedImage(v.image, Polarity(v), e, v.headerSize)
                  + data[v.offset + v.size..]
               && |out| == |data|
               && out[..v.offset + v.headerSize] == data[..v.offset + v.headerSize]
               && out[v.offset + v.size..] == data[v.offset + v.size..]
  {
    hide SpliceFrom, Finish, EditedImage, Usable, Fits, FirstVolume, Polarity;
    FoundSize(data, fof, v);
    var pre, post, h := data[..v.offset], data[v.offset + v.size..], v.headerSize;
    EditConserves(pre, v.image, post, Polarity(v), e, h, end);
    EditedImageShape(v.image, Polarity(v), e, h);
    SameHead(data, v.offset, v.image, EditedImage(v.image, Polarity(v), e, h), post, h);
  }

  lemma SameHead(data: Data, at: nat, img: Data, img': Data, post: Data, h: nat)
    requires at <= |data| && data == data[..at] + img + post && |img'| == |img| && h <= |img| && img'[..h] == img[..h]
    ensures var out := data[..at] + img' + post;
            && |out| == |data| && out[..at + h] == data[..at + h] && out[at + |img|..] == data[at + |img|..]
  {
    var out := data[..at] + img' + post;
    assert out[..at + h] == data[..at] + img'[..h];
    assert data[..at + h] == data[..at] + img[..h];
    assert out[at + |img|..] == post;
    assert data[at + |img|..] == post;
  }

  /** A run whose growth fits finishes, keeps the length, and changes no byte outside the edited bodies. */
  lemma {:induction false} RunConserves(data: Data, e: Edit, fof: nat, end: nat, limit: nat)
    requires RunFits(data, e, fof, end, limit) && fof + limit >= |data|
    ensures var r := Run(data, e, fof, end, limit);
            && r.Done? && |r.data| == |data|
            && forall x :: 0 <= x < |data| && Outside(data, e, fof, end, limit, x) ==> r.data[x] == data[x]
    decreases limit
  {
    hide NextVolume, SpliceFrom, Finish, SearchStart, IsFfs, Polarity, FirstVolume, Usable, Fits, EditedImage;
    NextVolumeExact(data, fof);
    var next := NextVolume(data, fof);
    if next.Some? {
      var v := next.value;
      FoundSize(data, fof, v);
      var from := SearchStart(v.offset, v.size);
      RoomLeft(data, fof, v, limit);
      if !IsFfs(v) {
        RunConserves(data, e, from, end, limit - 1);
      } else {
        StepConserves(data, e, fof, end, v);
        var s := EditAt(data, e, v, end);
        var out := Finish(s.data, s.change, s.end);
        RunConserves(out, e, from, s.end, limit - 1);
        forall x | 0 <= x < |data| && Outside(data, e, fof, end, limit, x)
          ensures Run(out, e, from, s.end, limit - 1).data[x] == data[x]
        {
          assert out[x] == data[x] by {
            if x < v.offset + v.headerSize {
              assert out[..v.offset + v.headerSize][x] == data[..v.offset + v.headerSize][x];
            } else {
              assert out[v.offset + v.size..][x - v.offset - v.size]
                == data[v.offset + v.size..][x - v.offset - v.size];
            }
          }
        }
      }
    }
  }

  lemma RoomLeft(b: Data, fof: nat, v: Volume, limit: nat)
    requires FirstVolume(b, fof, Some(v)) && fof + limit >= |b|
    requires NextVolume(b, fof) == Some(v)
    ensures limit > 0 && SearchStart(v.offset, v.size) + (limit - 1) >= |b|
  {
    hide VolumeAt, ValidHeader, Find, SearchStart, FirstVolume;
    FoundSize(b, fof, v);
    assert fof + VOLUME_HEADER_SIZE < |b|;
  }

  /** Removal finishes on every image and keeps its length, with no condition on sizes or free space. */
  lemma {:induction false} RemovalRunKeepsLength(data: Data, e: Edit, fof: nat, end: nat, limit: nat)
    requires e.command == CMD_REMOVE && fof + limit >= |data|
    ensures var r := Run(data, e, fof, end, limit); r.Done? && |r.data| == |data|
    decreases limit
  {
    hide NextVolume, SpliceFrom, Finish, SearchStart, IsFfs, Polarity, FirstVolume;
    NextVolumeExact(data, fof);
    var next := NextVolume(data, fof);
    if next.Some? {
      var v := next.value;
      FoundSize(data, fof, v);
      RoomLeft(data, fof, v, limit);
      var from := SearchStart(v.offset, v.size);
      if !IsFfs(v) {
        RemovalRunKeepsLength(data, e, from, end, limit - 1);
      } else {
        RemovalKeepsLength(data[..v.offset], v.image, data[v.offset + v.size..], Polarity(v), e, v.headerSize, end);
        var s := EditAt(data, e, v, end);
        RemovalRunKeepsLength(Finish(s.data, s.change, s.end), e, from, s.end, limit - 1);
      }
    }
  }
}
