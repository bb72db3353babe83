/** What a run depends on and what it leaves alone: conditions on the original image for whole runs. */
module FvLocal {
  import opened Bytes
  import opened FvWalk
  import opened Options
  import opened FvEdit
  import opened FvRun

  ghost predicate AgreeFrom(a: Data, b: Data, c: int) {
    |a| == |b| && forall x :: 0 <= x < |a| && c <= x ==> a[x] == b[x]
  }

  ghost predicate AgreeBelow(a: Data, b: Data, c: int) {
    |a| == |b| && forall x :: 0 <= x < |a| && x < c ==> a[x] == b[x]
  }

  // ---------------------------------------------------------------- what a search depends on

  lemma SliceAgree(a: Data, b: Data, i: nat, j: nat)
    requires |a| == |b| && i <= j <= |a| && forall x :: i <= x < j ==> a[x] == b[x]
    ensures a[i..j] == b[i..j]
  {
  }

  lemma SignatureAgree(a: Data, b: Data, p: nat)
    requires |a| == |b| && forall x :: p <= x < p + 4 && x < |a| ==> a[x] == b[x]
    ensures SignatureAt(a, p) == SignatureAt(b, p)
  {
    if p + 4 <= |a| {
      SliceAgree(a, b, p, p + 4);
    }
  }

  lemma {:induction false} FindAgree(a: Data, b: Data, from: nat)
    requires AgreeFrom(a, b, from)
    ensures Find(a, from) == Find(b, from)
    decreases |a| - from
  {
    hide SignatureAt;
    if from + 4 <= |a| {
      SignatureAgree(a, b, from);
      if !SignatureAt(a, from) {
        FindAgree(a, b, from + 1);
      }
    }
  }

  ghost predicate SameHeader(a: Data, b: Data, h: nat) {
    && |a| == |b| && h + VOLUME_HEADER_SIZE <= |a|
    && forall x :: h <= x < h + VOLUME_HEADER_SIZE ==> a[x] == b[x]
  }

  lemma FieldsAgree(a: Data, b: Data, h: nat, o: nat, n: nat)
    requires SameHeader(a, b, h) && o + n <= VOLUME_HEADER_SIZE
    ensures Field(a, h + o, n) == Field(b, h + o, n)
  {
    SliceAgree(a, b, h + o, h + o + n);
  }

  /** Whether a header is valid depends on its 56 bytes and the buffer's length. */
  lemma ValidAgree(a: Data, b: Data, h: nat)
    requires SameHeader(a, b, h)
    ensures ValidHeader(a, h) == ValidHeader(b, h)
  {
    hide FromLe, Field, Checksum16, ChecksummedHeader;
    FieldsAgree(a, b, h, 32, 8);
    FieldsAgree(a, b, h, 48, 2);
    FieldsAgree(a, b, h, 52, 2);
    assert a[h + 54] == b[h + 54];
  }

  /** A whole header reads the same; only the image may differ. */
  lemma HeaderAgree(a: Data, b: Data, h: nat)
    requires SameHeader(a, b, h)
    requires var n := Field(a, h + 48, 2); forall x :: h <= x < h + n && x < |a| ==> a[x] == b[x]
    ensures VolumeAt(b, h) == VolumeAt(a, h).(image := Slice(b, h, h + VolumeAt(a, h).size))
  {
    hide FromLe, Field, Checksum16, ChecksummedHeader;
    SliceAgree(a, b, h + 16, h + 32);
    FieldsAgree(a, b, h, 32, 8);
    FieldsAgree(a, b, h, 44, 4);
    FieldsAgree(a, b, h, 48, 2);
    FieldsAgree(a, b, h, 50, 2);
    FieldsAgree(a, b, h, 52, 2);
    ChecksummedAgree(a, b, h);
  }

  lemma ChecksummedAgree(a: Data, b: Data, h: nat)
    requires SameHeader(a, b, h)
    requires var n := Field(a, h + 48, 2); forall x :: h <= x < h + n && x < |a| ==> a[x] == b[x]
    ensures ChecksummedHeader(a, h) == ChecksummedHeader(b, h)
  {
    hide FromLe, Field;
    FieldsAgree(a, b, h, 48, 2);
    SliceAgree(a, b, h, h + 50);
    SliceAgree(a, b, h + 52, h + 56);
    var n := Field(a, h + 48, 2);
    if n > VOLUME_HEADER_SIZE {
      assert Slice(a, h + 56, h + n) == Slice(b, h + 56, h + n);
    }
  }

  /** Every signature from fof on stands at least 40 bytes behind s, so that its header begins at or behind s. */
  ghost predicate Clear(data: Data, fof: nat, s: int) {
    forall p :: fof <= p && SignatureAt(data, p) ==> s + 0x28 <= p
  }

  /** The search from fof depends only on the bytes from s on, if no header it meets begins before s. */
  lemma {:induction false} SearchLocal(a: Data, b: Data, fof: nat, s: int)
    requires s <= fof && AgreeFrom(a, b, s) && Clear(a, fof, s)
    ensures NextVolume(a, fof) == NextVolume(b, fof)
    decreases |a| - fof
  {
    hide VolumeAt, ValidHeader, Find, SignatureAt;
    if fof + VOLUME_HEADER_SIZE < |a| {
      FindAgree(a, b, fof);
      var p := Find(a, fof);
      if p.Some? && |a| - p.value >= VOLUME_HEADER_SIZE {
        if p.value >= 0x28 {
          WholeHeaderAgree(a, b, p.value - 0x28);
        }
        SearchLocal(a, b, p.value + 4, s);
      }
    }
  }

  lemma ClearAgree(a: Data, b: Data, fof: nat, s: int)
    requires AgreeFrom(a, b, fof) && Clear(a, fof, s)
    ensures Clear(b, fof, s)
  {
    hide SignatureAt;
    forall p | fof <= p && SignatureAt(b, p)
      ensures s + 0x28 <= p
    {
      SignatureAgree(a, b, p);
    }
  }

  lemma ClearLater(a: Data, fof: nat, from: nat, s: int)
    requires Clear(a, fof, s) && fof <= from
    ensures Clear(a, from, s)
  {
  }

  /** Forty bytes of distance are enough whatever stands there. */
  lemma ClearByDistance(data: Data, fof: nat, s: int)
    requires s + 0x28 <= fof
    ensures Clear(data, fof, s)
  {
  }

  lemma WholeHeaderAgree(a: Data, b: Data, h: nat)
    requires AgreeFrom(a, b, h) && h + VOLUME_HEADER_SIZE <= |a|
    ensures VolumeAt(a, h) == VolumeAt(b, h) && ValidHeader(a, h) == ValidHeader(b, h)
  {
    hide FromLe, Field, ValidHeader, VolumeAt, Slice;
    ValidAgree(a, b, h);
    HeaderAgree(a, b, h);
    VolumeImage(a, h);
    TailAgree(a, b, h, h + VolumeAt(a, h).size);
  }

  lemma VolumeImage(a: Data, h: nat)
    requires h + VOLUME_HEADER_SIZE <= |a|
    ensures VolumeAt(a, h).image == Slice(a, h, h + VolumeAt(a, h).size)
  {
    hide Checksum16, Field, ChecksummedHeader;
  }

  lemma TailAgree(a: Data, b: Data, i: nat, j: nat)
    requires AgreeFrom(a, b, i)
    ensures Slice(a, i, j) == Slice(b, i, j)
  {
  }

  lemma {:induction false} FindPrefix(a: Data, b: Data, from: nat, c: nat)
    requires AgreeBelow(a, b, c) && Find(a, from).Some? && Find(a, from).value + 4 <= c
    ensures Find(b, from) == Find(a, from)
    decreases |a| - from
  {
    hide SignatureAt;
    SignatureAgree(a, b, from);
    if !SignatureAt(a, from) {
      FindPrefix(a, b, from + 1, c);
    }
  }

  /** The first signature the search meets is at most the found volume's. */
  lemma FirstSignature(a: Data, fof: nat, v: Volume)
    requires NextVolume(a, fof) == Some(v)
    ensures fof + VOLUME_HEADER_SIZE < |a| && Find(a, fof).Some? && |a| - Find(a, fof).value >= VOLUME_HEADER_SIZE
    ensures var p := Find(a, fof).value;
            if p >= 0x28 && ValidHeader(a, p - 0x28) then v == VolumeAt(a, p - 0x28) && v.offset == p - 0x28
            else NextVolume(a, p + 4) == Some(v) && p + 4 <= v.offset + 0x28
  {
    hide ValidHeader, Find, SignatureAt, Checksum16, Field;
    NextVolumeExact(a, Find(a, fof).value + 4);
  }

  /** Changing bytes after a found volume's header changes nothing of what was found but its image. */
  lemma {:induction false} SearchPrefix(a: Data, b: Data, fof: nat, v: Volume, c: nat)
    requires NextVolume(a, fof) == Some(v) && v.offset + v.size <= |a|
    requires AgreeBelow(a, b, c) && c >= v.offset + VOLUME_HEADER_SIZE && c >= v.offset + v.headerSize
    ensures NextVolume(b, fof) == Some(v.(image := b[v.offset..v.offset + v.size]))
    decreases |a| - fof
  {
    hide VolumeAt, ValidHeader, Find, SignatureAt;
    FirstSignature(a, fof, v);
    var p := Find(a, fof).value;
    FindPrefix(a, b, fof, c);
    if p >= 0x28 {
      ValidAgree(a, b, p - 0x28);
    }
    if p >= 0x28 && ValidHeader(a, p - 0x28) {
      VolumeHeaderSize(a, p - 0x28);
      HeaderAgree(a, b, p - 0x28);
    } else {
      SearchPrefix(a, b, p + 4, v, c);
    }
  }

  lemma VolumeHeaderSize(a: Data, h: nat)
    requires h + VOLUME_HEADER_SIZE <= |a|
    ensures VolumeAt(a, h).headerSize == Field(a, h + 48, 2) && VolumeAt(a, h).offset == h
  {
    hide Checksum16, Field;
  }

  // ---------------------------------------------------------------- one step of a run

  ghost function With(data: Data, v: Volume, img: Data): Data
    requires v.offset + v.size <= |data|
  {
    data[..v.offset] + img + data[v.offset + v.size..]
  }

  lemma WithAgrees(data: Data, v: Volume, img: Data, h: nat, t: nat)
    requires v.offset + v.size <= |data| && v.image == data[v.offset..v.offset + v.size] && |img| == v.size
    requires h <= v.size && img[..h] == v.image[..h] && forall i :: t <= i < v.size ==> img[i] == v.image[i]
    ensures |With(data, v, img)| == |data|
    ensures AgreeBelow(data, With(data, v, img), v.offset + h)
    ensures AgreeFrom(data, With(data, v, img), v.offset + t) && AgreeFrom(data, With(data, v, img), v.offset + v.size)
    ensures With(data, v, img)[v.offset..v.offset + v.size] == img
  {
    var out := With(data, v, img);
    forall x | 0 <= x < |data| && x < v.offset + h ensures data[x] == out[x] {
      if x >= v.offset {
        assert img[..h][x - v.offset] == v.image[..h][x - v.offset];
      }
    }
    forall x | 0 <= x < |data| && v.offset + t <= x ensures data[x] == out[x] {
      if x < v.offset + v.size {
        assert img[x - v.offset] == v.image[x - v.offset];
      }
    }
  }

  /** The edit of a volume fits. */
  ghost predicate Fitting(v: Volume, e: Edit) {
    Usable(v.image, Polarity(v), e, v.headerSize) && Fits(v.image, Polarity(v), e, v.headerSize)
  }

  ghost function Edited(v: Volume, e: Edit): Data
    requires Fitting(v, e)
  {
    EditedImage(v.image, Polarity(v), e, v.headerSize)
  }

  /** Where the bytes of the image that an edit of the volume can change end. */
  ghost function ChangeEnd(v: Volume, e: Edit): nat {
    v.offset + Touched(v.image, Polarity(v), e, v.headerSize)
  }

  /** No header found behind the volume reaches into the bytes that its edit changes. */
  ghost predicate Undisturbed(data: Data, v: Volume, e: Edit) {
    AnyMatch(v.image, Polarity(v), e, v.headerSize) ==> Clear(data, SearchStart(v.offset, v.size), ChangeEnd(v, e))
  }

  /** What a fitting edit does to one volume. */
  lemma EditStep(data: Data, e: Edit, fof: nat, end: nat, v: Volume)
    requires NextVolume(data, fof) == Some(v) && Fitting(v, e)
    ensures v.offset + v.size <= |data| && v.size == |v.image| && v.image == data[v.offset..v.offset + v.size]
    ensures fof <= v.offset + 0x28 && v.headerSize <= v.size
    ensures SearchStart(v.offset, v.size) >= v.offset + v.size && SearchStart(v.offset, v.size) >= fof + 16
    ensures var s, out := EditAt(data, e, v, end), With(data, v, Edited(v, e));
            && s.Spliced? && Finish(s.data, s.change, s.end) == out && |Edited(v, e)| == v.size && |out| == |data|
            && AgreeBelow(data, out, v.offset + v.headerSize)
            && AgreeFrom(data, out, ChangeEnd(v, e)) && AgreeFrom(data, out, v.offset + v.size)
            && out[v.offset..v.offset + v.size] == Edited(v, e)
            && (!AnyMatch(v.image, Polarity(v), e, v.headerSize) ==> out == data)
    ensures AnyMatch(v.image, Polarity(v), e, v.headerSize) ==> ChangeEnd(v, e) <= v.offset + v.size
  {
    hide SpliceFrom, Finish, EditedImage, Usable, Fits, FirstVolume, NextVolume, Polarity, SearchStart, AgreeBelow;
    hide AgreeFrom, Touched, AnyMatch;
    NextVolumeExact(data, fof);
    FoundSize(data, fof, v);
    StepConserves(data, e, fof, end, v);
    var img, pol, h := v.image, Polarity(v), v.headerSize;
    EditedImageShape(img, pol, e, h);
    forall i: nat | Touched(img, pol, e, h) <= i < |img|
      ensures Edited(v, e)[i] == img[i]
    {
      EditedImageTail(img, pol, e, h, i);
    }
    WithAgrees(data, v, Edited(v, e), h, Touched(img, pol, e, h));
    TouchedInside(img, pol, e, h);
    if !AnyMatch(img, pol, e, h) {
      FittingUnmatched(v, e);
      assert data == With(data, v, img);
    }
  }

  lemma TouchedInside(img: Data, pol: bool, e: Edit, h: nat)
    requires Usable(img, pol, e, h) && Fits(img, pol, e, h)
    ensures Touched(img, pol, e, h) <= |img|
  {
    hide Change, EndAt, AnyMatch, SmallFile;
  }

  /** The edit leaves the 56 bytes of a volume header in place. */
  ghost predicate KeepsHeader(v: Volume, e: Edit)
    requires Fitting(v, e)
  {
    && |Edited(v, e)| == |v.image|
    && forall i :: 0 <= i < Min(VOLUME_HEADER_SIZE, |v.image|) ==> Edited(v, e)[i] == v.image[i]
  }

  /** Then all of the image up to there stays, even where the volume is shorter. */
  lemma HeaderKept(data: Data, v: Volume, e: Edit)
    requires Fitting(v, e) && KeepsHeader(v, e)
    requires v.offset + v.size <= |data| && v.size == |v.image| && v.image == data[v.offset..v.offset + v.size]
    ensures AgreeBelow(data, With(data, v, Edited(v, e)), v.offset + VOLUME_HEADER_SIZE)
  {
    hide Fitting, Edited;
    var out := With(data, v, Edited(v, e));
    forall x | 0 <= x < |data| && x < v.offset + VOLUME_HEADER_SIZE
      ensures data[x] == out[x]
    {
      if v.offset <= x < v.offset + v.size {
        assert Edited(v, e)[x - v.offset] == v.image[x - v.offset] == data[x];
      }
    }
  }

  lemma FittingUnmatched(v: Volume, e: Edit)
    requires Fitting(v, e) && !AnyMatch(v.image, Polarity(v), e, v.headerSize)
    ensures Edited(v, e) == v.image
  {
    hide Polarity, AnyMatch, SmallFile, EditedImage, LastEnd, Change, EndAt;
    UnmatchedImage(v.image, Polarity(v), e, v.headerSize);
  }

  // ---------------------------------------------------------------- conditions on the original image

  /** Every volume of the image that the run would edit has room for its edit and is clear of the next headers, and
      there are at most limit volumes. */
  ghost predicate AllFit(data: Data, e: Edit, fof: nat, limit: nat)
    decreases limit
  {
    match NextVolume(data, fof)
    case None => true
    case Some(v) =>
      && limit > 0 && (IsFfs(v) ==> Fitting(v, e) && Undisturbed(data, v, e))
      && AllFit(data, e, SearchStart(v.offset, v.size), limit - 1)
  }

  /** Byte x belongs to the body of no volume that holds files. */
  ghost predicate OutsideVolumes(data: Data, fof: nat, limit: nat, x: nat)
    decreases limit
  {
    match NextVolume(data, fof)
    case None => true
    case Some(v) =>
      && (IsFfs(v) ==> !(v.offset + v.headerSize <= x < v.offset + v.size))
      && (limit > 0 ==> OutsideVolumes(data, SearchStart(v.offset, v.size), limit - 1, x))
  }

  lemma FoundBehind(a: Data, fof: nat, s: int, v: Volume)
    requires NextVolume(a, fof) == Some(v) && Clear(a, fof, s)
    ensures s <= v.offset && SearchStart(v.offset, v.size) >= fof + 16
            && SearchStart(v.offset, v.size) >= v.offset + v.size
  {
    hide NextVolume, ValidHeader, SearchStart;
    NextVolumeExact(a, fof);
    FoundSize(a, fof, v);
  }

  /** Both conditions depend only on the bytes the search depends on. */
  lemma {:induction false} FitLocal(a: Data, b: Data, e: Edit, fof: nat, limit: nat, s: int)
    requires s <= fof && AgreeFrom(a, b, s) && Clear(a, fof, s) && AllFit(a, e, fof, limit)
    ensures AllFit(b, e, fof, limit)
    decreases limit
  {
    hide NextVolume, IsFfs, Fitting, SearchStart, Clear, AgreeFrom, ChangeEnd, AnyMatch, Polarity;
    SearchLocal(a, b, fof, s);
    var next := NextVolume(a, fof);
    if next.Some? {
      var v := next.value;
      var from := SearchStart(v.offset, v.size);
      FoundBehind(a, fof, s, v);
      AgreeLater(a, b, s, from);
      if Clear(a, from, ChangeEnd(v, e)) {
        ClearAgree(a, b, from, ChangeEnd(v, e));
      }
      ClearLater(a, fof, from, s);
      FitLocal(a, b, e, from, limit - 1, s);
    }
  }

  lemma {:induction false} OutsideLocal(a: Data, b: Data, fof: nat, limit: nat, s: int, x: nat)
    requires s <= fof && AgreeFrom(a, b, s) && Clear(a, fof, s) && OutsideVolumes(a, fof, limit, x)
    ensures OutsideVolumes(b, fof, limit, x)
    decreases limit
  {
    hide NextVolume, IsFfs, SearchStart, Clear, AgreeFrom;
    SearchLocal(a, b, fof, s);
    var next := NextVolume(a, fof);
    if next.Some? && limit > 0 {
      var v := next.value;
      var from := SearchStart(v.offset, v.size);
      FoundBehind(a, fof, s, v);
      ClearLater(a, fof, from, s);
      OutsideLocal(a, b, from, limit - 1, s, x);
    }
  }

  /** After a fitting edit the rest of the image is as it was for the search. */
  lemma AfterEdit(data: Data, e: Edit, fof: nat, end: nat, v: Volume) returns (s: int)
    requires NextVolume(data, fof) == Some(v) && Fitting(v, e) && Undisturbed(data, v, e)
    ensures v.offset + v.size <= |data|
    ensures var from, out := SearchStart(v.offset, v.size), With(data, v, Edited(v, e));
            s <= from && AgreeFrom(data, out, s) && Clear(data, from, s)
    ensures AnyMatch(v.image, Polarity(v), e, v.headerSize) ==> s == ChangeEnd(v, e)
  {
    hide NextVolume, SearchStart, Clear, AgreeFrom, AgreeBelow, AnyMatch, Polarity, Edited, With, EditAt, Finish;
    hide Fitting;
    hide Touched;
    EditStep(data, e, fof, end, v);
    var from := SearchStart(v.offset, v.size);
    if AnyMatch(v.image, Polarity(v), e, v.headerSize) {
      s := ChangeEnd(v, e);
    } else {
      s := from as int - 0x28;
      ClearByDistance(data, from, s);
      AgreeSelf(data, s);
    }
  }

  /** Signatures up to 40 bytes behind t are the same in images that agree up to 56 bytes behind it. */
  lemma ClearThrough(data: Data, d1: Data, x: Data, from: nat, t: int, t': int)
    requires AgreeFrom(data, d1, from) && AgreeBelow(d1, x, t + VOLUME_HEADER_SIZE) && Clear(data, from, t) && t' <= t
    ensures Clear(x, from, t')
  {
    hide SignatureAt;
    forall p | from <= p && SignatureAt(x, p)
      ensures t' + 0x28 <= p
    {
      if p < t' + 0x28 {
        SignatureAgree(d1, x, p);
        SignatureAgree(data, d1, p);
      }
    }
  }

  lemma AgreeLater(a: Data, b: Data, c: int, c': int)
    requires AgreeFrom(a, b, c) && c <= c'
    ensures AgreeFrom(a, b, c')
  {
  }

  lemma AgreeSelf(data: Data, c: int)
    ensures AgreeFrom(data, data, c) && AgreeBelow(data, data, c)
  {
  }

  /** On an image whose volumes all fit, the conditions of RunConserves hold along the whole run. */
  lemma {:induction false} FitRun(data: Data, e: Edit, fof: nat, end: nat, limit: nat, x: nat)
    requires AllFit(data, e, fof, limit)
    ensures RunFits(data, e, fof, end, limit)
    ensures OutsideVolumes(data, fof, limit, x) ==> Outside(data, e, fof, end, limit, x)
    decreases limit
  {
    hide NextVolume, IsFfs, SearchStart, Usable, Fits, Polarity, EditAt, Finish, With, Clear, AgreeFrom, Edited;
    hide AgreeBelow, Undisturbed;
    var next := NextVolume(data, fof);
    if next.Some? {
      var v := next.value;
      var from := SearchStart(v.offset, v.size);
      if !IsFfs(v) {
        FitRun(data, e, from, end, limit - 1, x);
      } else {
        EditStep(data, e, fof, end, v);
        var s := AfterEdit(data, e, fof, end, v);
        var out, r := With(data, v, Edited(v, e)), EditAt(data, e, v, end);
        FitLocal(data, out, e, from, limit - 1, s);
        if OutsideVolumes(data, from, limit - 1, x) {
          OutsideLocal(data, out, from, limit - 1, s, x);
        }
        FitRun(out, e, from, r.end, limit - 1, x);
      }
    }
  }

  /** Conservation from a condition on the original image alone: the run ends, keeps the length and changes only bodies
      of the image's own volumes. */
  lemma FitRunConserves(data: Data, e: Edit, limit: nat)
    requires AllFit(data, e, 0, limit) && limit >= |data|
    ensures var r := Run(data, e, 0, 0, limit);
            && r.Done? && |r.data| == |data|
            && forall x :: 0 <= x < |data| && OutsideVolumes(data, 0, limit, x) ==> r.data[x] == data[x]
  {
    hide Run, RunFits, AllFit, Outside, OutsideVolumes;
    FitRun(data, e, 0, 0, limit, 0);
    RunConserves(data, e, 0, 0, limit);
    forall x | 0 <= x < |data| && OutsideVolumes(data, 0, limit, x)
      ensures Outside(data, e, 0, 0, limit, x)
    {
      FitRun(data, e, 0, 0, limit, x);
    }
  }

  // ---------------------------------------------------------------- runs over images that agree

  lemma RunUnfoldsPlain(data: Data, e: Edit, fof: nat, end: nat, limit: nat, v: Volume)
    requires NextVolume(data, fof) == Some(v) && limit > 0 && !IsFfs(v)
    ensures Run(data, e, fof, end, limit) == Run(data, e, SearchStart(v.offset, v.size), end, limit - 1)
  {
    hide NextVolume, IsFfs, EditAt, Finish;
  }

  lemma RunUnfoldsEdit(data: Data, e: Edit, fof: nat, end: nat, limit: nat, v: Volume)
    requires NextVolume(data, fof) == Some(v) && limit > 0 && IsFfs(v) && EditAt(data, e, v, end).Spliced?
    ensures var s := EditAt(data, e, v, end);
            Run(data, e, fof, end, limit)
              == Run(Finish(s.data, s.change, s.end), e, SearchStart(v.offset, v.size), s.end, limit - 1)
  {
    hide NextVolume, IsFfs, EditAt, Finish;
  }

  lemma StillAgree(a: Data, b: Data, v: Volume, s: int, img: Data)
    requires AgreeFrom(a, b, s) && v.offset + v.size <= |a| && |img| == v.size
    ensures AgreeFrom(With(a, v, img), With(b, v, img), s)
  {
  }

  /** Every volume that is edited keeps its header. */
  ghost predicate AllKeep(data: Data, e: Edit, fof: nat, limit: nat)
    decreases limit
  {
    match NextVolume(data, fof)
    case None => true
    case Some(v) =>
      limit > 0 ==>
        && (IsFfs(v) ==> Fitting(v, e) && KeepsHeader(v, e))
        && AllKeep(data, e, SearchStart(v.offset, v.size), limit - 1)
  }

  lemma {:induction false} KeepLocal(a: Data, b: Data, e: Edit, fof: nat, limit: nat, s: int)
    requires s <= fof && AgreeFrom(a, b, s) && Clear(a, fof, s) && AllKeep(a, e, fof, limit)
    ensures AllKeep(b, e, fof, limit)
    decreases limit
  {
    hide NextVolume, IsFfs, SearchStart, Clear, AgreeFrom, Fitting, KeepsHeader;
    SearchLocal(a, b, fof, s);
    var next := NextVolume(a, fof);
    if next.Some? && limit > 0 {
      var v := next.value;
      var from := SearchStart(v.offset, v.size);
      FoundBehind(a, fof, s, v);
      ClearLater(a, fof, from, s);
      KeepLocal(a, b, e, from, limit - 1, s);
    }
  }

  /** The bytes that a run from fof leaves alone when no header it meets begins before s. */
  ghost function Front(fof: nat, s: int): int {
    Max(fof, s + VOLUME_HEADER_SIZE)
  }

  /** Runs over images that agree from s on give results that agree from s on, and leave alone everything before the
      search start and before the end of the first possible header. */
  lemma {:induction false} RunLocal(a: Data, b: Data, e: Edit, fof: nat, limit: nat, s: int, endA: nat, endB: nat)
    requires s <= fof && AgreeFrom(a, b, s) && Clear(a, fof, s) && AllFit(a, e, fof, limit) && AllKeep(a, e, fof, limit)
    ensures var ra, rb := Run(a, e, fof, endA, limit), Run(b, e, fof, endB, limit);
            && ra.Done? && rb.Done? && AgreeFrom(ra.data, rb.data, s)
            && AgreeBelow(a, ra.data, Front(fof, s)) && AgreeBelow(b, rb.data, Front(fof, s))
    decreases limit
  {
    hide NextVolume, IsFfs, SearchStart, EditAt, Finish, With, Edited, Fitting, Clear, AgreeFrom, AgreeBelow;
    hide Undisturbed, ChangeEnd, KeepsHeader;
    SearchLocal(a, b, fof, s);
    AgreeSelf(a, Front(fof, s));
    AgreeSelf(b, Front(fof, s));
    var next := NextVolume(a, fof);
    if next.Some? {
      var v := next.value;
      var from := SearchStart(v.offset, v.size);
      FoundBehind(a, fof, s, v);
      ClearLater(a, fof, from, s);
      if !IsFfs(v) {
        RunLocal(a, b, e, from, limit - 1, s, endA, endB);
        RunUnfoldsPlain(a, e, fof, endA, limit, v);
        RunUnfoldsPlain(b, e, fof, endB, limit, v);
        BelowEarlier(a, Run(a, e, from, endA, limit - 1).data, Front(fof, s), Front(from, s));
        BelowEarlier(b, Run(b, e, from, endB, limit - 1).data, Front(fof, s), Front(from, s));
      } else {
        EditedRuns(a, b, e, fof, limit, s, endA, endB, v);
      }
    }
  }

  lemma {:induction false} EditedRuns(a: Data, b: Data, e: Edit, fof: nat, limit: nat, s: int, endA: nat, endB: nat,
                                      v: Volume)
    requires s <= fof && AgreeFrom(a, b, s) && Clear(a, fof, s) && AllFit(a, e, fof, limit) && AllKeep(a, e, fof, limit)
    requires NextVolume(a, fof) == Some(v) == NextVolume(b, fof) && IsFfs(v)
    ensures var ra, rb := Run(a, e, fof, endA, limit), Run(b, e, fof, endB, limit);
            && ra.Done? && rb.Done? && AgreeFrom(ra.data, rb.data, s)
            && AgreeBelow(a, ra.data, Front(fof, s)) && AgreeBelow(b, rb.data, Front(fof, s))
    decreases limit, 0
  {
    hide NextVolume, IsFfs, SearchStart, EditAt, Finish, With, Edited, Fitting, Clear, AgreeFrom, AgreeBelow;
    hide Undisturbed, ChangeEnd, KeepsHeader, AnyMatch, Polarity;
    var from := SearchStart(v.offset, v.size);
    FoundBehind(a, fof, s, v);
    EditStep(a, e, fof, endA, v);
    EditStep(b, e, fof, endB, v);
    HeaderKept(a, v, e);
    HeaderKept(b, v, e);
    var a', b' := With(a, v, Edited(v, e)), With(b, v, Edited(v, e));
    var sa, sb := EditAt(a, e, v, endA), EditAt(b, e, v, endB);
    var t := AfterEdit(a, e, fof, endA, v);
    FitLocal(a, a', e, from, limit - 1, t);
    KeepLocal(a, a', e, from, limit - 1, t);
    StillAgree(a, b, v, s, Edited(v, e));
    ClearLater(a, fof, from, s);
    AgreeLater(a, a', v.offset + v.size, from);
    ClearAgree(a, a', from, s);
    RunLocal(a', b', e, from, limit - 1, s, sa.end, sb.end);
    RunUnfoldsEdit(a, e, fof, endA, limit, v);
    RunUnfoldsEdit(b, e, fof, endB, limit, v);
    var past := v.offset + VOLUME_HEADER_SIZE;
    BelowThrough(a, a', Run(a', e, from, sa.end, limit - 1).data, past, Front(from, s), Front(fof, s));
    BelowThrough(b, b', Run(b', e, from, sb.end, limit - 1).data, past, Front(from, s), Front(fof, s));
  }

  lemma BelowEarlier(a: Data, b: Data, c: int, c': int)
    requires AgreeBelow(a, b, c') && c <= c'
    ensures AgreeBelow(a, b, c)
  {
  }

  lemma BelowThrough(a: Data, b: Data, c: Data, i: int, j: int, k: int)
    requires AgreeBelow(a, b, i) && AgreeBelow(b, c, j) && k <= i && k <= j
    ensures AgreeBelow(a, c, k)
  {
  }

  lemma SliceBelow(a: Data, b: Data, i: nat, j: nat)
    requires AgreeBelow(a, b, j) && i <= j <= |a|
    ensures |a| == |b| && a[i..j] == b[i..j]
  {
  }
}
