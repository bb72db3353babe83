/** Insert-after then remove, over whole images with any number of volumes. */
module FvRoundTrip {
  import opened Bytes
  import opened FvWalk
  import opened Options
  import opened FvEdit
  import opened FvRun
  import opened FvLocal
  import opened FvRestore

  /** No matching file ends inside the 56 bytes of the volume header. */
  ghost predicate HeaderInFront(v: Volume, e: Edit) {
    AnyMatch(v.image, true, e, v.headerSize) ==> FirstMatchEnd(v.image, e, v.headerSize) >= VOLUME_HEADER_SIZE
  }

  /** An erase-polarity volume that takes the insertion, and where the removal finds each file or nothing. */
  ghost predicate Editable(v: Volume, e: Edit, n: Data) {
    && Polarity(v) && HeaderInFront(v, e) && Insertable(v.image, e, n, v.headerSize)
    && (Survives(v.image, e, v.headerSize, 0) || LargeBodies(v.image, v.headerSize))
  }

  /** Every volume of the image that the editor would edit is editable and clear of the headers behind it, and there are
      at most limit. */
  ghost predicate AllEditable(data: Data, e: Edit, n: Data, fof: nat, limit: nat)
    decreases limit
  {
    match NextVolume(data, fof)
    case None => true
    case Some(v) =>
      && limit > 0 && (IsFfs(v) ==> Editable(v, e, n) && Undisturbed(data, v, e))
      && AllEditable(data, e, n, SearchStart(v.offset, v.size), limit - 1)
  }

  /** In every volume that the editor would edit, every file survives the insertions. */
  ghost predicate AllSurvive(data: Data, e: Edit, fof: nat, limit: nat)
    decreases limit
  {
    match NextVolume(data, fof)
    case None => true
    case Some(v) =>
      && (IsFfs(v) ==> Survives(v.image, e, v.headerSize, 0))
      && (limit > 0 ==> AllSurvive(data, e, SearchStart(v.offset, v.size), limit - 1))
  }

  // ---------------------------------------------------------------- one volume

  lemma SameVolume(v: Volume, img: Data)
    ensures Polarity(v.(image := img)) == Polarity(v) && IsFfs(v.(image := img)) == IsFfs(v)
  {
    hide BitSet;
  }

  ghost function After(v: Volume, e: Edit): Volume
    requires Fitting(v, e)
  {
    v.(image := Edited(v, e))
  }

  /** Both edits of an editable volume fit and keep its header; together they restore it exactly when its files
      survive. */
  lemma EditableFits(v: Volume, e: Edit, rem: Edit, n: Data)
    requires Editable(v, e, n) && rem.command == CMD_REMOVE && rem.guid == n
    ensures Fitting(v, e) && KeepsHeader(v, e)
    ensures var w := After(v, e);
            && Fitting(w, rem) && KeepsHeader(w, rem)
            && (Edited(w, rem) == v.image <==> Survives(v.image, e, v.headerSize, 0))
  {
    hide Insertable, Survives, LargeBodies, Usable, Fits, EditedImage, BitSet, AnyMatch, FirstMatchEnd;
    var img, h := v.image, v.headerSize;
    RestoredExactly(img, e, rem, n, h);
    var b := EditedImage(img, true, e, h);
    SameVolume(v, b);
    EditedImageShape(img, true, e, h);
    EditedImageShape(b, true, rem, h);
    forall i | 0 <= i < VOLUME_HEADER_SIZE && i < |img|
      ensures b[i] == img[i] && EditedImage(b, true, rem, h)[i] == b[i]
    {
      FrontKept(img, e, rem, n, h, i);
    }
  }

  /** The removal is disturbed by no more headers than the insertion. */
  lemma RemovalChangesLess(v: Volume, e: Edit, rem: Edit, n: Data)
    requires Editable(v, e, n) && Fitting(v, e) && rem.command == CMD_REMOVE && rem.guid == n
    requires var w := After(v, e); AnyMatch(w.image, Polarity(w), rem, w.headerSize)
    ensures AnyMatch(v.image, Polarity(v), e, v.headerSize) && ChangeEnd(After(v, e), rem) <= ChangeEnd(v, e)
  {
    hide Insertable, Survives, LargeBodies, Usable, Fits, EditedImage, BitSet, AnyMatch, FirstMatchEnd, Touched;
    SameVolume(v, Edited(v, e));
    if AnyMatch(v.image, true, e, v.headerSize) {
      RemovalTouchesLess(v.image, e, rem, n, v.headerSize);
    } else {
      UnmatchedRestored(v.image, e, rem, n, v.headerSize);
    }
  }

  lemma {:induction false} AllEditableFit(data: Data, e: Edit, n: Data, fof: nat, limit: nat)
    requires AllEditable(data, e, n, fof, limit)
    ensures AllFit(data, e, fof, limit) && AllKeep(data, e, fof, limit)
    decreases limit
  {
    hide NextVolume, IsFfs, Editable, Undisturbed, SearchStart, Fitting, KeepsHeader, After;
    var next := NextVolume(data, fof);
    if next.Some? {
      var v := next.value;
      if IsFfs(v) {
        EditableFits(v, e, Edit(CMD_REMOVE, n, []), n);
      }
      AllEditableFit(data, e, n, SearchStart(v.offset, v.size), limit - 1);
    }
  }

  // ---------------------------------------------------------------- one step of the round trip

  lemma HeaderBeforeStart(data: Data, fof: nat, v: Volume)
    requires NextVolume(data, fof) == Some(v)
    ensures v.offset + Max(v.headerSize, VOLUME_HEADER_SIZE) <= SearchStart(v.offset, v.size)
  {
    hide NextVolume, FirstVolume;
    NextVolumeExact(data, fof);
    FoundSize(data, fof, v);
  }

  /** The insertion leaves the headers that it meets in place. */
  lemma HeadersStay(data: Data, b: Data, e: Edit, rem: Edit, n: Data, fof: nat, v: Volume)
    requires NextVolume(data, fof) == Some(v) && Editable(v, e, n) && Fitting(v, e)
    requires rem.command == CMD_REMOVE && rem.guid == n && v.offset + v.size <= |data|
    requires AgreeBelow(With(data, v, Edited(v, e)), b, SearchStart(v.offset, v.size))
    ensures AgreeBelow(data, b, v.offset + Max(v.headerSize, VOLUME_HEADER_SIZE))
  {
    hide Edited, Fitting, NextVolume, Polarity, AgreeBelow, AgreeFrom, Editable, With, EditAt, ChangeEnd, AnyMatch;
    hide KeepsHeader, Finish, SearchStart;
    EditStep(data, e, fof, 0, v);
    EditableFits(v, e, rem, n);
    HeaderKept(data, v, e);
    HeaderBeforeStart(data, fof, v);
    var d1, from := With(data, v, Edited(v, e)), SearchStart(v.offset, v.size);
    var c := v.offset + Max(v.headerSize, VOLUME_HEADER_SIZE);
    BelowEither(data, d1, v.offset + v.headerSize, v.offset + VOLUME_HEADER_SIZE);
    BelowThrough(data, d1, b, c, from, c);
  }

  /** What the removal finds at a volume the insertion has edited: the same volume with the edited image. */
  lemma FoundAgain(data: Data, b: Data, e: Edit, rem: Edit, n: Data, fof: nat, v: Volume)
    requires NextVolume(data, fof) == Some(v) && IsFfs(v) && Editable(v, e, n) && Fitting(v, e)
    requires rem.command == CMD_REMOVE && rem.guid == n && v.offset + v.size <= |data|
    requires AgreeBelow(With(data, v, Edited(v, e)), b, SearchStart(v.offset, v.size))
    ensures v.offset + v.size <= |b| && NextVolume(b, fof) == Some(After(v, e)) && IsFfs(After(v, e))
  {
    hide Edited, Fitting, NextVolume, Polarity, AgreeBelow, AgreeFrom, Editable, With, IsFfs, EditAt, ChangeEnd;
    hide AnyMatch;
    hide KeepsHeader, Finish, SearchStart;
    EditStep(data, e, fof, 0, v);
    HeadersStay(data, b, e, rem, n, fof, v);
    SearchPrefix(data, b, fof, v, v.offset + Max(v.headerSize, VOLUME_HEADER_SIZE));
    var d1, from := With(data, v, Edited(v, e)), SearchStart(v.offset, v.size);
    BelowEarlier(d1, b, v.offset + v.size, from);
    SliceBelow(d1, b, v.offset, v.offset + v.size);
    SameVolume(v, Edited(v, e));
  }

  lemma BelowEither(a: Data, b: Data, i: int, j: int)
    requires AgreeBelow(a, b, i) && AgreeBelow(a, b, j)
    ensures AgreeBelow(a, b, Max(i, j))
  {
  }

  lemma PlainUnchanged(data: Data, x: Data, fof: nat, v: Volume)
    requires NextVolume(data, fof) == Some(v) && AgreeBelow(data, x, SearchStart(v.offset, v.size))
    ensures NextVolume(x, fof) == Some(v)
  {
    hide NextVolume, FirstVolume;
    NextVolumeExact(data, fof);
    FoundSize(data, fof, v);
    SearchPrefix(data, x, fof, v, SearchStart(v.offset, v.size));
    SliceAgree(data, x, v.offset, v.offset + v.size);
  }

  /** A volume that is not edited: the insertion's run over the rest leaves it alone. */
  lemma PlainStep(data: Data, e: Edit, n: Data, fof: nat, limit: nat, end: nat, v: Volume) returns (y: Data)
    requires AllEditable(data, e, n, fof, limit) && NextVolume(data, fof) == Some(v) && !IsFfs(v)
    ensures Run(data, e, fof, end, limit) == Done(y) == Run(data, e, SearchStart(v.offset, v.size), end, limit - 1)
    ensures NextVolume(y, fof) == Some(v)
  {
    hide NextVolume, IsFfs, Editable, SearchStart, EditAt, Finish, With, AgreeFrom, AgreeBelow, Clear, AllFit, AllKeep;
    hide Undisturbed, Run;
    var from := SearchStart(v.offset, v.size);
    AllEditableFit(data, e, n, from, limit - 1);
    var s := from as int - 0x28;
    AgreeSelf(data, s);
    ClearByDistance(data, from, s);
    RunUnfoldsPlain(data, e, fof, end, limit, v);
    RunLocal(data, data, e, from, limit - 1, s, end, end);
    y := Run(data, e, from, end, limit - 1).data;
    BelowEarlier(data, y, from, Front(from, s));
    PlainUnchanged(data, y, fof, v);
  }

  /** A volume that is edited: x is the whole insertion, y the insertion in the rest of the image only. */
  lemma EditedStep(data: Data, e: Edit, rem: Edit, n: Data, fof: nat, limit: nat, end: nat, v: Volume)
    returns (x: Data, y: Data, s: int)
    requires AllEditable(data, e, n, fof, limit) && rem.command == CMD_REMOVE && rem.guid == n
    requires NextVolume(data, fof) == Some(v) && IsFfs(v)
    ensures var from := SearchStart(v.offset, v.size);
            && Run(data, e, fof, end, limit) == Done(x) && Run(data, e, from, end, limit - 1) == Done(y)
            && v.offset + v.size <= |data| == |x| == |y| && from >= v.offset + v.size && v.size == |v.image|
            && v.image == data[v.offset..v.offset + v.size] && Fitting(v, e)
            && AgreeFrom(y, x, s) && s <= from && AgreeBelow(data, y, from)
            && AgreeBelow(With(data, v, Edited(v, e)), x, from) && |Edited(v, e)| == v.size
            && Clear(y, from, s) && NextVolume(x, fof) == Some(After(v, e)) && IsFfs(After(v, e))
    ensures Undisturbed(x, After(v, e), rem)
  {
    hide NextVolume, IsFfs, Editable, SearchStart, EditAt, Finish, With, AgreeFrom, AgreeBelow, Clear, AllFit, AllKeep;
    hide Run, Fitting, Edited, ChangeEnd, Polarity, AnyMatch, KeepsHeader;
    var from := SearchStart(v.offset, v.size);
    EditableFits(v, e, rem, n);
    EditStep(data, e, fof, end, v);
    AllEditableFit(data, e, n, from, limit - 1);
    var d1, s1 := With(data, v, Edited(v, e)), EditAt(data, e, v, end);
    s := AfterEdit(data, e, fof, end, v);
    RunUnfoldsEdit(data, e, fof, end, limit, v);
    RunLocal(data, d1, e, from, limit - 1, s, end, s1.end);
    y, x := Run(data, e, from, end, limit - 1).data, Run(d1, e, from, s1.end, limit - 1).data;
    BelowEarlier(data, y, from, Front(from, s));
    BelowEarlier(d1, x, from, Front(from, s));
    BelowEarlier(data, y, s + VOLUME_HEADER_SIZE, Front(from, s));
    BelowEarlier(d1, x, s + VOLUME_HEADER_SIZE, Front(from, s));
    AgreeSelf(data, from);
    ClearThrough(data, data, y, from, s, s);
    FoundAgain(data, x, e, rem, n, fof, v);
    var w := After(v, e);
    SameStart(v, w);
    if AnyMatch(w.image, Polarity(w), rem, w.headerSize) {
      RemovalChangesLess(v, e, rem, n);
      AgreeLater(data, d1, v.offset + v.size, from);
      ClearThrough(data, d1, x, from, s, ChangeEnd(w, rem));
    }
    SameLength(data, y, from);
  }

  lemma SameLength(a: Data, b: Data, c: int)
    requires AgreeBelow(a, b, c)
    ensures |a| == |b|
  {
  }

  lemma SameStart(v: Volume, w: Volume)
    requires v.offset == w.offset && v.size == w.size
    ensures SearchStart(v.offset, v.size) == SearchStart(w.offset, w.size)
  {
  }

  // ---------------------------------------------------------------- the whole image

  /** The removal fits in every volume of the image that the insertion leaves. */
  lemma {:induction false} InsertedFits(data: Data, e: Edit, rem: Edit, n: Data, fof: nat, limit: nat, end: nat)
    requires AllEditable(data, e, n, fof, limit) && rem.command == CMD_REMOVE && rem.guid == n
    ensures var r := Run(data, e, fof, end, limit);
            r.Done? && AllFit(r.data, rem, fof, limit) && AllKeep(r.data, rem, fof, limit)
    decreases limit
  {
    hide NextVolume, IsFfs, Editable, SearchStart, EditAt, Finish, With, AgreeFrom, AgreeBelow, Clear, Fitting, Edited;
    hide KeepsHeader, Undisturbed;
    var next := NextVolume(data, fof);
    if next.Some? {
      var v := next.value;
      var from := SearchStart(v.offset, v.size);
      InsertedFits(data, e, rem, n, from, limit - 1, end);
      if !IsFfs(v) {
        var y := PlainStep(data, e, n, fof, limit, end, v);
      } else {
        var x, y, s := EditedStep(data, e, rem, n, fof, limit, end, v);
        EditableFits(v, e, rem, n);
        SameStart(v, After(v, e));
        FitLocal(y, x, rem, from, limit - 1, s);
        KeepLocal(y, x, rem, from, limit - 1, s);
      }
    }
  }

  /** If the volume came back, what is left is the insertion in the rest of the image. */
  lemma PutTogether(data: Data, d1: Data, y: Data, x: Data, v: Volume, img: Data, from: nat)
    requires v.offset + v.size <= |data| && v.image == data[v.offset..v.offset + v.size] && |img| == v.size
    requires d1 == With(data, v, img) && from >= v.offset + v.size
    requires AgreeFrom(y, x, from) && AgreeBelow(data, y, from) && AgreeBelow(d1, x, from)
    ensures v.offset + v.size <= |x| && With(x, v, v.image) == y
  {
    var out := With(x, v, v.image);
    forall k | 0 <= k < |y|
      ensures out[k] == y[k]
    {
      if k < v.offset {
        assert x[k] == d1[k] == data[k];
      } else if k < v.offset + v.size {
        assert out[k] == v.image[k - v.offset];
      } else if k < from {
        assert x[k] == d1[k] == data[k];
      }
    }
  }

  /** A run over the rest of the image leaves a volume before it as it is. */
  lemma RestLeavesAlone(x: Data, rem: Edit, fof: nat, limit: nat, end: nat, w: Volume, end': nat) returns (z: Data)
    requires NextVolume(x, fof) == Some(w) && IsFfs(w) && limit > 0 && Fitting(w, rem) && Undisturbed(x, w, rem)
    requires var from := SearchStart(w.offset, w.size);
             AllFit(x, rem, from, limit - 1) && AllKeep(x, rem, from, limit - 1)
    ensures w.offset + w.size <= |x|
    ensures Run(With(x, w, Edited(w, rem)), rem, SearchStart(w.offset, w.size), end', limit - 1) == Done(z)
    ensures |z| == |x| && z[w.offset..w.offset + w.size] == Edited(w, rem)
  {
    hide NextVolume, IsFfs, SearchStart, EditAt, Finish, With, AgreeFrom, AgreeBelow, Clear, Fitting, Edited, AllFit;
    hide KeepsHeader, Undisturbed, AllKeep, Run, ChangeEnd, AnyMatch, Polarity;
    var from := SearchStart(w.offset, w.size);
    EditStep(x, rem, fof, end, w);
    var s := AfterEdit(x, rem, fof, end, w);
    var x' := With(x, w, Edited(w, rem));
    FitLocal(x, x', rem, from, limit - 1, s);
    KeepLocal(x, x', rem, from, limit - 1, s);
    var t := from as int - 0x28;
    AgreeSelf(x', t);
    ClearByDistance(x', from, t);
    RunLocal(x', x', rem, from, limit - 1, t, end', end');
    z := Run(x', rem, from, end', limit - 1).data;
    BelowEarlier(x', z, w.offset + w.size, Front(from, t));
    SliceBelow(x', z, w.offset, w.offset + w.size);
  }

  /** Inserting a file after every file with the given GUID and then removing the inserted GUID restores the image byte
      for byte if and only if in every volume every file survives the insertions. */
  lemma {:induction false} RestoresExactly(data: Data, e: Edit, rem: Edit, n: Data, fof: nat, limit: nat, end1: nat,
                                           end2: nat)
    requires AllEditable(data, e, n, fof, limit) && rem.command == CMD_REMOVE && rem.guid == n
    ensures var r := Run(data, e, fof, end1, limit);
            && r.Done? && Run(r.data, rem, fof, end2, limit).Done?
            && (Run(r.data, rem, fof, end2, limit) == Done(data) <==> AllSurvive(data, e, fof, limit))
    decreases limit
  {
    hide NextVolume, IsFfs, Editable, SearchStart, EditAt, Finish, With, AgreeFrom, AgreeBelow, Clear, Fitting, Edited;
    hide KeepsHeader, Undisturbed, AllFit, AllKeep, Survives;
    var next := NextVolume(data, fof);
    if next.Some? {
      var v := next.value;
      var from := SearchStart(v.offset, v.size);
      if !IsFfs(v) {
        var y := PlainStep(data, e, n, fof, limit, end1, v);
        RunUnfoldsPlain(y, rem, fof, end2, limit, v);
        RestoresExactly(data, e, rem, n, from, limit - 1, end1, end2);
      } else {
        var x, y, end2' := VolumeStep(data, e, rem, n, fof, limit, end1, end2, v);
        RestoresExactly(data, e, rem, n, from, limit - 1, end1, end2');
      }
    }
  }

  /** The first edited volume of a round trip: if it comes back, the round trip is that of the rest of the image; if
      not, the image does not come back. */
  lemma VolumeStep(data: Data, e: Edit, rem: Edit, n: Data, fof: nat, limit: nat, end1: nat, end2: nat, v: Volume)
    returns (x: Data, y: Data, end2': nat)
    requires AllEditable(data, e, n, fof, limit) && rem.command == CMD_REMOVE && rem.guid == n
    requires NextVolume(data, fof) == Some(v) && IsFfs(v)
    ensures var from := SearchStart(v.offset, v.size);
            && Run(data, e, fof, end1, limit) == Done(x) && Run(data, e, from, end1, limit - 1) == Done(y)
            && Run(x, rem, fof, end2, limit).Done?
            && if Survives(v.image, e, v.headerSize, 0)
               then Run(x, rem, fof, end2, limit) == Run(y, rem, from, end2', limit - 1)
               else Run(x, rem, fof, end2, limit) != Done(data)
  {
    hide NextVolume, IsFfs, Editable, SearchStart, EditAt, Finish, With, AgreeFrom, AgreeBelow, Clear, Fitting, Edited;
    hide KeepsHeader, Undisturbed, Run, Survives, ChangeEnd, AnyMatch, Polarity;
    var from := SearchStart(v.offset, v.size);
    var s: int;
    x, y, s := EditedStep(data, e, rem, n, fof, limit, end1, v);
    EditableFits(v, e, rem, n);
    InsertedFits(data, e, rem, n, fof, limit, end1);
    var w := After(v, e);
    SameStart(v, w);
    EditStep(x, rem, fof, end2, w);
    var s2 := EditAt(x, rem, w, end2);
    end2' := s2.end;
    RunUnfoldsEdit(x, rem, fof, end2, limit, w);
    var z := RestLeavesAlone(x, rem, fof, limit, end2, w, end2');
    if Edited(w, rem) == v.image {
      AgreeLater(y, x, s, from);
      PutTogether(data, With(data, v, Edited(v, e)), y, x, v, Edited(v, e), from);
      WithSame(x, v, w, v.image);
    }
  }

  lemma WithSame(b: Data, v: Volume, w: Volume, img: Data)
    requires v.offset == w.offset && v.size == w.size && v.offset + v.size <= |b|
    ensures With(b, v, img) == With(b, w, img)
  {
  }

  /** In particular, the image is restored when every file survives. */
  lemma InsertThenRemove(data: Data, e: Edit, rem: Edit, n: Data, fof: nat, limit: nat, end1: nat, end2: nat)
    requires AllEditable(data, e, n, fof, limit) && AllSurvive(data, e, fof, limit)
    requires rem.command == CMD_REMOVE && rem.guid == n
    ensures var r := Run(data, e, fof, end1, limit);
            r.Done? && Run(r.data, rem, fof, end2, limit) == Done(data)
  {
    hide Run, AllEditable, AllSurvive;
    RestoresExactly(data, e, rem, n, fof, limit, end1, end2);
  }
}
