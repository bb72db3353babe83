/** Assembling FFS files and sections, and the section walker that reads them back. */
module FvAssemble {
  import opened Bits
  import opened Bytes
  import opened FvWalk
  import opened Options

  const EFI_FV_FILETYPE_FREEFORM: Byte := 0x02
  const EFI_SECTION_COMPRESSION: Byte := 0x01
  const EFI_SECTION_RAW: Byte := 0x19
  const TWO24: nat := 0x100_0000

  // ---------------------------------------------------------------- sections

  datatype Section = Section(offset: nat, stype: nat, image: Data, headerSize: nat, size: nat)

  /** The section the scan from cur returns; limit is the shorter of ssize and the data. */
  function ScanSection(b: Data, limit: nat, cur: nat): Option<Section>
    requires limit <= |b|
    decreases limit - cur
  {
    if cur + 4 >= limit then None
    else
      var short := Field(b, cur, 3);
      var extended := short == 0xFF_FFFF && cur + 8 < limit;
      var size := if extended then Field(b, cur + 4, 4) else short;
      if (size == 0xFF_FFFF && b[cur + 3] == 0xFF) || size == 0 then ScanSection(b, limit, Align(cur + 4, 4))
      else Some(Section(cur, b[cur + 3], Slice(b, cur, cur + size), if extended then 8 else 4, Align(size, 4)))
  }

  method NextFwFileSection(sections: Data, ssize: nat, sof: nat) returns (r: Option<Section>)
    ensures r == ScanSection(sections, Min(ssize, |sections|), sof)
    ensures FirstSection(sections, Min(ssize, |sections|), sof, r)
  {
    hide Field, Slice, FirstSection;
    NextSectionExact(sections, Min(ssize, |sections|), sof);
    var cur := sof;
    var limit := Min(ssize, |sections|);
    while cur + 4 < limit
      invariant ScanSection(sections, limit, cur) == ScanSection(sections, limit, sof)
      decreases limit - cur
    {
      var size := Field(sections, cur, 3);
      var stype := sections[cur + 3];
      var headerSize := 4;
      if size == 0xFF_FFFF && cur + 4 + 4 < limit {
        size := Field(sections, cur + 4, 4);
        headerSize := 8;
      }
      if (size == 0xFF_FFFF && stype == 0xFF) || size == 0 {
        cur := Align(cur + 4, 4);
        continue;
      }
      return Some(Section(cur, stype, Slice(sections, cur, cur + size), headerSize, Align(size, 4)));
    }
    return None;
  }

  /** A section lies inside the data, at or after the search start. */
  lemma {:induction false} SectionInside(b: Data, limit: nat, cur: nat)
    requires limit <= |b|
    ensures var r := ScanSection(b, limit, cur);
            r.Some? ==> cur <= r.value.offset && r.value.offset + |r.value.image| <= |b| && r.value.headerSize >= 4
    decreases limit - cur
  {
    hide Field;
    if cur + 4 < limit {
      SectionInside(b, limit, Align(cur + 4, 4));
    }
  }

  /** The size a section header gives: extended when the short one is all ones and there is room for it. */
  ghost function SectionSize(b: Data, limit: nat, c: nat): nat
    requires c + 4 < limit <= |b|
  {
    if Field(b, c, 3) == 0xFF_FFFF && c + 8 < limit then Field(b, c + 4, 4) else Field(b, c, 3)
  }

  /** A header the search passes over: an empty section, or all ones. */
  ghost predicate PassedSection(b: Data, limit: nat, c: nat) {
    c + 4 < limit <= |b|
      && (SectionSize(b, limit, c) == 0 || (SectionSize(b, limit, c) == 0xFF_FFFF && b[c + 3] == 0xFF))
  }

  /** The offsets a search from cur looks at: its start, then multiples of 4. */
  predicate Tried(cur: nat, c: nat) {
    c == cur || (c % 4 == 0 && c >= Align(cur + 4, 4))
  }

  /** The search passes over every header before stop; there it returns the section or finds no room for a header. */
  ghost predicate SectionSearchEnds(b: Data, limit: nat, cur: nat, stop: nat, r: Option<Section>) {
    && cur <= stop && Tried(cur, stop)
    && (forall c :: cur <= c < stop && Tried(cur, c) ==> PassedSection(b, limit, c))
    && match r
       case None => stop + 4 >= limit
       case Some(s) =>
         && stop + 4 < limit <= |b| && !PassedSection(b, limit, stop)
         && s.offset == stop && s.stype == b[stop + 3] && s.image == Slice(b, stop, stop + SectionSize(b, limit, stop))
         && s.headerSize == (if Field(b, stop, 3) == 0xFF_FFFF && stop + 8 < limit then 8 else 4)
         && s.size == (SectionSize(b, limit, stop) + 3) / 4 * 4
  }

  /** Sound and complete: the first section that is neither empty nor all ones, or none before the end. */
  ghost predicate FirstSection(b: Data, limit: nat, cur: nat, r: Option<Section>) {
    exists stop :: SectionSearchEnds(b, limit, cur, stop, r)
  }

  lemma {:induction false} SectionComplete(b: Data, limit: nat, cur: nat) returns (stop: nat)
    requires limit <= |b|
    ensures SectionSearchEnds(b, limit, cur, stop, ScanSection(b, limit, cur))
    decreases limit - cur
  {
    hide Field, Slice;
    stop := cur;
    if cur + 4 < limit && PassedSection(b, limit, cur) {
      TriedNext(cur);
      stop := SectionComplete(b, limit, Align(cur + 4, 4));
    }
  }

  lemma TriedNext(cur: nat)
    ensures Align(cur + 4, 4) % 4 == 0 && cur < Align(cur + 4, 4)
    ensures forall c: nat :: Tried(cur, c) && c > cur ==> c >= Align(cur + 4, 4) && Tried(Align(cur + 4, 4), c)
    ensures forall c: nat :: Tried(Align(cur + 4, 4), c) && c >= Align(cur + 4, 4) ==> Tried(cur, c)
  {
    var n := Align(cur + 4, 4);
    assert n % 4 == 0;
    forall c: nat | Tried(cur, c) && c > cur && c != n
      ensures Tried(n, c)
    {
      assert Align(n + 4, 4) == n + 4;
    }
  }

  lemma NextSectionExact(b: Data, limit: nat, cur: nat)
    requires limit <= |b|
    ensures FirstSection(b, limit, cur, ScanSection(b, limit, cur))
  {
    hide SectionSearchEnds, ScanSection;
    var stop := SectionComplete(b, limit, cur);
  }

  // ---------------------------------------------------------------- assemblers

  function AlignImage(image: Data, size: nat, fill: Byte): Data
    requires size > 0
  {
    Ljust(image, (|image| + size - 1) / size * size, fill)
  }

  /** A 4-byte word with a 24-bit size and the given top byte. */
  function SizeWord(size: nat, top: Byte): Data {
    var low := And(size, 0xFF_FFFF);
    var word := Or(low, Shl(top, 24));
    if word < 0x1_0000_0000 then WordFits(word); Le(word, 4) else []
  }

  lemma WordFits(x: nat)
    requires x < 0x1_0000_0000
    ensures x < Pow256(4)
  {
    Pow256Values();
  }

  lemma LowBits(size: nat)
    ensures And(size, 0xFF_FFFF) == size % TWO24
  {
    hide And;
    Pow2Values();
    AndMaskAs(size, 0, 24, 0xFF_FFFF, 1, TWO24);
  }

  /** The word is the size modulo 2^24 in three bytes, then the top byte. */
  lemma SizeWordMeaning(size: nat, top: Byte)
    ensures |SizeWord(size, top)| == 4 && SizeWord(size, top)[3] == top
    ensures Field(SizeWord(size, top), 0, 3) == size % TWO24
  {
    hide And, Or, Le, Shl;
    Pow2Values();
    LowBits(size);
    var low := size % TWO24;
    assert Shl(top, 24) == top * TWO24 by { ShlIsTimes(top, 24); }
    DisjointHighLow(top * TWO24, low, 24);
    AndCommutes(low, top * TWO24);
    OrIsSum(low, top * TWO24);
    var word := low + top * TWO24;
    WordFits(word);
    SplitWord(Le(word, 4), low, top);
  }

  lemma SplitWord(w: Data, low: nat, top: Byte)
    requires |w| == 4 && FromLe(w) == low + top * TWO24 && low < TWO24
    ensures w[3] == top && Field(w, 0, 3) == low
  {
    FromLe4(w);
    FromLe3(w[0..3]);
  }

  /** assemble_uefi_raw */
  function AssembleRaw(image: Data): Data {
    AlignImage(SizeWord(|image| + 4, EFI_SECTION_RAW) + image, 8, 0x00)
  }

  /** assemble_uefi_section; the two header fields after the size are packed as 4 and 1 bytes. */
  function AssembleSection(image: Data, uncompressedSize: nat, compressionType: Byte): Data
    requires uncompressedSize < Pow256(4)
  {
    SizeWord(9 + |image|, EFI_SECTION_COMPRESSION) + Le(uncompressedSize, 4) + [compressionType] + image
  }

  /** assemble_uefi_file: State 0xF8 tops the size word; the checksum is over a zero state. */
  function AssembleFile(guid: Data, image: Data): Data
    requires |guid| == 16
  {
    var size := 24 + |image|;
    var unsigned := guid + [0, 0] + [EFI_FV_FILETYPE_FREEFORM, 0x40] + SizeWord(size, 0x00);
    var checksum := Or(Checksum8(unsigned), Shl(Checksum8(image), 8));
    guid + PackWord(checksum) + [EFI_FV_FILETYPE_FREEFORM, 0x40] + SizeWord(size, 0xF8) + image
  }

  function PackWord(x: nat): Data {
    if x < 0x1_0000 then WordFits2(x); Le(x, 2) else []
  }

  lemma WordFits2(x: nat)
    requires x < 0x1_0000
    ensures x < Pow256(2)
  {
    Pow256Values();
  }

  lemma ChecksumFits(a: Data, b: Data)
    ensures var c := Or(Checksum8(a), Shl(Checksum8(b), 8));
            && c < 0x1_0000 && |PackWord(c)| == 2
            && FromLe(PackWord(c)) == c
  {
    hide And, Or, Checksum8, Le, FromLe;
    Checksum8Meaning(a, 0);
    Checksum8Meaning(b, 0);
    JoinBytes(Checksum8(a), Checksum8(b));
    var c := Word(Checksum8(a), Checksum8(b));
    WordFits2(c);
  }

  // ---------------------------------------------------------------- parse undoes assemble

  lemma FieldPrefix(a: Data, b: Data, o: nat, n: nat)
    requires o + n <= |a|
    ensures Field(a + b, o, n) == Field(a, o, n)
  {
    assert (a + b)[o..o + n] == a[o..o + n];
  }

  lemma RawLength(image: Data)
    ensures var b := AssembleRaw(image);
            && |image| + 4 <= |b| < |image| + 12 && |b| % 8 == 0
            && b[..4] == SizeWord(|image| + 4, EFI_SECTION_RAW) && b[4..4 + |image|] == image
            && ((|image| + 4) % 8 == 0 ==> |b| == |image| + 4) && ((|image| + 5) % 8 == 0 ==> |b| == |image| + 5)
  {
    hide SizeWord, AlignImage;
    SizeWordMeaning(|image| + 4, EFI_SECTION_RAW);
    var word := SizeWord(|image| + 4, EFI_SECTION_RAW);
    AlignedTo8(word + image);
    WordThenImage(AssembleRaw(image), word, image);
  }

  lemma AlignedTo8(s: Data)
    ensures var b := AlignImage(s, 8, 0x00);
            && |s| <= |b| < |s| + 8 && |b| % 8 == 0 && b[..|s|] == s
            && (|s| % 8 == 0 ==> |b| == |s|) && ((|s| + 1) % 8 == 0 ==> |b| == |s| + 1)
  {
    Align8(|s|);
  }

  lemma WordThenImage(b: Data, word: Data, image: Data)
    requires |word| == 4 && |word + image| <= |b| && b[..|word + image|] == word + image
    ensures b[..4] == word && b[4..4 + |image|] == image
  {
    assert b[..|word + image|][..4] == b[..4];
    assert b[..|word + image|][4..] == b[4..4 + |image|];
  }

  /** The payload of a section. */
  function Payload(s: Section): Data {
    Slice(s.image, s.headerSize, |s.image|)
  }

  /** A raw section reads back as its image exactly when its length fits the 3-byte size field
      without being the marker for an extended size. */
  lemma RawRoundTrip(image: Data)
    ensures var b := AssembleRaw(image);
            var r := ScanSection(b, |b|, 0);
            (r.Some? && Payload(r.value) == image) <==> |image| + 4 < 0xFF_FFFF
    ensures |image| + 4 < 0xFF_FFFF ==>
              var r := ScanSection(AssembleRaw(image), |AssembleRaw(image)|, 0);
              r.Some? && r.value.offset == 0 && r.value.stype == EFI_SECTION_RAW && r.value.headerSize == 4
  {
    hide SizeWord, AssembleRaw, Field, Align;
    var b := AssembleRaw(image);
    RawLength(image);
    SizeWordMeaning(|image| + 4, EFI_SECTION_RAW);
    assert b == b[..4] + b[4..];
    FieldPrefix(b[..4], b[4..], 0, 3);
    assert b[3] == b[..4][3];
    var short := Field(b, 0, 3);
    if |image| + 4 < 0xFF_FFFF {
      assert short == |image| + 4;
      assert Slice(b, 0, short)[4..] == image;
    } else {
      OversizedFails(b, image);
    }
  }

  lemma ScanOnce(b: Data, cur: nat)
    requires cur + 8 < |b| && b[cur + 3] != 0xFF && cur % 4 == 0
    ensures var short := Field(b, cur, 3);
            var size := if short == 0xFF_FFFF then Field(b, cur + 4, 4) else short;
            ScanSection(b, |b|, cur) ==
            if size == 0 then ScanSection(b, |b|, cur + 4)
            else Some(Section(cur, b[cur + 3], Slice(b, cur, cur + size), if short == 0xFF_FFFF then 8 else 4,
              Align(size, 4)))
  {
    hide Field, Slice;
    assert Align(cur + 4, 4) == cur + 4;
  }

  lemma OversizedArithmetic(n: nat)
    requires n >= 0xFF_FFFF
    ensures n % TWO24 == 0 ==> n % 8 == 0
    ensures n % TWO24 == 0xFF_FFFF ==> (n + 1) % 8 == 0
    ensures n % TWO24 != 0xFF_FFFF ==> n % TWO24 < n
  {
    Eights(n / TWO24, n % TWO24);
  }

  lemma Eights(q: nat, r: nat)
    ensures r == 0 ==> (TWO24 * q + r) % 8 == 0
    ensures r == 0xFF_FFFF ==> (TWO24 * q + r + 1) % 8 == 0
  {
    DivModUnique(TWO24 * q, 8, 0x20_0000 * q, 0);
    DivModUnique(TWO24 * (q + 1), 8, 0x20_0000 * (q + 1), 0);
  }

  lemma OversizedFails(b: Data, image: Data)
    requires |image| + 4 >= 0xFF_FFFF && |image| + 4 <= |b|
    requires Field(b, 0, 3) == (|image| + 4) % TWO24 && b[3] == EFI_SECTION_RAW
    requires (|image| + 4) % 8 == 0 ==> |b| == |image| + 4
    requires (|image| + 5) % 8 == 0 ==> |b| == |image| + 5
    ensures var r := ScanSection(b, |b|, 0); r.Some? ==> |Payload(r.value)| < |image|
  {
    hide Field, Align, ScanSection;
    var short := Field(b, 0, 3);
    OversizedArithmetic(|image| + 4);
    ScanOnce(b, 0);
    SectionInside(b, |b|, 0);
    SectionInside(b, |b|, 4);
  }

  /** A compression section reads back with its two header fields in front of the image exactly when its length fits the
      3-byte size field without being the marker for an extended size. */
  lemma SectionRoundTrip(image: Data, uncompressedSize: nat, compressionType: Byte)
    requires uncompressedSize < Pow256(4)
    ensures var b := AssembleSection(image, uncompressedSize, compressionType);
            var r := ScanSection(b, |b|, 0);
            && ((r.Some? && Payload(r.value) == Le(uncompressedSize, 4) + [compressionType] + image)
               <==> |image| + 9 < 0xFF_FFFF)
            && (|image| + 9 < 0xFF_FFFF ==> r.value.stype == EFI_SECTION_COMPRESSION && r.value.image == b)
  {
    hide SizeWord, Field, Align, Le, ScanSection, Slice;
    var b := AssembleSection(image, uncompressedSize, compressionType);
    var rest := Le(uncompressedSize, 4) + [compressionType] + image;
    SizeWordMeaning(9 + |image|, EFI_SECTION_COMPRESSION);
    var word := SizeWord(9 + |image|, EFI_SECTION_COMPRESSION);
    assert b == word + rest;
    FieldPrefix(word, rest, 0, 3);
    assert b[3] == word[3];
    if |image| + 9 < 0xFF_FFFF {
      FirstScan(b);
      WholeSection(b);
      assert b[4..] == rest;
    } else {
      OversizedSection(b);
    }
  }

  lemma FirstScan(b: Data)
    requires 4 < |b| && b[3] != 0xFF && 0 < Field(b, 0, 3) != 0xFF_FFFF
    ensures ScanSection(b, |b|, 0) == Some(Section(0, b[3], Slice(b, 0, Field(b, 0, 3)), 4, Align(Field(b, 0, 3), 4)))
  {
    hide Field, Align;
  }

  lemma WholeSection(b: Data)
    requires |b| >= 4
    ensures Slice(b, 0, |b|) == b && Slice(b, 4, |b|) == b[4..]
  {
  }

  lemma OversizedSection(b: Data)
    requires |b| >= 0xFF_FFFF && Field(b, 0, 3) == |b| % TWO24 && b[3] == EFI_SECTION_COMPRESSION
    ensures var r := ScanSection(b, |b|, 0); r.Some? ==> |Payload(r.value)| < |b| - 4
  {
    hide Field, Align, ScanSection;
    OversizedArithmetic(|b|);
    ScanOnce(b, 0);
    SectionInside(b, |b|, 0);
    SectionInside(b, |b|, 4);
  }

  lemma SameLow(size: nat, a: Byte, b: Byte)
    ensures |SizeWord(size, a)| == 4 && |SizeWord(size, b)| == 4
    ensures SizeWord(size, a) == SizeWord(size, b)[..3] + [a]
  {
    hide SizeWord;
    SizeWordMeaning(size, a);
    SizeWordMeaning(size, b);
    LeFromLe(SizeWord(size, a)[0..3]);
    LeFromLe(SizeWord(size, b)[0..3]);
  }

  /** The parts of an assembled file. */
  lemma AssembledParts(guid: Data, image: Data)
    requires |guid| == 16
    ensures var b := AssembleFile(guid, image);
            var size := 24 + |image|;
            var unsigned := guid + [0, 0] + [EFI_FV_FILETYPE_FREEFORM, 0x40] + SizeWord(size, 0x00);
            && |b| == size && b[..16] == guid && b[24..] == image
            && b[18] == EFI_FV_FILETYPE_FREEFORM && b[19] == 0x40 && b[23] == 0xF8
            && Field(b, 20, 3) == size % TWO24
            && Field(b, 16, 2) == Or(Checksum8(unsigned), Shl(Checksum8(image), 8))
            && b[..16] + [0, 0] + b[18..23] + [0] == unsigned
  {
    hide SizeWord, PackWord, Checksum8, Or, Shl, FromLe;
    var size := 24 + |image|;
    var unsigned := guid + [0, 0] + [EFI_FV_FILETYPE_FREEFORM, 0x40] + SizeWord(size, 0x00);
    ChecksumFits(unsigned, image);
    var sum := PackWord(Or(Checksum8(unsigned), Shl(Checksum8(image), 8)));
    var word := SizeWord(size, 0xF8);
    SizeWordMeaning(size, 0xF8);
    SameLow(size, 0x00, 0xF8);
    var b := AssembleFile(guid, image);
    assert b == guid + sum + [EFI_FV_FILETYPE_FREEFORM, 0x40] + word + image;
    assert b[16..18] == sum;
    assert b[20..23] == word[0..3];
    assert b[18..23] == [EFI_FV_FILETYPE_FREEFORM, 0x40] + word[..3];
  }

  lemma StateIsValid()
    ensures Accepted(0xF8, true) && !UpdateOrDeleted(0xF8, true) && !IsLarge(0x40)
            && And(0x40, FFS_ATTRIB_CHECKSUM) != 0
  {
    hide And, AndNot;
    StateBits();
    AttributeBits();
  }

  lemma StateBits()
    ensures AndNot(0x04, 0xF8) == 0x04 && AndNot(0x08, 0xF8) == 0 && AndNot(0x10, 0xF8) == 0
  {
    assert AndNot(0x01, 0x3E) == 1 && AndNot(0x01, 0x1F) == 0 && AndNot(0x01, 0x0F) == 0;
    assert AndNot(0x02, 0x7C) == 2 && AndNot(0x02, 0x3E) == 0 && AndNot(0x02, 0x1F) == 0;
    assert AndNot(0x04, 0x7C) == 0 && AndNot(0x04, 0x3E) == 0 && AndNot(0x08, 0x7C) == 0;
  }

  lemma AttributeBits()
    ensures And(0x40, 0x01) == 0 && And(0x40, 0x40) == 0x40
  {
  }

  lemma FreeformNotBlank(header: Data)
    requires |header| == 24 && header[18] == EFI_FV_FILETYPE_FREEFORM
    ensures !BlankHeader(header, true)
  {
    assert Repeat(0xFF, FILE_HEADER_SIZE)[18] == 0xFF;
  }

  /** The file record made of an assembled file's own bytes. */
  lemma ParsedFile(guid: Data, image: Data)
    requires |guid| == 16 && image != []
    ensures var b := AssembleFile(guid, image);
            && |b| > 24
            && var f := FileFrom(b[0..24], b, 0, |b|, true);
               && f.offset == 0 && f.size == |b| && f.guid == guid && f.image == b && f.headerSize == 24
               && f.ftype == EFI_FV_FILETYPE_FREEFORM && !f.updateOrDeleted && f.checksum == f.calcSum
  {
    hide AssembleFile, SizeWord, Checksum8, Or, Shl, And, FromLe, Accepted, IsLarge, UpdateOrDeleted;
    var b := AssembleFile(guid, image);
    AssembledParts(guid, image);
    StateIsValid();
    var header := b[0..24];
    assert header[..16] == guid && header[..16] == b[..16] && header[18..23] == b[18..23];
    assert header[16..18] == b[16..18];
    assert Slice(b, 24, |b|) == image;
  }

  /** Parsing an assembled file gives back its GUID, bytes and a matching checksum, exactly when the
      file is not empty and fits the 3-byte size. */
  lemma FileRoundTrip(guid: Data, image: Data)
    requires |guid| == 16
    ensures var b := AssembleFile(guid, image);
            var r := NextFile(b, |b|, 0, true);
            && ((r.Some? && r.value.offset == 0 && r.value.size == |b|) <==> (image != [] && |b| < TWO24))
            && (image != [] && |b| < TWO24 ==>
                  && r.Some? && r.value.guid == guid && r.value.image == b && r.value.headerSize == 24
                  && r.value.ftype == EFI_FV_FILETYPE_FREEFORM && !r.value.updateOrDeleted
                  && r.value.checksum == r.value.calcSum)
  {
    hide AssembleFile, SizeWord, Checksum8, Or, Shl, And, Field, BlankHeader, Accepted, IsLarge, NextFile, FileFrom;
    hide Slice, Pow256;
    var b := AssembleFile(guid, image);
    AssembledParts(guid, image);
    if image == [] {
      ScanTooShort(b);
    } else {
      StateIsValid();
      FreeformNotBlank(b[..24]);
      ScanFirst(b);
      ParsedFile(guid, image);
      var s := Field(b, 20, 3);
      if |b| >= TWO24 {
        FromOffset(b[0..24], Slice(b, 0, s), 0, s, true);
      } else {
        WholeSection(b);
      }
    }
  }

  /** From image to file and back: a raw section in a file, parsed as a file and then as a section, gives the GUID,
      a matching checksum and the image, exactly when the file fits the 3-byte size. */
  lemma AssembleThenParse(guid: Data, image: Data)
    requires |guid| == 16
    ensures var b := AssembleFile(guid, AssembleRaw(image));
            var f := NextFile(b, |b|, 0, true);
            && ((f.Some? && f.value.offset == 0 && f.value.size == |b|) <==> |b| < TWO24)
            && (|b| < TWO24 ==>
                  && f.value.guid == guid && f.value.checksum == f.value.calcSum
                  && var body := Slice(f.value.image, f.value.headerSize, |f.value.image|);
                     var s := ScanSection(body, |body|, 0);
                     s.Some? && s.value.stype == EFI_SECTION_RAW && Payload(s.value) == image)
  {
    hide AssembleFile, AssembleRaw, NextFile, ScanSection, Payload;
    var raw := AssembleRaw(image);
    var b := AssembleFile(guid, raw);
    RawLength(image);
    AssembledParts(guid, raw);
    FileRoundTrip(guid, raw);
    RawRoundTrip(image);
    assert Slice(b, 24, |b|) == b[24..];
  }

  lemma ScanTooShort(b: Data)
    requires |b| <= 24
    ensures NextFile(b, |b|, 0, true).None?
  {
  }

  lemma ScanFirst(b: Data)
    requires |b| > 24 && !BlankHeader(b[..24], true) && Accepted(b[23], true) && !IsLarge(b[19])
    ensures var s := Field(b, 20, 3);
            NextFile(b, |b|, 0, true) ==
            if s == 0 || s > |b| then None else Some(FileFrom(b[0..24], Slice(b, 0, s), 0, s, true))
  {
    hide BlankHeader, Accepted, IsLarge, FromLe, FileFrom, Slice;
    assert b[0..24] == b[..24];
  }
}
