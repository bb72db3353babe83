/** Looking an address up in memory without the index, and rewriting one entry of it. */
module DirectWalk {
  import opened Bits
  import opened Options
  import opened Translation
  import opened PageTables
  import opened WalkIndex

  /** The dictionary read_entry_by_virt_addr returns, or the exception it raises. */
  datatype EntryResult = Entry(addr: nat, attr: string, size: Option<PageSize>) | Raised

  const NOT_MAPPED: EntryResult := Entry(0, "", None)

  /** read_entry_by_virt_addr. An index past the end of a collapsed table raises, like any failed read. */
  function ReadEntryByVirtAddr(m: Machine, pointer: Option<nat>, virt: nat): EntryResult {
    if pointer.None? then Raised else
    var pml4 := Entries(m, pointer.value);
    var i4 := GetField(virt, 0x1FF, 39);
    if pml4.None? || i4 >= |pml4.value| then Raised else
    var pml4e := pml4.value[i4];
    if !IsPresent(m.flavour, pml4e) then NOT_MAPPED else InPdpt(m, And(pml4e, ADDR_4KB), virt)
  }

  function InPdpt(m: Machine, table: nat, virt: nat): EntryResult {
    var pdpt := Entries(m, table);
    var i3 := GetField(virt, 0x1FF, 30);
    if pdpt.None? || i3 >= |pdpt.value| then Raised else
    var pdpte := pdpt.value[i3];
    if !IsPresent(m.flavour, pdpte) then NOT_MAPPED else
    if IsBigPage(m.flavour, pdpte) then
      Entry(Or(And(pdpte, ADDR_1GB), AndNot(virt, ADDR_1GB)), GetAttr(m.flavour, pdpte), Some(GB1)) else
    InPd(m, And(pdpte, ADDR_4KB), virt)
  }

  function InPd(m: Machine, table: nat, virt: nat): EntryResult {
    var pd := Entries(m, table);
    var i2 := GetField(virt, 0x1FF, 21);
    if pd.None? || i2 >= |pd.value| then Raised else
    var pde := pd.value[i2];
    if !IsPresent(m.flavour, pde) then NOT_MAPPED else
    if IsBigPage(m.flavour, pde) then
      Entry(Or(And(pde, ADDR_2MB), AndNot(virt, ADDR_2MB)), GetAttr(m.flavour, pde), Some(MB2)) else
    InPt(m, And(pde, ADDR_4KB), virt)
  }

  function InPt(m: Machine, table: nat, virt: nat): EntryResult {
    var pt := Entries(m, table);
    var i1 := GetField(virt, 0x1FF, 12);
    if pt.None? || i1 >= |pt.value| then Raised else
    var pte := pt.value[i1];
    if !IsPresent(m.flavour, pte) then NOT_MAPPED else
    Entry(Or(And(pte, ADDR_4KB), AndNot(virt, ADDR_4KB)), GetAttr(m.flavour, pte), Some(KB4))
  }

  /** Some table on the path cannot be read, so the hardware-style walk stops there too. */
  ghost predicate UnreadableOnPath(m: Machine, level: nat, table: nat, va: nat)
    requires 1 <= level <= 4
    decreases level
  {
    match Fetch(m, table)
    case None => true
    case Some(t) =>
      var s := Decode(m.flavour, level, t[Index(level, va)]);
      s.Child? && UnreadableOnPath(m, level - 1, s.table, va)
  }

  /** What the lookup below a table must return: the walk's page, with virt's bits 52 and up kept. */
  ghost function Expected(m: Machine, level: nat, table: nat, va: nat): EntryResult
    requires 1 <= level <= 4
  {
    if CollapsedOnPath(m, level, table, va) || UnreadableOnPath(m, level, table, va) then Raised
    else
      match Walk(m, level, table, va)
      case None => Entry(0, "", None)
      case Some(p) => Entry(p.addr + va % Bytes(p.size) + va / TWO52 * TWO52, p.attr, Some(p.size))
  }

  ghost function ExpectedStep(m: Machine, level: nat, table: nat, va: nat): EntryResult
    requires 1 <= level <= 4
  {
    var es := Entries(m, table);
    if es.None? || Index(level, va) >= |es.value| then Raised
    else
      match Decode(m.flavour, level, es.value[Index(level, va)])
      case Absent => NOT_MAPPED
      case Leaf(p) => Entry(p.addr + va % Bytes(p.size) + va / TWO52 * TWO52, p.attr, Some(p.size))
      case Child(a) => Expected(m, level - 1, a, va)
  }

  lemma ExpectedUnfolds(m: Machine, level: nat, table: nat, va: nat)
    requires 1 <= level <= 4
    ensures Expected(m, level, table, va) == ExpectedStep(m, level, table, va)
  {
    hide And, Fetch, Decode, Index, Bytes;
    var t := Fetch(m, table);
    if t.Some? {
      var s := Decode(m.flavour, level, t.value[Index(level, va)]);
    }
  }

  lemma JoinPhysical(entry: Qword, virt: nat)
    ensures Or(And(entry, ADDR_4KB), AndNot(virt, ADDR_4KB)) == And(entry, ADDR_4KB) + virt % 0x1000
            + virt / TWO52 * TWO52
    ensures Or(And(entry, ADDR_2MB), AndNot(virt, ADDR_2MB)) == And(entry, ADDR_2MB) + virt % 0x20_0000
            + virt / TWO52 * TWO52
    ensures Or(And(entry, ADDR_1GB), AndNot(virt, ADDR_1GB)) == And(entry, ADDR_1GB) + virt % 0x4000_0000
            + virt / TWO52 * TWO52
  {
    hide And, Or, AndNot;
    PhysicalMasks(virt);
    JoinMasked(entry, virt, ADDR_4KB);
    JoinMasked(entry, virt, ADDR_2MB);
    JoinMasked(entry, virt, ADDR_1GB);
  }

  lemma InPtIsWalk(m: Machine, table: nat, virt: nat)
    ensures InPt(m, table, virt) == Expected(m, 1, table, virt)
  {
    hide And, Or, AndNot, Fetch, IsPresent, IsBigPage, GetAttr, Entries, GetField, Index, Expected;
    FieldIsIndex(1, virt);
    ExpectedUnfolds(m, 1, table, virt);
    var es := Entries(m, table);
    if es.Some? && Index(1, virt) < |es.value| {
      JoinPhysical(es.value[Index(1, virt)], virt);
    }
  }

  lemma InPdIsWalk(m: Machine, table: nat, virt: nat)
    ensures InPd(m, table, virt) == Expected(m, 2, table, virt)
  {
    hide And, Or, AndNot, Fetch, IsPresent, IsBigPage, GetAttr, Entries, GetField, Index, Expected, InPt;
    FieldIsIndex(2, virt);
    ExpectedUnfolds(m, 2, table, virt);
    var es := Entries(m, table);
    if es.Some? && Index(2, virt) < |es.value| {
      JoinPhysical(es.value[Index(2, virt)], virt);
      InPtIsWalk(m, And(es.value[Index(2, virt)], ADDR_4KB), virt);
    }
  }

  lemma InPdptIsWalk(m: Machine, table: nat, virt: nat)
    ensures InPdpt(m, table, virt) == Expected(m, 3, table, virt)
  {
    hide And, Or, AndNot, Fetch, IsPresent, IsBigPage, GetAttr, Entries, GetField, Index, Expected, InPd;
    FieldIsIndex(3, virt);
    ExpectedUnfolds(m, 3, table, virt);
    var es := Entries(m, table);
    if es.Some? && Index(3, virt) < |es.value| {
      JoinPhysical(es.value[Index(3, virt)], virt);
      InPdIsWalk(m, And(es.value[Index(3, virt)], ADDR_4KB), virt);
    }
  }

  /** read_entry_by_virt_addr is the hardware walk, except that it raises exactly when a table on
      the path is unreadable or collapsed past its entry 0. */
  lemma ReadEntryIsWalk(m: Machine, root: nat, virt: nat)
    ensures ReadEntryByVirtAddr(m, Some(root), virt) == Expected(m, 4, root, virt)
  {
    hide And, Or, AndNot, Fetch, IsPresent, IsBigPage, GetAttr, Entries, GetField, Index, Expected, InPdpt;
    FieldIsIndex(4, virt);
    ExpectedUnfolds(m, 4, root, virt);
    var es := Entries(m, root);
    if es.Some? && Index(4, virt) < |es.value| {
      InPdptIsWalk(m, And(es.value[Index(4, virt)], ADDR_4KB), virt);
    }
  }

  /** Both lookups agree in the low 52 bits wherever the direct one does not raise. */
  lemma LookupsAgree(m: Machine, root: nat, d: Dict, va: nat)
    requires d.at == TablePages(m, 4, root, 0, map[]) && |d.at| > 0 && va < TWO64
    requires IsCanonical(m.flavour, va)
    ensures var e := ReadEntryByVirtAddr(m, Some(root), va);
            e.Entry? ==>
              match d.GetTranslation(va)
              case None => e == NOT_MAPPED
              case Some(pa) => e.size.Some? && pa < TWO52 && e.addr % TWO52 == pa
  {
    hide And, Or, AndNot, Fetch, TablePages, Walk, IndexedWalk, CollapsedOnPath, UnreadableOnPath, ReadEntryByVirtAddr;
    hide Dict.GetTranslation;
    ReadEntryIsWalk(m, root, va);
    TranslationAgrees(m, root, d, va);
    if Expected(m, 4, root, va).Entry? && Walk(m, 4, root, va).Some? {
      CollapseLoses(m, 4, root, va);
      WalkSamePage(m, 4, root, va, va);
      var p := Walk(m, 4, root, va).value;
      DivModUnique(p.addr + va % Bytes(p.size) + va / TWO52 * TWO52, TWO52, va / TWO52, p.addr + va % Bytes(p.size));
    }
  }

  // ---------------------------------------------------------------- map_bigpage_1G

  lemma BigPageEntryBits(entry: Qword, i: nat, n: nat)
    requires i < 512
    ensures var s := Shl(i, 30);
            Bit(BigPageEntry(entry, i), n) == (((Bit(entry, n) || Bit(0x87, n)) && !Bit(ADDR_4KB, n)) || Bit(s, n))
  {
    hide Bit, Or, AndNot, And, Shl;
    BitOps(entry, 0x87, n);
    BitOps(Or(entry, 0x87), ADDR_4KB, n);
    BitOps(AndNot(Or(entry, 0x87), ADDR_4KB), Shl(i, 30), n);
  }

  lemma ShiftedMask(i: nat)
    requires i < 512
    ensures And(Shl(i, 30), ADDR_1GB) == Shl(i, 30)
  {
    hide And, Shl;
    ShlIsTimes(i, 30);
    Pow2Values();
    PhysicalMasks(Shl(i, 30));
    DivModUnique(i * 0x4000_0000, 0x4000_0000, i, 0);
  }

  lemma MaskInMask()
    ensures And(ADDR_1GB, ADDR_4KB) == ADDR_1GB
  {
    hide And;
    PhysicalMasks(ADDR_1GB);
  }

  lemma BigPageAddress(entry: Qword, i: nat)
    requires i < 512
    ensures And(BigPageEntry(entry, i), ADDR_1GB) == Shl(i, 30)
  {
    hide Bit, Or, AndNot, And, BigPageEntry, Shl;
    var s, e := Shl(i, 30), BigPageEntry(entry, i);
    ShiftedMask(i);
    MaskInMask();
    forall n: nat
      ensures Bit(And(e, ADDR_1GB), n) == Bit(s, n)
    {
      BigPageEntryBits(entry, i, n);
      BitOps(e, ADDR_1GB, n);
      BitOps(s, ADDR_1GB, n);
      BitOps(ADDR_1GB, ADDR_4KB, n);
    }
    SameBits(And(e, ADDR_1GB), s);
  }

  lemma BigPageFlags(entry: Qword, i: nat)
    requires i < 512
    ensures var e := BigPageEntry(entry, i); e < TWO64 && IsPresent(Ept, e) && IsBigPage(Ept, e)
  {
    hide Or, AndNot, And, Shl, Shr;
    var e := BigPageEntry(entry, i);
    assert Bit(0x87, 0) && Bit(0x87, 7) && !Bit(ADDR_4KB, 0) && !Bit(ADDR_4KB, 7);
    BigPageEntryBits(entry, i, 0);
    BigPageEntryBits(entry, i, 7);
    BitOps(e, 0x7, 0);
    ZeroHasNoBits(0);
    ShrIsDiv(e, 0);
    BitOfShr(e, 7);
    Pow2Values();
    AndMaskAs(Shr(e, 7), 0, 1, 1, 1, 2);
    BigPageBelow(entry, i);
  }

  ghost function AfterWrite(m: Machine, page: nat, i: nat, q: Qword): Machine
    requires page in m.mem && i < 512
  {
    m.(mem := Written(m.mem, page, i, q))
  }

  /** The walk of va reads qword i of a physical page. */
  ghost predicate UsesQword(m: Machine, level: nat, table: nat, va: nat, page: nat, i: nat)
    requires 1 <= level <= 4
    decreases level
  {
    match Fetch(m, table)
    case None => false
    case Some(t) =>
      (m.level2.GetTranslation(table) == Some(page) && Index(level, va) == i) ||
      var s := Decode(m.flavour, level, t[Index(level, va)]);
      s.Child? && UsesQword(m, level - 1, s.table, va, page, i)
  }

  /** Overwriting a qword changes no walk that does not read it. */
  lemma {:induction false} OtherWalksKept(m: Machine, level: nat, table: nat, va: nat, page: nat, i: nat, q: Qword)
    requires 1 <= level <= 4 && page in m.mem && i < 512
    requires !UsesQword(m, level, table, va, page, i)
    ensures Walk(AfterWrite(m, page, i, q), level, table, va) == Walk(m, level, table, va)
    decreases level
  {
    hide And, Decode, Index, Dict.GetTranslation;
    var t := Fetch(m, table);
    if t.Some? {
      var s := Decode(m.flavour, level, t.value[Index(level, va)]);
      if s.Child? {
        OtherWalksKept(m, level - 1, s.table, va, page, i, q);
      }
    }
  }

  /** After map_bigpage_1G(virt, i), every address with virt's PML4 index and PDPT index i maps to
      i << 30 plus its offset, when the PDPT is not second-level translated and the write did not
      land on the PML4 entry itself. */
  lemma BigPageMapped(m: Machine, root: nat, virt: nat, i: nat, va: nat)
    requires m.flavour.Ept? && i < 512
    requires BigPageTarget(m, Some(root), virt, i).Writes?
    requires Index(4, va) == Index(4, virt) && Index(3, va) == i
    requires var pdpt := BigPageTarget(m, Some(root), virt, i).pdpt;
             && m.level2.GetTranslation(pdpt) == Some(pdpt)
             && !(m.level2.GetTranslation(root) == Some(pdpt) && Index(4, virt) == i)
    ensures var pdpt := BigPageTarget(m, Some(root), virt, i).pdpt;
            var q := BigPageEntry(Entries(m, pdpt).value[i], i);
            && q < TWO64
            && Walk(AfterWrite(m, pdpt, i, q), 4, root, va) == Some(Page(i * 0x4000_0000, GB1, GetAttr(Ept, q)))
  {
    hide And, Or, AndNot, Index, IsPresent, IsBigPage, GetAttr, BigPageEntry, Uniform, Dict.GetTranslation;
    var pdpt := BigPageTarget(m, Some(root), virt, i).pdpt;
    var e := Entries(m, pdpt).value[i];
    var q := BigPageEntry(e, i);
    BigPageFlags(e, i);
    BigPageAddress(e, i);
    Pow2Values();
    var m' := AfterWrite(m, pdpt, i, q);
    assert Decode(Ept, 3, q) == Leaf(Page(i * 0x4000_0000, GB1, GetAttr(Ept, q)));
    assert Fetch(m', pdpt).value[i] == q;
    assert Walk(m', 3, pdpt, va) == Some(Page(i * 0x4000_0000, GB1, GetAttr(Ept, q)));
    var t, t' := Fetch(m, root).value, Fetch(m', root).value;
    assert t'[Index(4, va)] == t[Index(4, va)];
    assert Decode(Ept, 4, t[Index(4, va)]) == Child(pdpt);
  }
}
