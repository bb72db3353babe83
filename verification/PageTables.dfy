/** The 4-level page-table reader: c_4level_page_tables with its IA-32e and EPT variants. */
module PageTables {
  import opened Bits
  import opened Options
  import opened Translation

  type Qword = x: nat | x < 0x1_0000_0000_0000_0000
  type Table = t: seq<Qword> | |t| == 512 witness seq(512, _ => 0)

  /** Which class decodes entries: c_4level_page_tables, c_ia32e_page_tables, c_extended_page_tables. */
  datatype Flavour = Plain | Ia32e | Ept

  /** Physical memory as pages of 512 qwords; accessing a page that is not there raises. */
  type Memory = m: map<nat, Table> | forall a :: a in m ==> a % 0x1000 == 0

  datatype Machine = Machine(flavour: Flavour, mem: Memory, level2: Dict)

  const MASK_64B: nat := 0xFFFF_FFFF_FFFF_FFFF
  const TWO48: nat := 0x1_0000_0000_0000
  const TWO47: nat := 0x8000_0000_0000

  // ---------------------------------------------------------------- entries and addresses

  function GetField(entry: nat, mask: nat, offset: nat): nat {
    And(Shr(entry, offset), mask)
  }

  function SetField(value: nat, mask: nat, offset: nat): nat {
    Shl(And(value, mask), offset)
  }

  predicate IsPresent(fl: Flavour, entry: Qword) {
    match fl
    case Plain => And(entry, 0x1) != 0
    case Ia32e => GetField(entry, 0x1, 0) != 0
    case Ept => GetField(entry, 0x7, 0) != 0
  }

  predicate IsBigPage(fl: Flavour, entry: Qword) {
    match fl
    case Plain => And(entry, 0x80) != 0
    case Ia32e => GetField(entry, 0x1, 7) != 0
    case Ept => GetField(entry, 0x1, 7) != 0
  }

  const XWR_DESC: seq<string> := ["---", "--R", "-W-", "-WR", "X--", "X-R", "XW-", "XWR"]
  const MEM_DESC: seq<string> := ["UC", "WC", "02", "03", "WT", "WP", "WB", "UC-"]

  /** A field of a given width is the shifted entry modulo a power of two. */
  lemma FieldMeaning(entry: nat, width: nat, offset: nat, mask: nat, size: nat, unit: nat)
    requires size == Pow2(width) && mask == size - 1 && unit == Pow2(offset)
    ensures GetField(entry, mask, offset) == entry / unit % size
  {
    ShrIsDiv(entry, offset);
    AndMaskAs(Shr(entry, offset), 0, width, mask, 1, size);
  }

  function GetAttr(fl: Flavour, entry: Qword): (attr: string)
    ensures attr != ""
  {
    match fl
    case Plain => (if And(entry, 0x2) != 0 then "W" else "R") + (if And(entry, 0x4) != 0 then "U" else "S")
    case Ia32e =>
      (if GetField(entry, 0x1, 1) == 0 then "R" else "W") + " " + (if GetField(entry, 0x1, 2) == 0 then "S" else "U")
    case Ept =>
      Pow2Values();
      FieldMeaning(entry, 3, 0, 7, 8, 1);
      FieldMeaning(entry, 3, 3, 7, 8, 8);
      XWR_DESC[GetField(entry, 0x7, 0)] + " " + MEM_DESC[GetField(entry, 0x7, 3)]
  }

  function GetCanonical(fl: Flavour, va: nat): nat {
    var msb := if fl.Ept? then 63 else 47;
    var mask := And(Shl(MASK_64B, msb + 1), MASK_64B);
    if And(Shr(va, msb), 0x1) != 0 then Or(va, mask) else va
  }

  function GetVirtAddr(i4: nat, i3: nat, i2: nat, i1: nat): nat {
    Or(Or(Or(SetField(i4, 0x1FF, 39), SetField(i3, 0x1FF, 30)), SetField(i2, 0x1FF, 21)), SetField(i1, 0x1FF, 12))
  }

  // ---------------------------------------------------------------- what they mean

  /** Bytes of virtual space one entry of a level-n table spans; level 4 is the PML4, level 1 the PT. */
  ghost function Span(level: nat): (bytes: nat)
    requires 1 <= level <= 4
    ensures bytes > 0
  {
    if level == 1 then 0x1000 else if level == 2 then 0x20_0000
    else if level == 3 then 0x4000_0000 else 0x80_0000_0000
  }

  ghost function Index(level: nat, va: nat): (i: nat)
    requires 1 <= level <= 4
    ensures i < 512
  {
    va / Span(level) % 512
  }

  function IndexOffset(level: nat): nat
    requires 1 <= level <= 4
  {
    if level == 1 then 12 else if level == 2 then 21 else if level == 3 then 30 else 39
  }

  /** Masking a 9-bit field out of an address gives the table index of that level. */
  lemma FieldIsIndex(level: nat, va: nat)
    requires 1 <= level <= 4
    ensures GetField(va, 0x1FF, IndexOffset(level)) == Index(level, va)
  {
    hide GetField;
    Pow2Values();
    FieldMeaning(va, 9, IndexOffset(level), 0x1FF, 512, Span(level));
  }

  ghost function Canon(fl: Flavour, va: nat): nat {
    if fl.Ept? || va < TWO47 then va else va + 0xFFFF_0000_0000_0000
  }

  /** Addresses a 48-bit address can be extended to; all others are non-canonical. */
  ghost predicate IsCanonical(fl: Flavour, va: nat) {
    va == Canon(fl, va % TWO48)
  }

  lemma CanonicalMask(msb: nat)
    requires msb == 47 || msb == 63
    ensures And(Shl(MASK_64B, msb + 1), MASK_64B) == if msb == 47 then 0xFFFF_0000_0000_0000 else 0
  {
    hide And;
    Pow2Values();
    AndMaskAs(Shl(MASK_64B, msb + 1), 0, 64, MASK_64B, 1, TWO64);
  }

  /** get_canonical sign-extends from bit 47, and leaves guest-physical addresses alone. */
  lemma CanonicalMeaning(fl: Flavour, va: nat)
    requires va < TWO48
    ensures GetCanonical(fl, va) == Canon(fl, va)
  {
    hide And, Or, Shr, Shl;
    var msb := if fl.Ept? then 63 else 47;
    CanonicalMask(msb);
    Pow2Values();
    ShrIsDiv(va, msb);
    AndMaskAs(Shr(va, msb), 0, 1, 1, 1, 2);
    if !fl.Ept? {
      Canonical47(va);
    }
  }

  lemma Canonical47(va: nat)
    requires va < TWO48
    ensures Or(va, 0xFFFF_0000_0000_0000) == va + 0xFFFF_0000_0000_0000
  {
    hide And, Or;
    Pow2Values();
    DisjointHighLow(0xFFFF_0000_0000_0000, va, 48);
    AndCommutes(va, 0xFFFF_0000_0000_0000);
    OrIsSum(va, 0xFFFF_0000_0000_0000);
  }

  /** The four index fields are disjoint, so or-ing them adds them. */
  lemma VirtAddrMeaning(i4: nat, i3: nat, i2: nat, i1: nat)
    requires i4 < 512 && i3 < 512 && i2 < 512 && i1 < 512
    ensures GetVirtAddr(i4, i3, i2, i1) == i4 * 0x80_0000_0000 + i3 * 0x4000_0000 + i2 * 0x20_0000 + i1 * 0x1000
  {
    hide And, Or;
    FieldKept(i4);
    FieldKept(i3);
    FieldKept(i2);
    FieldKept(i1);
    Pow2Values();
    var a := i4 * 0x80_0000_0000;
    var b := a + i3 * 0x4000_0000;
    var c := b + i2 * 0x20_0000;
    OrHighLow(a, i3 * 0x4000_0000, 39);
    OrHighLow(b, i2 * 0x20_0000, 30);
    OrHighLow(c, i1 * 0x1000, 21);
  }

  lemma FieldKept(i: nat)
    requires i < 512
    ensures And(i, 0x1FF) == i
  {
    hide And;
    Pow2Values();
    AndMaskAs(i, 0, 9, 0x1FF, 1, 512);
  }

  // ---------------------------------------------------------------- tables

  /** What one table entry says: nothing, a page, or the next table. */
  datatype Slot = Absent | Leaf(page: Page) | Child(table: nat)

  ghost function Decode(fl: Flavour, level: nat, entry: Qword): (s: Slot)
    requires 1 <= level <= 4
    ensures s.Child? ==> level > 1
  {
    if !IsPresent(fl, entry) then Absent
    else if level == 1 then Leaf(Page(And(entry, ADDR_4KB), KB4, GetAttr(fl, entry)))
    else if level == 2 && IsBigPage(fl, entry) then Leaf(Page(And(entry, ADDR_2MB), MB2, GetAttr(fl, entry)))
    else if level == 3 && IsBigPage(fl, entry) then Leaf(Page(And(entry, ADDR_1GB), GB1, GetAttr(fl, entry)))
    else Child(And(entry, ADDR_4KB))
  }

  lemma MaskedIsAligned(entry: nat, size: nat)
    requires size == 0x1000 || size == 0x20_0000 || size == 0x4000_0000
    ensures var a := entry % TWO52 - entry % size; a >= 0 && a % size == 0 && a + size <= TWO52
  {
    RoundDown(entry, size, TWO52 / size);
  }

  /** A page entry of level n spans exactly its page size, and its address is aligned to it. */
  lemma LeafAligned(fl: Flavour, level: nat, entry: Qword)
    requires 1 <= level <= 4
    ensures var s := Decode(fl, level, entry);
            s.Leaf? ==> Aligned(s.page) && level < 4 && Bytes(s.page.size) == Span(level)
  {
    hide And, IsPresent, IsBigPage, GetAttr;
    PhysicalMasks(entry);
    if level < 4 {
      MaskedIsAligned(entry, Span(level));
    }
  }

  /** The 512 entries behind a table address, through second-level translation. */
  function Fetch(m: Machine, addr: nat): Option<Table> {
    var phys := m.level2.GetTranslation(addr);
    if phys.Some? && phys.value in m.mem then Some(m.mem[phys.value]) else None
  }

  predicate Uniform(t: Table) {
    forall i :: 0 <= i < 512 ==> t[i] == t[0]
  }

  /** read_entries: a table of 512 equal entries comes back as a single entry. */
  function Entries(m: Machine, addr: nat): (r: Option<seq<Qword>>)
    ensures r.Some? ==> 1 <= |r.value| <= 512
  {
    match Fetch(m, addr)
    case None => None
    case Some(t) => Some(if Uniform(t) then [t[0]] else t)
  }

  /** The page a full 512-entry walk maps va to, as the hardware does it. */
  ghost function Walk(m: Machine, level: nat, table: nat, va: nat): Option<Page>
    requires 1 <= level <= 4
  {
    match Fetch(m, table)
    case None => None
    case Some(t) =>
      match Decode(m.flavour, level, t[Index(level, va)])
      case Absent => None
      case Leaf(p) => Some(p)
      case Child(a) => Walk(m, level - 1, a, va)
  }

  // ---------------------------------------------------------------- what the reader records

  /** The index after the first n entries of a table are read on top of idx; the first entry maps address va. */
  ghost function Pages(m: Machine, level: nat, es: seq<Qword>, va: nat, n: nat, idx: map<nat, Page>): map<nat, Page>
    requires 1 <= level <= 4 && n <= |es|
    decreases level, 1, n
  {
    if n == 0 then idx
    else EntryPages(m, level, es[n - 1], va + (n - 1) * Span(level), Pages(m, level, es, va, n - 1, idx))
  }

  ghost function EntryPages(m: Machine, level: nat, entry: Qword, va: nat, idx: map<nat, Page>): map<nat, Page>
    requires 1 <= level <= 4
    decreases level, 0, 0
  {
    match Decode(m.flavour, level, entry)
    case Absent => idx
    case Leaf(p) => idx[Canon(m.flavour, va) := p]
    case Child(a) => TablePages(m, level - 1, a, va, idx)
  }

  ghost function TablePages(m: Machine, level: nat, table: nat, va: nat, idx: map<nat, Page>): map<nat, Page>
    requires 1 <= level <= 4
    decreases level, 2, 0
  {
    match Entries(m, table)
    case None => idx
    case Some(es) => Pages(m, level, es, va, |es|, idx)
  }

  /** Whether every table met below the first n entries can be read. */
  ghost predicate Readable(m: Machine, level: nat, es: seq<Qword>, n: nat)
    requires 1 <= level <= 4 && n <= |es|
    decreases level, 1, n
  {
    n == 0 || (Readable(m, level, es, n - 1) &&
               var s := Decode(m.flavour, level, es[n - 1]);
               s.Child? ==> TableReadable(m, level - 1, s.table))
  }

  ghost predicate TableReadable(m: Machine, level: nat, table: nat)
    requires 1 <= level <= 4
    decreases level, 2, 0
  {
    var es := Entries(m, table);
    es.Some? && Readable(m, level, es.value, |es.value|)
  }

  /** The table names after the first n entries of a table are read on top of names. */
  ghost function Names(m: Machine, level: nat, es: seq<Qword>, n: nat, names: map<nat, string>): map<nat, string>
    requires 1 <= level <= 4 && n <= |es|
    decreases level, 1, n
  {
    if n == 0 then names
    else
      var s, before := Decode(m.flavour, level, es[n - 1]), Names(m, level, es, n - 1, names);
      if s.Child? then TableNames(m, level - 1, s.table, before[s.table := LevelName(level - 1)]) else before
  }

  ghost function TableNames(m: Machine, level: nat, table: nat, names: map<nat, string>): map<nat, string>
    requires 1 <= level <= 4
    decreases level, 2, 0
  {
    match Entries(m, table)
    case None => names
    case Some(es) => Names(m, level, es, |es|, names)
  }

  function LevelName(level: nat): string
    requires 1 <= level <= 4
  {
    if level == 1 then "pt" else if level == 2 then "pd" else if level == 3 then "pdpt" else "pml4"
  }

  /** The entry map_bigpage_1G writes over pdpt[i]. */
  function BigPageEntry(entry: Qword, i: nat): nat {
    Or(AndNot(Or(entry, 0x87), ADDR_4KB), Shl(i, 30))
  }

  lemma BigPageBelow(entry: Qword, i: nat)
    requires i < 512
    ensures BigPageEntry(entry, i) < TWO64
  {
    hide Or, AndNot, And;
    Pow2Values();
    OrBelow(entry, 0x87, 64);
    AndNotIsDifference(Or(entry, 0x87), ADDR_4KB);
    OrBelow(AndNot(Or(entry, 0x87), ADDR_4KB), Shl(i, 30), 64);
  }

  /** Physical memory with one qword overwritten. */
  function Written(mem: Memory, page: nat, i: nat, q: Qword): Memory
    requires page in mem && i < 512
  {
    mem[page := mem[page][i := q]]
  }

  /** Where map_bigpage_1G writes: the PDPT of virt, or nothing when its PML4 entry is absent. */
  datatype Target = Raises | Skips | Writes(pdpt: nat)

  ghost function BigPageTarget(m: Machine, pointer: Option<nat>, virt: nat, i: nat): Target {
    if pointer.None? then Raises else
    var pml4 := Entries(m, pointer.value);
    if pml4.None? || Index(4, virt) >= |pml4.value| then Raises else
    match Decode(m.flavour, 4, pml4.value[Index(4, virt)])
    case Absent => Skips
    case Leaf(_) => Skips
    case Child(a) =>
      var pdpt := Entries(m, a);
      if pdpt.None? || i >= |pdpt.value| || a !in m.mem then Raises else Writes(a)
  }

  // ---------------------------------------------------------------- the reader

  class PageTableReader {
    const flavour: Flavour
    var mem: Memory
    var level2: Dict
    var translation: Dict
    var pt: map<nat, string>
    var pointer: Option<nat>

    constructor (flavour: Flavour, mem: Memory, level2: Dict)
      requires level2.Valid()
      ensures Valid() && M() == Machine(flavour, mem, level2)
      ensures translation == EMPTY && pt == map[] && pointer == None
    {
      this.flavour, this.mem, this.level2 := flavour, mem, level2;
      translation, pt, pointer := EMPTY, map[], None;
    }

    ghost predicate Valid()
      reads this
    {
      translation.Valid() && level2.Valid()
    }

    ghost function M(): Machine
      reads this
    {
      Machine(flavour, mem, level2)
    }

    method ReadEntries(addr: nat) returns (r: Option<seq<Qword>>)
      ensures r == Entries(M(), addr)
    {
      var fetched := Fetch(Machine(flavour, mem, level2), addr);
      if fetched.None? {
        return None;
      }
      var entries := fetched.value;
      var same := true;
      for i := 0 to |entries|
        invariant same == forall j :: 0 <= j < i ==> entries[0] == entries[j]
      {
        same := same && entries[0] == entries[i];
      }
      r := Some(if same then [entries[0]] else entries);
    }

    /** print_entry: only its recording of the page is modelled. */
    method PrintEntry(size: PageSize, pa: nat, va: nat, perm: string)
      requires Valid() && va < TWO48
      modifies this`translation
      ensures Valid()
      ensures translation.at == if perm == "" then old(translation.at)
              else old(translation.at)[Canon(flavour, va) := Page(pa, size, perm)]
    {
      CanonicalMeaning(flavour, va);
      if perm != "" {
        translation := translation.Set(GetCanonical(flavour, va), Page(pa, size, perm));
      }
    }

    method ReadPt(addr: nat, i4: nat, i3: nat, i2: nat) returns (ok: bool)
      requires Valid() && i4 < 512 && i3 < 512 && i2 < 512
      modifies this`translation
      ensures Valid()
      ensures ok == TableReadable(M(), 1, addr)
      ensures ok ==>
                var va := i4 * Span(4) + i3 * Span(3) + i2 * Span(2);
                translation.at == TablePages(M(), 1, addr, va, old(translation.at))
      ensures ok ==> TableNames(M(), 1, addr, pt) == pt
    {
      hide And, Or, IsPresent, IsBigPage, GetAttr, GetVirtAddr, Entries, Canon;
      var r := ReadEntries(addr);
      if r.None? {
        return false;
      }
      var es := r.value;
      ghost var m, va := M(), i4 * Span(4) + i3 * Span(3) + i2 * Span(2);
      for i := 0 to |es|
        invariant Valid() && M() == m
        invariant Readable(m, 1, es, i) && Names(m, 1, es, i, pt) == pt
        invariant translation.at == Pages(m, 1, es, va, i, old(translation.at))
      {
        if IsPresent(flavour, es[i]) {
          VirtAddrMeaning(i4, i3, i2, i);
          PrintEntry(KB4, And(es[i], ADDR_4KB), GetVirtAddr(i4, i3, i2, i), GetAttr(flavour, es[i]));
        }
      }
      ok := true;
    }

    method ReadPd(addr: nat, i4: nat, i3: nat) returns (ok: bool)
      requires Valid() && i4 < 512 && i3 < 512
      modifies this`translation, this`pt
      ensures Valid()
      ensures ok == TableReadable(M(), 2, addr)
      ensures ok ==> translation.at == TablePages(M(), 2, addr, i4 * Span(4) + i3 * Span(3), old(translation.at))
      ensures ok ==> pt == TableNames(M(), 2, addr, old(pt))
    {
      hide And, Or, IsPresent, IsBigPage, GetAttr, GetVirtAddr, Entries, Canon;
      var r := ReadEntries(addr);
      if r.None? {
        return false;
      }
      var es := r.value;
      ghost var m, va := M(), i4 * Span(4) + i3 * Span(3);
      for i := 0 to |es|
        invariant Valid() && M() == m
        invariant Readable(m, 2, es, i)
        invariant translation.at == Pages(m, 2, es, va, i, old(translation.at))
        invariant pt == Names(m, 2, es, i, old(pt))
      {
        if IsPresent(flavour, es[i]) {
          VirtAddrMeaning(i4, i3, i, 0);
          if IsBigPage(flavour, es[i]) {
            PrintEntry(MB2, And(es[i], ADDR_2MB), GetVirtAddr(i4, i3, i, 0), GetAttr(flavour, es[i]));
          } else {
            pt := pt[And(es[i], ADDR_4KB) := "pt"];
            var done := ReadPt(And(es[i], ADDR_4KB), i4, i3, i);
            if !done {
              NotReadable(m, 2, es, i, |es|);
              return false;
            }
          }
        }
      }
      ok := true;
    }

    method ReadPdpt(addr: nat, i4: nat) returns (ok: bool)
      requires Valid() && i4 < 512
      modifies this`translation, this`pt
      ensures Valid()
      ensures ok == TableReadable(M(), 3, addr)
      ensures ok ==> translation.at == TablePages(M(), 3, addr, i4 * Span(4), old(translation.at))
      ensures ok ==> pt == TableNames(M(), 3, addr, old(pt))
    {
      hide And, Or, IsPresent, IsBigPage, GetAttr, GetVirtAddr, Entries, Canon;
      var r := ReadEntries(addr);
      if r.None? {
        return false;
      }
      var es := r.value;
      ghost var m, va := M(), i4 * Span(4);
      for i := 0 to |es|
        invariant Valid() && M() == m
        invariant Readable(m, 3, es, i)
        invariant translation.at == Pages(m, 3, es, va, i, old(translation.at))
        invariant pt == Names(m, 3, es, i, old(pt))
      {
        if IsPresent(flavour, es[i]) {
          VirtAddrMeaning(i4, i, 0, 0);
          if IsBigPage(flavour, es[i]) {
            PrintEntry(GB1, And(es[i], ADDR_1GB), GetVirtAddr(i4, i, 0, 0), GetAttr(flavour, es[i]));
          } else {
            pt := pt[And(es[i], ADDR_4KB) := "pd"];
            var done := ReadPd(And(es[i], ADDR_4KB), i4, i);
            if !done {
              NotReadable(m, 3, es, i, |es|);
              return false;
            }
          }
        }
      }
      ok := true;
    }

    method ReadPml4(addr: nat) returns (ok: bool)
      requires Valid()
      modifies this`translation, this`pt
      ensures Valid()
      ensures ok == TableReadable(M(), 4, addr)
      ensures ok ==> translation.at == TablePages(M(), 4, addr, 0, old(translation.at))
      ensures ok ==> pt == TableNames(M(), 4, addr, old(pt))
    {
      hide And, Or, IsPresent, IsBigPage, GetAttr, GetVirtAddr, Entries, Canon;
      var r := ReadEntries(addr);
      if r.None? {
        return false;
      }
      var es := r.value;
      ghost var m := M();
      for i := 0 to |es|
        invariant Valid() && M() == m
        invariant Readable(m, 4, es, i)
        invariant translation.at == Pages(m, 4, es, 0, i, old(translation.at))
        invariant pt == Names(m, 4, es, i, old(pt))
      {
        if IsPresent(flavour, es[i]) {
          pt := pt[And(es[i], ADDR_4KB) := "pdpt"];
          var done := ReadPdpt(And(es[i], ADDR_4KB), i);
          if !done {
            NotReadable(m, 4, es, i, |es|);
            return false;
          }
        }
      }
      ok := true;
    }

    /** read_page_tables: rebuilds the index from scratch; false stands for an exception from a read. */
    method ReadPageTables(ptr: nat) returns (ok: bool)
      requires Valid()
      modifies this`translation, this`pt, this`pointer
      ensures Valid()
      ensures pointer == Some(And(ptr, ADDR_4KB))
      ensures ok == TableReadable(M(), 4, And(ptr, ADDR_4KB))
      ensures ok ==> translation.at == TablePages(M(), 4, And(ptr, ADDR_4KB), 0, map[])
      ensures ok ==> pt == TableNames(M(), 4, And(ptr, ADDR_4KB), map[And(ptr, ADDR_4KB) := "pml4"])
    {
      var addr := And(ptr, ADDR_4KB);
      pointer := Some(addr);
      pt := map[addr := "pml4"];
      translation := EMPTY;
      ok := ReadPml4(addr);
    }

    /** map_bigpage_1G: overwrites one PDPT qword. The table is read through second-level
        translation, but written at its untranslated address. */
    method MapBigPage1G(virt: nat, i: nat) returns (ok: bool)
      requires Valid()
      modifies this`mem
      ensures Valid()
      ensures var target := old(BigPageTarget(M(), pointer, virt, i));
              && ok == !target.Raises?
              && (!target.Writes? ==> mem == old(mem))
              && (target.Writes? ==>
                    var q := BigPageEntry(old(Entries(M(), target.pdpt)).value[i], i);
                    q < TWO64 && mem == Written(old(mem), target.pdpt, i, q))
    {
      hide And, Or, AndNot, Fetch, IsPresent, GetField, BigPageEntry;
      if pointer.None? {
        return false;
      }
      var pml4 := ReadEntries(pointer.value);
      FieldIsIndex(4, virt);
      var i4 := GetField(virt, 0x1FF, 39);
      if pml4.None? || i4 >= |pml4.value| {
        return false;
      }
      if IsPresent(flavour, pml4.value[i4]) {
        var addr := And(pml4.value[i4], ADDR_4KB);
        var pdpt := ReadEntries(addr);
        if pdpt.None? || i >= |pdpt.value| || addr !in mem {
          return false;
        }
        BigPageBelow(pdpt.value[i], i);
        mem := Written(mem, addr, i, BigPageEntry(pdpt.value[i], i));
      }
      ok := true;
    }
  }

  /** One unreadable child table makes the whole table unreadable. */
  lemma {:induction false} NotReadable(m: Machine, level: nat, es: seq<Qword>, i: nat, n: nat)
    requires 1 <= level <= 4 && i < n <= |es|
    requires var s := Decode(m.flavour, level, es[i]); s.Child? && !TableReadable(m, level - 1, s.table)
    ensures !Readable(m, level, es, n)
    decreases n
  {
    hide And, Decode, Entries;
    if i < n - 1 {
      NotReadable(m, level, es, i, n - 1);
    }
  }
}
