/** The flattened index agrees with the page walk it replaces. */
module WalkIndex {
  import opened Bits
  import opened Options
  import opened Translation
  import opened PageTables

  /** The walk over tables as read_entries returns them: a collapsed table has only entry 0. */
  ghost function IndexedWalk(m: Machine, level: nat, table: nat, va: nat): Option<Page>
    requires 1 <= level <= 4
    decreases level, 2
  {
    match Entries(m, table)
    case None => None
    case Some(es) => EntriesWalk(m, level, es, va)
  }

  ghost function EntriesWalk(m: Machine, level: nat, es: seq<Qword>, va: nat): Option<Page>
    requires 1 <= level <= 4
    decreases level, 1
  {
    if Index(level, va) < |es| then SlotWalk(m, level, es[Index(level, va)], va) else None
  }

  ghost function SlotWalk(m: Machine, level: nat, entry: Qword, va: nat): Option<Page>
    requires 1 <= level <= 4
    decreases level, 0
  {
    match Decode(m.flavour, level, entry)
    case Absent => None
    case Leaf(p) => Some(p)
    case Child(a) => IndexedWalk(m, level - 1, a, va)
  }

  /** Some table on va's path was collapsed to its entry 0, and va needs another entry of it. */
  ghost predicate CollapsedOnPath(m: Machine, level: nat, table: nat, va: nat)
    requires 1 <= level <= 4
    decreases level
  {
    match Fetch(m, table)
    case None => false
    case Some(t) =>
      (Uniform(t) && Index(level, va) != 0) ||
      var s := Decode(m.flavour, level, t[Index(level, va)]);
      s.Child? && CollapsedOnPath(m, level - 1, s.table, va)
  }

  /** Collapsing loses va's mapping exactly on paths through a collapsed table. */
  lemma {:induction false} CollapseLoses(m: Machine, level: nat, table: nat, va: nat)
    requires 1 <= level <= 4
    ensures IndexedWalk(m, level, table, va) ==
            if CollapsedOnPath(m, level, table, va) then None else Walk(m, level, table, va)
    decreases level
  {
    hide And, Fetch, Decode, Index;
    match Fetch(m, table)
    case None =>
    case Some(t) =>
      var s := Decode(m.flavour, level, t[Index(level, va)]);
      var es := Entries(m, table).value;
      assert IndexedWalk(m, level, table, va) == EntriesWalk(m, level, es, va);
      if Index(level, va) < |es| {
        assert EntriesWalk(m, level, es, va) == SlotWalk(m, level, t[Index(level, va)], va);
      }
      if s.Child? {
        CollapseLoses(m, level - 1, s.table, va);
      }
  }

  // ---------------------------------------------------------------- key k of the index

  /** Address k, seen as a 48-bit address, begins a page that the walk finds. */
  ghost predicate StartsPage(m: Machine, w: Option<Page>, k: nat, lo: nat, hi: nat) {
    IsCanonical(m.flavour, k) && lo <= k % TWO48 < hi && w.Some? && k % TWO48 % Bytes(w.value.size) == 0
  }

  lemma IndexInRegion(level: nat, va: nat, i: nat, r: nat)
    requires 1 <= level <= 4 && i < 512
    requires va % (512 * Span(level)) == 0
    requires va + i * Span(level) <= r < va + (i + 1) * Span(level)
    ensures Index(level, r) == i
  {
    var s := Span(level);
    var q := va / (512 * s);
    assert r == s * (512 * q + i) + (r - va - i * s);
    DivModUnique(r, s, 512 * q + i, r - va - i * s);
  }

  /** What reading the first n entries of a table adds to the index, key by key. */
  lemma {:induction false} PagesLookup(m: Machine, level: nat, es: seq<Qword>, va: nat, n: nat, idx: map<nat, Page>,
                                       k: nat)
    requires 1 <= level <= 4 && n <= |es| <= 512
    requires va % (512 * Span(level)) == 0 && va + 512 * Span(level) <= TWO48
    ensures var w := EntriesWalk(m, level, es, k % TWO48);
            var out := Pages(m, level, es, va, n, idx);
            if StartsPage(m, w, k, va, va + n * Span(level)) then k in out && out[k] == w.value
            else (k in out <==> k in idx) && (k in idx ==> out[k] == idx[k])
    decreases level, 1, n
  {
    hide And, Fetch, Decode, Index, Canon, EntryPages, SlotWalk, IsCanonical, Bytes;
    if n > 0 {
      var r := k % TWO48;
      var before := Pages(m, level, es, va, n - 1, idx);
      var here := va + (n - 1) * Span(level);
      PagesLookup(m, level, es, va, n - 1, idx, k);
      RegionBounds(level, va, n - 1);
      EntryLookup(m, level, es[n - 1], here, before, k);
      if here <= r < here + Span(level) {
        IndexInRegion(level, va, n - 1, r);
      }
    }
  }

  lemma RegionBounds(level: nat, va: nat, i: nat)
    requires 1 <= level <= 4 && i < 512
    requires va % (512 * Span(level)) == 0 && va + 512 * Span(level) <= TWO48
    ensures (va + i * Span(level)) % Span(level) == 0
    ensures va + i * Span(level) + Span(level) <= TWO48
    ensures va + (i + 1) * Span(level) == va + i * Span(level) + Span(level)
  {
    RegionEnd(level, i);
    InBlocks(va, Span(level), i);
  }

  lemma RegionEnd(level: nat, i: nat)
    requires 1 <= level <= 4 && i < 512
    ensures i * Span(level) + Span(level) == (i + 1) * Span(level) <= 512 * Span(level)
  {
    if level == 1 {} else if level == 2 {} else if level == 3 {} else {}
  }

  lemma InBlocks(va: nat, s: nat, i: nat)
    requires s > 0 && va % (512 * s) == 0
    ensures (va + i * s) % s == 0
  {
    var q := va / (512 * s);
    Quotient(va, 512 * s);
    assert 512 * s * q == s * 512 * q;
    Regrouped(s, 512, q, i);
    DivModUnique(va + i * s, s, 512 * q + i, 0);
  }

  lemma {:induction false} EntryLookup(m: Machine, level: nat, entry: Qword, va: nat, idx: map<nat, Page>, k: nat)
    requires 1 <= level <= 4
    requires va % Span(level) == 0 && va + Span(level) <= TWO48
    ensures var w := SlotWalk(m, level, entry, k % TWO48);
            var out := EntryPages(m, level, entry, va, idx);
            if StartsPage(m, w, k, va, va + Span(level)) then k in out && out[k] == w.value
            else (k in out <==> k in idx) && (k in idx ==> out[k] == idx[k])
    decreases level, 0, 0
  {
    hide And, Fetch, Decode, Index, Canon, Pages, Bytes, Span, IsCanonical;
    match Decode(m.flavour, level, entry)
    case Absent =>
    case Leaf(p) =>
      LeafAligned(m.flavour, level, entry);
      LeafKey(m.flavour, level, va, k);
    case Child(a) =>
      var es := Entries(m, a);
      if es.Some? {
        ChildRegion(level, va, |es.value|, k % TWO48);
        PagesLookup(m, level - 1, es.value, va, |es.value|, idx, k);
        assert SlotWalk(m, level, entry, k % TWO48) == EntriesWalk(m, level - 1, es.value, k % TWO48);
        assert EntryPages(m, level, entry, va, idx) == Pages(m, level - 1, es.value, va, |es.value|, idx);
      }
  }

  lemma LeafKey(fl: Flavour, level: nat, va: nat, k: nat)
    requires 1 <= level < 4
    requires va % Span(level) == 0 && va + Span(level) <= TWO48
    ensures k == Canon(fl, va) <==>
              IsCanonical(fl, k) && va <= k % TWO48 < va + Span(level) && k % TWO48 % Span(level) == 0
  {
    hide Span;
    var r := k % TWO48;
    CanonRaw(fl, va);
    if va <= r < va + Span(level) && r % Span(level) == 0 {
      SameMultiple(va, r, Span(level));
    }
  }

  lemma CanonRaw(fl: Flavour, va: nat)
    requires va < TWO48
    ensures Canon(fl, va) % TWO48 == va
  {
  }

  lemma SameMultiple(a: nat, b: nat, s: nat)
    requires s > 0 && a % s == 0 && b % s == 0 && a <= b < a + s
    ensures a == b
  {
    DivModUnique(b, s, a / s, b - a);
  }

  /** A child table's 512 entries tile its parent's entry; past the last one there is no entry. */
  lemma ChildRegion(level: nat, va: nat, n: nat, r: nat)
    requires 1 < level <= 4 && n <= 512
    requires va % Span(level) == 0 && va + Span(level) <= TWO48
    ensures va % (512 * Span(level - 1)) == 0 && 512 * Span(level - 1) == Span(level)
    ensures va <= r < va + Span(level) ==> (r < va + n * Span(level - 1) <==> Index(level - 1, r) < n)
    ensures va + n * Span(level - 1) <= va + Span(level)
  {
    SpanOfChild(level);
    var s := Span(level - 1);
    if va <= r < va + Span(level) {
      Quotient(va, 512 * s);
      assert s * (512 * 1) * (va / (512 * s)) == va;
      HighBits(r, va / (512 * s), r - va, s, 1);
      BeforeBlock(r - va, s, n);
    }
    TimesBelow(n, 512, s);
  }

  lemma SpanOfChild(level: nat)
    requires 1 < level <= 4
    ensures 512 * Span(level - 1) == Span(level)
  {
  }

  /** An offset inside 512 blocks is before block n exactly when its own block is. */
  lemma BeforeBlock(x: nat, s: nat, n: nat)
    requires s > 0 && x < 512 * s
    ensures x / s % 512 == x / s && (x < n * s <==> x / s < n)
  {
    Quotient(x, s);
    var q := x / s;
    if q < n {
      TimesBelow(q + 1, n, s);
    } else {
      TimesBelow(n, q, s);
    }
    CancelFactor(s, q, 512);
  }

  lemma TimesBelow(a: nat, b: nat, s: nat)
    requires a <= b
    ensures a * s <= b * s
  {
  }

  // ---------------------------------------------------------------- addresses on one page

  lemma IndexOfSamePage(level: nat, a: nat, b: nat, small: nat)
    requires 1 <= small <= level <= 4
    requires a / Span(small) == b / Span(small)
    ensures Index(level, a) == Index(level, b)
  {
    var k := Span(level) / Span(small);
    assert Span(level) == Span(small) * k && k > 0;
    DivDiv(a, Span(small), k);
    DivDiv(b, Span(small), k);
  }

  /** The level whose entries are pages of this size. */
  ghost function LevelOf(s: PageSize): nat {
    match s case KB4 => 1 case MB2 => 2 case GB1 => 3 case MB4 => 4
  }

  /** All addresses of a page walk to that page. */
  lemma {:induction false} WalkSamePage(m: Machine, level: nat, table: nat, a: nat, b: nat)
    requires 1 <= level <= 4
    requires IndexedWalk(m, level, table, a).Some?
    ensures var p := IndexedWalk(m, level, table, a).value;
            && Aligned(p) && p.size != MB4 && LevelOf(p.size) <= level
            && (a / Bytes(p.size) == b / Bytes(p.size) ==> IndexedWalk(m, level, table, b) == Some(p))
    decreases level
  {
    hide And, Fetch, Decode, Index, Entries;
    var es := Entries(m, table).value;
    var entry := es[Index(level, a)];
    assert IndexedWalk(m, level, table, a) == SlotWalk(m, level, entry, a);
    LeafAligned(m.flavour, level, entry);
    var s := Decode(m.flavour, level, entry);
    if s.Child? {
      WalkSamePage(m, level - 1, s.table, a, b);
    }
    var p := IndexedWalk(m, level, table, a).value;
    if a / Bytes(p.size) == b / Bytes(p.size) {
      IndexOfSamePage(level, a, b, LevelOf(p.size));
      assert IndexedWalk(m, level, table, b) == SlotWalk(m, level, entry, b);
    }
  }

  lemma IndexIgnoresHighBits(level: nat, va: nat)
    requires 1 <= level <= 4
    ensures Index(level, va % TWO48) == Index(level, va)
  {
    var s, r := Span(level), va % TWO48;
    Quotient(va, TWO48);
    Quotient(r, s);
    match level
    case 1 => HighBits(va, va / TWO48, r, s, 0x800_0000);
    case 2 => HighBits(va, va / TWO48, r, s, 0x4_0000);
    case 3 => HighBits(va, va / TWO48, r, s, 0x200);
    case 4 => HighBits(va, va / TWO48, r, s, 1);
  }

  lemma HighBits(va: nat, q: nat, r: nat, s: nat, k: nat)
    requires s > 0 && va == s * (512 * k) * q + r
    ensures va / s % 512 == r / s % 512
  {
    Quotient(r, s);
    Regrouped(s, 512 * k, q, r / s);
    DivModUnique(va, s, 512 * k * q + r / s, r % s);
    Quotient(r / s, 512);
    Regrouped(512, k, q, r / s / 512);
    DivModUnique(512 * k * q + r / s, 512, k * q + r / s / 512, r / s % 512);
  }

  lemma Regrouped(s: nat, k: nat, q: nat, x: nat)
    ensures s * k * q + s * x == s * (k * q + x)
  {
  }

  lemma {:induction false} WalkIgnoresHighBits(m: Machine, level: nat, table: nat, va: nat)
    requires 1 <= level <= 4
    ensures IndexedWalk(m, level, table, va % TWO48) == IndexedWalk(m, level, table, va)
    decreases level
  {
    hide And, Fetch, Decode, Index, Entries;
    IndexIgnoresHighBits(level, va);
    var es := Entries(m, table);
    if es.Some? && Index(level, va) < |es.value| {
      var entry := es.value[Index(level, va)];
      assert forall x ::
          Index(level, x) == Index(level, va) ==> IndexedWalk(m, level, table, x) == SlotWalk(m, level, entry, x);
      match Decode(m.flavour, level, entry)
      case Absent =>
      case Leaf(p) =>
      case Child(t) => WalkIgnoresHighBits(m, level - 1, t, va);
    }
  }

  // ---------------------------------------------------------------- the index against the walk

  lemma PageKey(fl: Flavour, va: nat, s: PageSize)
    requires va < TWO64 && s != MB4
    ensures var key := va - va % Bytes(s);
            && key % TWO48 == va % TWO48 - va % TWO48 % Bytes(s)
            && key % TWO48 % Bytes(s) == 0
            && key / Bytes(s) == va / Bytes(s)
            && (IsCanonical(fl, key) <==> IsCanonical(fl, va))
  {
    hide IsCanonical;
    BlocksIn48(s);
    KeyArithmetic(va, Bytes(s), TWO48 / Bytes(s));
    CanonicalSplit(fl, va);
    CanonicalSplit(fl, va - va % Bytes(s));
    SameHalf(va % TWO48, s);
  }

  lemma BlocksIn48(s: PageSize)
    requires s != MB4
    ensures TWO48 / Bytes(s) > 0 && Bytes(s) * (TWO48 / Bytes(s)) == TWO48
  {
  }

  /** Rounding down to a block commutes with taking a multiple of the block apart. */
  lemma KeyArithmetic(va: nat, b: nat, k: nat)
    requires b > 0 && k > 0
    ensures b * k > 0
    ensures var key, big := va - va % b, b * k;
            && key % big == va % big - va % big % b && key / big == va / big
            && key % big % b == 0 && key / b == va / b
  {
    var big := b * k;
    RoundDown(va, b, k);
    var a := va % big - va % b;
    Quotient(va, big);
    Quotient(va, b);
    Quotient(a, b);
    KeySplit(va, b, big, va / big, va % big, va / b, va % b, a / b);
  }

  lemma Quotient(x: nat, d: nat)
    requires d > 0
    ensures x == d * (x / d) + x % d && 0 <= x % d < d && x / d >= 0
  {
  }

  lemma KeySplit(va: nat, b: nat, big: nat, q: nat, r: nat, q2: nat, r2: nat, c: nat)
    requires va == big * q + r && r < big && va == b * q2 + r2 && r2 < b && r == b * c + r2
    ensures var key := va - r2;
            key >= 0 && key % big == r - r2 && key / big == q && (r - r2) % b == 0 && key / b == q2 && r % b == r2
  {
    DivModUnique(va - r2, big, q, r - r2);
    DivModUnique(va - r2, b, q2, 0);
    DivModUnique(r - r2, b, c, 0);
    DivModUnique(r, b, c, r2);
  }

  lemma CanonicalSplit(fl: Flavour, va: nat)
    ensures IsCanonical(fl, va) <==> va / TWO48 == if fl.Ept? || va % TWO48 < TWO47 then 0 else 0xFFFF
  {
    var q, r := va / TWO48, va % TWO48;
    assert va == q * TWO48 + r;
  }

  lemma SameHalf(r: nat, s: PageSize)
    requires s != MB4
    ensures r - r % Bytes(s) < TWO47 <==> r < TWO47
  {
    match s
    case KB4 => assert TWO47 % 0x1000 == 0;
    case MB2 => assert TWO47 % 0x20_0000 == 0;
    case GB1 => assert TWO47 % 0x4000_0000 == 0;
  }

  /** An index built from root holds a page of size s covering va exactly when the walk finds one. */
  lemma CoveringIsWalk(m: Machine, root: nat, d: Dict, va: nat, s: PageSize)
    requires d.at == TablePages(m, 4, root, 0, map[]) && va < TWO64 && s != MB4
    ensures var w := IndexedWalk(m, 4, root, va);
            Covering(d, va, s) == if IsCanonical(m.flavour, va) && w.Some? && w.value.size == s then w else None
  {
    hide And, Fetch, Decode, Index, Pages, EntriesWalk, Canon, IsCanonical, Entries;
    var key := va - va % Bytes(s);
    PageKey(m.flavour, va, s);
    WalkIgnoresHighBits(m, 4, root, key);
    RootLookup(m, root, key);
    if IndexedWalk(m, 4, root, key).Some? {
      WalkSamePage(m, 4, root, key, va);
    }
    if IndexedWalk(m, 4, root, va).Some? {
      WalkSamePage(m, 4, root, va, key);
    }
  }

  lemma RootLookup(m: Machine, root: nat, k: nat)
    ensures var w := IndexedWalk(m, 4, root, k % TWO48);
            var out := TablePages(m, 4, root, 0, map[]);
            && (k in out <==> StartsPage(m, w, k, 0, TWO48))
            && (k in out ==> out[k] == w.value)
  {
    hide And, Fetch, Decode, Index, Pages, Canon, IsCanonical;
    var es := Entries(m, root);
    if es.Some? {
      var n, r := |es.value|, k % TWO48;
      PagesLookup(m, 4, es.value, 0, n, map[], k);
      LastEntry(n, r);
    }
  }

  lemma LastEntry(n: nat, r: nat)
    requires n <= 512 && r < TWO48
    ensures r < n * Span(4) <==> Index(4, r) < n
  {
  }

  /** get_translation on an index built by read_page_tables, for every 64-bit address. */
  lemma IndexAnswers(m: Machine, root: nat, d: Dict, va: nat)
    requires d.at == TablePages(m, 4, root, 0, map[]) && |d.at| > 0 && va < TWO64
    ensures d.GetTranslation(va) ==
            if IsCanonical(m.flavour, va) then AtOffset(IndexedWalk(m, 4, root, va), va) else None
  {
    hide And, Fetch, Decode, Index, TablePages, IndexedWalk, Canon, IsCanonical, Entries, Covering, Dict.GetTranslation;
    forall k | k in d.at
      ensures Aligned(d.at[k])
    {
      RootLookup(m, root, k);
      WalkSamePage(m, 4, root, k % TWO48, k);
    }
    GetTranslationMeaning(d, va);
    CoveringIsWalk(m, root, d, va, KB4);
    CoveringIsWalk(m, root, d, va, MB2);
    CoveringIsWalk(m, root, d, va, GB1);
    if IndexedWalk(m, 4, root, va).Some? {
      WalkSamePage(m, 4, root, va, va);
    }
  }

  /** The main result: the index gives the hardware walk's answer for va, and does so exactly when
      va is unmapped or no table on its path was collapsed; a lost mapping reads as unmapped. */
  lemma TranslationAgrees(m: Machine, root: nat, d: Dict, va: nat)
    requires d.at == TablePages(m, 4, root, 0, map[]) && |d.at| > 0 && va < TWO64
    ensures !IsCanonical(m.flavour, va) ==> d.GetTranslation(va) == None
    ensures IsCanonical(m.flavour, va) ==>
              (d.GetTranslation(va) == AtOffset(Walk(m, 4, root, va), va) <==>
               (Walk(m, 4, root, va).None? || !CollapsedOnPath(m, 4, root, va)))
    ensures CollapsedOnPath(m, 4, root, va) ==> d.GetTranslation(va) == None
  {
    hide And, Walk, TablePages, IndexedWalk, CollapsedOnPath, IsCanonical, Dict.GetTranslation;
    IndexAnswers(m, root, d, va);
    CollapseLoses(m, 4, root, va);
  }

  /** Some table on va's path holds 512 equal entries that are present. */
  ghost predicate UniformPresentOnPath(m: Machine, level: nat, table: nat, va: nat)
    requires 1 <= level <= 4
    decreases level
  {
    match Fetch(m, table)
    case None => false
    case Some(t) =>
      var s := Decode(m.flavour, level, t[Index(level, va)]);
      (Uniform(t) && !s.Absent?) || (s.Child? && UniformPresentOnPath(m, level - 1, s.table, va))
  }

  lemma {:induction false} OnlyPresentTablesLose(m: Machine, level: nat, table: nat, va: nat)
    requires 1 <= level <= 4
    ensures CollapsedOnPath(m, level, table, va) && Walk(m, level, table, va).Some?
            ==> UniformPresentOnPath(m, level, table, va)
    decreases level
  {
    hide And, Fetch, Decode, Index, Uniform;
    match Fetch(m, table)
    case None =>
    case Some(t) =>
      var s := Decode(m.flavour, level, t[Index(level, va)]);
      if s.Child? {
        OnlyPresentTablesLose(m, level - 1, s.table, va);
      }
  }

  /** With no table of 512 identical present entries in reach, the index is the walk. */
  lemma TranslationIsWalk(m: Machine, root: nat, d: Dict, va: nat)
    requires d.at == TablePages(m, 4, root, 0, map[]) && |d.at| > 0 && va < TWO64
    requires !UniformPresentOnPath(m, 4, root, va)
    ensures d.GetTranslation(va) ==
            if IsCanonical(m.flavour, va) then AtOffset(Walk(m, 4, root, va), va) else None
  {
    hide And, Walk, TablePages, CollapsedOnPath, IsCanonical, Dict.GetTranslation, UniformPresentOnPath;
    TranslationAgrees(m, root, d, va);
    OnlyPresentTablesLose(m, 4, root, va);
  }

  // ---------------------------------------------------------------- the table names

  /** Table a is a child table that the walk of va below a table meets, over tables as read_entries returns them. */
  ghost predicate OnWalk(m: Machine, level: nat, table: nat, va: nat, a: nat)
    requires 1 <= level <= 4
    decreases level
  {
    match Entries(m, table)
    case None => false
    case Some(es) =>
      Index(level, va) < |es| &&
      var s := Decode(m.flavour, level, es[Index(level, va)]);
      s.Child? && (s.table == a || OnWalk(m, level - 1, s.table, va, a))
  }

  ghost predicate EntryLeadsTo(m: Machine, level: nat, entry: Qword, a: nat)
    requires 1 <= level <= 4
    decreases level, 0
  {
    var s := Decode(m.flavour, level, entry);
    s.Child? && (s.table == a || LeadsTo(m, level - 1, s.table, a))
  }

  /** Some entry of the table leads to a. */
  ghost predicate LeadsTo(m: Machine, level: nat, table: nat, a: nat)
    requires 1 <= level <= 4
    decreases level, 1
  {
    var es := Entries(m, table);
    es.Some? && exists i :: 0 <= i < |es.value| && EntryLeadsTo(m, level, es.value[i], a)
  }

  lemma {:induction false} NamesLead(m: Machine, level: nat, es: seq<Qword>, n: nat, names: map<nat, string>, a: nat)
    requires 1 <= level <= 4 && n <= |es|
    ensures a in Names(m, level, es, n, names)
            <==> a in names || exists i :: 0 <= i < n && EntryLeadsTo(m, level, es[i], a)
    decreases level, 1, n
  {
    hide Decode, Entries, LeadsTo, TableNames;
    if n > 0 {
      var before := Names(m, level, es, n - 1, names);
      NamesLead(m, level, es, n - 1, names, a);
      var s := Decode(m.flavour, level, es[n - 1]);
      if s.Child? {
        TableNamesLead(m, level - 1, s.table, before[s.table := LevelName(level - 1)], a);
      }
    }
  }

  lemma {:induction false} TableNamesLead(m: Machine, level: nat, table: nat, names: map<nat, string>, a: nat)
    requires 1 <= level <= 4
    ensures a in TableNames(m, level, table, names) <==> a in names || LeadsTo(m, level, table, a)
    decreases level, 2, 0
  {
    hide Decode, Names, EntryLeadsTo;
    var es := Entries(m, table);
    if es.Some? {
      NamesLead(m, level, es.value, |es.value|, names, a);
    }
  }

  lemma {:induction false} WalkLeads(m: Machine, level: nat, table: nat, va: nat, a: nat)
    requires 1 <= level <= 4 && OnWalk(m, level, table, va, a)
    ensures LeadsTo(m, level, table, a)
    decreases level
  {
    hide Decode, Entries, Index;
    var es := Entries(m, table).value;
    var s := Decode(m.flavour, level, es[Index(level, va)]);
    if s.table != a {
      WalkLeads(m, level - 1, s.table, va, a);
    }
    assert EntryLeadsTo(m, level, es[Index(level, va)], a);
  }

  /** The index of a level ignores what lies above its table's region. */
  lemma IndexShift(level: nat, hi: nat, va: nat)
    requires 1 <= level <= 4
    ensures Index(level, hi * 512 * Span(level) + va) == Index(level, va)
  {
    var s := Span(level);
    assert hi * 512 * s == s * (512 * 1) * hi;
    HighBits(hi * 512 * s + va, hi, va, s, 1);
  }

  lemma NextShift(level: nat, hi: nat)
    requires 2 <= level <= 4
    ensures hi * 512 * Span(level) == (hi * 512) * 512 * Span(level - 1)
  {
  }

  lemma {:induction false} WalkShift(m: Machine, level: nat, table: nat, hi: nat, va: nat, a: nat)
    requires 1 <= level <= 4
    ensures OnWalk(m, level, table, hi * 512 * Span(level) + va, a) == OnWalk(m, level, table, va, a)
    decreases level
  {
    hide Decode, Entries, Index, Span;
    IndexShift(level, hi, va);
    var es := Entries(m, table);
    if es.Some? && Index(level, va) < |es.value| {
      var s := Decode(m.flavour, level, es.value[Index(level, va)]);
      if s.Child? {
        NextShift(level, hi);
        WalkShift(m, level - 1, s.table, hi * 512, va, a);
      }
    }
  }

  /** The first address of entry i of a level, plus an offset inside it. */
  lemma EntryAddress(level: nat, i: nat, low: nat)
    requires 2 <= level <= 4 && i < 512 && low < Span(level)
    ensures Index(level, i * Span(level) + low) == i && i * Span(level) + low < 512 * Span(level)
    ensures Span(level) == 512 * Span(level - 1) && i * Span(level) == i * 512 * Span(level - 1)
  {
    RegionEnd(level, i);
    RegionEnd(level, 511);
    DivModUnique(i * Span(level) + low, Span(level), i, low);
    if level == 2 {} else if level == 3 {} else {}
  }

  lemma {:induction false} LeadIsWalked(m: Machine, level: nat, table: nat, a: nat) returns (va: nat)
    requires 1 <= level <= 4 && LeadsTo(m, level, table, a)
    ensures va < 512 * Span(level) && OnWalk(m, level, table, va, a)
    decreases level
  {
    hide Decode, Entries, Index, Span;
    var es := Entries(m, table).value;
    var i :| 0 <= i < |es| && EntryLeadsTo(m, level, es[i], a);
    var s := Decode(m.flavour, level, es[i]);
    var low := 0;
    EntryAddress(level, 0, 0);
    if s.table != a {
      EntryAddress(level, i, 0);
      low := LeadIsWalked(m, level - 1, s.table, a);
      WalkShift(m, level - 1, s.table, i, low, a);
    }
    EntryAddress(level, i, low);
    va := i * Span(level) + low;
  }

  /** read_page_tables names exactly the root and the child tables on some address's walk. */
  lemma NamesMeaning(m: Machine, root: nat, a: nat)
    ensures a in TableNames(m, 4, root, map[root := "pml4"])
            <==> a == root || exists va :: 0 <= va < TWO48 && OnWalk(m, 4, root, va, a)
  {
    hide TableNames, LeadsTo, OnWalk;
    TableNamesLead(m, 4, root, map[root := "pml4"], a);
    if LeadsTo(m, 4, root, a) {
      var va := LeadIsWalked(m, 4, root, a);
    }
    forall va | 0 <= va < TWO48 && OnWalk(m, 4, root, va, a)
      ensures LeadsTo(m, 4, root, a)
    {
      WalkLeads(m, 4, root, va, a);
    }
  }

  // ---------------------------------------------------------------- a mapping that is lost

  /** One physical page that serves as the table of all four levels: 512 present entries pointing back to it. */
  ghost function LoopedMachine(): Machine {
    Machine(Plain, map[0 := seq(512, _ => 1)], EMPTY)
  }

  lemma LoopedEntry()
    ensures IsPresent(Plain, 1) && !IsBigPage(Plain, 1) && And(1, ADDR_4KB) == 0
  {
    PhysicalMasks(1);
    assert And(1, 1) == 1;
    assert And(0, 0x40) == 0;
  }

  lemma LoopedFetch()
    ensures var t := Fetch(LoopedMachine(), 0); t.Some? && Uniform(t.value) && t.value[0] == 1
  {
  }

  /** The indices of address 0x1000. */
  lemma SecondPage()
    ensures Index(4, 0x1000) == 0 && Index(3, 0x1000) == 0 && Index(2, 0x1000) == 0 && Index(1, 0x1000) == 1
  {
  }

  lemma LoopedLevel(level: nat)
    requires 2 <= level <= 4
    ensures Decode(Plain, level, 1) == Child(0)
    ensures Decode(Plain, 1, 1).Leaf?
  {
    hide And, IsPresent, IsBigPage, GetAttr;
    LoopedEntry();
  }

  /** One more level keeps the page mapped and the path collapsed. */
  lemma LoopedStep(m: Machine, level: nat)
    requires 1 <= level <= 4 && m.flavour == Plain
    requires var t := Fetch(m, 0); t.Some? && Uniform(t.value) && t.value[0] == 1
    requires level > 1 ==> Walk(m, level - 1, 0, 0x1000).Some? && CollapsedOnPath(m, level - 1, 0, 0x1000)
    ensures Walk(m, level, 0, 0x1000).Some? && CollapsedOnPath(m, level, 0, 0x1000)
  {
    hide Fetch, Decode, Index;
    SecondPage();
    LoopedLevel(if level > 1 then level else 2);
    assert Fetch(m, 0).value[Index(level, 0x1000)] == 1;
  }

  /** The collapsed table is read, and records the page at address 0. */
  lemma {:induction false} LoopedRead(m: Machine, level: nat)
    requires 1 <= level <= 4 && m.flavour == Plain
    requires var t := Fetch(m, 0); t.Some? && Uniform(t.value) && t.value[0] == 1
    ensures IndexedWalk(m, level, 0, 0).Some? && TableReadable(m, level, 0)
    decreases level
  {
    hide Fetch, Decode;
    LoopedLevel(if level > 1 then level else 2);
    assert Entries(m, 0) == Some([1]);
    assert Index(level, 0) == 0;
    if level > 1 {
      LoopedRead(m, level - 1);
    }
    LoopedEntries(m, level);
  }

  lemma LoopedEntries(m: Machine, level: nat)
    requires 1 <= level <= 4 && m.flavour == Plain && Entries(m, 0) == Some([1])
    requires level > 1 ==> TableReadable(m, level - 1, 0) && Decode(Plain, level, 1) == Child(0)
    requires Decode(Plain, 1, 1).Leaf?
    ensures TableReadable(m, level, 0)
  {
    hide Decode, Entries;
    assert Readable(m, level, [1], 0);
    assert Readable(m, level, [1], 1);
  }

  /** A concrete mapping that collapsing loses: the reader returns for this machine and records a page, the hardware
      maps address 0x1000, and the index does not. */
  lemma MappingLost(d: Dict)
    requires d.at == TablePages(LoopedMachine(), 4, 0, 0, map[])
    ensures TableReadable(LoopedMachine(), 4, 0) && 0 in d.at
    ensures Walk(LoopedMachine(), 4, 0, 0x1000).Some? && d.GetTranslation(0x1000) == None
  {
    hide Fetch, TablePages, Walk, IndexedWalk, TableReadable, CollapsedOnPath, Dict.GetTranslation;
    LoopedFetch();
    LoopedRead(LoopedMachine(), 4);
    RootLookup(LoopedMachine(), 0, 0);
    LoopedStep(LoopedMachine(), 1);
    LoopedStep(LoopedMachine(), 2);
    LoopedStep(LoopedMachine(), 3);
    LoopedStep(LoopedMachine(), 4);
    WalkSamePage(LoopedMachine(), 4, 0, 0, 0);
    assert 0 in d.at;
    TranslationAgrees(LoopedMachine(), 0, d, 0x1000);
  }
}
