/** The index seen from the physical side: coalesced ranges, pages by address, and the inverted index. */
module PhysicalView {
  import opened Bits
  import opened Options
  import opened Translation
  import opened PageTables
  import opened WalkIndex

  // ---------------------------------------------------------------- get_pages_by_physaddr

  function PhysMask(s: PageSize): Option<nat> {
    match s
    case KB4 => Some(ADDR_4KB)
    case MB2 => Some(ADDR_2MB)
    case GB1 => Some(ADDR_1GB)
    case MB4 => None
  }

  /** The page and the address lie in the same page-sized frame of the 52-bit physical space. */
  ghost predicate SameFrame(p: Page, addr: nat) {
    p.addr % TWO52 - p.addr % Bytes(p.size) == addr % TWO52 - addr % Bytes(p.size)
  }

  ghost function InFrame(keys: seq<nat>, at: map<nat, Page>, addr: nat): (r: seq<Page>)
    requires forall k :: k in keys ==> k in at
  {
    if keys == [] then []
    else
      var k := keys[|keys| - 1];
      InFrame(keys[..|keys| - 1], at, addr) + if SameFrame(at[k], addr) then [at[k]] else []
  }

  lemma MaskIsFrame(p: Page, addr: nat)
    requires PhysMask(p.size).Some?
    ensures (And(p.addr, PhysMask(p.size).value) == And(addr, PhysMask(p.size).value)) == SameFrame(p, addr)
  {
    hide And;
    PhysicalMasks(p.addr);
    PhysicalMasks(addr);
  }

  /** get_pages_by_physaddr; None stands for the KeyError a 4MB page causes. */
  method GetPagesByPhysAddr(d: Dict, addr: nat) returns (result: Option<seq<Page>>)
    requires d.Valid()
    ensures result.None? <==> exists k :: k in d.at && d.at[k].size == MB4
    ensures result.Some? ==> result.value == InFrame(d.keys, d.at, addr)
  {
    hide And, SameFrame;
    var found := [];
    for i := 0 to |d.keys|
      invariant forall j :: 0 <= j < i ==> d.at[d.keys[j]].size != MB4
      invariant found == InFrame(d.keys[..i], d.at, addr)
    {
      var page := d.at[d.keys[i]];
      var size := PhysMask(page.size);
      if size.None? {
        return None;
      }
      MaskIsFrame(page, addr);
      if And(page.addr, size.value) == And(addr, size.value) {
        found := found + [page];
      }
      assert d.keys[..i + 1][..i] == d.keys[..i];
    }
    assert d.keys[..|d.keys|] == d.keys;
    result := Some(found);
  }

  ghost predicate Holds(p: Page, pa: nat) {
    p.addr <= pa < p.addr + Bytes(p.size)
  }

  /** On aligned pages, the frame test is containment in the page's physical interval. */
  lemma FrameIsInterval(p: Page, pa: nat)
    requires Aligned(p) && pa < TWO52
    ensures SameFrame(p, pa) <==> Holds(p, pa)
  {
    var s := Bytes(p.size);
    if Holds(p, pa) {
      DivModUnique(pa, s, p.addr / s, pa - p.addr);
    }
  }

  lemma {:induction false} InFrameMembers(keys: seq<nat>, at: map<nat, Page>, addr: nat, p: Page)
    requires forall k :: k in keys ==> k in at
    ensures p in InFrame(keys, at, addr) <==> exists k :: k in keys && at[k] == p && SameFrame(p, addr)
  {
    if keys != [] {
      var init, last := keys[..|keys| - 1], keys[|keys| - 1];
      assert keys == init + [last];
      InFrameMembers(init, at, addr, p);
    }
  }

  // ---------------------------------------------------------------- get_mem_range

  datatype Range = Range(start: nat, end: nat, attr: string)

  /** One page per physical base: the one recorded last. */
  ghost function Kept(keys: seq<nat>, at: map<nat, Page>): map<nat, Page>
    requires forall k :: k in keys ==> k in at
  {
    if keys == [] then map[]
    else
      var p := at[keys[|keys| - 1]];
      Kept(keys[..|keys| - 1], at)[p.addr := p]
  }

  /** Every kept page was recorded under its own base, and every recorded base is kept. */
  lemma {:induction false} KeptMeaning(keys: seq<nat>, at: map<nat, Page>, a: nat)
    requires forall k :: k in keys ==> k in at
    ensures a in Kept(keys, at) <==> exists k :: k in keys && at[k].addr == a
    ensures a in Kept(keys, at) ==> Kept(keys, at)[a].addr == a && exists k :: k in keys && at[k] == Kept(keys, at)[a]
  {
    if keys != [] {
      var init, last := keys[..|keys| - 1], keys[|keys| - 1];
      assert keys == init + [last];
      KeptMeaning(init, at, a);
    }
  }

  /** Position i is the last that records a page for base a, and that page is kept. */
  ghost predicate LastFor(keys: seq<nat>, at: map<nat, Page>, a: nat, i: nat)
    requires forall k :: k in keys ==> k in at
  {
    && i < |keys| && at[keys[i]].addr == a && a in Kept(keys, at) && Kept(keys, at)[a] == at[keys[i]]
    && forall j :: i < j < |keys| ==> at[keys[j]].addr != a
  }

  /** Of several pages with one base the one recorded last is kept. */
  lemma {:induction false} KeptIsLast(keys: seq<nat>, at: map<nat, Page>, a: nat) returns (i: nat)
    requires forall k :: k in keys ==> k in at
    requires a in Kept(keys, at)
    ensures LastFor(keys, at, a, i)
  {
    var n := |keys| - 1;
    if at[keys[n]].addr == a {
      i := n;
    } else {
      i := KeptIsLast(keys[..n], at, a);
      assert keys[..n][i] == keys[i];
      assert forall j :: i < j < n ==> keys[j] == keys[..n][j];
    }
  }

  lemma JoinBehind<T>(a: seq<T>, b: seq<T>, c: seq<T>)
    ensures a + b + c == a + (b + c)
  {
  }

  /** Pages are found in the order in which they were recorded. */
  lemma {:induction false} InFrameInOrder(a: seq<nat>, b: seq<nat>, at: map<nat, Page>, addr: nat)
    requires forall k :: k in a + b ==> k in at
    requires (forall k :: k in a ==> k in at) && (forall k :: k in b ==> k in at)
    ensures InFrame(a + b, at, addr) == InFrame(a, at, addr) + InFrame(b, at, addr)
    decreases |b|
  {
    hide SameFrame;
    if b == [] {
      assert a + b == a;
    } else {
      var n := |b| - 1;
      assert (a + b)[..|a| + n] == a + b[..n] && (a + b)[|a| + n] == b[n];
      InFrameInOrder(a, b[..n], at, addr);
      var last := if SameFrame(at[b[n]], addr) then [at[b[n]]] else [];
      JoinBehind(InFrame(a, at, addr), InFrame(b[..n], at, addr), last);
    }
  }

  predicate IsLeast(m: nat, s: set<nat>) {
    m in s && forall y :: y in s ==> m <= y
  }

  lemma {:induction false} LeastExists(s: set<nat>, x: nat)
    requires x in s
    ensures exists m :: IsLeast(m, s)
    decreases x
  {
    if !IsLeast(x, s) {
      var y :| y in s && y < x;
      LeastExists(s, y);
    }
  }

  function Least(s: set<nat>): (m: nat)
    requires s != {}
    ensures IsLeast(m, s)
  {
    assert exists m :: IsLeast(m, s) by {
      var x :| x in s;
      LeastExists(s, x);
    }
    var m :| IsLeast(m, s);
    m
  }

  /** sorted(perm.keys()) */
  function Sorted(s: set<nat>): (r: seq<nat>)
    ensures Ascending(r)
    ensures forall x :: x in r <==> x in s
  {
    if s == {} then []
    else
      var m := Least(s);
      var rest := Sorted(s - {m});
      assert forall i :: 0 <= i < |rest| ==> rest[i] in s - {m};
      [m] + rest
  }

  ghost predicate Ascending(addrs: seq<nat>) {
    forall i, j :: 0 <= i < j < |addrs| ==> addrs[i] < addrs[j]
  }

  lemma AscendingPrefix(addrs: seq<nat>, n: nat)
    requires Ascending(addrs) && n <= |addrs|
    ensures Ascending(addrs[..n])
  {
  }

  function AttrOf(p: Page, noattr: bool): string {
    if noattr then "" else p.attr
  }

  ghost predicate Inside(r: Range, x: int) {
    r.start <= x < r.end
  }

  ghost predicate InRanges(ranges: seq<Range>, x: int) {
    exists i :: 0 <= i < |ranges| && Inside(ranges[i], x)
  }

  ghost predicate InPages(addrs: seq<nat>, kept: map<nat, Page>, x: int)
    requires forall a :: a in addrs ==> a in kept
  {
    exists i :: 0 <= i < |addrs| && addrs[i] <= x < addrs[i] + Bytes(kept[addrs[i]].size)
  }

  /** The page lies in the range, which has its attribute. */
  ghost predicate Contains(r: Range, a: nat, p: Page, noattr: bool) {
    r.start <= a && a + Bytes(p.size) <= r.end && r.attr == if noattr then "" else p.attr
  }

  ghost predicate Mergeable(r: Range, s: Range) {
    r.end == s.start && r.attr == s.attr
  }

  /** Starts strictly increase, no range is empty, and no two neighbours could still be merged. */
  ghost predicate Separated(ranges: seq<Range>) {
    && (forall i :: 0 <= i < |ranges| ==> ranges[i].start < ranges[i].end)
    && (forall i, j :: 0 <= i < j < |ranges| ==> ranges[i].start < ranges[j].start)
    && (forall i :: 0 < i < |ranges| ==> !Mergeable(ranges[i - 1], ranges[i]))
  }

  /** What the coalesced list must be, for the pages kept at the given ascending bases. */
  ghost predicate Coalesced(ranges: seq<Range>, addrs: seq<nat>, kept: map<nat, Page>, noattr: bool)
    requires forall a :: a in addrs ==> a in kept
  {
    && Separated(ranges)
    && (forall i :: 0 <= i < |ranges| ==> ranges[i].start in addrs)
    && (forall x :: InRanges(ranges, x) <==> InPages(addrs, kept, x))
    && (forall j :: 0 <= j < |addrs| ==> InOneRange(ranges, addrs[j], kept[addrs[j]], noattr))
    && TotalRanges(ranges) == TotalPages(addrs, kept)
  }

  ghost predicate InOneRange(ranges: seq<Range>, a: nat, p: Page, noattr: bool) {
    exists i :: 0 <= i < |ranges| && Contains(ranges[i], a, p, noattr)
  }

  ghost function TotalRanges(ranges: seq<Range>): int {
    if ranges == [] then 0
    else TotalRanges(ranges[..|ranges| - 1]) + ranges[|ranges| - 1].end - ranges[|ranges| - 1].start
  }

  ghost function TotalPages(addrs: seq<nat>, kept: map<nat, Page>): int
    requires forall a :: a in addrs ==> a in kept
  {
    if addrs == [] then 0
    else TotalPages(addrs[..|addrs| - 1], kept) + Bytes(kept[addrs[|addrs| - 1]].size)
  }

  function Extend(ranges: seq<Range>, addr: nat, size: nat, attr: string): seq<Range> {
    if ranges == [] then [Range(addr, addr + size, attr)]
    else
      var last := ranges[|ranges| - 1];
      if last.end == addr && last.attr == attr then ranges[|ranges| - 1 := last.(end := last.end + size)]
      else ranges + [Range(addr, addr + size, attr)]
  }

  lemma ExtendSeparated(ranges: seq<Range>, addr: nat, size: nat, attr: string)
    requires Separated(ranges) && size > 0
    requires forall i :: 0 <= i < |ranges| ==> ranges[i].start < addr
    ensures Separated(Extend(ranges, addr, size, attr))
  {
  }

  lemma ExtendCovers(ranges: seq<Range>, addr: nat, size: nat, attr: string, x: int)
    requires Separated(ranges)
    ensures InRanges(Extend(ranges, addr, size, attr), x) <==> InRanges(ranges, x) || addr <= x < addr + size
  {
    var out := Extend(ranges, addr, size, attr);
    if InRanges(ranges, x) {
      var i :| 0 <= i < |ranges| && Inside(ranges[i], x);
      assert Inside(out[i], x);
    } else if addr <= x < addr + size {
      assert Inside(out[|out| - 1], x);
    } else {
      forall i | 0 <= i < |out| ensures !Inside(out[i], x) {
        assert i < |ranges| ==> !Inside(ranges[i], x);
      }
    }
  }

  lemma InPagesAppend(addrs: seq<nat>, addr: nat, kept: map<nat, Page>, x: int)
    requires forall a :: a in addrs + [addr] ==> a in kept
    ensures forall a: nat :: a in addrs ==> a in addrs + [addr]
    ensures InPages(addrs + [addr], kept, x) <==> InPages(addrs, kept, x) || addr <= x < addr + Bytes(kept[addr].size)
  {
    hide Bytes;
    var all: seq<nat> := addrs + [addr];
    forall a: nat | a in addrs ensures a in all {
      var i :| 0 <= i < |addrs| && addrs[i] == a;
      assert all[i] == a;
    }
    if InPages(addrs, kept, x) {
      var i :| 0 <= i < |addrs| && addrs[i] <= x < addrs[i] + Bytes(kept[addrs[i]].size);
      assert all[i] <= x < all[i] + Bytes(kept[all[i]].size);
    }
    if addr <= x < addr + Bytes(kept[addr].size) {
      assert all[|addrs|] <= x < all[|addrs|] + Bytes(kept[all[|addrs|]].size);
    }
  }

  lemma ExtendContains(ranges: seq<Range>, addr: nat, p: Page, noattr: bool, a: nat, q: Page)
    requires Separated(ranges)
    requires InOneRange(ranges, a, q, noattr) || (a == addr && q == p)
    ensures InOneRange(Extend(ranges, addr, Bytes(p.size), AttrOf(p, noattr)), a, q, noattr)
  {
    hide Bytes;
    var out := Extend(ranges, addr, Bytes(p.size), AttrOf(p, noattr));
    if InOneRange(ranges, a, q, noattr) {
      var i :| 0 <= i < |ranges| && Contains(ranges[i], a, q, noattr);
      assert Contains(out[i], a, q, noattr);
    } else {
      assert Contains(out[|out| - 1], a, q, noattr);
    }
  }

  lemma ExtendStarts(ranges: seq<Range>, addrs: seq<nat>, addr: nat, size: nat, attr: string)
    requires Ascending(addrs + [addr])
    requires forall i :: 0 <= i < |ranges| ==> ranges[i].start in addrs
    ensures forall i :: 0 <= i < |ranges| ==> ranges[i].start < addr
    ensures var out := Extend(ranges, addr, size, attr); forall i :: 0 <= i < |out| ==> out[i].start in addrs + [addr]
  {
    var out := Extend(ranges, addr, size, attr);
    var all: seq<nat> := addrs + [addr];
    forall i | 0 <= i < |ranges| ensures ranges[i].start < addr && ranges[i].start in all {
      var j :| 0 <= j < |addrs| && addrs[j] == ranges[i].start;
      assert all[j] < all[|addrs|];
    }
    assert all[|addrs|] == addr;
    assert forall i :: 0 <= i < |out| ==> out[i].start == if i < |ranges| then ranges[i].start else addr;
  }

  /** One step of the coalescing loop keeps the list coalesced. */
  lemma ExtendStep(ranges: seq<Range>, addrs: seq<nat>, addr: nat, kept: map<nat, Page>, noattr: bool)
    requires forall a :: a in addrs + [addr] ==> a in kept
    requires Ascending(addrs + [addr])
    requires forall a :: a in addrs ==> a in kept
    requires Coalesced(ranges, addrs, kept, noattr)
    ensures Coalesced(Extend(ranges, addr, Bytes(kept[addr].size), AttrOf(kept[addr], noattr)), addrs + [addr], kept,
            noattr)
  {
    hide AttrOf, InRanges, InPages, InOneRange, Separated, Extend, Ascending, TotalRanges, TotalPages, Bytes;
    var size, attr := Bytes(kept[addr].size), AttrOf(kept[addr], noattr);
    var out := Extend(ranges, addr, size, attr);
    var all: seq<nat> := addrs + [addr];
    SizesPositive(kept[addr].size);
    ExtendStarts(ranges, addrs, addr, size, attr);
    ExtendSeparated(ranges, addr, size, attr);
    ExtendTotal(ranges, addr, size, attr);
    AppendTotal(addrs, addr, kept);
    forall x
      ensures InRanges(out, x) <==> InPages(all, kept, x)
    {
      ExtendCovers(ranges, addr, size, attr, x);
      InPagesAppend(addrs, addr, kept, x);
    }
    forall j | 0 <= j < |all|
      ensures InOneRange(out, all[j], kept[all[j]], noattr)
    {
      ExtendContains(ranges, addr, kept[addr], noattr, all[j], kept[all[j]]);
    }
  }

  lemma AppendTotal(addrs: seq<nat>, addr: nat, kept: map<nat, Page>)
    requires forall a :: a in addrs + [addr] ==> a in kept
    requires forall a :: a in addrs ==> a in kept
    ensures TotalPages(addrs + [addr], kept) == TotalPages(addrs, kept) + Bytes(kept[addr].size)
  {
    hide Bytes;
    var all: seq<nat> := addrs + [addr];
    assert all[..|addrs|] == addrs;
  }

  lemma SizesPositive(s: PageSize)
    ensures Bytes(s) > 0
  {
  }

  lemma ExtendTotal(ranges: seq<Range>, addr: nat, size: nat, attr: string)
    ensures TotalRanges(Extend(ranges, addr, size, attr)) == TotalRanges(ranges) + size
  {
    var out := Extend(ranges, addr, size, attr);
    if |out| == |ranges| {
      assert out[..|out| - 1] == ranges[..|ranges| - 1];
    } else {
      assert out[..|out| - 1] == ranges;
    }
  }

  function RangeBytes(p: Page): Option<nat> {
    if p.size.MB4? then None else Some(Bytes(p.size))
  }

  /** The dictionary comprehension that keeps one page per physical base. */
  method BuildPerm(d: Dict) returns (perm: map<nat, Page>)
    requires d.Valid()
    ensures perm == Kept(d.keys, d.at)
  {
    perm := map[];
    for i := 0 to |d.keys|
      invariant perm == Kept(d.keys[..i], d.at)
    {
      var p := d.at[d.keys[i]];
      perm := perm[p.addr := p];
      assert d.keys[..i + 1][..i] == d.keys[..i];
    }
    assert d.keys[..|d.keys|] == d.keys;
  }

  /** get_mem_range; None stands for the KeyError a kept 4MB page causes. */
  method GetMemRange(d: Dict, noattr: bool) returns (r: Option<seq<Range>>)
    requires d.Valid()
    ensures var kept := Kept(d.keys, d.at);
            && (r.None? <==> exists a :: a in kept && kept[a].size == MB4)
            && (r.Some? ==> Coalesced(r.value, Sorted(kept.Keys), kept, noattr))
    ensures var kept := Kept(d.keys, d.at);
            r.Some? ==> forall a :: a in kept ==> Covered(r.value, a, kept[a], noattr)
  {
    hide Bytes, AttrOf, Kept, Extend, Coalesced, Sorted, Ascending;
    var perm := BuildPerm(d);
    var addrs := Sorted(perm.Keys);
    var ranges: seq<Range> := [];
    EmptyIsCoalesced(perm, noattr);
    for i := 0 to |addrs|
      invariant forall j :: 0 <= j < i ==> perm[addrs[j]].size != MB4
      invariant forall a :: a in addrs[..i] ==> a in perm
      invariant Coalesced(ranges, addrs[..i], perm, noattr)
    {
      var addr := addrs[i];
      var size := RangeBytes(perm[addr]);
      if size.None? {
        return None;
      }
      assert addrs[..i + 1] == addrs[..i] + [addr];
      AscendingPrefix(addrs, i + 1);
      ExtendStep(ranges, addrs[..i], addr, perm, noattr);
      ranges := Extend(ranges, addr, size.value, AttrOf(perm[addr], noattr));
    }
    assert addrs[..|addrs|] == addrs;
    AllCovered(ranges, perm, noattr);
    r := Some(ranges);
  }

  /** Some range holds the page and shows its own attribute, or none if attributes are not wanted. */
  ghost predicate Covered(ranges: seq<Range>, a: nat, p: Page, noattr: bool) {
    exists i :: 0 <= i < |ranges| && ranges[i].start <= a && a + Bytes(p.size) <= ranges[i].end
      && ranges[i].attr == if noattr then "" else p.attr
  }

  lemma AllCovered(ranges: seq<Range>, kept: map<nat, Page>, noattr: bool)
    requires Coalesced(ranges, Sorted(kept.Keys), kept, noattr)
    ensures forall a :: a in kept ==> Covered(ranges, a, kept[a], noattr)
  {
    hide Bytes, InRanges, InPages, Separated, Sorted, TotalRanges, TotalPages;
    var addrs := Sorted(kept.Keys);
    forall a | a in kept
      ensures Covered(ranges, a, kept[a], noattr)
    {
      assert a in addrs;
      var j :| 0 <= j < |addrs| && addrs[j] == a;
      assert InOneRange(ranges, addrs[j], kept[addrs[j]], noattr);
      var i :| 0 <= i < |ranges| && Contains(ranges[i], a, kept[a], noattr);
    }
  }

  lemma EmptyIsCoalesced(kept: map<nat, Page>, noattr: bool)
    ensures Coalesced([], [], kept, noattr)
  {
  }

  lemma CoalescedTotal(ranges: seq<Range>, kept: map<nat, Page>, noattr: bool)
    requires Coalesced(ranges, Sorted(kept.Keys), kept, noattr)
    ensures TotalRanges(ranges) == TotalPages(Sorted(kept.Keys), kept)
  {
    hide InRanges, InPages, InOneRange, Separated, Sorted;
  }

  /** get_address_space: the bytes of the kept pages, each counted once. */
  method GetAddressSpace(d: Dict) returns (total: Option<int>)
    requires d.Valid()
    ensures var kept := Kept(d.keys, d.at);
            && (total.None? <==> exists a :: a in kept && kept[a].size == MB4)
            && (total.Some? ==> total.value == TotalPages(Sorted(kept.Keys), kept))
  {
    hide Bytes, AttrOf, Kept, Coalesced;
    var ranges := GetMemRange(d, false);
    if ranges.None? {
      return None;
    }
    var sum := 0;
    for i := 0 to |ranges.value|
      invariant sum == TotalRanges(ranges.value[..i])
    {
      sum := sum + (ranges.value[i].end - ranges.value[i].start);
      assert ranges.value[..i + 1][..i] == ranges.value[..i];
    }
    assert ranges.value[..|ranges.value|] == ranges.value;
    CoalescedTotal(ranges.value, Kept(d.keys, d.at), false);
    total := Some(sum);
  }

  // ---------------------------------------------------------------- c_reverse_translation

  datatype Back = Back(virt: nat, size: PageSize, attr: string)

  /** The virtual pages recorded for a physical base, in insertion order. */
  ghost function Inverted(keys: seq<nat>, at: map<nat, Page>, phys: nat): seq<Back>
    requires forall k :: k in keys ==> k in at
  {
    if keys == [] then []
    else
      var k := keys[|keys| - 1];
      Inverted(keys[..|keys| - 1], at, phys) + if at[k].addr == phys then [Back(k, at[k].size, at[k].attr)] else []
  }

  class ReverseTranslation {
    var reverse: map<nat, seq<Back>>

    /** The dictionary holds, for each physical base, exactly the pages recorded for it. */
    ghost predicate Inverts(d: Dict)
      reads this
      requires d.Valid()
    {
      && (forall p :: p in reverse <==> Inverted(d.keys, d.at, p) != [])
      && (forall p :: p in reverse ==> reverse[p] == Inverted(d.keys, d.at, p))
    }

    constructor (d: Dict)
      requires d.Valid()
      ensures Inverts(d)
    {
      var rev: map<nat, seq<Back>> := map[];
      for i := 0 to |d.keys|
        invariant forall p :: p in rev <==> Inverted(d.keys[..i], d.at, p) != []
        invariant forall p :: p in rev ==> rev[p] == Inverted(d.keys[..i], d.at, p)
      {
        var virt := d.keys[i];
        var page := d.at[virt];
        if page.addr !in rev {
          rev := rev[page.addr := []];
        }
        assert d.keys[..i + 1][..i] == d.keys[..i];
        rev := rev[page.addr := rev[page.addr] + [Back(virt, page.size, page.attr)]];
      }
      assert d.keys[..|d.keys|] == d.keys;
      reverse := rev;
    }

    /** get_reverse_translation looks up the 4KB frame of the address only. */
    function GetReverseTranslation(addr: nat): seq<Back>
      reads this
    {
      var base := And(addr, LOOKUP_4KB);
      if base in reverse then reverse[base] else []
    }
  }

  /** The inverted index is exactly the inverse relation, attributes and sizes included. */
  lemma {:induction false} InvertedIsInverse(keys: seq<nat>, at: map<nat, Page>, phys: nat, b: Back)
    requires forall k :: k in keys ==> k in at
    ensures b in Inverted(keys, at, phys) <==> b.virt in keys && at[b.virt] == Page(phys, b.size, b.attr)
  {
    if keys != [] {
      var init, last := keys[..|keys| - 1], keys[|keys| - 1];
      assert keys == init + [last];
      InvertedIsInverse(init, at, phys, b);
    }
  }

  /** A reverse lookup finds exactly the pages whose base is the address's 4KB frame: a larger page is found
      only from its first 4KB. */
  lemma ReverseLookup(rt: ReverseTranslation, d: Dict, addr: nat, b: Back)
    requires d.Valid() && rt.Inverts(d) && addr < TWO64
    ensures b in rt.GetReverseTranslation(addr) <==>
            b.virt in d.at && d.at[b.virt] == Page(addr - addr % 0x1000, b.size, b.attr)
  {
    hide And, Inverted;
    LookupMasks(addr);
    InvertedIsInverse(d.keys, d.at, addr - addr % 0x1000, b);
  }

  /** The reverse dictionary lists pages in the order in which they were recorded. */
  lemma {:induction false} InvertedInOrder(a: seq<nat>, b: seq<nat>, at: map<nat, Page>, phys: nat)
    requires forall k :: k in a + b ==> k in at
    requires (forall k :: k in a ==> k in at) && (forall k :: k in b ==> k in at)
    ensures Inverted(a + b, at, phys) == Inverted(a, at, phys) + Inverted(b, at, phys)
    decreases |b|
  {
    if b == [] {
      assert a + b == a;
    } else {
      var n := |b| - 1;
      assert (a + b)[..|a| + n] == a + b[..n] && (a + b)[|a| + n] == b[n];
      InvertedInOrder(a, b[..n], at, phys);
      var k := b[n];
      var last := if at[k].addr == phys then [Back(k, at[k].size, at[k].attr)] else [];
      JoinBehind(Inverted(a, at, phys), Inverted(b[..n], at, phys), last);
    }
  }

  // ---------------------------------------------------------------- forward against reverse

  /** Forward then back: the page get_translation used is among those found for the physical address. */
  lemma ForwardThenBack(m: Machine, root: nat, d: Dict, va: nat, pa: nat) returns (k: nat, p: Page)
    requires d.Valid() && d.at == TablePages(m, 4, root, 0, map[]) && |d.at| > 0 && va < TWO64
    requires d.GetTranslation(va) == Some(pa)
    ensures k in d.at && d.at[k] == p && k <= va < k + Bytes(p.size)
    ensures pa < TWO52 && Holds(p, pa) && pa - p.addr == va - k
    ensures p in InFrame(d.keys, d.at, pa)
  {
    hide And, TablePages, IndexedWalk, IsCanonical, SameFrame, InFrame, Dict.GetTranslation;
    IndexAnswers(m, root, d, va);
    WalkSamePage(m, 4, root, va, va);
    p := IndexedWalk(m, 4, root, va).value;
    k := va - va % Bytes(p.size);
    CoveringIsWalk(m, root, d, va, p.size);
    FrameIsInterval(p, pa);
    InFrameMembers(d.keys, d.at, pa, p);
  }

  /** Back then forward: every page found for a physical address translates some va to it. */
  lemma BackThenForward(m: Machine, root: nat, d: Dict, k: nat, pa: nat)
    requires d.Valid() && d.at == TablePages(m, 4, root, 0, map[]) && pa < TWO52
    requires k in d.at && SameFrame(d.at[k], pa)
    ensures var va := k + pa - d.at[k].addr; k <= va < TWO64 && d.GetTranslation(va) == Some(pa)
  {
    hide And, TablePages, IndexedWalk, Dict.GetTranslation;
    var p := d.at[k];
    RootLookup(m, root, k);
    WalkIgnoresHighBits(m, 4, root, k);
    WalkSamePage(m, 4, root, k, k);
    FrameIsInterval(p, pa);
    var s, va := Bytes(p.size), k + pa - p.addr;
    SamePageAddress(m.flavour, k, va, p.size);
    WalkSamePage(m, 4, root, k, va);
    IndexAnswers(m, root, d, va);
  }

  lemma SamePageAddress(fl: Flavour, k: nat, va: nat, size: PageSize)
    requires size != MB4 && IsCanonical(fl, k) && k % TWO48 % Bytes(size) == 0
    requires k <= va < k + Bytes(size)
    ensures va < TWO64 && IsCanonical(fl, va)
    ensures va / Bytes(size) == k / Bytes(size) && va % Bytes(size) == va - k
  {
    var s, r := Bytes(size), k % TWO48;
    InBlock(k, va, s, TWO48 / s);
    assert s * (TWO48 / s) == TWO48;
    DivModUnique(va, TWO48, k / TWO48, r + (va - k));
  }

  lemma InBlock(k: nat, va: nat, s: nat, n: nat)
    requires s > 0 && n > 0 && s * n > 0
    requires k % (s * n) % s == 0 && k <= va < k + s
    ensures k % (s * n) + s <= s * n
    ensures va / s == k / s && va % s == va - k
  {
    RoundDown(k, s, n);
    RoundDown(k % (s * n), s, n);
    var big := s * n;
    var q, r := k / big, k % big;
    assert k == s * (n * q + r / s) by {
      assert r == s * (r / s);
      assert big * q == s * (n * q);
    }
    DivModUnique(k, s, n * q + r / s, 0);
    DivModUnique(va, s, n * q + r / s, va - k);
  }
}
