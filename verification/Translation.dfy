/** The flattened index of c_translation: a dictionary from virtual page
    addresses to pages, and the lookups answered from it. */
module Translation {
  import opened Bits
  import opened Options

  datatype PageSize = KB4 | MB2 | MB4 | GB1

  datatype Page = Page(addr: nat, size: PageSize, attr: string)

  function Bytes(size: PageSize): nat {
    match size
    case KB4 => 0x1000
    case MB2 => 0x20_0000
    case MB4 => 0x40_0000
    case GB1 => 0x4000_0000
  }

  const ADDR_4KB: nat := 0x000F_FFFF_FFFF_F000
  const ADDR_2MB: nat := 0x000F_FFFF_FFE0_0000
  const ADDR_1GB: nat := 0x000F_FFFF_C000_0000

  lemma PageBytes()
    ensures Bytes(KB4) == 4 * 1024 && Bytes(MB2) == 2 * 1024 * 1024
    ensures Bytes(MB4) == 4 * 1024 * 1024 && Bytes(GB1) == 1024 * 1024 * 1024
  {
  }

  // The masks get_translation and get_reverse_translation redefine locally.
  const LOOKUP_4KB: nat := 0xFFFF_FFFF_FFFF_F000
  const LOOKUP_2MB: nat := 0xFFFF_FFFF_FFE0_0000
  const LOOKUP_1GB: nat := 0xFFFF_FFFF_C000_0000

  const TWO52: nat := 0x10_0000_0000_0000
  const TWO64: nat := 0x1_0000_0000_0000_0000

  /** A Python dictionary: what each key holds, and the order of first insertion. */
  datatype Dict = Dict(keys: seq<nat>, at: map<nat, Page>) {

    ghost predicate Valid() {
      && (forall k :: k in keys <==> k in at)
      && (forall i, j :: 0 <= i < j < |keys| ==> keys[i] != keys[j])
    }

    function Set(k: nat, p: Page): (d: Dict)
      requires Valid()
      ensures d.Valid() && d.at == at[k := p]
      ensures d.keys == if k in at then keys else keys + [k]
    {
      Dict(if k in at then keys else keys + [k], at[k := p])
    }

    predicate Exists(addr: nat, mask: nat, size: PageSize) {
      And(addr, mask) in at && at[And(addr, mask)].size == size
    }

    /** One arm of get_translation: the page of this size at the masked address, if recorded. */
    function Arm(addr: nat, mask: nat, size: PageSize): Option<nat> {
      if Exists(addr, mask, size) then Some(Or(at[And(addr, mask)].addr, AndNot(addr, mask))) else None
    }

    /** get_translation: identity on an empty dictionary, else 4KB, 2MB, 1GB in that order. */
    function GetTranslation(addr: nat): Option<nat> {
      if |at| == 0 then Some(addr)
      else if Exists(addr, LOOKUP_4KB, KB4) then Arm(addr, LOOKUP_4KB, KB4)
      else if Exists(addr, LOOKUP_2MB, MB2) then Arm(addr, LOOKUP_2MB, MB2)
      else Arm(addr, LOOKUP_1GB, GB1)
    }
  }

  const EMPTY: Dict := Dict([], map[])

  /** Every recorded page starts at a multiple of its own size, below 2^52. */
  ghost predicate Aligned(p: Page) {
    p.addr % Bytes(p.size) == 0 && p.addr + Bytes(p.size) <= TWO52
  }

  lemma LookupMasks(addr: nat)
    ensures And(addr, LOOKUP_4KB) == addr % TWO64 - addr % 0x1000
    ensures And(addr, LOOKUP_2MB) == addr % TWO64 - addr % 0x20_0000
    ensures And(addr, LOOKUP_1GB) == addr % TWO64 - addr % 0x4000_0000
  {
    hide And;
    Pow2Values();
    AndMaskAs(addr, 12, 52, LOOKUP_4KB, 0x1000, TWO64);
    AndMaskAs(addr, 21, 43, LOOKUP_2MB, 0x20_0000, TWO64);
    AndMaskAs(addr, 30, 34, LOOKUP_1GB, 0x4000_0000, TWO64);
  }

  lemma PhysicalMasks(addr: nat)
    ensures And(addr, ADDR_4KB) == addr % TWO52 - addr % 0x1000
    ensures And(addr, ADDR_2MB) == addr % TWO52 - addr % 0x20_0000
    ensures And(addr, ADDR_1GB) == addr % TWO52 - addr % 0x4000_0000
  {
    hide And;
    Pow2Values();
    AndMaskAs(addr, 12, 40, ADDR_4KB, 0x1000, TWO52);
    AndMaskAs(addr, 21, 31, ADDR_2MB, 0x20_0000, TWO52);
    AndMaskAs(addr, 30, 22, ADDR_1GB, 0x4000_0000, TWO52);
  }

  /** Or-ing the offset into an aligned page adds it; k is the page's number of offset bits. */
  lemma JoinOffset(base: nat, addr: nat, mask: nat, k: nat)
    requires base % Pow2(k) == 0
    requires And(addr, mask) == addr - addr % Pow2(k)
    ensures Or(base, AndNot(addr, mask)) == base + addr % Pow2(k)
  {
    AndNotIsDifference(addr, mask);
    OrHighLow(base, addr % Pow2(k), k);
  }

  /** The recorded page of size s whose interval of virtual addresses holds va, if any. */
  ghost function Covering(d: Dict, va: nat, s: PageSize): Option<Page> {
    var key := va - va % Bytes(s);
    if key in d.at && d.at[key].size == s then Some(d.at[key]) else None
  }

  ghost function AtOffset(p: Option<Page>, va: nat): Option<nat> {
    if p.Some? then Some(p.value.addr + va % Bytes(p.value.size)) else None
  }

  lemma ArmMeaning(d: Dict, va: nat, mask: nat, s: PageSize, k: nat)
    requires Bytes(s) == Pow2(k)
    requires And(va, mask) == va - va % Pow2(k)
    requires forall x :: x in d.at ==> Aligned(d.at[x])
    ensures d.Exists(va, mask, s) == Covering(d, va, s).Some?
    ensures d.Arm(va, mask, s) == AtOffset(Covering(d, va, s), va)
  {
    if Covering(d, va, s).Some? {
      JoinOffset(Covering(d, va, s).value.addr, va, mask, k);
    }
  }

  /** get_translation answers with the covering page, smallest size first. */
  lemma GetTranslationMeaning(d: Dict, va: nat)
    requires va < TWO64 && |d.at| > 0
    requires forall k :: k in d.at ==> Aligned(d.at[k])
    ensures d.GetTranslation(va) ==
      if Covering(d, va, KB4).Some? then AtOffset(Covering(d, va, KB4), va)
      else if Covering(d, va, MB2).Some? then AtOffset(Covering(d, va, MB2), va)
      else AtOffset(Covering(d, va, GB1), va)
  {
    hide And, Or, AndNot, Aligned, Covering, Dict.Exists, Dict.Arm, AtOffset;
    LookupMasks(va);
    Pow2Values();
    ArmMeaning(d, va, LOOKUP_4KB, KB4, 12);
    ArmMeaning(d, va, LOOKUP_2MB, MB2, 21);
    ArmMeaning(d, va, LOOKUP_1GB, GB1, 30);
  }
}
