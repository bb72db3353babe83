/** Page-table entries and walks in plain arithmetic, as section 4.5 of the Intel SDM volume 3A lays them out. */
module SdmWalk {
  import opened Bits
  import opened Options
  import opened Translation
  import opened PageTables
  import opened WalkIndex

  // ---------------------------------------------------------------- the bits of an entry

  lemma SmallPowers()
    ensures Pow2(0) == 1 && Pow2(1) == 2 && Pow2(2) == 4 && Pow2(3) == 8 && Pow2(7) == 0x80
  {
  }

  /** One bit of an entry, by mask and as a field. */
  lemma OneBitOf(e: nat, n: nat, p: nat)
    requires p == Pow2(n)
    ensures And(e, p) == if e / p % 2 == 1 then p else 0
    ensures GetField(e, 1, n) == e / p % 2
  {
    hide And;
    AndMaskAs(e, n, 1, p, p, 2 * p);
    OneBit(e, p);
    Pow2Values();
    FieldMeaning(e, 1, n, 1, 2, p);
  }

  /** Bit 0 says present; for EPT any of bits 0 to 2 does. */
  lemma PresentMeaning(fl: Flavour, e: Qword)
    ensures IsPresent(fl, e) <==> if fl.Ept? then e % 8 != 0 else e % 2 == 1
  {
    hide And, GetField, Shr;
    SmallPowers();
    OneBitOf(e, 0, 1);
    FieldMeaning(e, 3, 0, 7, 8, 1);
  }

  /** Bit 7 says that the entry maps a page instead of a table. */
  lemma BigPageMeaning(fl: Flavour, e: Qword)
    ensures IsBigPage(fl, e) <==> e / 0x80 % 2 == 1
  {
    hide And, GetField, Shr;
    SmallPowers();
    OneBitOf(e, 7, 0x80);
  }

  /** Bit 1 is read/write and bit 2 user/supervisor; EPT shows bits 0 to 2 and the memory type in bits 3 to 5. */
  lemma AttrMeaning(e: Qword)
    ensures GetAttr(Plain, e) == (if e / 2 % 2 == 1 then "W" else "R") + (if e / 4 % 2 == 1 then "U" else "S")
    ensures GetAttr(Ia32e, e)
         == (if e / 2 % 2 == 1 then "W" else "R") + " " + (if e / 4 % 2 == 1 then "U" else "S")
    ensures GetAttr(Ept, e)
         == ["---", "--R", "-W-", "-WR", "X--", "X-R", "XW-", "XWR"][e % 8] + " "
            + ["UC", "WC", "02", "03", "WT", "WP", "WB", "UC-"][e / 8 % 8]
  {
    hide And, GetField, Shr;
    SmallPowers();
    OneBitOf(e, 1, 2);
    OneBitOf(e, 2, 4);
    FieldMeaning(e, 3, 0, 7, 8, 1);
    FieldMeaning(e, 3, 3, 7, 8, 8);
  }

  predicate Present(fl: Flavour, e: Qword) {
    if fl.Ept? then e % 8 != 0 else e % 2 == 1
  }

  /** The physical address in an entry: bits 0 to 51, rounded down to a multiple of size. */
  ghost function Base(e: nat, size: nat): nat
    requires size > 0
  {
    e % 0x10_0000_0000_0000 / size * size
  }

  lemma BaseIs(e: nat, size: nat)
    requires size == 0x1000 || size == 0x20_0000 || size == 0x4000_0000
    ensures Base(e, size) == e % TWO52 - e % size
  {
    var k := TWO52 / size;
    RoundDown(e, size, k);
    var r, a := e % TWO52, e % TWO52 - e % size;
    assert a == size * (a / size);
    DivModUnique(r, size, a / size, e % size);
  }

  /** An entry in numbers: level 1 maps 4KB, levels 2 and 3 map 2MB and 1GB if bit 7 is set, everything else present
      leads to the table at bits 12 to 51. */
  lemma DecodeMeaning(fl: Flavour, level: nat, e: Qword)
    requires 1 <= level <= 4
    ensures var s := Decode(fl, level, e);
            && (!Present(fl, e) ==> s == Absent)
            && (Present(fl, e) && level == 1 ==> s == Leaf(Page(Base(e, 0x1000), KB4, GetAttr(fl, e))))
            && (Present(fl, e) && level == 2 && e / 0x80 % 2 == 1 ==>
                  s == Leaf(Page(Base(e, 0x20_0000), MB2, GetAttr(fl, e))))
            && (Present(fl, e) && level == 3 && e / 0x80 % 2 == 1 ==>
                  s == Leaf(Page(Base(e, 0x4000_0000), GB1, GetAttr(fl, e))))
            && (Present(fl, e) && (level == 4 || (level > 1 && e / 0x80 % 2 == 0)) ==> s == Child(Base(e, 0x1000)))
  {
    hide And, IsPresent, IsBigPage, GetAttr, Base;
    PresentMeaning(fl, e);
    BigPageMeaning(fl, e);
    PhysicalMasks(e);
    BaseIs(e, 0x1000);
    BaseIs(e, 0x20_0000);
    BaseIs(e, 0x4000_0000);
  }

  /** Canonical addresses: the lowest and the highest 2^47 of 2^64; for EPT all below 2^48. */
  lemma CanonicalIs(fl: Flavour, va: nat)
    ensures IsCanonical(fl, va) <==>
              if fl.Ept? then va < 0x1_0000_0000_0000
              else va < 0x8000_0000_0000 || 0xFFFF_8000_0000_0000 <= va < 0x1_0000_0000_0000_0000
  {
    var q, r := va / TWO48, va % TWO48;
    assert va == q * TWO48 + r;
  }

  // ---------------------------------------------------------------- the walk

  /** The translation of va below a table, in numbers only: bits 39 to 47 of va select the entry of level 4, bits 30 to
      38 that of level 3, and so on. */
  ghost function Translate(fl: Flavour, mem: Memory, level: nat, table: nat, va: nat): Option<nat>
    requires 1 <= level <= 4
  {
    if table !in mem then None
    else
      var size := if level == 1 then 0x1000 else if level == 2 then 0x20_0000
                  else if level == 3 then 0x4000_0000 else 0x80_0000_0000;
      var e := mem[table][va / size % 512];
      if !Present(fl, e) then None
      else if level == 1 || (level <= 3 && e / 0x80 % 2 == 1) then
        Some(Base(e, size) + va % size)
      else Translate(fl, mem, level - 1, Base(e, 0x1000), va)
  }

  /** An empty index translates every address to itself. */
  lemma EmptyIsIdentity(addr: nat)
    ensures EMPTY.GetTranslation(addr) == Some(addr)
  {
  }

  /** Without second-level translation the walk is that translation. */
  lemma {:induction false} WalkIsTranslation(m: Machine, level: nat, table: nat, va: nat)
    requires 1 <= level <= 4 && m.level2 == EMPTY
    ensures AtOffset(Walk(m, level, table, va), va) == Translate(m.flavour, m.mem, level, table, va)
    decreases level
  {
    hide And, Decode, IsPresent, IsBigPage, GetAttr, Dict.GetTranslation, Base;
    EmptyIsIdentity(table);
    if table in m.mem {
      var e := m.mem[table][Index(level, va)];
      DecodeMeaning(m.flavour, level, e);
      var s := Decode(m.flavour, level, e);
      if s.Child? {
        WalkIsTranslation(m, level - 1, s.table, va);
      }
    }
  }

  /** The index built from a root gives that translation, for a canonical address, exactly when the address is unmapped
      or no table on its path was collapsed past entry 0. */
  lemma IndexTranslates(m: Machine, root: nat, d: Dict, va: nat)
    requires d.at == TablePages(m, 4, root, 0, map[]) && |d.at| > 0 && va < TWO64 && m.level2 == EMPTY
    ensures IsCanonical(m.flavour, va) ==>
              var sdm := Translate(m.flavour, m.mem, 4, root, va);
              (d.GetTranslation(va) == sdm <==> sdm.None? || !CollapsedOnPath(m, 4, root, va))
  {
    hide Walk, Translate, TablePages, CollapsedOnPath, IsCanonical, Dict.GetTranslation;
    TranslationAgrees(m, root, d, va);
    WalkIsTranslation(m, 4, root, va);
  }

  // ---------------------------------------------------------------- map_bigpage_1G

  /** The written entry bit by bit: bits 0 to 2 and 7 are set, the page number is i at bits 30 and up, the other bits
      below 12 and from 52 on are the old entry's. */
  lemma BigPageBits(entry: Qword, i: nat, n: nat)
    requires i < 512
    ensures Bit(BigPageEntry(entry, i), n) <==>
              || n in {0, 1, 2, 7}
              || ((n < 12 || n >= 52) && Bit(entry, n))
              || (n >= 30 && Bit(i, n - 30))
  {
    hide Bit, Or, AndNot, And, Shl;
    BitOps(entry, 0x87, n);
    BitOps(Or(entry, 0x87), ADDR_4KB, n);
    BitOps(AndNot(Or(entry, 0x87), ADDR_4KB), Shl(i, 30), n);
    LowMask(n);
    AddressMask(n);
    ShiftedBit(i, 30, n);
    IndexBits(i, n);
  }

  lemma LowMask(n: nat)
    ensures Bit(0x87, n) <==> n in {0, 1, 2, 7}
  {
    if n > 7 {
      BitBehind(0x87, 8, n);
    } else if n == 0 {} else if n == 1 {} else if n == 2 {} else if n == 3 {} else if n == 4 {} else if n == 5 {}
    else if n == 6 {}
  }

  lemma {:induction false} BitBehind(x: nat, k: nat, n: nat)
    requires x < Pow2(k) && n >= k
    ensures !Bit(x, n)
    decreases n
  {
    if n > 0 {
      if k > 0 {
        BitBehind(x / 2, k - 1, n - 1);
      } else {
        BitBehind(0, 0, n - 1);
      }
    }
  }

  /** A block of ones. */
  lemma {:induction false} OnesAt(lo: nat, width: nat, n: nat)
    ensures Bit(Mask(lo, width), n) <==> lo <= n < lo + width
    decreases lo + width
  {
    MaskHalf(lo, width);
    if n > 0 {
      if lo > 0 {
        OnesAt(lo - 1, width, n - 1);
      } else if width > 0 {
        OnesAt(0, width - 1, n - 1);
      } else {
        ZeroHasNoBits(n);
      }
    }
  }

  lemma MaskHalf(lo: nat, width: nat)
    ensures lo > 0 ==> Mask(lo, width) == 2 * Mask(lo - 1, width)
    ensures lo == 0 && width > 0 ==> Mask(0, width) == 2 * Mask(0, width - 1) + 1
    ensures lo == 0 && width == 0 ==> Mask(0, 0) == 0
  {
    MaskIsDifference(lo, width);
    if lo > 0 {
      MaskIsDifference(lo - 1, width);
    } else if width > 0 {
      MaskIsDifference(0, width - 1);
    }
  }

  lemma AddressMask(n: nat)
    ensures Bit(ADDR_4KB, n) <==> 12 <= n < 52
  {
    Pow2Values();
    MaskIsDifference(12, 40);
    assert Mask(12, 40) == ADDR_4KB;
    OnesAt(12, 40, n);
  }

  lemma {:induction false} ShiftedBit(x: nat, k: nat, n: nat)
    ensures Bit(Shl(x, k), n) <==> n >= k && Bit(x, n - k)
    decreases k
  {
    if k > 0 {
      assert Shl(x, k) == 2 * Shl(x, k - 1) by {
        ShlIsTimes(x, k);
        ShlIsTimes(x, k - 1);
        assert x * (2 * Pow2(k - 1)) == 2 * (x * Pow2(k - 1));
      }
      if n > 0 {
        ShiftedBit(x, k - 1, n - 1);
      }
    } else {
      assert x * 1 == x;
    }
  }

  lemma IndexBits(i: nat, n: nat)
    requires i < 512
    ensures n >= 39 ==> !Bit(i, n - 30)
  {
    if n >= 39 {
      Pow2Values();
      BitBehind(i, 9, n - 30);
    }
  }
}
