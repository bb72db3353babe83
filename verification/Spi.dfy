/** SPI flash access by hardware sequencing: chunked reads and writes, and block erase. */
module Spi {
  import opened Bits
  import opened Bytes
  import opened Options

  const HSFCTL_READ_CYCLE: nat := 1
  const HSFCTL_WRITE_CYCLE: nat := 5
  const HSFCTL_ERASE_CYCLE: nat := 7

  const HSFSTS_SCIP: nat := 0x20
  const HSFSTS_AEL: nat := 0x04
  const HSFSTS_FCERR: nat := 0x02
  const HSFSTS_CLEAR: nat := 0x07

  const FADDR_MASK: nat := 0x07FF_FFFF
  const ADDRESSES: nat := 0x0800_0000
  const FDATA_SIZE: nat := 64
  const DEF_DBC: nat := 4
  const MAX_DBC: nat := 64
  const MAX_POLLS: nat := 1000

  /** A flash cycle as the controller saw it: command, address and number of data bytes. */
  datatype Cycle = Cycle(command: nat, address: nat, count: nat)

  /** Programming a flash byte can only clear bits. */
  function Program(was: Byte, bits: Byte): Byte {
    OrIsSum(was, bits);
    And(was, bits)
  }

  function Programmed(flash: Data, a: nat, data: Data): (r: Data)
    requires a + |data| <= |flash|
    ensures |r| == |flash|
  {
    seq(|flash|, i requires 0 <= i < |flash| => if a <= i < a + |data| then Program(flash[i], data[i - a])
      else flash[i])
  }

  /** The erase block that holds address a, clipped to the flash. */
  function Erased(flash: Data, a: nat, block: nat): (r: Data)
    requires block > 0
    ensures |r| == |flash|
  {
    seq(|flash|, i requires 0 <= i < |flash| => if i / block == a / block then 0xFF else flash[i])
  }

  /** The flash address that a linear address selects. */
  function Location(fla: nat): nat {
    fla % ADDRESSES
  }

  lemma MaskedAddress(fla: nat)
    ensures And(fla, FADDR_MASK) == Location(fla) == fla % 0x0800_0000
  {
    hide And;
    Pow2Values();
    AndMaskAs(fla, 0, 27, FADDR_MASK, 1, ADDRESSES);
  }

  lemma LocationStep(fla: nat, k: nat)
    requires Location(fla) + k < ADDRESSES
    ensures Location(fla + k) == Location(fla) + k
  {
    DivModUnique(fla + k, ADDRESSES, fla / ADDRESSES, fla % ADDRESSES + k);
  }

  /** A command the controller carries out: bit 0 starts the cycle that the bits above name, 0 to read, 2 to write
      and 3 to erase a block. */
  predicate Starts(command: nat) {
    command % 2 == 1 && command / 2 in {0, 2, 3}
  }

  /** The controller and the flash part behind it. A cycle takes effect when the command is written; it then
      stays in progress, with bit 5 of the status set, for some number of status reads, and may leave any of the
      flags in bits 0 to 2 set. */
  class Controller {
    const descriptorValid: bool
    const block: nat
    var faddr: nat
    var dbc: nat
    var fdata: Data
    var flash: Data
    var busy: nat
    var flags: nat
    ghost var cycles: seq<Cycle>

    ghost predicate Valid()
      reads this
    {
      block > 0 && |fdata| == FDATA_SIZE && dbc < FDATA_SIZE && flags < 8 && |flash| <= ADDRESSES
    }

    constructor (descriptorValid: bool, block: nat, flash: Data)
      requires block > 0 && |flash| <= ADDRESSES
      ensures Valid() && this.flash == flash && busy == 0 && cycles == []
      ensures this.descriptorValid == descriptorValid && this.block == block
    {
      this.descriptorValid, this.block, this.flash := descriptorValid, block, flash;
      faddr, dbc, fdata, busy, flags, cycles := 0, 0, Repeat(0, FDATA_SIZE), 0, 0, [];
    }

    method WriteFaddr(v: nat)
      modifies this`faddr
      ensures faddr == v
    {
      faddr := v;
    }

    method WriteDbc(v: nat)
      requires v < FDATA_SIZE
      modifies this`dbc
      ensures dbc == v
    {
      dbc := v;
    }

    method WriteFdata0(v: nat)
      requires Valid() && v < 0x1_0000_0000
      modifies this`fdata
      ensures Valid() && fdata == Dword(v) + old(fdata)[4..]
    {
      fdata := Dword(v) + fdata[4..];
    }

    /** Data registers hold a result only once the cycle is over. */
    method ReadFdata(offset: nat) returns (v: nat)
      requires Valid() && busy == 0 && offset + 4 <= FDATA_SIZE
      ensures v == Field(fdata, offset, 4)
    {
      v := Field(fdata, offset, 4);
    }

    method ReadStatus() returns (hsfsts: nat)
      requires Valid()
      modifies this`busy
      ensures Valid() && busy == if old(busy) > 0 then old(busy) - 1 else 0
      ensures hsfsts == flags + if old(busy) > 0 then 0x20 else 0
    {
      hsfsts := flags;
      if busy > 0 {
        hsfsts := hsfsts + 0x20;
        busy := busy - 1;
      }
    }

    /** Status flags are cleared by writing ones to them. */
    method ClearStatus(v: nat)
      requires Valid()
      modifies this`flags
      ensures Valid() && flags == AndNot(old(flags), v)
    {
      AndNotIsDifference(flags, v);
      flags := AndNot(flags, v);
    }

    /** Writing the command starts a cycle; none may be in progress. */
    method Go(command: nat)
      requires Valid() && busy == 0 && Starts(command)
      requires command / 2 != 3 ==> faddr + dbc + 1 <= |flash|
      modifies this`fdata, this`flash, this`busy, this`flags, this`cycles
      ensures Valid() && busy <= MAX_POLLS
      ensures fdata == if command / 2 == 0 then old(flash)[faddr..faddr + dbc + 1] + old(fdata)[dbc + 1..]
              else old(fdata)
      ensures flash == if command / 2 == 2 then Programmed(old(flash), faddr, fdata[..dbc + 1])
                       else if command / 2 == 3 then Erased(old(flash), faddr, block)
                       else old(flash)
      ensures cycles == old(cycles) + [Cycle(command, faddr, dbc + 1)]
    {
      hide Programmed, Erased;
      if command / 2 == 0 {
        fdata := flash[faddr..faddr + dbc + 1] + fdata[dbc + 1..];
      } else if command / 2 == 2 {
        flash := Programmed(flash, faddr, fdata[..dbc + 1]);
      } else {
        flash := Erased(flash, faddr, block);
      }
      cycles := cycles + [Cycle(command, faddr, dbc + 1)];
      var polls: nat, left: nat :| polls <= MAX_POLLS && left < 8;
      busy, flags := polls, left;
    }
  }

  /** A 32-bit register value as bytes. */
  function Dword(v: nat): (b: Data)
    requires v < 0x1_0000_0000
    ensures |b| == 4 && FromLe(b) == v
  {
    Pow256Values();
    Le(v, 4)
  }

  // ---------------------------------------------------------------- the driver

  /** The status register: a cycle in progress in bit 5, the access error in bit 2, the cycle error in bit 1. Clearing
      takes these two and the done flag in bit 0. */
  lemma StatusMeaning(hsfsts: nat)
    ensures And(hsfsts, HSFSTS_SCIP) != 0 <==> hsfsts / 0x20 % 2 == 1
    ensures And(hsfsts, HSFSTS_AEL) != 0 <==> hsfsts / 4 % 2 == 1
    ensures And(hsfsts, HSFSTS_FCERR) != 0 <==> hsfsts / 2 % 2 == 1
    ensures AndNot(hsfsts, HSFSTS_CLEAR) == hsfsts - hsfsts % 8
  {
    hide And, AndNot, Pow2;
    Pow2Values();
    LowPowers();
    AndMaskAs(hsfsts, 5, 1, HSFSTS_SCIP, 0x20, 0x40);
    AndMaskAs(hsfsts, 2, 1, HSFSTS_AEL, 4, 8);
    AndMaskAs(hsfsts, 1, 1, HSFSTS_FCERR, 2, 4);
    AndMaskAs(hsfsts, 0, 3, HSFSTS_CLEAR, 1, 8);
    AndNotIsDifference(hsfsts, HSFSTS_CLEAR);
    OneBit(hsfsts, 0x20);
    OneBit(hsfsts, 4);
    OneBit(hsfsts, 2);
  }

  lemma LowPowers()
    ensures Pow2(2) == 4 && Pow2(5) == 0x20 && Pow2(6) == 0x40
  {
  }

  /** _wait_SPI_flash_cycle_done: true exactly when the cycle ends within the polls made. Error flags are
      cleared before they are read, so they never make it false. */
  method WaitCycleDone(c: Controller) returns (done: bool)
    requires c.Valid()
    modifies c`busy, c`flags
    ensures c.Valid() && (done <==> old(c.busy) <= 1000)
    ensures done ==> c.busy == 0
  {
    hide And, AndNot;
    var hsfsts := 0;
    done := false;
    for i := 0 to MAX_POLLS
      invariant c.Valid() && !done && old(c.busy) >= i && c.busy == old(c.busy) - i
    {
      hsfsts := c.ReadStatus();
      StatusMeaning(hsfsts);
      done := And(hsfsts, HSFSTS_SCIP) == 0;
      if done {
        break;
      }
    }
    if !done {
      hsfsts := c.ReadStatus();
      StatusMeaning(hsfsts);
      done := And(hsfsts, HSFSTS_SCIP) == 0;
    }
    if done {
      StatusMeaning(c.flags);
      c.ClearStatus(HSFSTS_CLEAR);
      hsfsts := c.ReadStatus();
      StatusMeaning(hsfsts);
      done := !(And(hsfsts, HSFSTS_AEL) != 0 || And(hsfsts, HSFSTS_FCERR) != 0);
    }
  }

  /** The bytes a cycle may touch are in the flash. */
  ghost predicate InFlash(c: Controller, fla: nat, n: nat)
    reads c
  {
    Location(fla) + n <= |c.flash|
  }

  /** _send_spi_cycle */
  method SendCycle(c: Controller, command: nat, dbc: nat, fla: nat) returns (done: bool)
    requires c.Valid() && c.busy == 0 && dbc < FDATA_SIZE
    requires command in {HSFCTL_READ_CYCLE, HSFCTL_WRITE_CYCLE, HSFCTL_ERASE_CYCLE}
    requires command != HSFCTL_ERASE_CYCLE ==> InFlash(c, fla, dbc + 1)
    modifies c
    ensures c.Valid() && done && c.busy == 0
    ensures command == HSFCTL_READ_CYCLE ==>
              c.flash == old(c.flash) && c.fdata[..dbc + 1] == c.flash[Location(fla)..Location(fla) + dbc + 1]
    ensures command == HSFCTL_WRITE_CYCLE ==>
              c.fdata == old(c.fdata) && c.flash == Programmed(old(c.flash), Location(fla), old(c.fdata)[..dbc + 1])
    ensures command == HSFCTL_ERASE_CYCLE ==> c.flash == Erased(old(c.flash), Location(fla), c.block)
    ensures |c.cycles| == |old(c.cycles)| + 1 && c.cycles[..|old(c.cycles)|] == old(c.cycles)
    ensures var last := c.cycles[|old(c.cycles)|];
            && last.command == command && last.address == Location(fla)
            && (command != HSFCTL_ERASE_CYCLE ==> last.count == dbc + 1)
  {
    hide And;
    MaskedAddress(fla);
    c.WriteFaddr(And(fla, FADDR_MASK));
    if command != HSFCTL_ERASE_CYCLE {
      c.WriteDbc(dbc);
    }
    c.Go(command);
    done := WaitCycleDone(c);
  }

  /** Cycles of one command that cover [a, a + n) from left to right, each with 1 to max bytes. */
  ghost predicate Tiles(cycles: seq<Cycle>, command: nat, a: nat, n: nat, max: nat) {
    if cycles == [] then n == 0
    else
      var c := cycles[0];
      c.command == command && c.address == a && 1 <= c.count <= Min(n, max)
        && Tiles(cycles[1..], command, a + c.count, n - c.count, max)
  }

  lemma {:induction false} TilesAppend(cycles: seq<Cycle>, command: nat, a: nat, n: nat, max: nat, count: nat)
    requires Tiles(cycles, command, a, n, max) && 1 <= count <= max
    ensures Tiles(cycles + [Cycle(command, a + n, count)], command, a, n + count, max)
    decreases |cycles|
  {
    var last := Cycle(command, a + n, count);
    if cycles == [] {
      assert cycles + [last] == [last] && [last][1..] == [];
    } else {
      var c := cycles[0];
      TilesAppend(cycles[1..], command, a + c.count, n - c.count, max, count);
      assert (cycles + [last])[1..] == cycles[1..] + [last];
    }
  }

  /** The cycles sent after `before` cover [a, a + n). */
  ghost predicate Sent(cycles: seq<Cycle>, before: seq<Cycle>, command: nat, a: nat, n: nat, max: nat) {
    |before| <= |cycles| && cycles[..|before|] == before && Tiles(cycles[|before|..], command, a, n, max)
  }

  lemma SentStep(cycles: seq<Cycle>, later: seq<Cycle>, before: seq<Cycle>, command: nat, a: nat, n: nat, max: nat,
                 count: nat)
    requires Sent(cycles, before, command, a, n, max) && 1 <= count <= max
    requires later == cycles + [Cycle(command, a + n, count)]
    ensures Sent(later, before, command, a, n + count, max)
  {
    hide Tiles;
    TilesAppend(cycles[|before|..], command, a, n, max, count);
    assert later[|before|..] == cycles[|before|..] + [Cycle(command, a + n, count)];
  }

  lemma NothingSent(cycles: seq<Cycle>, command: nat, a: nat, max: nat)
    ensures Sent(cycles, cycles, command, a, 0, max)
  {
    assert cycles[|cycles|..] == [];
  }

  /** One cycle of a transfer that starts at fla and has covered pos bytes so far. */
  method NextCycle(c: Controller, command: nat, count: nat, fla: nat, pos: nat, ghost before: seq<Cycle>,
                   ghost max: nat)
    returns (done: bool)
    requires c.Valid() && c.busy == 0 && 1 <= count <= FDATA_SIZE && count <= max && InFlash(c, fla, pos + count)
    requires command == HSFCTL_READ_CYCLE || command == HSFCTL_WRITE_CYCLE
    requires Sent(c.cycles, before, command, Location(fla), pos, max)
    modifies c
    ensures c.Valid() && done && c.busy == 0
    ensures Sent(c.cycles, before, command, Location(fla), pos + count, max)
    ensures command == HSFCTL_READ_CYCLE ==>
              c.flash == old(c.flash) && c.fdata[..count] == c.flash[Location(fla) + pos..Location(fla) + pos + count]
    ensures command == HSFCTL_WRITE_CYCLE ==>
              c.fdata == old(c.fdata) && c.flash == Programmed(old(c.flash), Location(fla) + pos, old(c.fdata)[..count])
  {
    hide Tiles, Programmed, Erased, Location, Program, Sent;
    LocationStep(fla, pos);
    ghost var was := c.cycles;
    done := SendCycle(c, command, count - 1, fla + pos);
    assert c.cycles == was + [Cycle(command, Location(fla) + pos, count)];
    SentStep(was, c.cycles, before, command, Location(fla), pos, max, count);
  }

  lemma {:induction false} Pow256IsPow2(n: nat)
    ensures Pow256(n) == Pow2(8 * n)
  {
    if n > 0 {
      Pow256IsPow2(n - 1);
      EightDoublings(8 * (n - 1));
    }
  }

  lemma EightDoublings(k: nat)
    ensures Pow2(k + 8) == 256 * Pow2(k)
  {
    FourDoublings(k);
    FourDoublings(k + 4);
  }

  lemma FourDoublings(k: nat)
    ensures Pow2(k + 4) == 16 * Pow2(k)
  {
    assert Pow2(k + 2) == 2 * Pow2(k + 1) == 4 * Pow2(k);
    assert Pow2(k + 3) == 2 * Pow2(k + 2);
  }

  lemma {:induction false} ByteAt(b: Data, j: nat)
    requires j < |b|
    ensures FromLe(b) / Pow256(j) % 256 == b[j]
    decreases j
  {
    if j > 0 {
      DivDiv(FromLe(b), 256, Pow256(j - 1));
      DivModUnique(FromLe(b), 256, FromLe(b[1..]), b[0]);
      ByteAt(b[1..], j - 1);
    } else {
      assert FromLe(b) == b[0] as int + 256 * FromLe(b[1..]);
    }
  }

  /** Byte j of a little-endian double word. */
  lemma ByteOfDword(b: Data, j: nat)
    requires |b| == 4 && j < 4
    ensures And(Shr(FromLe(b), 8 * j), 0xFF) == b[j]
  {
    hide And, Shr, FromLe, Pow256, Pow2;
    var x := FromLe(b);
    ByteAt(b, j);
    Pow256IsPow2(j);
    ShrIsDiv(x, 8 * j);
    Pow2Values();
    AndMaskAs(Shr(x, 8 * j), 0, 8, 0xFF, 1, 0x100);
  }

  /** Copy out whole double words: the first n bytes of FDATA. */
  method ReadDwords(c: Controller, n: nat) returns (chunk: Data)
    requires c.Valid() && c.busy == 0 && n <= FDATA_SIZE && n % 4 == 0
    ensures chunk == c.fdata[..n]
  {
    chunk := [];
    for i := 0 to n / 4
      invariant chunk == c.fdata[..4 * i]
    {
      var dword := c.ReadFdata(i * 4);
      LeOfField(c.fdata, i * 4);
      chunk := chunk + Dword(dword);
      assert c.fdata[..4 * i] + c.fdata[4 * i..4 * i + 4] == c.fdata[..4 * (i + 1)];
    }
  }

  lemma LeOfField(b: Data, o: nat)
    requires o + 4 <= |b|
    ensures Field(b, o, 4) < 0x1_0000_0000 && Dword(Field(b, o, 4)) == b[o..o + 4]
  {
    Pow256Values();
    LeFromLe(b[o..o + 4]);
  }

  /** Copy out the last r bytes, double word by double word and byte by byte. */
  method ReadRemainder(c: Controller, r: nat) returns (chunk: Data)
    requires c.Valid() && c.busy == 0 && 0 < r <= FDATA_SIZE
    ensures chunk == c.fdata[..r]
  {
    hide And, Shr, FromLe;
    chunk := [];
    var t := 4;
    var dwords := (r + 3) / 4;
    for i := 0 to dwords
      invariant chunk == c.fdata[..Min(4 * i, r)]
      invariant i < dwords ==> t == 4
    {
      var dword := c.ReadFdata(i * 4);
      if i == dwords - 1 && r % 4 != 0 {
        t := r % 4;
      }
      for j := 0 to t
        invariant chunk == c.fdata[..4 * i + j]
      {
        ByteOfDword(c.fdata[i * 4..i * 4 + 4], j);
        assert c.fdata[i * 4..i * 4 + 4][j] == c.fdata[4 * i + j];
        chunk := chunk + [And(Shr(dword, 8 * j), 0xFF)];
      }
    }
  }

  /** Whole chunks in n bytes, the bytes left over, and where chunk i starts. */
  function Chunks(n: nat, dbc: nat): nat
    requires dbc > 0
  {
    n / dbc
  }

  function Rest(n: nat, dbc: nat): (r: nat)
    requires dbc > 0
    ensures r < dbc
  {
    n % dbc
  }

  function ChunkStart(i: nat, dbc: nat): nat {
    i * dbc
  }

  lemma ChunkFits(i: nat, n: nat, dbc: nat)
    requires (dbc == DEF_DBC || dbc == MAX_DBC) && i <= Chunks(n, dbc)
    ensures ChunkStart(i, dbc) <= n
    ensures i < Chunks(n, dbc) ==> ChunkStart(i, dbc) + dbc == ChunkStart(i + 1, dbc) <= n
    ensures i == Chunks(n, dbc) ==> ChunkStart(i, dbc) + Rest(n, dbc) == n
  {
    if dbc == DEF_DBC {
      assert i * dbc == i * 4;
    } else {
      assert i * dbc == i * 64;
    }
  }

  /** read_spi: exactly the flash bytes of the range, by cycles that tile it. None is the exception raised when
      hardware sequencing is off; nothing is read while the controller cannot get ready. */
  method ReadSpi(c: Controller, fla: nat, n: nat) returns (r: Option<Data>)
    requires c.Valid() && InFlash(c, fla, n)
    modifies c
    ensures c.Valid() && c.flash == old(c.flash)
    ensures r.None? <==> !c.descriptorValid
    ensures r.Some? && old(c.busy) > 1000 ==> r.value == []
    ensures r.Some? && old(c.busy) <= 1000 ==>
              && r.value == c.flash[Location(fla)..Location(fla) + n] && c.busy == 0
              && Sent(c.cycles, old(c.cycles), HSFCTL_READ_CYCLE, Location(fla), n,
                 if n >= 64 then 64 else 4)
  {
    hide Sent, Chunks, Rest, ChunkStart, Programmed, Erased, Location, Program, FromLe;
    if !c.descriptorValid {
      return None;
    }
    var buf: Data := [];
    var dbc := DEF_DBC;
    if n >= MAX_DBC {
      dbc := MAX_DBC;
    }
    var chunks, rest := Chunks(n, dbc), Rest(n, dbc);
    ChunkFits(chunks, n, dbc);
    ChunkFits(0, n, dbc);
    NoChunk(dbc);
    var ready := WaitCycleDone(c);
    if !ready {
      return Some([]);
    }
    ghost var a, flash := Location(fla), c.flash;
    ghost var before := c.cycles;
    NothingSent(before, HSFCTL_READ_CYCLE, a, dbc);
    for i := 0 to chunks
      invariant c.Valid() && c.busy == 0 && c.flash == flash
      invariant ChunkStart(i, dbc) <= n && buf == flash[a..a + ChunkStart(i, dbc)]
      invariant Sent(c.cycles, before, HSFCTL_READ_CYCLE, a, ChunkStart(i, dbc), dbc)
    {
      ChunkFits(i, n, dbc);
      var done := NextCycle(c, HSFCTL_READ_CYCLE, dbc, fla, ChunkStart(i, dbc), before, dbc);
      if done {
        var chunk := ReadDwords(c, dbc);
        Joined(flash, a, a + ChunkStart(i, dbc), dbc);
        buf := buf + chunk;
      }
    }
    if rest != 0 {
      var done := NextCycle(c, HSFCTL_READ_CYCLE, rest, fla, ChunkStart(chunks, dbc), before, dbc);
      if done {
        var chunk := ReadRemainder(c, rest);
        Joined(flash, a, a + ChunkStart(chunks, dbc), rest);
        buf := buf + chunk;
      }
    }
    r := Some(buf);
  }

  lemma NoChunk(dbc: nat)
    ensures ChunkStart(0, dbc) == 0
  {
  }

  lemma Joined(b: Data, lo: nat, mid: nat, n: nat)
    requires lo <= mid && mid + n <= |b|
    ensures b[lo..mid] + b[mid..mid + n] == b[lo..mid + n]
  {
  }

  /** Four bytes joined by shifts and ors are their little-endian value. */
  lemma JoinedDword(b: Data)
    requires |b| == 4
    ensures Or(Or(Or(Shl(b[3], 24), Shl(b[2], 16)), Shl(b[1], 8)), b[0]) == FromLe(b)
  {
    hide Or, Shl, FromLe, Pow2;
    FromLe4(b);
    OrShifted(0, b[3], 24);
    OrShifted(b[3], b[2], 16);
    OrShifted(0x100 * b[3] as int + b[2], b[1], 8);
    OrShifted(0x1_0000 * b[3] as int + 0x100 * b[2] as int + b[1], b[0], 0);
    Pow2Values();
    ZeroOr(Shl(b[3], 24));
    assert Shl(b[0], 0) == b[0];
  }

  lemma ZeroOr(x: nat)
    ensures Or(0, x) == x
  {
  }

  /** Or-ing a shifted byte below the bits of a shifted high part. */
  lemma OrShifted(high: nat, x: Byte, k: nat)
    ensures Shl(x, k) == x as int * Pow2(k)
    ensures Or(high * Pow2(k + 8), Shl(x, k)) == high * Pow2(k + 8) + x as int * Pow2(k)
  {
    hide Or, Pow2;
    EightDoublings(k);
    ShlIsTimes(x, k);
    var p := Pow2(k);
    ScaledByte(x, p);
    DivModUnique(high * Pow2(k + 8), Pow2(k + 8), high, 0);
    OrHighLow(high * Pow2(k + 8), Shl(x, k), k + 8);
  }

  lemma ScaledByte(x: Byte, p: nat)
    requires p > 0
    ensures 0 <= x as int * p < 256 * p
  {
  }

  /** The value accumulated from the first j bytes. */
  ghost function Partial(b: Data, j: nat): nat
    requires j <= |b|
  {
    FromLe(b[..j])
  }

  lemma PartialStep(b: Data, j: nat)
    requires j < |b|
    ensures Partial(b, j) < Pow2(8 * j) && Or(Partial(b, j), Shl(b[j], 8 * j)) == Partial(b, j + 1)
  {
    hide Or, Shl, Pow2, Partial, And;
    ShlIsTimes(b[j], 8 * j);
    DivModUnique(b[j] as int * Pow2(8 * j), Pow2(8 * j), b[j], 0);
    PartialSum(b, j);
    OrIsSum(Partial(b, j), Shl(b[j], 8 * j));
    OrIsSum(Shl(b[j], 8 * j), Partial(b, j));
    AndCommutes(Partial(b, j), Shl(b[j], 8 * j));
    OrHighLow(Shl(b[j], 8 * j), Partial(b, j), 8 * j);
  }

  lemma PartialSum(b: Data, j: nat)
    requires j < |b|
    ensures Partial(b, j) < Pow2(8 * j)
    ensures Partial(b, j + 1) == Partial(b, j) + b[j] as int * Pow2(8 * j)
  {
    hide Pow2, FromLe, Pow256;
    Pow256IsPow2(j);
    LastByte(b[..j], b[j]);
    assert b[..j + 1] == b[..j] + [b[j]];
  }

  lemma {:induction false} LastByte(b: Data, x: Byte)
    ensures FromLe(b + [x]) == FromLe(b) + Pow256(|b|) * x as int
  {
    if b == [] {
      assert b + [x] == [x] && [x][1..] == [];
    } else {
      LastByte(b[1..], x);
      assert (b + [x])[1..] == b[1..] + [x];
      var p := Pow256(|b| - 1);
      assert 256 * (p * x as int) == (256 * p) * x as int;
    }
  }

  /** Programming in two steps is programming the concatenation. */
  lemma ProgramJoined(flash: Data, a: nat, x: Data, y: Data)
    requires a + |x| + |y| <= |flash|
    ensures Programmed(Programmed(flash, a, x), a + |x|, y) == Programmed(flash, a, x + y)
  {
    hide And;
  }

  /** A dword holding fewer bytes than four is padded with zeros. */
  lemma {:induction false} PaddedDword(b: Data)
    requires |b| <= 4
    ensures FromLe(b) < 0x1_0000_0000 && Dword(FromLe(b))[..|b|] == b
  {
    Pow256Values();
    Extend(b, 4);
  }

  lemma {:induction false} Extend(b: Data, n: nat)
    requires |b| <= n
    ensures FromLe(b) < Pow256(n) && Le(FromLe(b), n)[..|b|] == b
    decreases n
  {
    if b != [] {
      Extend(b[1..], n - 1);
      assert FromLe(b) / 256 == FromLe(b[1..]) && FromLe(b) % 256 == b[0];
      assert Le(FromLe(b), n)[..|b|] == [b[0]] + Le(FromLe(b[1..]), n - 1)[..|b| - 1];
    }
  }

  /** Join the last r bytes of the buffer into a register value. */
  method JoinBytes(buf: Data, at: nat, r: nat) returns (dword: nat)
    requires at + r == |buf|
    ensures dword == FromLe(buf[at..])
  {
    hide Or, Shl, FromLe, Partial;
    dword := 0;
    ghost var part := buf[at..];
    NoBytes(part);
    for j := 0 to r
      invariant dword == Partial(part, j)
    {
      PartialStep(part, j);
      dword := Or(dword, Shl(buf[at + j], 8 * j));
    }
    AllBytes(part);
  }

  lemma AllBytes(b: Data)
    ensures Partial(b, |b|) == FromLe(b)
  {
    assert b[..|b|] == b;
  }

  /** write_spi: programs exactly the buffer at the range, by 4-byte cycles that tile it; nothing else changes.
      The result is None when hardware sequencing is off. */
  method WriteSpi(c: Controller, fla: nat, buf: Data) returns (ok: Option<bool>)
    requires c.Valid() && InFlash(c, fla, |buf|)
    modifies c
    ensures c.Valid()
    ensures ok == if !c.descriptorValid then None else Some(old(c.busy) <= 1000)
    ensures c.flash == if ok == Some(true) then Programmed(old(c.flash), Location(fla), buf) else old(c.flash)
    ensures ok == Some(true) ==>
              c.busy == 0 && Sent(c.cycles, old(c.cycles), HSFCTL_WRITE_CYCLE, Location(fla), |buf|, 4)
  {
    hide Sent, Or, Shl, FromLe, Programmed, Erased, Location, Program;
    if !c.descriptorValid {
      return None;
    }
    var writeOk := true;
    var dbc := 4;
    var n, r := |buf| / dbc, |buf| % dbc;
    var ready := WaitCycleDone(c);
    if !ready {
      return Some(false);
    }
    ghost var a := Location(fla);
    ghost var before := c.cycles;
    NothingSent(before, HSFCTL_WRITE_CYCLE, a, dbc);
    NothingProgrammed(c.flash, a);
    for i := 0 to n
      invariant c.Valid() && c.busy == 0 && writeOk && |c.flash| == |old(c.flash)|
      invariant c.flash == Programmed(old(c.flash), a, buf[..4 * i])
      invariant Sent(c.cycles, before, HSFCTL_WRITE_CYCLE, a, 4 * i, dbc)
    {
      ghost var part := buf[4 * i..4 * i + 4];
      JoinedDword(part);
      PaddedDword(part);
      var dword := Or(Or(Or(Shl(buf[i * dbc + 3], 24), Shl(buf[i * dbc + 2], 16)), Shl(buf[i * dbc + 1], 8)),
        buf[i * dbc]);
      c.WriteFdata0(dword);
      assert c.fdata[..4] == part;
      var done := NextCycle(c, HSFCTL_WRITE_CYCLE, dbc, fla, i * dbc, before, dbc);
      ProgramJoined(old(c.flash), a, buf[..4 * i], part);
      Joined(buf, 0, 4 * i, 4);
      if !done {
        writeOk := false;
      }
    }
    if r != 0 {
      ghost var part := buf[4 * n..];
      var dword := JoinBytes(buf, n * dbc, r);
      PaddedDword(part);
      c.WriteFdata0(dword);
      assert c.fdata[..r] == Dword(dword)[..r] == part;
      var done := NextCycle(c, HSFCTL_WRITE_CYCLE, r, fla, n * dbc, before, dbc);
      ProgramJoined(old(c.flash), a, buf[..4 * n], part);
      assert buf[..4 * n] + part == buf;
      if !done {
        writeOk := false;
      }
    } else {
      assert buf[..4 * n] == buf;
    }
    ok := Some(writeOk);
  }

  lemma NoBytes(b: Data)
    ensures Partial(b, 0) == 0
  {
  }

  lemma NothingProgrammed(flash: Data, a: nat)
    requires a <= |flash|
    ensures Programmed(flash, a, []) == flash
  {
  }

  /** erase_spi_block */
  method EraseSpiBlock(c: Controller, fla: nat) returns (ok: Option<bool>)
    requires c.Valid()
    modifies c
    ensures c.Valid()
    ensures ok == if !c.descriptorValid then None else Some(old(c.busy) <= 1000)
    ensures c.flash == if ok == Some(true) then Erased(old(c.flash), Location(fla), c.block) else old(c.flash)
    ensures ok == Some(true) ==> c.busy == 0
  {
    if !c.descriptorValid {
      return None;
    }
    var ready := WaitCycleDone(c);
    if !ready {
      return Some(ready);
    }
    var done := SendCycle(c, HSFCTL_ERASE_CYCLE, 0, fla);
    ok := Some(done);
  }

  // ---------------------------------------------------------------- what was written is what is read

  lemma ProgramErased(x: Byte)
    ensures Program(0xFF, x) == x
  {
    hide And;
    Pow2Values();
    AndMaskAs(x, 0, 8, 0xFF, 1, 0x100);
    AndCommutes(0xFF, x);
  }

  /** Reading back gives the buffer exactly when every bit to be set was still set in the flash; bytes
      outside the range never change. */
  lemma ReadBack(flash: Data, a: nat, buf: Data)
    requires a + |buf| <= |flash|
    ensures Programmed(flash, a, buf)[a..a + |buf|] == buf
            <==> forall i :: 0 <= i < |buf| ==> And(flash[a + i], buf[i]) == buf[i]
    ensures Programmed(flash, a, buf)[..a] == flash[..a]
    ensures Programmed(flash, a, buf)[a + |buf|..] == flash[a + |buf|..]
  {
    hide And;
    var r := Programmed(flash, a, buf);
    assert forall i :: 0 <= i < |buf| ==> r[a..a + |buf|][i] == r[a + i] == And(flash[a + i], buf[i]);
  }

  lemma ReadBackErased(flash: Data, a: nat, buf: Data)
    requires a + |buf| <= |flash| && forall i :: a <= i < a + |buf| ==> flash[i] == 0xFF
    ensures Programmed(flash, a, buf)[a..a + |buf|] == buf
  {
    hide And, Programmed;
    ReadBack(flash, a, buf);
    forall i | 0 <= i < |buf|
      ensures And(flash[a + i], buf[i]) == buf[i]
    {
      ProgramErased(buf[i]);
    }
  }

  ghost predicate InBlock(i: nat, a: nat, block: nat)
    requires block > 0
  {
    i / block == a / block
  }

  /** A block erase, then a program inside the block: the buffer is there and no byte outside the block changed. */
  lemma EraseThenProgram(flash: Data, e: nat, block: nat, a: nat, buf: Data)
    requires block > 0 && a + |buf| <= |flash|
    requires forall i :: a <= i < a + |buf| ==> InBlock(i, e, block)
    ensures var r := Programmed(Erased(flash, e, block), a, buf);
            && r[a..a + |buf|] == buf
            && forall i :: 0 <= i < |flash| && !InBlock(i, e, block) ==> r[i] == flash[i]
  {
    hide And, Program;
    var blank := Erased(flash, e, block);
    assert forall i :: 0 <= i < |flash| ==> blank[i] == if InBlock(i, e, block) then 0xFF else flash[i];
    ReadBackErased(blank, a, buf);
  }

  /** Erase a block, write a buffer inside it, read it back: the buffer comes back, and no byte outside the
      block changes. */
  method EraseWriteRead(c: Controller, block: nat, fla: nat, buf: Data) returns (r: Option<Data>)
    requires c.Valid() && c.busy == 0 && c.descriptorValid && InFlash(c, fla, |buf|)
    requires forall i :: Location(fla) <= i < Location(fla) + |buf| ==> InBlock(i, Location(block), c.block)
    modifies c
    ensures c.Valid() && r == Some(buf) && |c.flash| == |old(c.flash)|
    ensures forall i :: 0 <= i < |c.flash| && !InBlock(i, Location(block), c.block) ==> c.flash[i] == old(c.flash)[i]
  {
    hide Sent, Program, Programmed, Erased, Location, InBlock;
    EraseThenProgram(c.flash, Location(block), c.block, Location(fla), buf);
    var erased := EraseSpiBlock(c, block);
    var written := WriteSpi(c, fla, buf);
    r := ReadSpi(c, fla, |buf|);
  }
}
