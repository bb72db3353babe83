/** The TPM FIFO interface: sending a command and reading a response in bursts. */
module Tpm {
  import opened Bits
  import opened Bytes
  import opened Options

  const COMMANDREADY: nat := 0x40
  const TPMGO: nat := 0x20
  const REQUESTUSE: nat := 0x02
  const DATAAVAIL: nat := 0x10
  const HEADERSIZE: nat := 10

  type Word = x: int | 0 <= x < 0x1_0000_0000

  /** The burst count in a status word. */
  function Burst(sts: nat): nat {
    And(Shr(sts, 8), 0xFF_FFFF)
  }

  predicate CommandReady(sts: nat) {
    And(sts, COMMANDREADY) != 0
  }

  predicate DataAvailable(sts: nat) {
    And(sts, DATAAVAIL) != 0
  }

  /** A status word holds the burst count in its upper three bytes, ready in bit 6 and data-available in bit 4. */
  lemma StatusMeaning(sts: Word)
    ensures Burst(sts) == sts / 0x100
    ensures CommandReady(sts) <==> sts / 0x40 % 2 == 1
    ensures DataAvailable(sts) <==> sts / 0x10 % 2 == 1
  {
    hide And, Shr, Pow2;
    Pow2Values();
    SmallPowers();
    ShrIsDiv(sts, 8);
    AndMaskAs(sts / 0x100, 0, 24, 0xFF_FFFF, 1, 0x100_0000);
    AndMaskAs(sts, 6, 1, COMMANDREADY, 0x40, 0x80);
    AndMaskAs(sts, 4, 1, DATAAVAIL, 0x10, 0x20);
    OneBit(sts, 0x40);
    OneBit(sts, 0x10);
  }

  lemma SmallPowers()
    ensures Pow2(4) == 0x10 && Pow2(5) == 0x20 && Pow2(6) == 0x40 && Pow2(7) == 0x80
  {
  }

  // ---------------------------------------------------------------- the device

  /** An access to the device's registers. */
  datatype Event =
    | AccessWritten(v: nat)
    | StatusWritten(v: nat)
    | StatusByte(v: nat)
    | StatusWord(v: nat)
    | FifoWritten(b: Byte)
    | FifoRead(b: Byte)

  /** The device's view of a command, by the bits of the registers themselves: claimed, being received byte by byte
      within the reported burst, executing, polled for a response, and handing the response out within the reported
      burst. */
  datatype Phase =
    | Idle
    | Claimed
    | Sending(sent: Data, budget: nat)
    | Executing(command: Data)
    | Polled(available: bool)
    | Receiving(got: Data, left: nat)
    | Violation

  ghost function Next(p: Phase, e: Event): Phase {
    match e
    case AccessWritten(v) => if v == 0x02 then Claimed else Violation
    case StatusWritten(v) =>
      if p.Claimed? && v == 0x40 then p
      else if p.Sending? && v == 0x20 then Executing(p.sent)
      else if p.Polled? && v == 0x10 then (if p.available then Receiving([], 0) else p)
      else Violation
    case StatusByte(v) =>
      if p.Claimed? then (if CommandReady(v) then Sending([], 0) else p)
      else if p.Executing? then (if DataAvailable(v) then Receiving([], 0) else Polled(false))
      else if p.Polled? then Polled(DataAvailable(v))
      else Violation
    case StatusWord(v) =>
      if p.Sending? then p.(budget := Burst(v))
      else if p.Receiving? then p.(left := Burst(v))
      else Violation
    case FifoWritten(b) =>
      if p.Sending? && p.budget > 0 then Sending(p.sent + [b], p.budget - 1) else Violation
    case FifoRead(b) =>
      if p.Receiving? && p.left > 0 then Receiving(p.got + [b], p.left - 1) else Violation
  }

  /** The next byte of a response; an empty FIFO reads as 0xFF. */
  function Head(fifo: Data): Byte {
    if fifo == [] then 0xFF else fifo[0]
  }

  function Tail(fifo: Data): Data {
    if fifo == [] then [] else fifo[1..]
  }

  /** A TPM that reports the scheduled status words, one per status read, and holds a response. */
  class Device {
    var schedule: seq<Word>
    var fifo: Data
    ghost var phase: Phase

    constructor (schedule: seq<Word>, fifo: Data)
      ensures this.schedule == schedule && this.fifo == fifo && phase == Idle
    {
      this.schedule, this.fifo, phase := schedule, fifo, Idle;
    }

    method WriteAccess(v: nat)
      modifies this`phase
      ensures phase == Next(old(phase), AccessWritten(v))
    {
      phase := Next(phase, AccessWritten(v));
    }

    method WriteStatus(v: nat)
      modifies this`phase
      ensures phase == Next(old(phase), StatusWritten(v))
    {
      phase := Next(phase, StatusWritten(v));
    }

    /** The low byte of the next status word; None when the schedule is over. */
    method ReadStatusByte() returns (v: Option<nat>)
      modifies this`phase, this`schedule
      ensures v == if old(schedule) == [] then None else Some(old(schedule)[0] % 0x100)
      ensures schedule == if v.None? then [] else old(schedule)[1..]
      ensures phase == if v.None? then old(phase) else Next(old(phase), StatusByte(v.value))
    {
      if schedule == [] {
        return None;
      }
      v := Some(schedule[0] % 0x100);
      phase := Next(phase, StatusByte(v.value));
      schedule := schedule[1..];
    }

    method ReadStatusWord() returns (v: Option<nat>)
      modifies this`phase, this`schedule
      ensures v == if old(schedule) == [] then None else Some(old(schedule)[0])
      ensures schedule == if v.None? then [] else old(schedule)[1..]
      ensures phase == if v.None? then old(phase) else Next(old(phase), StatusWord(v.value))
    {
      if schedule == [] {
        return None;
      }
      v := Some(schedule[0]);
      phase := Next(phase, StatusWord(v.value));
      schedule := schedule[1..];
    }

    method WriteFifo(b: Byte)
      modifies this`phase
      ensures phase == Next(old(phase), FifoWritten(b))
    {
      phase := Next(phase, FifoWritten(b));
    }

    method ReadFifo() returns (b: Byte)
      modifies this`phase, this`fifo
      ensures b == Head(old(fifo)) && fifo == Tail(old(fifo))
      ensures phase == Next(old(phase), FifoRead(b))
    {
      b := Head(fifo);
      phase := Next(phase, FifoRead(b));
      fifo := Tail(fifo);
    }
  }

  // ---------------------------------------------------------------- what a schedule allows

  /** The schedule after the first status byte with the ready bit; None when there is none. */
  ghost function AfterReady(schedule: seq<Word>): Option<seq<Word>> {
    if schedule == [] then None
    else if CommandReady(schedule[0] % 0x100) then Some(schedule[1..])
    else AfterReady(schedule[1..])
  }

  ghost function AfterAvailable(schedule: seq<Word>): Option<seq<Word>> {
    if schedule == [] then None
    else if DataAvailable(schedule[0] % 0x100) then Some(schedule[1..])
    else AfterAvailable(schedule[1..])
  }

  /** The schedule after n bytes have gone through the FIFO; None when its bursts add up to less. */
  ghost function AfterBytes(schedule: seq<Word>, n: nat): Option<seq<Word>>
    decreases |schedule|
  {
    if n == 0 then Some(schedule)
    else if schedule == [] then None
    else AfterBytes(schedule[1..], n - Min(n, Burst(schedule[0])))
  }

  ghost function TotalBurst(schedule: seq<Word>): nat {
    if schedule == [] then 0 else Burst(schedule[0]) + TotalBurst(schedule[1..])
  }

  /** Any schedule whose bursts add up to n bytes lets n bytes through. */
  lemma {:induction false} EnoughBursts(schedule: seq<Word>, n: nat)
    ensures AfterBytes(schedule, n).Some? <==> TotalBurst(schedule) >= n
    decreases |schedule|
  {
    hide Burst;
    if n > 0 && schedule != [] {
      EnoughBursts(schedule[1..], n - Min(n, Burst(schedule[0])));
    }
  }

  // ---------------------------------------------------------------- sending a command

  datatype Outcome = Finished | Waiting | Raised

  /** The bytes that are asked for before the send finishes or runs off the end of the command. */
  function Goal(command: Data, size: nat): nat {
    if size <= |command| then size else |command| + 1
  }

  ghost function SendEnds(schedule: seq<Word>, n: nat): Option<seq<Word>> {
    if AfterReady(schedule).None? then None else AfterBytes(AfterReady(schedule).value, n)
  }

  /** _send_command. Whatever the schedule: a finished send has put exactly command[..size] into the FIFO, in
      order and within the reported bursts, after the ready status and before the go; a send that still waits has
      sent a prefix. A size beyond the command ends in an exception with the whole command sent and no go. */
  method SendCommand(dev: Device, command: Data, size: nat) returns (r: Outcome)
    modifies dev
    ensures dev.fifo == old(dev.fifo)
    ensures r.Waiting? <==> SendEnds(old(dev.schedule), Goal(command, size)).None?
    ensures r.Finished? ==>
              && size <= |command| && dev.phase == Executing(command[..size])
              && SendEnds(old(dev.schedule), size) == Some(dev.schedule)
    ensures r.Raised? ==> size > |command| && dev.phase.Sending? && dev.phase.sent == command
    ensures r.Waiting? ==> dev.phase == Claimed || (dev.phase.Sending? && dev.phase.sent <= command)
  {
    hide Burst, CommandReady, DataAvailable, AfterBytes, AfterReady;
    var count := 0;
    dev.WriteAccess(REQUESTUSE);
    var ready := WaitReady(dev);
    if !ready {
      return Waiting;
    }
    ghost var start := dev.schedule;
    ghost var goal := Goal(command, size);
    while count < size
      invariant count <= size && count <= |command| && dev.fifo == old(dev.fifo)
      invariant dev.phase.Sending? && dev.phase.sent == command[..count]
      invariant AfterBytes(start, goal) == AfterBytes(dev.schedule, goal - count)
      decreases |dev.schedule|
    {
      ghost var was, done := dev.schedule, count;
      ScheduleStep(was, goal - count);
      var sts := dev.ReadStatusWord();
      if sts.None? {
        return Waiting;
      }
      var burst := Burst(sts.value);
      var index := 0;
      while index < burst && count < size
        invariant index <= burst && count <= size && count <= |command|
        invariant count == done + index && dev.fifo == old(dev.fifo) && dev.schedule == was[1..]
        invariant dev.phase == Sending(command[..count], burst - index)
        decreases burst - index
      {
        if count >= |command| {
          AllThrough(dev.schedule);
          return Raised;
        }
        dev.WriteFifo(command[count]);
        assert command[..count] + [command[count]] == command[..count + 1];
        count := count + 1;
        index := index + 1;
      }
    }
    AllThrough(dev.schedule);
    dev.WriteStatus(TPMGO);
    return Finished;
  }

  /** Write the ready request until the device reports it is ready. */
  method WaitReady(dev: Device) returns (ready: bool)
    requires dev.phase == Claimed
    modifies dev`phase, dev`schedule
    ensures ready <==> AfterReady(old(dev.schedule)).Some?
    ensures ready ==> dev.phase == Sending([], 0) && AfterReady(old(dev.schedule)) == Some(dev.schedule)
    ensures !ready ==> dev.phase == Claimed
  {
    hide CommandReady, DataAvailable;
    var sts := dev.ReadStatusByte();
    while sts.Some? && !CommandReady(sts.value)
      invariant sts.None? ==> AfterReady(old(dev.schedule)).None? && dev.phase == Claimed
      invariant sts.Some? && CommandReady(sts.value) ==>
                  AfterReady(old(dev.schedule)) == Some(dev.schedule) && dev.phase == Sending([], 0)
      invariant sts.Some? && !CommandReady(sts.value) ==>
                  AfterReady(old(dev.schedule)) == AfterReady(dev.schedule) && dev.phase == Claimed
      decreases |dev.schedule|, sts.Some?
    {
      dev.WriteStatus(COMMANDREADY);
      sts := dev.ReadStatusByte();
    }
    ready := sts.Some?;
  }

  lemma ScheduleStep(schedule: seq<Word>, n: nat)
    requires n > 0
    ensures schedule == [] ==> AfterBytes(schedule, n).None?
    ensures schedule != [] ==> AfterBytes(schedule, n) == AfterBytes(schedule[1..], n - Min(n, Burst(schedule[0])))
  {
    hide Burst;
  }

  lemma AllThrough(schedule: seq<Word>)
    ensures AfterBytes(schedule, 0) == Some(schedule)
  {
  }

  // ---------------------------------------------------------------- reading a response

  /** The first n bytes that reading the FIFO gives, and what is left in it. */
  ghost function Taken(fifo: Data, n: nat): (r: Data)
    ensures |r| == n
  {
    if n == 0 then [] else [Head(fifo)] + Taken(Tail(fifo), n - 1)
  }

  ghost function Left(fifo: Data, n: nat): Data {
    if n == 0 then fifo else Left(Tail(fifo), n - 1)
  }

  lemma {:induction false} TakenStep(fifo: Data, n: nat)
    ensures Taken(fifo, n + 1) == Taken(fifo, n) + [Head(Left(fifo, n))]
    ensures Left(fifo, n + 1) == Tail(Left(fifo, n))
    decreases n
  {
    hide Head, Tail;
    if n > 0 {
      TakenStep(Tail(fifo), n - 1);
      var h, t, last := [Head(fifo)], Taken(Tail(fifo), n - 1), [Head(Left(fifo, n))];
      assert h + (t + last) == h + t + last;
    }
  }

  /** Read n bytes from the FIFO, never more than the last reported burst between two status reads. */
  method ReceiveBytes(dev: Device, n: nat) returns (blob: Data, finished: bool)
    modifies dev
    ensures finished <==> AfterBytes(old(dev.schedule), n).Some?
    ensures finished ==> AfterBytes(old(dev.schedule), n) == Some(dev.schedule)
    ensures finished ==> blob == Taken(old(dev.fifo), n) && dev.fifo == Left(old(dev.fifo), n)
    ensures old(dev.phase).Receiving? ==> dev.phase.Receiving? && dev.phase.got == old(dev.phase).got + blob
  {
    hide Burst, CommandReady, DataAvailable, AfterBytes, Taken, Left;
    blob := [];
    var count := 0;
    assert old(dev.phase).Receiving? ==> old(dev.phase).got + [] == old(dev.phase).got;
    NothingTaken(dev.fifo);
    while count < n
      invariant count <= n && blob == Taken(old(dev.fifo), count) && dev.fifo == Left(old(dev.fifo), count)
      invariant old(dev.phase).Receiving? ==> dev.phase.Receiving? && dev.phase.got == old(dev.phase).got + blob
      invariant AfterBytes(old(dev.schedule), n) == AfterBytes(dev.schedule, n - count)
      decreases |dev.schedule|
    {
      ghost var was, done := dev.schedule, count;
      ScheduleStep(was, n - count);
      var sts := dev.ReadStatusWord();
      if sts.None? {
        return blob, false;
      }
      var burst := Burst(sts.value);
      var index := 0;
      while index < burst && count < n
        invariant index <= burst && count <= n && count == done + index && dev.schedule == was[1..]
        invariant blob == Taken(old(dev.fifo), count) && dev.fifo == Left(old(dev.fifo), count)
        invariant old(dev.phase).Receiving? ==> dev.phase == Receiving(old(dev.phase).got + blob, burst - index)
        decreases burst - index
      {
        TakenStep(old(dev.fifo), count);
        var b := dev.ReadFifo();
        assert old(dev.phase).Receiving? ==> old(dev.phase).got + blob + [b] == old(dev.phase).got + (blob + [b]);
        blob := blob + [b];
        count := count + 1;
        index := index + 1;
      }
    }
    AllThrough(dev.schedule);
    finished := true;
  }

  lemma NothingTaken(fifo: Data)
    ensures Taken(fifo, 0) == [] && Left(fifo, 0) == fifo
  {
  }

  /** The big-endian unsigned integer held in b. */
  function FromBe(b: Data): nat {
    if b == [] then 0 else 256 * FromBe(b[..|b| - 1]) + b[|b| - 1]
  }

  /** Two and four bytes written out, the highest first. */
  lemma BigEndian(b: Data)
    ensures |b| == 2 ==> FromBe(b) == 0x100 * b[0] as int + b[1]
    ensures |b| == 4 ==> FromBe(b) == 0x100_0000 * b[0] as int + 0x1_0000 * b[1] as int + 0x100 * b[2] as int + b[3]
  {
    if |b| == 4 {
      assert b[..3][..2] == b[..2];
      BigEndian(b[..2]);
      assert FromBe(b[..3]) == 256 * FromBe(b[..2]) + b[2];
    } else if |b| == 2 {
      assert FromBe(b[..1]) == 256 * FromBe(b[..1][..0]) + b[0];
    }
  }

  datatype ResponseHeader = ResponseHeader(tag: nat, dataSize: nat, returnCode: nat)

  /** struct.unpack_from(">HII", blob) */
  function UnpackHeader(blob: Data): ResponseHeader
    requires |blob| == HEADERSIZE
  {
    ResponseHeader(FromBe(blob[..2]), FromBe(blob[2..6]), FromBe(blob[6..10]))
  }

  /** A response header: a 16-bit tag, the size of the whole response and the return code, all big-endian. */
  lemma HeaderMeaning(b: Data)
    requires |b| == 10
    ensures UnpackHeader(b)
         == ResponseHeader(0x100 * b[0] as int + b[1],
              0x100_0000 * b[2] as int + 0x1_0000 * b[3] as int + 0x100 * b[4] as int + b[5],
              0x100_0000 * b[6] as int + 0x1_0000 * b[7] as int + 0x100 * b[8] as int + b[9])
  {
    hide FromBe;
    BigEndian(b[..2]);
    BigEndian(b[2..6]);
    BigEndian(b[6..10]);
  }

  /** How many bytes of data follow a header. */
  function DataLength(h: ResponseHeader): nat {
    if h.dataSize > HEADERSIZE && h.returnCode == 0 then h.dataSize - HEADERSIZE else 0
  }

  /** Header bytes and data bytes of a response, read without any bursts. */
  datatype Response = Response(header: ResponseHeader, headerBlob: Data, dataBlob: Data)

  ghost function WholeResponse(fifo: Data): Response {
    var headerBlob := Taken(fifo, HEADERSIZE);
    var h := UnpackHeader(headerBlob);
    Response(h, headerBlob, Taken(Left(fifo, HEADERSIZE), DataLength(h)))
  }

  ghost function ReadEnds(schedule: seq<Word>, n: nat): Option<seq<Word>> {
    if AfterAvailable(schedule).None? then None
    else if AfterBytes(AfterAvailable(schedule).value, HEADERSIZE).None? then None
    else AfterBytes(AfterBytes(AfterAvailable(schedule).value, HEADERSIZE).value, n)
  }

  /** _read_response. For every schedule that lets it finish the result is the same: the response as it lies in
      the FIFO, with data only behind a success header longer than itself. None means it still waits. */
  method ReadResponse(dev: Device) returns (r: Option<Response>)
    modifies dev
    ensures r.Some? <==> ReadEnds(old(dev.schedule), DataLength(WholeResponse(old(dev.fifo)).header)).Some?
    ensures r.Some? ==> r.value == WholeResponse(old(dev.fifo))
    ensures r.Some? && old(dev.phase).Executing? ==>
              dev.phase.Receiving? && dev.phase.got == r.value.headerBlob + r.value.dataBlob
    ensures r.None? && old(dev.phase).Executing? ==> !dev.phase.Violation?
  {
    hide Burst, CommandReady, DataAvailable, AfterBytes, AfterAvailable, FromBe, Taken, Left;
    var available := WaitAvailable(dev);
    if !available {
      return None;
    }
    var headerBlob, finished := ReceiveBytes(dev, HEADERSIZE);
    if !finished {
      return None;
    }
    assert old(dev.phase).Executing? ==> dev.phase.Receiving? && dev.phase.got == headerBlob;
    var header := UnpackHeader(headerBlob);
    var dataBlob: Data := [];
    if header.dataSize > 10 && header.returnCode == 0 {
      var length := header.dataSize - HEADERSIZE;
      dataBlob, finished := ReceiveBytes(dev, length);
      if !finished {
        return None;
      }
    } else {
      NothingTaken(dev.fifo);
      AllThrough(dev.schedule);
      assert headerBlob + [] == headerBlob;
    }
    r := Some(Response(header, headerBlob, dataBlob));
  }

  /** Poll until the device reports that data is available. */
  method WaitAvailable(dev: Device) returns (available: bool)
    modifies dev`phase, dev`schedule
    ensures available <==> AfterAvailable(old(dev.schedule)).Some?
    ensures available ==> AfterAvailable(old(dev.schedule)) == Some(dev.schedule)
    ensures old(dev.phase).Executing? ==> if available then dev.phase == Receiving([], 0) else !dev.phase.Violation?
  {
    hide CommandReady, DataAvailable;
    var sts := dev.ReadStatusByte();
    while sts.Some? && !DataAvailable(sts.value)
      invariant sts.None? ==> AfterAvailable(old(dev.schedule)).None?
      invariant sts.Some? && DataAvailable(sts.value) ==> AfterAvailable(old(dev.schedule)) == Some(dev.schedule)
      invariant sts.Some? && !DataAvailable(sts.value)
                ==> AfterAvailable(old(dev.schedule)) == AfterAvailable(dev.schedule)
      invariant old(dev.phase).Executing? ==>
                  if sts.None? then dev.phase == old(dev.phase) || dev.phase == Polled(false)
                  else if DataAvailable(sts.value) then dev.phase == Receiving([], 0)
                  else dev.phase == Polled(false)
      decreases |dev.schedule|, sts.Some?
    {
      sts := dev.ReadStatusByte();
      if sts.Some? {
        dev.WriteStatus(DATAAVAIL);
      }
    }
    available := sts.Some?;
  }

  // ---------------------------------------------------------------- a response comes through

  /** struct.pack of a big-endian unsigned field. */
  function Be(x: nat, n: nat): (b: Data)
    requires x < Pow256(n)
    ensures |b| == n && FromBe(b) == x
  {
    if n == 0 then []
    else
      var front := Be(x / 256, n - 1);
      var b: Data := front + [x % 256];
      assert b[..|b| - 1] == front;
      b
  }

  lemma {:induction false} TakenPrefix(a: Data, b: Data)
    ensures Taken(a + b, |a|) == a && Left(a + b, |a|) == b
  {
    if a == [] {
      assert a + b == b;
    } else {
      TakenPrefix(a[1..], b);
      assert (a + b)[1..] == a[1..] + b;
    }
  }

  /** A packed response is read back: header fields, and the data exactly when the return code is success. */
  lemma ResponseRoundTrip(tag: nat, code: nat, data: Data, rest: Data)
    requires tag < Pow256(2) && code < Pow256(4) && HEADERSIZE + |data| < Pow256(4)
    ensures var header := Be(tag, 2) + Be(HEADERSIZE + |data|, 4) + Be(code, 4);
            WholeResponse(header + data + rest)
              == Response(ResponseHeader(tag, HEADERSIZE + |data|, code), header, if code == 0 then data else [])
  {
    hide Be, Taken, Left, FromBe, Pow256;
    var a, b, c := Be(tag, 2), Be(HEADERSIZE + |data|, 4), Be(code, 4);
    var header := a + b + c;
    assert header[..2] == a && header[2..6] == b && header[6..10] == c;
    assert header + data + rest == header + (data + rest);
    TakenPrefix(header, data + rest);
    TakenPrefix(data, rest);
    NothingTaken(data + rest);
  }
}
