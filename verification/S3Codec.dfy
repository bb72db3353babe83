/** The S3 boot-script instruction codecs: the default (MDE) format and the EDK-compatible one. */
module S3Codec {
  import opened Bytes
  import opened Options
  import opened Structs

  const IO_WRITE := 0x00
  const IO_READ_WRITE := 0x01
  const MEM_WRITE := 0x02
  const MEM_READ_WRITE := 0x03
  const PCI_CONFIG_WRITE := 0x04
  const PCI_CONFIG_READ_WRITE := 0x05
  const SMBUS_EXECUTE := 0x06
  const STALL := 0x07
  const DISPATCH := 0x08
  const DISPATCH_2 := 0x09 // default format
  const MEM_POLL := 0x09   // EDK-compatible format
  const TERMINATE := 0xFF

  const B := 1
  const H := 2
  const I := 4
  const Q := 8

  /** Opcodes with an entry in script_opcodes; any other makes a constructor raise KeyError. */
  predicate Named(opcode: nat) {
    opcode <= 0x08 || opcode == TERMINATE
  }

  datatype Op =
    | IoPciMem(opcode: nat, size: nat, width: nat, address: nat, unknown: Option<nat>, count: Option<nat>,
               buffer: Option<Data>, value: Option<nat>, mask: Option<nat>, values: Option<seq<nat>>)
    | SmbusExecute(opcode: nat, size: nat, address: nat, command: nat, operation: nat, peccheck: nat)
    | StallOp(opcode: nat, size: nat, duration: nat)
    | DispatchOp(opcode: nat, size: nat, entrypoint: nat)
    | MemPoll(opcode: nat, size: nat, width: nat, address: nat, duration: nat, looptimes: nat)
    | TerminateOp(opcode: nat, size: nat)
    | UnknownOp(opcode: nat, size: nat)

  /** script_width_sizes; widths above 3 are missing from it. */
  function WidthSize(width: nat): (n: nat)
    requires width <= 3
    ensures n > 0
  {
    if width == 0 then 1 else if width == 1 then 2 else if width == 2 then 4 else 8
  }

  /** The op_io_pci_mem constructor. A buffer of exactly count values is also unpacked. */
  function NewIoPciMem(opcode: nat, size: nat, width: nat, address: nat, unknown: Option<nat>, count: Option<nat>,
                       buffer: Option<Data>, value: Option<nat>, mask: Option<nat>): Option<Op>
  {
    if !Named(opcode) then None
    else if count.Some? && count.value > 0 && buffer.Some? then
      if width > 3 then None
      else Some(IoPciMem(opcode, size, width, address, unknown, count, buffer, value, mask,
                         UnpackValues(buffer.value, width, count.value)))
    else Some(IoPciMem(opcode, size, width, address, unknown, count, buffer, value, mask, None))
  }

  function UnpackValues(buffer: Data, width: nat, count: nat): Option<seq<nat>>
    requires width <= 3
  {
    if |buffer| != count * WidthSize(width) then None
    else
      RepeatedSize(WidthSize(width), count);
      Some(Unpack(Repeated(WidthSize(width), count), buffer))
  }

  /** What a decoder returns: an operation, no operation at all, or an exception. */
  datatype Decoded = Decoded(op: Option<Op>) | Raised

  function Made(op: Option<Op>): Decoded {
    if op.None? then Raised else Decoded(op)
  }

  /** Unpack the first fields of data; None when there are too few bytes. */
  function Fields(fmt: seq<nat>, data: Data): (r: Option<seq<nat>>)
    ensures r.Some? ==> |r.value| == |fmt| && CalcSize(fmt) <= |data|
  {
    if |data| < CalcSize(fmt) then None else Some(Unpack(fmt, data[..CalcSize(fmt)]))
  }

  // ---------------------------------------------------------------- default format

  const FMT16: seq<nat> := [B, B, H, I, Q]
  const FMT24: seq<nat> := [B, B, H, I, Q, Q]
  const FMT32: seq<nat> := [B, B, H, I, Q, Q, Q]

  lemma SizeCons(n: nat, rest: seq<nat>)
    ensures CalcSize([n] + rest) == n + CalcSize(rest)
  {
    assert ([n] + rest)[1..] == rest;
  }

  lemma HeaderSize(rest: seq<nat>)
    ensures CalcSize([B, B, H, I] + rest) == 8 + CalcSize(rest)
  {
    SizeCons(I, rest);
    SizeCons(H, [I] + rest);
    SizeCons(B, [H] + ([I] + rest));
    SizeCons(B, [B] + ([H] + ([I] + rest)));
    assert [B, B, H, I] + rest == [B] + ([B] + ([H] + ([I] + rest)));
  }

  lemma FormatSizes()
    ensures CalcSize(FMT16) == 16 && CalcSize(FMT24) == 24 && CalcSize(FMT32) == 32
  {
    hide CalcSize;
    EightBytes();
    assert FMT16 == [B, B, H, I] + [Q] && FMT24 == [B, B, H, I] + [Q, Q] && FMT32 == [B, B, H, I] + [Q, Q, Q];
    HeaderSize([Q]);
    HeaderSize([Q, Q]);
    HeaderSize([Q, Q, Q]);
  }

  lemma EightBytes()
    ensures CalcSize([Q]) == 8 && CalcSize([Q, Q]) == 16 && CalcSize([Q, Q, Q]) == 24
  {
    assert [Q] == [Q] + [] && [Q, Q] == [Q] + [Q] && [Q, Q, Q] == [Q] + [Q, Q];
    SizeCons(Q, []);
    SizeCons(Q, [Q]);
    SizeCons(Q, [Q, Q]);
  }

  /** decode_s3bs_opcode_def */
  function DecodeDefault(data: Data): Decoded {
    if data == [] then Raised
    else if data[0] == IO_WRITE then
      match Fields(FMT16, data)
      case None => Raised
      case Some(v) => Made(NewIoPciMem(v[0], 16, v[1], v[2], None, Some(v[4]), Some(Slice(data, 16, |data|)), None,
        None))
    else if data[0] == IO_READ_WRITE then
      match Fields(FMT24, data)
      case None => Raised
      case Some(v) => Made(NewIoPciMem(v[0], 24, v[1], v[2], None, None, None, Some(v[4]), Some(v[5])))
    else if data[0] == PCI_CONFIG_WRITE || data[0] == MEM_WRITE then
      match Fields(FMT24, data)
      case None => Raised
      case Some(v) => Made(NewIoPciMem(v[0], 24, v[1], v[4], Some(v[2]), Some(v[5]), Some(Slice(data, 24, |data|)),
        None, None))
    else if data[0] == PCI_CONFIG_READ_WRITE || data[0] == MEM_READ_WRITE then
      match Fields(FMT32, data)
      case None => Raised
      case Some(v) => Made(NewIoPciMem(v[0], 32, v[1], v[4], Some(v[2]), None, None, Some(v[5]), Some(v[6])))
    else if data[0] == SMBUS_EXECUTE then
      match Fields([B, B, Q, B, B], data)
      case None => Raised
      case Some(v) => Decoded(Some(SmbusExecute(v[0], 12, v[1], v[2], v[3], v[4])))
    else if data[0] == STALL then
      match Fields([B, B, Q], data)
      case None => Raised
      case Some(v) => Decoded(Some(StallOp(v[0], 10, v[2])))
    else if data[0] == DISPATCH then
      match Fields(FMT16, data)
      case None => Raised
      case Some(v) => Decoded(Some(DispatchOp(v[0], 16, v[4])))
    else if data[0] == DISPATCH_2 then Raised // its opcode has no name, so the constructor raises
    else if data[0] == TERMINATE then Decoded(Some(TerminateOp(TERMINATE, 1)))
    else Decoded(Some(UnknownOp(data[0], 1)))
  }

  /** The bytes of a write's data: the values re-packed, or the raw buffer when there are none. */
  function WriteData(op: Op): Option<Data>
    requires op.IoPciMem?
  {
    if op.values.None? then op.buffer
    else if op.width > 3 || op.count.None? then None
    else Pack(Repeated(WidthSize(op.width), op.count.value), op.values.value)
  }

  function Join(a: Option<Data>, b: Option<Data>): Option<Data> {
    if a.Some? && b.Some? then Some(a.value + b.value) else None
  }

  /** encode_s3bs_opcode_def; None is an exception. Several opcodes have no encoder and yield no bytes. */
  function EncodeDefault(op: Op): Option<Data> {
    if op.opcode == IO_WRITE then
      if op.IoPciMem? && op.count.Some? then
        Join(Pack(FMT16, [op.opcode, op.width, op.address, 0, op.count.value]), WriteData(op)) else None
    else if op.opcode == IO_READ_WRITE then
      if op.IoPciMem? && op.value.Some? && op.mask.Some? then
        Pack(FMT24, [op.opcode, op.width, op.address, 0, op.value.value, op.mask.value]) else None
    else if op.opcode == PCI_CONFIG_WRITE || op.opcode == MEM_WRITE then
      if op.IoPciMem? && op.unknown.Some? && op.count.Some? then
        Join(Pack(FMT24, [op.opcode, op.width, op.unknown.value, 0, op.address, op.count.value]), WriteData(op))
          else None
    else if op.opcode == MEM_READ_WRITE then
      if op.IoPciMem? && op.unknown.Some? && op.value.Some? && op.mask.Some? then
        Pack(FMT32, [op.opcode, op.width, op.unknown.value, 0, op.address, op.value.value, op.mask.value]) else None
    else if op.opcode == DISPATCH then
      if op.DispatchOp? then Pack(FMT16, [op.opcode, 0, 0, 0, op.entrypoint]) else None
    else if op.opcode == DISPATCH_2 then None // op_dispatch objects with this opcode cannot be made
    else Some([])
  }

  // ---------------------------------------------------------------- EDK-compatible format

  const FMT_EDK_WRITE: seq<nat> := [I, I, Q]
  const FMT_EDK_RW: seq<nat> := [I, Q]
  const FMT_EDK_POLL: seq<nat> := [I, Q, Q, Q]

  lemma EdkFormatSizes()
    ensures CalcSize([H, B]) == 3 && CalcSize([Q]) == 8
    ensures CalcSize(FMT_EDK_WRITE) == 16 && CalcSize(FMT_EDK_RW) == 12 && CalcSize(FMT_EDK_POLL) == 28
  {
    SizeCons(B, []);
    SizeCons(H, [B]);
    SizeCons(Q, []);
    SizeCons(I, [Q]);
    SizeCons(I, [I, Q]);
    SizeCons(Q, [Q]);
    SizeCons(Q, [Q, Q]);
    SizeCons(I, [Q, Q, Q]);
  }

  predicate IsWrite(opcode: nat) {
    opcode == IO_WRITE || opcode == PCI_CONFIG_WRITE || opcode == MEM_WRITE
  }

  predicate IsReadWrite(opcode: nat) {
    opcode == IO_READ_WRITE || opcode == PCI_CONFIG_READ_WRITE || opcode == MEM_READ_WRITE
  }

  /** decode_s3bs_opcode_edkcompat */
  function DecodeEdk(data: Data): Decoded {
    match Fields([H, B], data)
    case None => Raised
    case Some(hdr) => DecodeEdkBody(hdr[0], hdr[1], Slice(data, 3, |data|))
  }

  function DecodeEdkBody(opcode: nat, size: nat, body: Data): Decoded {
    if IsWrite(opcode) then
      match Fields(FMT_EDK_WRITE, body)
      case None => Raised
      case Some(v) => Made(NewIoPciMem(opcode, size, v[0], v[2], None, Some(v[1]), Some(Slice(body, 16, |body|)),
        None, None))
    else if IsReadWrite(opcode) then
      match Fields(FMT_EDK_RW, body)
      case None => Raised
      case Some(v) =>
        if v[0] > 3 then Raised
        else
          match Fields([WidthSize(v[0]), WidthSize(v[0])], Slice(body, 12, |body|))
          case None => Raised
          case Some(u) => Made(NewIoPciMem(opcode, size, v[0], v[1], None, None, None, Some(u[0]), Some(u[1])))
    else if opcode == SMBUS_EXECUTE then Decoded(None)
    else if opcode == STALL then
      match Fields([Q], body)
      case None => Raised
      case Some(v) => Decoded(Some(StallOp(opcode, size, v[0])))
    else if opcode == DISPATCH then
      match Fields([Q], body)
      case None => Raised
      case Some(v) => Decoded(Some(DispatchOp(opcode, size, v[0])))
    else if opcode == MEM_POLL then
      match Fields(FMT_EDK_POLL, body)
      case None => Raised
      case Some(v) => Decoded(Some(MemPoll(opcode, size, v[0], v[1], v[2], v[3])))
    else if opcode == TERMINATE then Decoded(Some(TerminateOp(opcode, size)))
    else Decoded(Some(UnknownOp(opcode, size)))
  }

  /** encode_s3bs_opcode_edkcompat */
  function EncodeEdk(op: Op): Option<Data> {
    if IsWrite(op.opcode) then
      if op.IoPciMem? && op.count.Some? then
        Join(Pack(FMT_EDK_WRITE, [op.width, op.count.value, op.address]), WriteData(op)) else None
    else if IsReadWrite(op.opcode) then
      if op.IoPciMem? && op.width <= 3 && op.value.Some? && op.mask.Some? then
        Join(Pack(FMT_EDK_RW, [op.width, op.address]),
             Pack([WidthSize(op.width), WidthSize(op.width)], [op.value.value, op.mask.value])) else None
    else if op.opcode == DISPATCH then
      if op.DispatchOp? then Pack([Q], [op.entrypoint]) else None
    else if op.opcode == MEM_POLL then
      if op.MemPoll? then Pack(FMT_EDK_POLL, [op.width, op.address, op.duration, op.looptimes]) else None
    else Some([])
  }

  // ---------------------------------------------------------------- decode undoes encode

  /** Fields packed in front of other bytes are read back. */
  lemma FieldsOfPack(fmt: seq<nat>, vals: seq<nat>, rest: Data)
    requires Pack(fmt, vals).Some?
    ensures Fields(fmt, Pack(fmt, vals).value + rest) == Some(vals)
    ensures Slice(Pack(fmt, vals).value + rest, CalcSize(fmt), |Pack(fmt, vals).value + rest|) == rest
  {
    hide Pack, Unpack, CalcSize;
    UnpackPack(fmt, vals);
    var b := Pack(fmt, vals).value;
    assert (b + rest)[..CalcSize(fmt)] == b;
    assert (b + rest)[CalcSize(fmt)..] == rest;
  }

  lemma PackCons(n: nat, v: nat, fmt: seq<nat>, vals: seq<nat>)
    requires v < Pow256(n) && Pack(fmt, vals).Some?
    ensures Pack([n] + fmt, [v] + vals) == Some(Le(v, n) + Pack(fmt, vals).value)
  {
    hide Pow256, Le;
    assert ([n] + fmt)[1..] == fmt && ([v] + vals)[1..] == vals;
  }

  /** A write operation built by its constructor emits its own buffer. */
  lemma WriteDataIsBuffer(op: Op)
    requires op.IoPciMem? && op.buffer.Some?
    requires Some(op) == NewIoPciMem(op.opcode, op.size, op.width, op.address, op.unknown, op.count, op.buffer,
             op.value, op.mask)
    ensures WriteData(op) == op.buffer
  {
    hide Pack, Unpack;
    if op.values.Some? {
      RepeatedSize(WidthSize(op.width), op.count.value);
      PackUnpack(Repeated(WidthSize(op.width), op.count.value), op.buffer.value);
    }
  }

  predicate Constructed(op: Op) {
    op.IoPciMem? ==>
      Some(op) == NewIoPciMem(op.opcode, op.size, op.width, op.address, op.unknown, op.count, op.buffer, op.value,
        op.mask)
  }

  /** The operations the default format can carry, as its decoder makes them. */
  predicate DefaultOp(op: Op) {
    Constructed(op) &&
    match op
    case IoPciMem(opcode, size, _, _, unknown, count, buffer, value, mask, _) =>
      if opcode == IO_WRITE then
        size == 16 && unknown.None? && count.Some? && buffer.Some? && value.None? && mask.None?
      else if opcode == IO_READ_WRITE then
        size == 24 && unknown.None? && count.None? && buffer.None? && value.Some? && mask.Some?
      else if opcode == PCI_CONFIG_WRITE || opcode == MEM_WRITE then
        size == 24 && unknown.Some? && count.Some? && buffer.Some? && value.None? && mask.None?
      else
        opcode == MEM_READ_WRITE && size == 32 && unknown.Some? && count.None? && buffer.None? && value.Some?
          && mask.Some?
    case DispatchOp(opcode, size, _) => opcode == DISPATCH && size == 16
    case _ => false
  }

  lemma FirstByte(fmt: seq<nat>, vals: seq<nat>, rest: Data)
    requires Pack(fmt, vals).Some? && fmt != [] && fmt[0] == 1
    ensures var b := Pack(fmt, vals).value + rest; b != [] && b[0] == vals[0]
  {
    assert Le(vals[0], 1)[0] == vals[0];
  }

  /** In the default format, decoding an encoded operation gives it back. */
  lemma DefaultRoundTrip(op: Op)
    requires DefaultOp(op) && EncodeDefault(op).Some?
    ensures EncodeDefault(op).value != [] && EncodeDefault(op).value[0] == op.opcode
    ensures DecodeDefault(EncodeDefault(op).value) == Decoded(Some(op))
  {
    hide Pack, Fields, CalcSize, NewIoPciMem, Slice;
    FormatSizes();
    if op.DispatchOp? {
      DefaultHead(FMT16, [op.opcode, 0, 0, 0, op.entrypoint], []);
    } else if op.opcode == IO_WRITE {
      WriteDataIsBuffer(op);
      DefaultHead(FMT16, [op.opcode, op.width, op.address, 0, op.count.value], op.buffer.value);
    } else if op.opcode == IO_READ_WRITE {
      DefaultHead(FMT24, [op.opcode, op.width, op.address, 0, op.value.value, op.mask.value], []);
    } else if op.opcode == MEM_READ_WRITE {
      DefaultHead(FMT32, [op.opcode, op.width, op.unknown.value, 0, op.address, op.value.value, op.mask.value], []);
    } else {
      WriteDataIsBuffer(op);
      DefaultHead(FMT24, [op.opcode, op.width, op.unknown.value, 0, op.address, op.count.value], op.buffer.value);
    }
  }

  lemma DefaultHead(fmt: seq<nat>, vals: seq<nat>, rest: Data)
    requires Pack(fmt, vals).Some? && fmt != [] && fmt[0] == 1
    ensures var b := Pack(fmt, vals).value + rest;
            && b != [] && b[0] == vals[0] && Fields(fmt, b) == Some(vals) && Slice(b, CalcSize(fmt), |b|) == rest
            && (rest == [] ==> b == Pack(fmt, vals).value)
  {
    hide Pack, Fields, CalcSize, Slice;
    FirstByte(fmt, vals, rest);
    FieldsOfPack(fmt, vals, rest);
  }

  /** The operations the EDK-compatible format can carry, with the size its decoder records. */
  predicate EdkOp(op: Op) {
    Constructed(op) && EncodeEdk(op).Some? && op.size == 3 + |EncodeEdk(op).value| &&
    match op
    case IoPciMem(opcode, _, _, _, unknown, count, buffer, value, mask, _) =>
      if IsWrite(opcode) then unknown.None? && count.Some? && buffer.Some? && value.None? && mask.None?
      else IsReadWrite(opcode) && unknown.None? && count.None? && buffer.None? && value.Some? && mask.Some?
    case DispatchOp(opcode, _, _) => opcode == DISPATCH
    case MemPoll(opcode, _, _, _, _, _) => opcode == MEM_POLL
    case TerminateOp(opcode, _) => opcode == TERMINATE
    case UnknownOp(opcode, _) =>
      !IsWrite(opcode) && !IsReadWrite(opcode) && opcode !in {SMBUS_EXECUTE, STALL, DISPATCH, MEM_POLL, TERMINATE}
    case _ => false
  }

  /** In the EDK-compatible format, decoding an encoded operation's body gives it back. */
  lemma EdkBodyRoundTrip(op: Op)
    requires EdkOp(op)
    ensures DecodeEdkBody(op.opcode, op.size, EncodeEdk(op).value) == Decoded(Some(op))
  {
    hide Pack, Fields, CalcSize, NewIoPciMem, Slice;
    EdkFormatSizes();
    var body := EncodeEdk(op).value;
    assert body + [] == body;
    match op
    case IoPciMem(_, _, _, _, _, _, _, _, _, _) =>
      if IsWrite(op.opcode) {
        WriteDataIsBuffer(op);
        FieldsOfPack(FMT_EDK_WRITE, [op.width, op.count.value, op.address], op.buffer.value);
      } else {
        var w := [WidthSize(op.width), WidthSize(op.width)];
        var tail := Pack(w, [op.value.value, op.mask.value]).value;
        FieldsOfPack(FMT_EDK_RW, [op.width, op.address], tail);
        FieldsOfPack(w, [op.value.value, op.mask.value], []);
        assert tail + [] == tail;
      }
    case DispatchOp(_, _, _) => FieldsOfPack([Q], [op.entrypoint], []);
    case MemPoll(_, _, _, _, _, _) => FieldsOfPack(FMT_EDK_POLL, [op.width, op.address, op.duration, op.looptimes], []);
    case TerminateOp(_, _) =>
    case UnknownOp(_, _) =>
  }
}
