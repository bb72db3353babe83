/** Boot-script instructions byte by byte: what each operation code means to the decoders, and the bytes the encoders
    emit. */
module S3Layouts {
  import opened Bytes
  import opened Options
  import opened Structs
  import opened S3Codec
  import opened S3Script

  // ---------------------------------------------------------------- packed fields

  lemma {:induction false} PackConcat(f: seq<nat>, g: seq<nat>, v: seq<nat>, w: seq<nat>)
    requires |f| == |v|
    ensures Pack(f + g, v + w) == Join(Pack(f, v), Pack(g, w))
  {
    hide Le, Pow256;
    if f == [] {
      assert f + g == g && v + w == w;
      if Pack(g, w).Some? {
        assert [] + Pack(g, w).value == Pack(g, w).value;
      }
    } else {
      PackConcat(f[1..], g, v[1..], w);
      assert (f + g)[1..] == f[1..] + g && (v + w)[1..] == v[1..] + w;
      PackOneMore(f + g, v + w);
      PackOneMore(f, v);
      if v[0] < Pow256(f[0]) && Pack(f[1..], v[1..]).Some? && Pack(g, w).Some? {
        Associate(Le(v[0], f[0]), Pack(f[1..], v[1..]).value, Pack(g, w).value);
      }
    }
  }

  lemma Associate(a: Data, b: Data, c: Data)
    ensures a + (b + c) == a + b + c
  {
  }

  lemma PackOneMore(f: seq<nat>, v: seq<nat>)
    requires f != []
    ensures v != [] && v[0] < Pow256(f[0]) ==> Pack(f, v) == Join(Some(Le(v[0], f[0])), Pack(f[1..], v[1..]))
    ensures v != [] && v[0] >= Pow256(f[0]) ==> Pack(f, v).None?
  {
    hide Le, Pow256;
  }

  lemma PackOne(n: nat, v: nat)
    ensures Pack([n], [v]) == if v < Pow256(n) then Some(Le(v, n)) else None
  {
    hide Le, Pow256;
    assert [n][1..] == [] && [v][1..] == [];
    PackOneMore([n], [v]);
    if v < Pow256(n) {
      assert Le(v, n) + [] == Le(v, n);
    }
  }

  /** The five fields every default instruction except two starts with: two bytes, 16, 32 and 64 bits. */
  lemma Head16(a: nat, b: nat, c: nat, d: nat, e: nat)
    ensures Pack(FMT16, [a, b, c, d, e])
         == if a < 0x100 && b < 0x100 && c < Pow256(2) && d < Pow256(4) && e < Pow256(8)
            then Some([a, b] + Le(c, 2) + Le(d, 4) + Le(e, 8)) else None
  {
    hide Pack, Le, Pow256;
    TwoBytes(a, b);
    PackOne(2, c);
    PackOne(4, d);
    PackOne(8, e);
    PackConcat([B, B], [H], [a, b], [c]);
    PackConcat([B, B, H], [I], [a, b, c], [d]);
    PackConcat([B, B, H, I], [Q], [a, b, c, d], [e]);
    assert [B, B] + [H] == [B, B, H] && [B, B, H] + [I] == [B, B, H, I] && [B, B, H, I] + [Q] == FMT16;
    assert [a, b] + [c] == [a, b, c] && [a, b, c] + [d] == [a, b, c, d] && [a, b, c, d] + [e] == [a, b, c, d, e];
  }

  lemma TwoBytes(a: nat, b: nat)
    ensures Pack([B, B], [a, b]) == if a < 0x100 && b < 0x100 then Some([a, b]) else None
  {
    hide Pack, Le;
    Pow256Values();
    PackOne(1, a);
    PackOne(1, b);
    PackConcat([B], [B], [a], [b]);
    assert [B] + [B] == [B, B] && [a] + [b] == [a, b];
    if a < 0x100 && b < 0x100 {
      LeOne(a);
      LeOne(b);
      assert Le(a, 1) + Le(b, 1) == [a, b];
    }
  }

  /** The same with one more 64-bit field, and with two. */
  lemma Head24(a: nat, b: nat, c: nat, d: nat, e: nat, f: nat)
    ensures Pack(FMT24, [a, b, c, d, e, f])
            == Join(Pack(FMT16, [a, b, c, d, e]), if f < Pow256(8) then Some(Le(f, 8)) else None)
  {
    hide Pack, Le, Pow256;
    PackOne(8, f);
    PackConcat(FMT16, [Q], [a, b, c, d, e], [f]);
    assert FMT16 + [Q] == FMT24 && [a, b, c, d, e] + [f] == [a, b, c, d, e, f];
  }

  lemma Head32(a: nat, b: nat, c: nat, d: nat, e: nat, f: nat, g: nat)
    ensures Pack(FMT32, [a, b, c, d, e, f, g])
         == Join(Pack(FMT24, [a, b, c, d, e, f]), if g < Pow256(8) then Some(Le(g, 8)) else None)
  {
    hide Pack, Le, Pow256;
    PackOne(8, g);
    PackConcat(FMT24, [Q], [a, b, c, d, e, f], [g]);
    assert FMT24 + [Q] == FMT32 && [a, b, c, d, e, f] + [g] == [a, b, c, d, e, f, g];
  }

  // ---------------------------------------------------------------- the operation object

  /** A read, write or read-write object is made for the nine named operation codes below 9 and for 0xFF. With data and
      a positive count its width must be 0 to 3, and data of exactly count fields is unpacked. */
  lemma NewMeaning(opcode: nat, size: nat, width: nat, address: nat, unknown: Option<nat>, count: Option<nat>,
                   buffer: Option<Data>, value: Option<nat>, mask: Option<nat>)
    ensures var r := NewIoPciMem(opcode, size, width, address, unknown, count, buffer, value, mask);
            var counted := count.Some? && count.value > 0 && buffer.Some?;
            && (r.None? <==> (opcode > 8 && opcode != 0xFF) || (counted && width > 3))
            && (r.None? ==> Made(r) == Raised) && (r.Some? ==> Made(r) == Decoded(r))
            && (r.Some? ==>
                  && r.value.IoPciMem?
                  && r.value
                     == IoPciMem(opcode, size, width, address, unknown, count, buffer, value, mask, r.value.values))
            && (r.Some? && !counted ==> r.value.values.None?)
            && (r.Some? && counted ==>
                  var n := [1, 2, 4, 8][width];
                  && (r.value.values.Some? <==> |buffer.value| == count.value * n)
                  && (r.value.values.Some? ==> Holds(buffer.value, n, r.value.values.value)))
  {
    hide Unpack, FromLe;
    if count.Some? && count.value > 0 && buffer.Some? && width <= 3 {
      var n := WidthSize(width);
      if |buffer.value| == count.value * n {
        RepeatedSize(n, count.value);
        UnpackRepeated(n, count.value, buffer.value);
      }
    }
  }

  /** The values are the n-byte little-endian fields of data, in order. */
  ghost predicate Holds(data: Data, n: nat, values: seq<nat>)
    decreases |values|
  {
    if values == [] then data == []
    else n <= |data| && values[0] == FromLe(data[..n]) && Holds(data[n..], n, values[1..])
  }

  lemma {:induction false} UnpackRepeated(n: nat, k: nat, data: Data)
    requires |data| == CalcSize(Repeated(n, k))
    ensures Holds(data, n, Unpack(Repeated(n, k), data))
    decreases k
  {
    hide FromLe;
    if k > 0 {
      assert Repeated(n, k)[1..] == Repeated(n, k - 1);
      UnpackRepeated(n, k - 1, data[n..]);
    }
  }

  // ---------------------------------------------------------------- default format, decoding

  /** IO_WRITE (0x00) and DISPATCH (0x08): 16 bytes, then a write's data. */
  lemma DecodesHead16(w: Byte, c: nat, d: nat, e: nat, rest: Data)
    requires c < Pow256(2) && d < Pow256(4) && e < Pow256(8)
    ensures var tail := Le(c, 2) + Le(d, 4) + Le(e, 8) + rest;
            && DecodeDefault([0x00, w] + tail)
                 == Made(NewIoPciMem(0x00, 16, w, c, None, Some(e), Some(rest), None, None))
            && DecodeDefault([0x08, w] + tail) == Decoded(Some(DispatchOp(0x08, 16, e)))
  {
    hide Pack, Fields, CalcSize, NewIoPciMem, Slice, Le, Pow256;
    FormatSizes();
    forall op: Byte
      ensures var b := [op, w] + (Le(c, 2) + Le(d, 4) + Le(e, 8) + rest);
              b[0] == op && Fields(FMT16, b) == Some([op, w, c, d, e]) && Slice(b, 16, |b|) == rest
    {
      Head16(op, w, c, d, e);
      DefaultHead(FMT16, [op, w, c, d, e], rest);
      Reassociate([op, w], Le(c, 2), Le(d, 4), Le(e, 8), rest);
    }
  }

  lemma Reassociate(a: Data, b: Data, c: Data, d: Data, e: Data)
    ensures a + b + c + d + e == a + (b + c + d + e)
  {
  }

  /** IO_READ_WRITE (0x01), and MEM_WRITE (0x02) and PCI_CONFIG_WRITE (0x04) with their data: 24 bytes. */
  lemma DecodesHead24(w: Byte, c: nat, d: nat, e: nat, f: nat, rest: Data)
    requires c < Pow256(2) && d < Pow256(4) && e < Pow256(8) && f < Pow256(8)
    ensures var tail := Le(c, 2) + Le(d, 4) + Le(e, 8) + (Le(f, 8) + rest);
            && DecodeDefault([0x01, w] + tail)
                 == Made(NewIoPciMem(0x01, 24, w, c, None, None, None, Some(e), Some(f)))
            && DecodeDefault([0x02, w] + tail)
                 == Made(NewIoPciMem(0x02, 24, w, e, Some(c), Some(f), Some(rest), None, None))
            && DecodeDefault([0x04, w] + tail)
                 == Made(NewIoPciMem(0x04, 24, w, e, Some(c), Some(f), Some(rest), None, None))
  {
    hide DecodeDefault, Fields, NewIoPciMem, Slice, Le, Pow256, CalcSize;
    var tail := Le(c, 2) + Le(d, 4) + Le(e, 8) + (Le(f, 8) + rest);
    Fields24(0x01, w, c, d, e, f, rest);
    Decode24([0x01, w] + tail, w, c, d, e, f, rest);
    Fields24(0x02, w, c, d, e, f, rest);
    Decode24([0x02, w] + tail, w, c, d, e, f, rest);
    Fields24(0x04, w, c, d, e, f, rest);
    Decode24([0x04, w] + tail, w, c, d, e, f, rest);
  }

  lemma Fields24(op: Byte, w: Byte, c: nat, d: nat, e: nat, f: nat, rest: Data)
    requires c < Pow256(2) && d < Pow256(4) && e < Pow256(8) && f < Pow256(8)
    ensures var b := [op, w] + (Le(c, 2) + Le(d, 4) + Le(e, 8) + (Le(f, 8) + rest));
            b != [] && b[0] == op && Fields(FMT24, b) == Some([op, w, c, d, e, f]) && Slice(b, 24, |b|) == rest
  {
    hide Pack, Fields, CalcSize, Slice, Le, Pow256;
    FormatSizes();
    Head16(op, w, c, d, e);
    Head24(op, w, c, d, e, f);
    DefaultHead(FMT24, [op, w, c, d, e, f], rest);
    Reassociate([op, w], Le(c, 2), Le(d, 4), Le(e, 8), Le(f, 8) + rest);
    Associate([op, w] + Le(c, 2) + Le(d, 4) + Le(e, 8), Le(f, 8), rest);
  }

  lemma Decode24(data: Data, w: nat, c: nat, d: nat, e: nat, f: nat, rest: Data)
    requires data != [] && Fields(FMT24, data) == Some([data[0] as nat, w, c, d, e, f])
    requires Slice(data, 24, |data|) == rest
    ensures data[0] == 0x01 ==>
              DecodeDefault(data) == Made(NewIoPciMem(0x01, 24, w, c, None, None, None, Some(e), Some(f)))
    ensures data[0] in {0x02, 0x04} ==>
              DecodeDefault(data) == Made(NewIoPciMem(data[0], 24, w, e, Some(c), Some(f), Some(rest), None, None))
  {
    hide Fields, NewIoPciMem, Slice;
  }

  /** MEM_READ_WRITE (0x03) and PCI_CONFIG_READ_WRITE (0x05): 32 bytes. */
  lemma DecodesHead32(w: Byte, c: nat, d: nat, e: nat, f: nat, g: nat, rest: Data)
    requires c < Pow256(2) && d < Pow256(4) && e < Pow256(8) && f < Pow256(8) && g < Pow256(8)
    ensures var tail := Le(c, 2) + Le(d, 4) + Le(e, 8) + (Le(f, 8) + (Le(g, 8) + rest));
            && DecodeDefault([0x03, w] + tail)
                 == Made(NewIoPciMem(0x03, 32, w, e, Some(c), None, None, Some(f), Some(g)))
            && DecodeDefault([0x05, w] + tail)
                 == Made(NewIoPciMem(0x05, 32, w, e, Some(c), None, None, Some(f), Some(g)))
  {
    hide DecodeDefault, Fields, NewIoPciMem, Le, Pow256, CalcSize;
    var tail := Le(c, 2) + Le(d, 4) + Le(e, 8) + (Le(f, 8) + (Le(g, 8) + rest));
    Fields32(0x03, w, c, d, e, f, g, rest);
    ReadWrite32([0x03, w] + tail, w, c, d, e, f, g);
    Fields32(0x05, w, c, d, e, f, g, rest);
    ReadWrite32([0x05, w] + tail, w, c, d, e, f, g);
  }

  lemma ReadWrite32(data: Data, w: nat, c: nat, d: nat, e: nat, f: nat, g: nat)
    requires data != [] && data[0] in {0x03, 0x05} && Fields(FMT32, data) == Some([data[0] as nat, w, c, d, e, f, g])
    ensures DecodeDefault(data) == Made(NewIoPciMem(data[0], 32, w, e, Some(c), None, None, Some(f), Some(g)))
  {
    hide Fields, NewIoPciMem, Slice;
  }

  lemma Fields32(op: Byte, w: Byte, c: nat, d: nat, e: nat, f: nat, g: nat, rest: Data)
    requires c < Pow256(2) && d < Pow256(4) && e < Pow256(8) && f < Pow256(8) && g < Pow256(8)
    ensures var b := [op, w] + (Le(c, 2) + Le(d, 4) + Le(e, 8) + (Le(f, 8) + (Le(g, 8) + rest)));
            b != [] && b[0] == op && Fields(FMT32, b) == Some([op, w, c, d, e, f, g])
  {
    hide Pack, Fields, CalcSize, Slice, Le, Pow256;
    Head16(op, w, c, d, e);
    Head24(op, w, c, d, e, f);
    Head32(op, w, c, d, e, f, g);
    DefaultHead(FMT32, [op, w, c, d, e, f, g], rest);
    Regrouped([op, w], Le(c, 2), Le(d, 4), Le(e, 8), Le(f, 8), Le(g, 8), rest);
  }

  lemma Regrouped(a: Data, b: Data, c: Data, d: Data, e: Data, f: Data, g: Data)
    ensures a + b + c + d + e + f + g == a + (b + c + d + (e + (f + g)))
  {
    Associate(a + b + c + d + e, f, g);
    Associate(a + b + c + d, e, f + g);
    Reassociate(a, b, c, d, e + (f + g));
  }

  /** STALL (0x07): a byte that is not read and a 64-bit duration. */
  lemma DecodesStall(w: Byte, duration: nat, rest: Data)
    requires duration < Pow256(8)
    ensures DecodeDefault([0x07, w] + Le(duration, 8) + rest) == Decoded(Some(StallOp(0x07, 10, duration)))
  {
    hide Pack, Fields, CalcSize, NewIoPciMem, Slice, Le, Pow256;
    PackedStall(0x07, w, duration);
    DefaultHead([B, B, Q], [0x07, w, duration], rest);
  }

  lemma PackedStall(a: Byte, b: Byte, c: nat)
    requires c < Pow256(8)
    ensures Pack([B, B, Q], [a, b, c]) == Some([a, b] + Le(c, 8))
  {
    hide Pack, Le, Pow256;
    TwoBytes(a, b);
    PackOne(8, c);
    PackConcat([B, B], [Q], [a, b], [c]);
    assert [B, B] + [Q] == [B, B, Q] && [a as nat, b] + [c] == [a, b, c];
  }

  /** SMBUS_EXECUTE (0x06): address, a 64-bit command, operation and PEC check. */
  lemma DecodesSmbus(address: Byte, command: nat, operation: Byte, peccheck: Byte, rest: Data)
    requires command < Pow256(8)
    ensures DecodeDefault([0x06, address] + Le(command, 8) + [operation, peccheck] + rest)
         == Decoded(Some(SmbusExecute(0x06, 12, address, command, operation, peccheck)))
  {
    hide Pack, Fields, CalcSize, NewIoPciMem, Slice, Le, Pow256;
    PackedStall(0x06, address, command);
    TwoBytes(operation, peccheck);
    PackConcat([B, B, Q], [B, B], [0x06, address, command], [operation, peccheck]);
    assert [B, B, Q] + [B, B] == [B, B, Q, B, B];
    assert [0x06, address as nat, command] + [operation, peccheck] == [0x06, address, command, operation, peccheck];
    DefaultHead([B, B, Q, B, B], [0x06, address, command, operation, peccheck], rest);
  }

  /** TERMINATE (0xFF) and the codes from 0x0A up need only their first byte; 0x09 (DISPATCH_2) and no bytes at all
      raise. */
  lemma DecodesShort(data: Data)
    ensures DecodeDefault([]) == Raised
    ensures DecodeDefault([0x09] + data) == Raised
    ensures DecodeDefault([0xFF] + data) == Decoded(Some(TerminateOp(0xFF, 1)))
    ensures forall op: Byte :: 0x0A <= op < 0xFF ==> DecodeDefault([op] + data) == Decoded(Some(UnknownOp(op, 1)))
  {
  }

  /** The other codes raise when their fields are cut off. */
  lemma DefaultCut(data: Data)
    requires data != [] && data[0] <= 0x08
    requires |data| < [16, 24, 24, 32, 24, 32, 12, 10, 16][data[0]]
    ensures DecodeDefault(data) == Raised
  {
    hide Unpack, CalcSize, NewIoPciMem;
    FormatSizes();
    ShortSizes();
  }

  lemma ShortSizes()
    ensures CalcSize([B, B, Q]) == 10 && CalcSize([B, B, Q, B, B]) == 12
  {
    hide CalcSize;
    EdkFormatSizes();
    SizeCons(B, []);
    SizeCons(B, [B]);
    SizeCons(Q, [B, B]);
    SizeCons(B, [Q, B, B]);
    SizeCons(B, [B, Q, B, B]);
    SizeCons(B, [Q]);
    SizeCons(B, [B, Q]);
    assert [B] + [] == [B] && [B] + [B] == [B, B] && [Q] + [B, B] == [Q, B, B] && [B] + [Q] == [B, Q];
    assert [B] + [Q, B, B] == [B, Q, B, B] && [B] + [B, Q, B, B] == [B, B, Q, B, B] && [B] + [B, Q] == [B, B, Q];
    assert CalcSize([]) == 0 by { NoFields(); }
  }

  lemma NoFields()
    ensures CalcSize([]) == 0
  {
  }

  // ---------------------------------------------------------------- default format, encoding

  /** Write operations: the fields with four zero bytes of alignment, then the data. None stands for struct.error. */
  lemma EncodesWrite(op: Op)
    requires op.IoPciMem? && Constructed(op) && op.count.Some? && op.buffer.Some?
    ensures op.opcode == 0x00 ==>
              EncodeDefault(op)
                == if op.width < 0x100 && op.address < Pow256(2) && op.count.value < Pow256(8)
                   then Some([0x00, op.width] + Le(op.address, 2) + [0, 0, 0, 0] + Le(op.count.value, 8)
                             + op.buffer.value)
                   else None
    ensures op.opcode in {0x02, 0x04} && op.unknown.Some? ==>
              EncodeDefault(op)
                == if op.width < 0x100 && op.unknown.value < Pow256(2) && op.address < Pow256(8)
                      && op.count.value < Pow256(8)
                   then Some([op.opcode, op.width] + Le(op.unknown.value, 2) + [0, 0, 0, 0] + Le(op.address, 8)
                             + Le(op.count.value, 8) + op.buffer.value)
                   else None
  {
    hide Pack, Le, Pow256, WriteData, Constructed, NewIoPciMem;
    WritesBuffer(op);
    FourZeros();
    if op.opcode == 0x00 {
      Head16(op.opcode, op.width, op.address, 0, op.count.value);
    } else if op.opcode in {0x02, 0x04} && op.unknown.Some? {
      Head16(op.opcode, op.width, op.unknown.value, 0, op.address);
      Head24(op.opcode, op.width, op.unknown.value, 0, op.address, op.count.value);
    }
  }

  lemma WritesBuffer(op: Op)
    requires op.IoPciMem? && Constructed(op) && op.buffer.Some?
    ensures WriteData(op) == op.buffer
  {
    hide NewIoPciMem, WriteData;
    WriteDataIsBuffer(op);
  }

  lemma FourZeros()
    ensures Pow256(4) > 0 && Le(0, 4) == [0, 0, 0, 0]
  {
    LeOne(0);
    assert Le(0, 2) == [0] + Le(0, 1);
    assert Le(0, 3) == [0] + Le(0, 2);
    assert Le(0, 4) == [0] + Le(0, 3);
  }

  /** Read-write operations: value and mask behind the address. */
  lemma EncodesReadWrite(op: Op)
    requires op.IoPciMem? && op.value.Some? && op.mask.Some?
    ensures op.opcode == 0x01 ==>
              EncodeDefault(op)
                == if op.width < 0x100 && op.address < Pow256(2) && op.value.value < Pow256(8)
                      && op.mask.value < Pow256(8)
                   then Some([0x01, op.width] + Le(op.address, 2) + [0, 0, 0, 0] + Le(op.value.value, 8)
                             + Le(op.mask.value, 8))
                   else None
    ensures op.opcode == 0x03 && op.unknown.Some? ==>
              EncodeDefault(op)
                == if op.width < 0x100 && op.unknown.value < Pow256(2) && op.address < Pow256(8)
                      && op.value.value < Pow256(8) && op.mask.value < Pow256(8)
                   then Some([0x03, op.width] + Le(op.unknown.value, 2) + [0, 0, 0, 0] + Le(op.address, 8)
                             + Le(op.value.value, 8) + Le(op.mask.value, 8))
                   else None
  {
    hide Pack, Le, Pow256, WriteData;
    FourZeros();
    if op.opcode == 0x01 {
      Head16(op.opcode, op.width, op.address, 0, op.value.value);
      Head24(op.opcode, op.width, op.address, 0, op.value.value, op.mask.value);
    } else if op.opcode == 0x03 && op.unknown.Some? {
      Head16(op.opcode, op.width, op.unknown.value, 0, op.address);
      Head24(op.opcode, op.width, op.unknown.value, 0, op.address, op.value.value);
      Head32(op.opcode, op.width, op.unknown.value, 0, op.address, op.value.value, op.mask.value);
    }
  }

  /** A dispatch; and the operations the default encoder gives no bytes at all. */
  lemma EncodesOthers(op: Op)
    ensures op.DispatchOp? && op.opcode == 0x08 ==>
              EncodeDefault(op)
                == if op.entrypoint < Pow256(8) then Some([0x08, 0, 0, 0, 0, 0, 0, 0] + Le(op.entrypoint, 8)) else None
    ensures op.opcode in {0x05, 0x06, 0x07} || op.opcode > 0x09 ==> EncodeDefault(op) == Some([])
  {
    hide Pack, Le, Pow256, WriteData;
    if op.DispatchOp? && op.opcode == 0x08 {
      Head16(op.opcode, 0, 0, 0, op.entrypoint);
      FourZeros();
      ZeroWord();
      if op.entrypoint < Pow256(8) {
        assert [0x08, 0] + [0, 0] + [0, 0, 0, 0] + Le(op.entrypoint, 8)
            == [0x08, 0, 0, 0, 0, 0, 0, 0] + Le(op.entrypoint, 8);
      }
    }
  }

  lemma ZeroWord()
    ensures Pow256(2) > 0 && Le(0, 2) == [0, 0]
  {
    LeOne(0);
    assert Le(0, 2) == [0] + Le(0, 1);
  }

  // ---------------------------------------------------------------- EDK-compatible format

  /** Writes (0x00, 0x02, 0x04): 32-bit width and count, a 64-bit address and the data. */
  lemma EdkWrites(op: nat, size: nat, w: nat, count: nat, address: nat, data: Data)
    requires op in {0x00, 0x02, 0x04}
    requires w < Pow256(4) && count < Pow256(4) && address < Pow256(8)
    ensures DecodeEdkBody(op, size, Le(w, 4) + Le(count, 4) + Le(address, 8) + data)
         == Made(NewIoPciMem(op, size, w, address, None, Some(count), Some(data), None, None))
  {
    hide Pack, Fields, CalcSize, NewIoPciMem, Slice, Le, Pow256;
    EdkFormatSizes();
    PackedWrite(w, count, address);
    FieldsOfPack(FMT_EDK_WRITE, [w, count, address], data);
  }

  lemma PackedWrite(w: nat, count: nat, address: nat)
    ensures Pack(FMT_EDK_WRITE, [w, count, address])
         == if w < Pow256(4) && count < Pow256(4) && address < Pow256(8)
            then Some(Le(w, 4) + Le(count, 4) + Le(address, 8)) else None
  {
    hide Pack, Le, Pow256;
    PackOne(4, w);
    PackOne(4, count);
    PackOne(8, address);
    PackConcat([I], [I], [w], [count]);
    PackConcat([I, I], [Q], [w, count], [address]);
    assert [I] + [I] == [I, I] && [I, I] + [Q] == FMT_EDK_WRITE;
    assert [w] + [count] == [w, count] && [w, count] + [address] == [w, count, address];
  }

  lemma PackedAddress(w: nat, address: nat)
    ensures Pack(FMT_EDK_RW, [w, address])
         == if w < Pow256(4) && address < Pow256(8) then Some(Le(w, 4) + Le(address, 8)) else None
  {
    hide Pack, Le, Pow256;
    PackOne(4, w);
    PackOne(8, address);
    PackConcat([I], [Q], [w], [address]);
    assert [I] + [Q] == FMT_EDK_RW && [w] + [address] == [w, address];
  }

  lemma PackedPair(n: nat, value: nat, mask: nat)
    ensures Pack([n, n], [value, mask])
         == if value < Pow256(n) && mask < Pow256(n) then Some(Le(value, n) + Le(mask, n)) else None
  {
    hide Pack, Le, Pow256;
    PackOne(n, value);
    PackOne(n, mask);
    PackConcat([n], [n], [value], [mask]);
    assert [n] + [n] == [n, n] && [value] + [mask] == [value, mask];
  }

  lemma PackedPoll(w: nat, address: nat, duration: nat, looptimes: nat)
    ensures Pack(FMT_EDK_POLL, [w, address, duration, looptimes])
         == Join(Pack(FMT_EDK_RW, [w, address]), Pack([Q, Q], [duration, looptimes]))
  {
    hide Pack;
    PackConcat(FMT_EDK_RW, [Q, Q], [w, address], [duration, looptimes]);
    assert FMT_EDK_RW + [Q, Q] == FMT_EDK_POLL;
    assert [w, address] + [duration, looptimes] == [w, address, duration, looptimes];
  }

  /** Read-writes (0x01, 0x03, 0x05): 32-bit width, 64-bit address, value and mask of the width's size. */
  lemma EdkReadWrites(op: nat, size: nat, w: nat, address: nat, value: nat, mask: nat, rest: Data)
    requires op in {0x01, 0x03, 0x05} && w <= 3 && address < Pow256(8)
    requires var n := [1, 2, 4, 8][w]; value < Pow256(n) && mask < Pow256(n)
    ensures var n := [1, 2, 4, 8][w];
            DecodeEdkBody(op, size, Le(w, 4) + Le(address, 8) + (Le(value, n) + Le(mask, n) + rest))
            == Made(NewIoPciMem(op, size, w, address, None, None, None, Some(value), Some(mask)))
  {
    hide Pack, Fields, CalcSize, NewIoPciMem, Slice, Le, Pow256;
    EdkFormatSizes();
    Pow256Values();
    var n := [1, 2, 4, 8][w];
    PackedAddress(w, address);
    PackedPair(n, value, mask);
    FieldsOfPack(FMT_EDK_RW, [w, address], Le(value, n) + Le(mask, n) + rest);
    FieldsOfPack([n, n], [value, mask], rest);
  }

  /** Any other width is no key of script_width_formats. */
  lemma EdkWidthUnknown(op: nat, size: nat, w: nat, address: nat, rest: Data)
    requires op in {0x01, 0x03, 0x05} && 3 < w < Pow256(4) && address < Pow256(8)
    ensures DecodeEdkBody(op, size, Le(w, 4) + Le(address, 8) + rest) == Raised
  {
    hide Pack, Fields, CalcSize, NewIoPciMem, Slice, Le, Pow256;
    EdkFormatSizes();
    PackedAddress(w, address);
    FieldsOfPack(FMT_EDK_RW, [w, address], rest);
  }

  /** STALL (0x07), DISPATCH (0x08) and MEM_POLL (0x09). */
  lemma EdkWords(size: nat, w: nat, x: nat, y: nat, z: nat, rest: Data)
    requires w < Pow256(4) && x < Pow256(8) && y < Pow256(8) && z < Pow256(8)
    ensures DecodeEdkBody(0x07, size, Le(x, 8) + rest) == Decoded(Some(StallOp(0x07, size, x)))
    ensures DecodeEdkBody(0x08, size, Le(x, 8) + rest) == Decoded(Some(DispatchOp(0x08, size, x)))
    ensures DecodeEdkBody(0x09, size, Le(w, 4) + Le(x, 8) + (Le(y, 8) + Le(z, 8)) + rest)
         == Decoded(Some(MemPoll(0x09, size, w, x, y, z)))
  {
    hide Pack, Fields, CalcSize, NewIoPciMem, Slice, Le, Pow256;
    EdkFormatSizes();
    PackOne(8, x);
    FieldsOfPack([Q], [x], rest);
    PackedAddress(w, x);
    PackedPair(8, y, z);
    PackedPoll(w, x, y, z);
    FieldsOfPack(FMT_EDK_POLL, [w, x, y, z], rest);
  }

  /** SMBUS_EXECUTE (0x06) decodes to nothing; the rest needs no fields; and codes whose fields are cut off raise. */
  lemma EdkOthers(op: nat, size: nat, body: Data)
    ensures DecodeEdkBody(0x06, size, body) == Decoded(None)
    ensures DecodeEdkBody(0xFF, size, body) == Decoded(Some(TerminateOp(0xFF, size)))
    ensures op > 0x09 && op != 0xFF ==> DecodeEdkBody(op, size, body) == Decoded(Some(UnknownOp(op, size)))
    ensures op <= 0x09 && |body| < [16, 12, 16, 12, 16, 12, 0, 8, 8, 28][op] ==> DecodeEdkBody(op, size, body) == Raised
  {
    hide Unpack, CalcSize, NewIoPciMem, Slice;
    EdkFormatSizes();
  }

  /** The bytes behind the header of an EDK-compatible entry. */
  lemma EdkEncodes(op: Op)
    requires Constructed(op)
    ensures op.IoPciMem? && op.opcode in {0x00, 0x02, 0x04} && op.count.Some? && op.buffer.Some? ==>
              EncodeEdk(op)
                == if op.width < Pow256(4) && op.count.value < Pow256(4) && op.address < Pow256(8)
                   then Some(Le(op.width, 4) + Le(op.count.value, 4) + Le(op.address, 8) + op.buffer.value) else None
    ensures op.IoPciMem? && op.opcode in {0x01, 0x03, 0x05} && op.value.Some? && op.mask.Some? ==>
              EncodeEdk(op) == EdkReadWriteBytes(op.width, op.address, op.value.value, op.mask.value)
    ensures op.opcode == 0x08 && op.DispatchOp? ==>
              EncodeEdk(op) == if op.entrypoint < Pow256(8) then Some(Le(op.entrypoint, 8)) else None
    ensures op.opcode in {0x06, 0x07} || op.opcode > 0x09 ==> EncodeEdk(op) == Some([])
  {
    hide Pack, Le, Pow256, WriteData, Constructed, NewIoPciMem;
    if op.IoPciMem? && op.opcode in {0x00, 0x02, 0x04} && op.count.Some? && op.buffer.Some? {
      WritesBuffer(op);
      PackedWrite(op.width, op.count.value, op.address);
    } else if op.IoPciMem? && op.opcode in {0x01, 0x03, 0x05} && op.value.Some? && op.mask.Some? {
      WidthFits(op.width);
      PackedAddress(op.width, op.address);
      if op.width <= 3 {
        PackedPair(WidthSize(op.width), op.value.value, op.mask.value);
      }
    } else if op.DispatchOp? {
      PackOne(8, op.entrypoint);
    }
  }

  lemma WidthFits(w: nat)
    ensures w <= 3 ==> w < Pow256(4)
  {
    Pow256Values();
  }

  ghost function EdkReadWriteBytes(w: nat, address: nat, value: nat, mask: nat): Option<Data> {
    if w > 3 then None
    else
      var n := [1, 2, 4, 8][w];
      WidthFits(w);
      if address < Pow256(8) && value < Pow256(n) && mask < Pow256(n) then
        Some(Le(w, 4) + Le(address, 8) + (Le(value, n) + Le(mask, n)))
      else None
  }

  // ---------------------------------------------------------------- entries

  /** The bytes of a created entry: its header, whose length counts the header too, and the operation. */
  lemma EdkCreated(op: Op, index: Option<nat>)
    ensures CreateEntry(EdkCompat, op, index)
         == match EncodeEdk(op)
            case None => None
            case Some(body) =>
              if op.opcode < Pow256(2) && 3 + |body| < 0x100
              then Some(Le(op.opcode, 2) + [3 + |body|] + body) else None
  {
    hide Pack, Le, Pow256, EncodeEdk, EncodeDefault;
    if EncodeEdk(op).Some? {
      PackedHeader(op.opcode, 3 + |EncodeEdk(op).value|);
    }
  }

  lemma PackedHeader(opcode: nat, length: nat)
    ensures Pack([H, B], [opcode, length])
         == if opcode < Pow256(2) && length < 0x100 then Some(Le(opcode, 2) + [length]) else None
  {
    hide Pack, Le;
    Pow256Values();
    PackOne(2, opcode);
    PackOne(1, length);
    PackConcat([H], [B], [opcode], [length]);
    assert [H] + [B] == [H, B] && [opcode] + [length] == [opcode, length];
    if length < 0x100 {
      LeOne(length);
    }
  }

  lemma DefaultCreated(op: Op, index: nat)
    ensures CreateEntry(Default, op, Some(index))
         == match EncodeDefault(op)
            case None => None
            case Some(body) =>
              if index < Pow256(4) && 8 + |body| < Pow256(4)
              then Some(Le(index, 4) + Le(8 + |body|, 4) + body) else None
    ensures CreateEntry(Default, op, None) == None
  {
    hide Pack, Le, Pow256, EncodeEdk, EncodeDefault;
    if EncodeDefault(op).Some? {
      PackedPair(4, index, 8 + |EncodeDefault(op).value|);
    }
  }
}
