/** Boot-script entries and the streaming parser: parse_s3bootscript_entry and parse_script. */
module S3Script {
  import opened Bytes
  import opened Options
  import opened Structs
  import opened S3Codec

  const MAX_ENTRY_LENGTH: nat := 0x200
  const EDK_HEADER_LENGTH: nat := 13 // calcsize("<HBHLHH")
  const TABLE_OPCODE := 0xAA

  datatype ScriptType = Default | EdkCompat

  datatype Entry = Entry(scriptType: ScriptType, index: Option<int>, offset: nat, length: nat, data: Data,
                         op: Option<Op>, headerLength: nat)

  /** An entry with its opcode, the end of what can be parsed, or an exception. */
  datatype Parsed = Parsed(opcode: nat, entry: Entry) | Stop | Fails

  function DecodeAs(t: ScriptType, data: Data): Decoded {
    if t.EdkCompat? then DecodeEdk(data) else DecodeDefault(data)
  }

  function EncodeAs(t: ScriptType, op: Op): Option<Data> {
    if t.EdkCompat? then EncodeEdk(op) else EncodeDefault(op)
  }

  function Finished(t: ScriptType, opcode: nat, index: Option<int>, off: nat, length: nat, data: Data,
                    headerLength: nat): Parsed {
    if length > MAX_ENTRY_LENGTH then Stop
    else
      match DecodeAs(t, data)
      case Raised => Fails
      case Decoded(op) => Parsed(opcode, Entry(t, index, off, length, data, op, headerLength))
  }

  /** parse_s3bootscript_entry */
  function ParseEntry(t: ScriptType, script: Data, off: nat): Parsed {
    var rest := Slice(script, off, |script|);
    if t.EdkCompat? then
      if |rest| < 3 then Stop
      else
        var opcode := Field(rest, 0, 2);
        var length := if opcode == TERMINATE then 3 else rest[2];
        Finished(t, opcode, None, off, length, Slice(script, off, off + length), 0)
    else
      if |rest| < 9 then Stop
      else
        var opcode := rest[8];
        var length := if opcode == TERMINATE then 9 else Field(rest, 4, 4);
        var index := if opcode == TERMINATE then -1 else Field(rest, 0, 4);
        Finished(t, opcode, Some(index), off, length, Slice(script, off + 8, off + length), 8)
  }

  /** id_s3bootscript_type, for a non-empty script. */
  function Identify(script: Data): (ScriptType, nat)
    requires script != []
  {
    if script[0] == TABLE_OPCODE then (EdkCompat, EDK_HEADER_LENGTH) else (Default, 0)
  }

  function MinLength(t: ScriptType): nat {
    if t.EdkCompat? then 3 else 9
  }

  /** Every entry that decodes has a length between its format's minimum and 0x200. */
  lemma EntryLength(t: ScriptType, script: Data, off: nat)
    ensures var p := ParseEntry(t, script, off);
            p.Parsed? ==> p.entry.offset == off && p.entry.scriptType == t
                          && MinLength(t) <= p.entry.length <= MAX_ENTRY_LENGTH && off < |script|
  {
    hide DecodeEdkBody, Unpack, NewIoPciMem, FromLe;
    EdkFormatSizes();
  }

  /** The entries the parser returns from offset off; None when it raises. */
  ghost function ParseFrom(t: ScriptType, script: Data, off: nat): Option<seq<Entry>>
    decreases |script| - off
  {
    if off >= |script| then Some([])
    else
      match ParseEntry(t, script, off)
      case Stop => Some([])
      case Fails => None
      case Parsed(opcode, entry) =>
        EntryLength(t, script, off);
        if opcode == TERMINATE then Some([entry])
        else
          match ParseFrom(t, script, off + entry.length)
          case None => None
          case Some(rest) => Some([entry] + rest)
  }

  /** Entries lie one after the other from off, each is what the script holds there, and only the
      last may be a terminate entry. */
  ghost predicate Contiguous(t: ScriptType, script: Data, off: nat, entries: seq<Entry>)
    decreases |entries|
  {
    entries != [] ==>
      var p := ParseEntry(t, script, off);
      && p.Parsed? && entries[0] == p.entry
      && MinLength(t) <= p.entry.length <= MAX_ENTRY_LENGTH && p.entry.offset == off
      && (p.opcode == TERMINATE ==> |entries| == 1)
      && Contiguous(t, script, off + p.entry.length, entries[1..])
  }

  lemma {:induction false} ParsedContiguous(t: ScriptType, script: Data, off: nat)
    ensures ParseFrom(t, script, off).Some? ==> Contiguous(t, script, off, ParseFrom(t, script, off).value)
    decreases |script| - off
  {
    hide ParseEntry;
    if off < |script| && ParseEntry(t, script, off).Parsed? {
      EntryLength(t, script, off);
      var p := ParseEntry(t, script, off);
      if p.opcode != TERMINATE {
        ParsedContiguous(t, script, off + p.entry.length);
      }
    }
  }

  /** What parse_script returns for a non-empty script. */
  ghost function ParseAll(script: Data): Option<seq<Entry>>
    requires script != []
  {
    ParseFrom(Identify(script).0, script, Identify(script).1)
  }

  /** parse_script; None stands for an exception, which the empty script causes at once. */
  method ParseScript(script: Data) returns (r: Option<seq<Entry>>)
    ensures script == [] ==> r.None?
    ensures script != [] ==> r == ParseAll(script)
    ensures script != [] && r.Some? ==> Contiguous(Identify(script).0, script, Identify(script).1, r.value)
  {
    hide ParseEntry, Contiguous;
    if script == [] {
      return None;
    }
    var (t, off) := Identify(script);
    ghost var start := off;
    ParsedContiguous(t, script, start);
    var entryType := 0;
    var entries: seq<Entry> := [];
    assert ParseFrom(t, script, off).Some?
      ==> entries + ParseFrom(t, script, off).value == ParseFrom(t, script, off).value;
    while off < |script| && entryType != TERMINATE
      invariant entryType == TERMINATE ==> ParseFrom(t, script, start) == Some(entries)
      invariant entryType != TERMINATE ==>
                  var rest := ParseFrom(t, script, off);
                  if rest.None? then ParseFrom(t, script, start).None?
                  else ParseFrom(t, script, start) == Some(entries + rest.value)
      decreases |script| - off, if entryType == TERMINATE then 0 else 1
    {
      var p := ParseEntry(t, script, off);
      EntryLength(t, script, off);
      if p.Fails? {
        return None;
      }
      if p.Stop? {
        assert entries + [] == entries;
        return Some(entries);
      }
      ghost var rest := ParseFrom(t, script, off + p.entry.length);
      if p.opcode != TERMINATE && rest.Some? {
        assert entries + ([p.entry] + rest.value) == entries + [p.entry] + rest.value;
      }
      entries := entries + [p.entry];
      off := off + p.entry.length;
      entryType := p.opcode;
    }
    assert entries + [] == entries;
    r := Some(entries);
  }

  // ---------------------------------------------------------------- parse undoes create

  /** create_s3bootscript_entry_buffer; None is an exception. */
  function CreateEntry(t: ScriptType, op: Op, index: Option<nat>): Option<Data> {
    match EncodeAs(t, op)
    case None => None
    case Some(body) =>
      if t.EdkCompat? then Join(Pack([H, B], [op.opcode, 3 + |body|]), Some(body))
      else if index.None? then None
      else Join(Pack([I, I], [index.value, 8 + |body|]), Some(body))
  }

  predicate Encodable(t: ScriptType, op: Op) {
    if t.EdkCompat? then EdkOp(op) else DefaultOp(op)
  }

  /** The entry an operation becomes at a given offset. */
  ghost function EntryOf(t: ScriptType, op: Op, index: Option<nat>, off: nat, buf: Data): Entry {
    if t.EdkCompat? then Entry(t, None, off, |buf|, buf, Some(op), 0)
    else Entry(t, if index.None? then None else Some(index.value), off, |buf|, Slice(buf, 8, |buf|), Some(op), 8)
  }

  /** Parsing a created entry, wherever it stands in a script, gives the operation back. */
  lemma EntryRoundTrip(t: ScriptType, op: Op, index: Option<nat>, pre: Data, post: Data)
    requires Encodable(t, op) && CreateEntry(t, op, index).Some?
             && |CreateEntry(t, op, index).value| <= MAX_ENTRY_LENGTH
    ensures var buf := CreateEntry(t, op, index).value;
            ParseEntry(t, pre + buf + post, |pre|) == Parsed(op.opcode, EntryOf(t, op, index, |pre|, buf))
  {
    hide EncodeEdk, EncodeDefault, DecodeEdk, DecodeDefault, Pack, FromLe, EdkOp, DefaultOp, EntryOf;
    var buf := CreateEntry(t, op, index).value;
    var script := pre + buf + post;
    assert Slice(script, |pre|, |script|) == buf + post;
    if t.EdkCompat? {
      EdkEntry(op, index, script, pre, buf, post);
    } else {
      DefaultEntry(op, index, script, pre, buf, post);
    }
  }

  lemma EdkEntry(op: Op, index: Option<nat>, script: Data, pre: Data, buf: Data, post: Data)
    requires EdkOp(op) && CreateEntry(EdkCompat, op, index) == Some(buf) && |buf| <= MAX_ENTRY_LENGTH
    requires script == pre + buf + post
    ensures ParseEntry(EdkCompat, script, |pre|) == Parsed(op.opcode, EntryOf(EdkCompat, op, index, |pre|, buf))
  {
    hide EncodeEdk, DecodeEdkBody, Pack, Unpack, FromLe, EdkOp;
    EdkOpSize(op);
    EdkFormatSizes();
    EdkBodyRoundTrip(op);
    var body := EncodeEdk(op).value;
    var hdr := Pack([H, B], [op.opcode, op.size]).value;
    FieldsOfPack([H, B], [op.opcode, op.size], body);
    HeaderBytes(hdr, op.opcode, op.size, body);
    assert buf == hdr + body;
    assert Slice(script, |pre|, |script|) == buf + post;
    assert (buf + post)[0..2] == buf[0..2];
    assert Slice(script, |pre|, |pre| + |buf|) == buf;
    assert op.opcode == TERMINATE ==> |buf| == 3;
  }

  lemma EdkOpSize(op: Op)
    requires EdkOp(op)
    ensures EncodeEdk(op).Some? && op.size == 3 + |EncodeEdk(op).value|
    ensures op.opcode == TERMINATE ==> op.size == 3
  {
  }

  lemma HeaderBytes(hdr: Data, opcode: nat, size: nat, body: Data)
    requires Pack([H, B], [opcode, size]) == Some(hdr)
    ensures |hdr| == 3 && FromLe((hdr + body)[0..2]) == opcode && (hdr + body)[2] == size
  {
    EdkFormatSizes();
    var rest := Pack([H, B][1..], [opcode, size][1..]).value;
    assert hdr == Le(opcode, 2) + rest;
    assert [H, B][1..] == [B] && [opcode, size][1..] == [size];
    assert rest == Le(size, 1) + [];
    assert (hdr + body)[0..2] == Le(opcode, 2);
    assert Le(size, 1)[0] == size;
  }

  lemma DefaultEntry(op: Op, index: Option<nat>, script: Data, pre: Data, buf: Data, post: Data)
    requires DefaultOp(op) && CreateEntry(Default, op, index) == Some(buf) && |buf| <= MAX_ENTRY_LENGTH
    requires script == pre + buf + post
    ensures ParseEntry(Default, script, |pre|) == Parsed(op.opcode, EntryOf(Default, op, index, |pre|, buf))
  {
    hide EncodeDefault, DecodeDefault, Pack, Unpack, FromLe, DefaultOp;
    DefaultRoundTrip(op);
    DefaultOpcode(op);
    var body := EncodeDefault(op).value;
    var hdr := Pack([I, I], [index.value, 8 + |body|]).value;
    TwoWords(hdr, index.value, 8 + |body|);
    assert buf == hdr + body;
    var rest := buf + post;
    assert Slice(script, |pre|, |script|) == rest;
    BehindHeader(pre, hdr, body, post);
  }

  lemma BehindHeader(pre: Data, hdr: Data, body: Data, post: Data)
    requires |hdr| == 8 && body != []
    ensures var rest, script := hdr + body + post, pre + (hdr + body) + post;
            && rest[0..4] == hdr[0..4] && rest[4..8] == hdr[4..8] && rest[8] == body[0]
            && Slice(script, |pre| + 8, |pre| + |hdr + body|) == body
            && Slice(hdr + body, 8, |hdr + body|) == body
  {
  }

  lemma DefaultOpcode(op: Op)
    requires DefaultOp(op)
    ensures op.opcode != TERMINATE
  {
  }

  lemma TwoWords(hdr: Data, a: nat, b: nat)
    requires Pack([I, I], [a, b]) == Some(hdr)
    ensures |hdr| == 8 && FromLe(hdr[0..4]) == a && FromLe(hdr[4..8]) == b
  {
    SizeCons(I, []);
    SizeCons(I, [I]);
    assert [I, I][1..] == [I] && [a, b][1..] == [b];
    var rest := Pack([I], [b]).value;
    assert hdr == Le(a, 4) + rest;
    assert [I][1..] == [] && [b][1..] == [];
    assert rest == Le(b, 4) + [];
    assert hdr[0..4] == Le(a, 4) && hdr[4..8] == Le(b, 4);
  }

  // ---------------------------------------------------------------- entries as they lie in a script

  lemma EntryPieces(pre: Data, head: Data, body: Data, post: Data)
    ensures var script := pre + (head + body) + post;
            && Slice(script, |pre|, |script|) == head + body + post
            && Slice(script, |pre| + |head|, |pre| + |head| + |body|) == body
            && Slice(script, |pre|, |pre| + |head| + |body|) == head + body
  {
  }

  lemma HeadWords(a: nat, b: nat, rest: Data)
    requires a < Pow256(4) && b < Pow256(4) && rest != []
    ensures var r := Le(a, 4) + Le(b, 4) + rest;
            |r| >= 9 && Field(r, 0, 4) == a && Field(r, 4, 4) == b && r[8] == rest[0]
  {
    hide FromLe, Pow256, Le;
    var r := Le(a, 4) + Le(b, 4) + rest;
    assert r[0..4] == Le(a, 4) && r[4..8] == Le(b, 4);
  }

  /** A default entry: a 32-bit index, a 32-bit length that counts these 8 bytes too, and the operation. Above 0x200
      bytes the parse stops; otherwise the operation decides. */
  lemma DefaultEntryRead(pre: Data, index: nat, body: Data, post: Data)
    requires index < Pow256(4) && |body| + 8 < Pow256(4) && body != [] && body[0] != 0xFF
    ensures var length := |body| + 8;
            var p := ParseEntry(Default, pre + (Le(index, 4) + Le(length, 4) + body) + post, |pre|);
            && (length > 0x200 ==> p == Stop)
            && (length <= 0x200 && DecodeDefault(body).Raised? ==> p == Fails)
            && (length <= 0x200 && DecodeDefault(body).Decoded? ==>
                  p == Parsed(body[0], Entry(Default, Some(index), |pre|, length, body, DecodeDefault(body).op, 8)))
  {
    hide FromLe, Pow256, Le, DecodeDefault, Slice;
    var length := |body| + 8;
    var head := Le(index, 4) + Le(length, 4);
    EntryPieces(pre, head, body, post);
    assert head + body + post == Le(index, 4) + Le(length, 4) + (body + post);
    HeadWords(index, length, body + post);
  }

  /** The entry that ends a default script: any 8 bytes and the opcode 0xFF. Index and length are not read. */
  lemma TerminateEntry(pre: Data, head: Data, post: Data)
    requires |head| == 8
    ensures ParseEntry(Default, pre + (head + [0xFF]) + post, |pre|)
         == Parsed(0xFF, Entry(Default, Some(-1), |pre|, 9, [0xFF], Some(TerminateOp(0xFF, 1)), 8))
  {
    hide FromLe, Pow256, Slice;
    EntryPieces(pre, head, [0xFF], post);
    assert (head + [0xFF] + post)[8] == 0xFF;
  }

  /** An EDK-compatible entry: a 16-bit opcode, an 8-bit length that counts these 3 bytes too, and the operation. */
  lemma EdkEntryRead(pre: Data, opcode: nat, body: Data, post: Data)
    requires opcode < Pow256(2) && |body| + 3 < 0x100 && opcode != 0xFF
    ensures var length := |body| + 3;
            var buf := Le(opcode, 2) + [length] + body;
            var p, d := ParseEntry(EdkCompat, pre + buf + post, |pre|), DecodeEdkBody(opcode, length, body);
            && (d.Raised? ==> p == Fails)
            && (d.Decoded? ==> p == Parsed(opcode, Entry(EdkCompat, None, |pre|, length, buf, d.op, 0)))
  {
    hide FromLe, Pow256, Le, DecodeEdkBody, Slice, Fields, CalcSize;
    var length: Byte := |body| + 3;
    var head := Le(opcode, 2) + [length];
    EntryPieces(pre, head, body, post);
    EdkHeadRead(opcode, length, body + post);
    assert head + body + post == head + (body + post);
    EdkHeaderFields(opcode, length, body);
  }

  lemma EdkHeadRead(opcode: nat, length: Byte, rest: Data)
    requires opcode < Pow256(2)
    ensures var r := Le(opcode, 2) + [length] + rest; |r| >= 3 && Field(r, 0, 2) == opcode && r[2] == length
  {
    hide FromLe, Pow256, Le;
    var r := Le(opcode, 2) + [length] + rest;
    assert r[0..2] == Le(opcode, 2);
  }

  lemma EdkHeaderFields(opcode: nat, length: Byte, body: Data)
    requires opcode < Pow256(2)
    ensures var b := Le(opcode, 2) + [length] + body;
            Fields([H, B], b) == Some([opcode, length]) && Slice(b, 3, |b|) == body
  {
    hide Fields, FromLe;
    EdkFormatSizes();
    Pow256Values();
    PackCons(B, length, [], []);
    PackCons(H, opcode, [B], [length]);
    LeOne(length);
    assert [H, B] == [H] + [B] && [opcode, length] == [opcode] + [length as nat];
    FieldsOfPack([H, B], [opcode, length], body);
    var b := Le(opcode, 2) + [length] + body;
    assert Slice(b, 3, |b|) == body;
  }

  lemma LeOne(x: Byte)
    ensures Pow256(1) == 256 && Le(x, 1) == [x]
  {
    assert Le(x, 1) == [x % 256] + Le(x / 256, 0);
  }

  /** The EDK-compatible entry that ends a script is 3 bytes long whatever its length byte says. */
  lemma EdkTerminateEntry(pre: Data, length: Byte, post: Data)
    ensures ParseEntry(EdkCompat, pre + ([0xFF, 0x00] + [length]) + post, |pre|)
         == Parsed(0xFF, Entry(EdkCompat, None, |pre|, 3, [0xFF, 0x00, length], Some(TerminateOp(0xFF, length)), 0))
  {
    hide FromLe, Slice, Fields, CalcSize;
    Pow256Values();
    TwoBytesFF();
    EntryPieces(pre, [0xFF, 0x00], [length], post);
    assert [0xFF, 0x00] + [length] == Le(0xFF, 2) + [length] + [];
    EdkHeadRead(0xFF, length, post);
    assert [0xFF, 0x00] + [length] + post == Le(0xFF, 2) + [length] + post;
    EdkHeaderFields(0xFF, length, []);
  }

  lemma TwoBytesFF()
    ensures Pow256(2) == 0x1_0000 && Le(0xFF, 2) == [0xFF, 0x00]
  {
    assert Le(0xFF, 2) == [0xFF] + Le(0, 1);
    LeOne(0);
  }

  /** With too few bytes left the parse stops. */
  lemma TooShort(t: ScriptType, script: Data, off: nat)
    requires off <= |script| && |script| - off < if t.EdkCompat? then 3 else 9
    ensures ParseEntry(t, script, off) == Stop
  {
  }

  /** A script whose first byte is 0xAA starts with a 13-byte table header and holds EDK-compatible entries. */
  lemma IdentifyMeaning(script: Data)
    requires script != []
    ensures Identify(script) == if script[0] == 0xAA then (EdkCompat, 13) else (Default, 0)
  {
  }

  // ---------------------------------------------------------------- scripts

  /** What a script holds: an operation with the index its entry carries, or the 9-byte entry that ends a default
      script. */
  datatype Item = Item(op: Op, index: Option<nat>) | Terminator(head: Data)

  ghost function Written(t: ScriptType, item: Item): Option<Data> {
    match item
    case Item(op, index) => if Encodable(t, op) then CreateEntry(t, op, index) else None
    case Terminator(head) => if t.Default? && |head| == 8 then Some(head + [0xFF]) else None
  }

  ghost predicate Ends(item: Item) {
    item.Terminator? || item.op.opcode == TERMINATE
  }

  ghost function EntryFor(t: ScriptType, item: Item, off: nat, buf: Data): Entry {
    match item
    case Item(op, index) => EntryOf(t, op, index, off, buf)
    case Terminator(_) => Entry(Default, Some(-1), off, 9, [0xFF], Some(TerminateOp(0xFF, 1)), 8)
  }

  /** Every item can be written within the length limit, and only the last may terminate. */
  ghost predicate Writable(t: ScriptType, items: seq<Item>) {
    items != [] ==>
      var buf := Written(t, items[0]);
      && buf.Some? && |buf.value| <= MAX_ENTRY_LENGTH
      && (Ends(items[0]) ==> |items| == 1)
      && Writable(t, items[1..])
  }

  ghost function Script(t: ScriptType, items: seq<Item>): Data
    requires Writable(t, items)
  {
    if items == [] then [] else Written(t, items[0]).value + Script(t, items[1..])
  }

  /** The entries of a script: the items in order, at prefix-sum offsets. */
  ghost function EntriesOf(t: ScriptType, items: seq<Item>, off: nat): seq<Entry>
    requires Writable(t, items)
  {
    if items == [] then []
    else
      var buf := Written(t, items[0]).value;
      [EntryFor(t, items[0], off, buf)] + EntriesOf(t, items[1..], off + |buf|)
  }

  lemma ItemRoundTrip(t: ScriptType, item: Item, pre: Data, post: Data)
    requires Written(t, item).Some? && |Written(t, item).value| <= MAX_ENTRY_LENGTH
    ensures var buf := Written(t, item).value;
            var p := ParseEntry(t, pre + buf + post, |pre|);
            && p.Parsed? && p.entry == EntryFor(t, item, |pre|, buf) && p.entry.length == |buf|
            && (p.opcode == TERMINATE <==> Ends(item))
  {
    hide ParseEntry, CreateEntry, Encodable, EntryOf;
    match item
    case Item(op, index) =>
      EntryRoundTrip(t, op, index, pre, post);
      EntryOfLength(t, op, index, |pre|, CreateEntry(t, op, index).value);
    case Terminator(head) => TerminateEntry(pre, head, post);
  }

  /** Whatever follows the entry that ends a script is not read. */
  ghost predicate Ended(items: seq<Item>) {
    items != [] && Ends(items[|items| - 1])
  }

  lemma {:induction false} ScriptFrom(t: ScriptType, items: seq<Item>, pre: Data, post: Data)
    requires Writable(t, items) && (post == [] || Ended(items))
    ensures ParseFrom(t, pre + Script(t, items) + post, |pre|) == Some(EntriesOf(t, items, |pre|))
    decreases |items|
  {
    hide ParseFrom, ParseEntry, Written, EntryFor, Ends, Ended, Writable, Script, EntriesOf;
    var script := pre + Script(t, items) + post;
    if items == [] {
      NoItems(t, pre, post);
      NothingLeft(t, script, |pre|);
    } else {
      FirstItem(t, items, |pre|);
      var buf := Written(t, items[0]).value;
      var rest := Script(t, items[1..]);
      Regroup(pre, buf, rest, post);
      ItemRoundTrip(t, items[0], pre, rest + post);
      ParseOne(t, script, |pre|);
      if !Ends(items[0]) {
        EndedRest(items, post);
        ScriptFrom(t, items[1..], pre + buf, post);
      }
    }
  }

  lemma NoItems(t: ScriptType, pre: Data, post: Data)
    requires post == [] || Ended([])
    ensures Script(t, []) == [] && EntriesOf(t, [], |pre|) == [] && pre + [] + post == pre
  {
  }

  lemma FirstItem(t: ScriptType, items: seq<Item>, off: nat)
    requires Writable(t, items) && items != []
    ensures Written(t, items[0]).Some? && |Written(t, items[0]).value| <= MAX_ENTRY_LENGTH
    ensures Writable(t, items[1..])
    ensures var buf := Written(t, items[0]).value;
            var first := EntryFor(t, items[0], off, buf);
            && Script(t, items) == buf + Script(t, items[1..])
            && EntriesOf(t, items, off) == [first] + EntriesOf(t, items[1..], off + |buf|)
            && (Ends(items[0]) ==> EntriesOf(t, items, off) == [first])
  {
    hide Written, EntryFor, Ends;
  }

  lemma Regroup(pre: Data, buf: Data, rest: Data, post: Data)
    ensures pre + (buf + rest) + post == pre + buf + (rest + post) == (pre + buf) + rest + post
  {
  }

  lemma EndedRest(items: seq<Item>, post: Data)
    requires items != [] && !Ends(items[0]) && (post == [] || Ended(items))
    ensures post == [] || Ended(items[1..])
  {
  }

  /** One step of the parser. */
  lemma ParseOne(t: ScriptType, script: Data, off: nat)
    requires ParseEntry(t, script, off).Parsed?
    ensures var p := ParseEntry(t, script, off);
            && off + p.entry.length >= off
            && (p.opcode == TERMINATE ==> ParseFrom(t, script, off) == Some([p.entry]))
            && (p.opcode != TERMINATE && ParseFrom(t, script, off + p.entry.length).Some? ==>
                  ParseFrom(t, script, off)
                    == Some([p.entry] + ParseFrom(t, script, off + p.entry.length).value))
  {
    hide ParseEntry;
    EntryLength(t, script, off);
  }

  lemma NothingLeft(t: ScriptType, script: Data, off: nat)
    requires off >= |script|
    ensures ParseFrom(t, script, off) == Some([])
  {
  }

  lemma EntryOfLength(t: ScriptType, op: Op, index: Option<nat>, off: nat, buf: Data)
    ensures EntryOf(t, op, index, off, buf).length == |buf|
  {
  }

  /** EDK-compatible scripts: after any 13-byte table header, parsing gives back exactly the operations written, and
      nothing of what follows a terminate entry. */
  lemma EdkScriptRoundTrip(header: Data, items: seq<Item>, post: Data)
    requires |header| == 13 && header[0] == 0xAA && Writable(EdkCompat, items) && (post == [] || Ended(items))
    ensures ParseAll(header + Script(EdkCompat, items) + post) == Some(EntriesOf(EdkCompat, items, 13))
  {
    hide ParseFrom, Written, EntriesOf, Script, Ended;
    ScriptFrom(EdkCompat, items, header, post);
  }

  /** Default scripts: parsing gives back the operations written, and the entry that ends the script, exactly when the
      first index does not read as the EDK table opcode. */
  lemma DefaultScriptRoundTrip(items: seq<Item>, post: Data)
    requires items != [] && Writable(Default, items) && (post == [] || Ended(items))
    ensures Script(Default, items) != []
    ensures ParseAll(Script(Default, items) + post) == Some(EntriesOf(Default, items, 0))
            <==> Script(Default, items)[0] != 0xAA
    ensures items[0].Item? ==>
              items[0].index.Some? && Script(Default, items)[0] as int == items[0].index.value % 0x100
  {
    hide ParseFrom, Written, ParseEntry, EntryOf, Ended;
    ScriptFrom(Default, items, [], post);
    FirstBytes(items[0]);
    var script := Script(Default, items) + post;
    assert [] + Script(Default, items) + post == script;
    assert script[0] == Script(Default, items)[0];
    if script[0] == 0xAA {
      ParsedContiguous(EdkCompat, script, EDK_HEADER_LENGTH);
      EntryLength(EdkCompat, script, EDK_HEADER_LENGTH);
      DefaultEntryType(items[0], Written(Default, items[0]).value);
      assert EntriesOf(Default, items, 0)[0].scriptType == Default;
    }
  }

  lemma FirstBytes(item: Item)
    requires Written(Default, item).Some?
    ensures var buf := Written(Default, item).value;
            buf != [] && (item.Item? ==> item.index.Some? && buf[0] as int == item.index.value % 0x100)
  {
    hide CreateEntry, Encodable;
    if item.Item? {
      FirstIndexByte(item.op, item.index);
    }
  }

  lemma DefaultEntryType(item: Item, buf: Data)
    ensures EntryFor(Default, item, 0, buf).scriptType == Default
  {
  }

  /** A default entry starts with the low byte of its index. */
  lemma FirstIndexByte(op: Op, index: Option<nat>)
    requires CreateEntry(Default, op, index).Some?
    ensures var buf := CreateEntry(Default, op, index).value;
            index.Some? && buf != [] && buf[0] as int == index.value % 0x100
  {
    hide EncodeDefault, Pack;
    var body := EncodeDefault(op).value;
    var hdr := Pack([I, I], [index.value, 8 + |body|]).value;
    TwoWords(hdr, index.value, 8 + |body|);
    assert hdr[0..4][0] == hdr[0];
    assert FromLe(hdr[0..4]) == hdr[0] as int + 256 * FromLe(hdr[0..4][1..]);
  }
}
