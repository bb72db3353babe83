/** SMBIOS tables: cutting a table into structures, and a structure into its strings. */
module Smbios {
  import opened Bytes
  import opened Options

  const HEADER_SIZE: nat := 4 // calcsize("=BBH")
  const TERM_SIZE: nat := 2   // calcsize("=H")

  datatype Header = Header(kind: Byte, length: Byte, handle: nat)

  function UnpackHeader(b: Data): Header
    requires |b| >= HEADER_SIZE
  {
    Header(b[0], b[1], Field(b, 2, 2))
  }

  /** The structure terminator: a zero 16-bit word. */
  predicate Terminator(table: Data, t: nat)
    requires t + TERM_SIZE <= |table|
  {
    table[t] == 0 && table[t + 1] == 0
  }

  // ---------------------------------------------------------------- cutting a table into structures

  /** Where the scan for a terminator stops: at the first one, or two bytes before the end. */
  ghost function ScanTerm(table: Data, t: nat): (r: nat)
    requires t + TERM_SIZE <= |table|
    ensures t <= r && r + TERM_SIZE <= |table|
    decreases |table| - t
  {
    if t + TERM_SIZE < |table| && !Terminator(table, t) then ScanTerm(table, t + 1) else t
  }

  /** A structure starts at `start`: there is a header, and more than a terminator after its formatted area. */
  ghost predicate StartsStruct(table: Data, start: nat) {
    start + HEADER_SIZE <= |table| && start + table[start + 1] as int + TERM_SIZE < |table|
  }

  /** The offset after the structure at `start`. */
  ghost function StructEnd(table: Data, start: nat): (e: nat)
    requires StartsStruct(table, start)
    ensures start + table[start + 1] as int + TERM_SIZE <= e <= |table|
  {
    ScanTerm(table, start + table[start + 1]) + TERM_SIZE
  }

  datatype RawStruct = RawStruct(raw: Data, next: nat)

  /** __get_raw_struct. The structure ends with the first terminator after its formatted area, or with the table. */
  method GetRawStruct(table: Option<Data>, start: nat) returns (r: Option<RawStruct>)
    ensures r.Some? <==> table.Some? && StartsStruct(table.value, start)
    ensures r.Some? ==>
              var end := StructEnd(table.value, start);
              r.value == RawStruct(table.value[start..end], end)
  {
    if table.None? {
      return None;
    }
    var t := table.value;
    if start >= |t| {
      return None;
    }
    if |t| - start < HEADER_SIZE {
      return None;
    }
    var h := UnpackHeader(t[start..start + HEADER_SIZE]);
    var strOffset := start + h.length;
    if strOffset + TERM_SIZE >= |t| {
      return None;
    }
    var tmp := strOffset;
    while tmp + TERM_SIZE < |t|
      invariant tmp + TERM_SIZE <= |t|
      invariant ScanTerm(t, strOffset) == ScanTerm(t, tmp)
    {
      if Terminator(t, tmp) {
        break;
      }
      tmp := tmp + 1;
    }
    r := if tmp >= |t| then None else Some(RawStruct(t[start..tmp + TERM_SIZE], tmp + TERM_SIZE));
  }

  /** The scan passes no terminator, and stops at one unless it runs out of table. */
  lemma {:induction false} ScanExact(table: Data, t: nat)
    requires t + TERM_SIZE <= |table|
    ensures forall i :: t <= i < ScanTerm(table, t) ==> !Terminator(table, i)
    ensures ScanTerm(table, t) + TERM_SIZE < |table| ==> Terminator(table, ScanTerm(table, t))
    decreases |table| - t
  {
    if t + TERM_SIZE < |table| && !Terminator(table, t) {
      ScanExact(table, t + 1);
    }
  }

  /** The structures found from offset off on. */
  ghost function Structs(table: Data, off: nat): seq<Data>
    decreases |table| - off
  {
    if !StartsStruct(table, off) then []
    else [table[off..StructEnd(table, off)]] + Structs(table, StructEnd(table, off))
  }

  /** Which structures a caller asked for. */
  predicate Wanted(structType: Option<Byte>, raw: Data)
    requires |raw| >= HEADER_SIZE
  {
    structType.None? || UnpackHeader(raw).kind == structType.value
  }

  /** With a type to look for, every structure up to the first too short for a header is filtered; that
      one raises an exception. */
  ghost function Select(structType: Option<Byte>, raws: seq<Data>): Option<seq<Data>> {
    if structType.None? then Some(raws)
    else if raws == [] then Some([])
    else if |raws[0]| < HEADER_SIZE then None
    else
      match Select(structType, raws[1..])
      case None => None
      case Some(rest) => Some((if Wanted(structType, raws[0]) then [raws[0]] else []) + rest)
  }

  datatype RawStructs = NoTable | Raised | Found(raws: seq<Data>)

  /** The structures of a table that a caller wants. */
  ghost function Searched(structType: Option<Byte>, table: Data): RawStructs {
    match Select(structType, Structs(table, 0))
    case None => Raised
    case Some(raws) => Found(raws)
  }

  /** get_raw_structs: the 64-bit table is searched if there is one, unless the caller forces the other. */
  method GetRawStructs(smbios3: Option<Data>, smbios2: Option<Data>, structType: Option<Byte>, force32: bool)
    returns (r: RawStructs)
    ensures smbios3.Some? && !force32 ==> r == Searched(structType, smbios3.value)
    ensures force32 && smbios2.Some? ==> r == Searched(structType, smbios2.value)
    ensures smbios3.None? && smbios2.Some? ==> r == Searched(structType, smbios2.value)
    ensures smbios2.None? && (smbios3.None? || force32) ==> r == NoTable
  {
    hide StructEnd;
    var found: seq<Data> := [];
    var table: Data;
    if smbios3.Some? && !force32 {
      table := smbios3.value;
    } else if smbios2.Some? {
      table := smbios2.value;
    } else {
      return NoTable;
    }
    ghost var all := Structs(table, 0);
    ghost var off := 0;
    var raw := GetRawStruct(Some(table), 0);
    ghost var rest := all;
    assert SelectedSoFar(structType, all, found, rest) by { NothingSelected(structType, all); }
    while raw.Some?
      invariant rest == Structs(table, off)
      invariant raw.Some? <==> StartsStruct(table, off)
      invariant raw.Some? ==> raw.value == RawStruct(table[off..StructEnd(table, off)], StructEnd(table, off))
      invariant SelectedSoFar(structType, all, found, rest)
      decreases |table| - off, |rest|
    {
      SelectStep(structType, all, found, rest);
      StructGrows(table, off);
      if structType.None? {
        found := found + [raw.value.raw];
      } else if |raw.value.raw| < HEADER_SIZE {
        return Raised;
      } else if UnpackHeader(raw.value.raw).kind == structType.value {
        found := found + [raw.value.raw];
      }
      off := raw.value.next;
      rest := rest[1..];
      raw := GetRawStruct(Some(table), raw.value.next);
    }
    SelectDone(structType, all, found);
    r := Found(found);
  }

  /** What remains to be selected completes what has been. */
  ghost predicate SelectedSoFar(structType: Option<Byte>, all: seq<Data>, found: seq<Data>, rest: seq<Data>) {
    if Select(structType, rest).None? then Select(structType, all).None?
    else Select(structType, all) == Some(found + Select(structType, rest).value)
  }

  lemma NothingSelected(structType: Option<Byte>, all: seq<Data>)
    ensures SelectedSoFar(structType, all, [], all)
  {
    hide Select;
    if Select(structType, all).Some? {
      assert [] + Select(structType, all).value == Select(structType, all).value;
    }
  }

  lemma SelectDone(structType: Option<Byte>, all: seq<Data>, found: seq<Data>)
    requires SelectedSoFar(structType, all, found, [])
    ensures Select(structType, all) == Some(found)
  {
    assert found + [] == found;
  }

  lemma SelectStep(structType: Option<Byte>, all: seq<Data>, found: seq<Data>, rest: seq<Data>)
    requires rest != [] && SelectedSoFar(structType, all, found, rest)
    ensures structType.None? ==> SelectedSoFar(structType, all, found + [rest[0]], rest[1..])
    ensures structType.Some? && |rest[0]| < HEADER_SIZE ==> Select(structType, all).None?
    ensures structType.Some? && |rest[0]| >= HEADER_SIZE ==>
              SelectedSoFar(structType, all, if Wanted(structType, rest[0]) then found + [rest[0]] else found,
                rest[1..])
  {
    var tail := Select(structType, rest[1..]);
    if structType.None? {
      assert found + [rest[0]] + rest[1..] == found + rest;
    } else if |rest[0]| >= HEADER_SIZE && tail.Some? {
      assert found + ([rest[0]] + tail.value) == found + [rest[0]] + tail.value;
      assert found + ([] + tail.value) == found + tail.value;
    }
  }

  lemma StructGrows(table: Data, off: nat)
    requires StartsStruct(table, off)
    ensures Structs(table, off) == [table[off..StructEnd(table, off)]] + Structs(table, StructEnd(table, off))
    ensures off < StructEnd(table, off) <= |table|
    ensures table[off + 1] >= 2 ==> StructEnd(table, off) - off >= HEADER_SIZE
  {
  }

  ghost function Concat(parts: seq<Data>): Data {
    if parts == [] then [] else parts[0] + Concat(parts[1..])
  }

  /** On every table the structures lie end to end: together they are a prefix of it. */
  lemma {:induction false} StructsTile(table: Data, off: nat)
    requires off <= |table|
    ensures Concat(Structs(table, off)) <= table[off..]
    decreases |table| - off
  {
    hide StartsStruct, StructEnd;
    if StartsStruct(table, off) {
      var e := StructEnd(table, off);
      StructGrows(table, off);
      StructsTile(table, e);
      var tail := Concat(Structs(table, e));
      assert Concat(Structs(table, off)) == table[off..e] + tail;
      Prefixes(table, off, e, tail);
    }
  }

  lemma Prefixes(table: Data, off: nat, e: nat, tail: Data)
    requires off <= e <= |table| && tail <= table[e..]
    ensures table[off..e] + tail <= table[off..]
  {
    assert table[off..] == table[off..e] + table[e..];
  }

  // ---------------------------------------------------------------- cutting a structure into strings

  /** get_header */
  function GetHeader(raw: Option<Data>): Option<Header> {
    if raw.None? || |raw.value| < HEADER_SIZE then None else Some(UnpackHeader(raw.value[..HEADER_SIZE]))
  }

  /** A header: the type, the length of the formatted area, and a 16-bit little-endian handle. */
  lemma HeaderMeaning(raw: Data)
    ensures GetHeader(None) == None
    ensures |raw| < 4 ==> GetHeader(Some(raw)) == None
    ensures |raw| >= 4 ==>
              && GetHeader(Some(raw)) == Some(UnpackHeader(raw))
              && UnpackHeader(raw) == Header(raw[0], raw[1], raw[2] as int + 0x100 * raw[3] as int)
  {
    if |raw| >= 4 {
      assert raw[..4][2..4] == raw[2..4];
      FromLeFirst(raw[2..4]);
      FromLeFirst(raw[3..4]);
      assert raw[2..4][1..] == raw[3..4] && raw[3..4][1..] == [];
      EmptyIsZero();
    }
  }

  /** The zero-terminated strings from offset tmp on, index bytes of the first being already read. The last
      byte of the structure is not looked at. */
  ghost function StringsFrom(raw: Data, tmp: nat, index: nat): seq<Data>
    decreases |raw| - tmp - index
  {
    if tmp + index + 1 >= |raw| then []
    else if raw[tmp + index] == 0 then [raw[tmp..tmp + index]] + StringsFrom(raw, tmp + index + 1, 0)
    else StringsFrom(raw, tmp, index + 1)
  }

  /** The strings of a structure; None when it is too short for its own header. */
  ghost function StringsOf(raw: Data): Option<seq<Data>> {
    if |raw| < HEADER_SIZE || raw[1] as int + TERM_SIZE > |raw| then None
    else if raw[1] as int + TERM_SIZE == |raw| then Some([])
    else Some(StringsFrom(raw, raw[1], 0))
  }

  /** get_string_list */
  method GetStringList(raw: Data) returns (r: Option<seq<Data>>)
    ensures r == StringsOf(raw)
    ensures r.None? <==> |raw| < 4 || raw[1] as int + 2 > |raw|
    ensures |raw| >= 4 && raw[1] as int + 2 == |raw| ==> r == Some([])
  {
    var strings: seq<Data> := [];
    var header := GetHeader(Some(raw));
    if header.None? {
      return None;
    }
    if header.value.length as int + TERM_SIZE > |raw| {
      return None;
    }
    if header.value.length as int + TERM_SIZE == |raw| {
      return Some(strings);
    }
    var index, tmp: nat := 0, header.value.length;
    ghost var all := StringsFrom(raw, tmp, 0);
    assert strings + all == all;
    while tmp + index + 1 < |raw|
      invariant strings + StringsFrom(raw, tmp, index) == all
      decreases |raw| - tmp - index
    {
      if raw[tmp + index] == 0 {
        ghost var rest := StringsFrom(raw, tmp + index + 1, 0);
        assert strings + ([raw[tmp..tmp + index]] + rest) == strings + [raw[tmp..tmp + index]] + rest;
        strings := strings + [raw[tmp..tmp + index]];
        tmp := tmp + index + 1;
        index := 0;
        continue;
      }
      index := index + 1;
    }
    assert strings + [] == strings;
    return Some(strings);
  }

  ghost predicate NulFree(s: Data) {
    forall i :: 0 <= i < |s| ==> s[i] != 0
  }

  ghost predicate AllNulFree(strings: seq<Data>) {
    forall i :: 0 <= i < |strings| ==> NulFree(strings[i])
  }

  /** Strings as they are stored: each followed by a zero byte. */
  ghost function StringBytes(strings: seq<Data>): Data {
    if strings == [] then [] else strings[0] + [0] + StringBytes(strings[1..])
  }

  /** On every structure the strings returned are zero-free, they are stored end to end from tmp on, and no
      further string ends before the last byte. */
  lemma {:induction false} StringsMeaning(raw: Data, tmp: nat, index: nat)
    requires tmp + index <= |raw| && NulFree(raw[tmp..tmp + index])
    ensures var ss := StringsFrom(raw, tmp, index);
            && AllNulFree(ss)
            && StringBytes(ss) <= raw[tmp..]
            && forall i :: tmp + |StringBytes(ss)| <= i < |raw| - 1 ==> raw[i] != 0
    decreases |raw| - tmp - index
  {
    if tmp + index + 1 >= |raw| {
      LastString(raw, tmp, index);
    } else if raw[tmp + index] == 0 {
      var s, rest := raw[tmp..tmp + index], StringsFrom(raw, tmp + index + 1, 0);
      StringsMeaning(raw, tmp + index + 1, 0);
      assert ([s] + rest)[1..] == rest;
      StringJoins(raw, tmp, index, StringBytes(rest));
    } else {
      Longer(raw, tmp, index);
      StringsMeaning(raw, tmp, index + 1);
    }
  }

  lemma LastString(raw: Data, tmp: nat, index: nat)
    requires tmp + index <= |raw| <= tmp + index + 1 && NulFree(raw[tmp..tmp + index])
    ensures forall i :: tmp <= i < |raw| - 1 ==> raw[i] != 0
  {
    assert forall i :: tmp <= i < tmp + index ==> raw[i] == raw[tmp..tmp + index][i - tmp];
  }

  lemma Longer(raw: Data, tmp: nat, index: nat)
    requires tmp + index < |raw| && NulFree(raw[tmp..tmp + index]) && raw[tmp + index] != 0
    ensures NulFree(raw[tmp..tmp + index + 1])
  {
    assert raw[tmp..tmp + index + 1] == raw[tmp..tmp + index] + [raw[tmp + index]];
  }

  lemma StringJoins(raw: Data, tmp: nat, index: nat, rest: Data)
    requires tmp + index < |raw| && raw[tmp + index] == 0 && rest <= raw[tmp + index + 1..]
    ensures raw[tmp..tmp + index] + [0] + rest <= raw[tmp..]
  {
    assert raw[tmp..] == raw[tmp..tmp + index] + [raw[tmp + index]] + raw[tmp + index + 1..];
  }

  // ---------------------------------------------------------------- parse undoes serialise

  /** A structure: the formatted area, which starts with the header, and its strings. */
  datatype Structure = Structure(formatted: Data, strings: seq<Data>)

  ghost predicate WellFormed(s: Structure) {
    |s.formatted| >= HEADER_SIZE && s.formatted[1] == |s.formatted| && AllNulFree(s.strings)
  }

  /** The unformatted area: the strings and one more zero byte, or two zero bytes. */
  ghost function Unformatted(strings: seq<Data>): Data {
    if strings == [] then [0, 0] else StringBytes(strings) + [0]
  }

  ghost function StructBytes(s: Structure): Data {
    s.formatted + Unformatted(s.strings)
  }

  /** Only the first string may be empty: a later empty string would read as the terminator. */
  ghost predicate Separable(strings: seq<Data>) {
    forall i :: 1 <= i < |strings| ==> strings[i] != []
  }

  /** No terminator begins inside a zero-free string. */
  lemma {:induction false} ScanString(table: Data, t: nat, n: nat)
    requires t + n + TERM_SIZE <= |table| && NulFree(table[t..t + n])
    ensures ScanTerm(table, t) == ScanTerm(table, t + n)
    decreases n
  {
    if n > 0 {
      assert table[t..t + n][0] == table[t];
      assert table[t + 1..t + n] == table[t..t + n][1..];
      ScanString(table, t + 1, n - 1);
    }
  }

  lemma {:induction false} SplitFirst(pre: Data, strings: seq<Data>, tail: Data)
    requires strings != []
    ensures var table, s, rest := pre + (StringBytes(strings) + tail), strings[0], StringBytes(strings[1..]) + tail;
            && table[|pre|..|pre| + |s|] == s && table[|pre| + |s|] == 0 && table == (pre + s + [0]) + rest
            && |StringBytes(strings)| == |s| + 1 + |StringBytes(strings[1..])|
  {
    Pieces(pre, strings[0], StringBytes(strings[1..]), tail);
  }

  lemma Pieces(pre: Data, s: Data, more: Data, tail: Data)
    ensures var table := pre + (s + [0] + more + tail);
            table[|pre|..|pre| + |s|] == s && table[|pre| + |s|] == 0 && table == (pre + s + [0]) + (more + tail)
  {
    var table := pre + (s + [0] + more + tail);
    assert table == (pre + s + [0]) + (more + tail);
  }

  /** The byte after a string's zero: the next string's first byte, or what follows the strings. */
  lemma {:induction false} NextByte(strings: seq<Data>, tail: Data)
    requires AllNulFree(strings) && tail != []
    ensures var rest := StringBytes(strings) + tail;
            rest != [] && rest[0] == if strings == [] then tail[0] else if strings[0] == [] then 0 else strings[0][0]
    ensures strings != [] ==> |StringBytes(strings)| >= 1 && (strings[0] != [] ==> strings[0][0] != 0)
  {
    if strings != [] {
      assert NulFree(strings[0]);
    }
  }

  /** From the first string on, the scan stops at the last one's zero byte exactly when no later string is empty. */
  lemma {:induction false} ScanStrings(pre: Data, strings: seq<Data>, tail: Data)
    requires strings != [] && AllNulFree(strings) && tail != [] && tail[0] == 0
    ensures var table := pre + (StringBytes(strings) + tail);
            && var last := |pre| + |StringBytes(strings)| - 1;
            && |pre| <= last + 1 && last + TERM_SIZE <= |table|
            && ScanTerm(table, |pre|) <= last
            && (ScanTerm(table, |pre|) == last <==> Separable(strings))
    decreases |strings|
  {
    hide ScanTerm, StringBytes, Separable, NulFree;
    var table, s, rest := pre + (StringBytes(strings) + tail), strings[0], StringBytes(strings[1..]) + tail;
    SplitFirst(pre, strings, tail);
    NextByte(strings[1..], tail);
    var q := |pre| + |s|;
    ScanString(table, |pre|, |s|);
    assert table[q + 1] == rest[0];
    SeparableTail(strings);
    if rest[0] == 0 {
      StopsAt(table, q);
      if |strings| == 1 {
        NoStrings();
      }
    } else {
      GoesOn(table, q);
      ScanStrings(pre + s + [0], strings[1..], tail);
    }
  }

  lemma NoStrings()
    ensures StringBytes([]) == []
  {
  }

  lemma StopsAt(table: Data, t: nat)
    requires t + TERM_SIZE <= |table| && Terminator(table, t)
    ensures ScanTerm(table, t) == t
  {
  }

  lemma GoesOn(table: Data, t: nat)
    requires t + TERM_SIZE < |table| && !Terminator(table, t)
    ensures ScanTerm(table, t) == ScanTerm(table, t + 1)
  {
  }

  lemma SeparableTail(strings: seq<Data>)
    requires strings != []
    ensures Separable(strings) <==> |strings| == 1 || (strings[1] != [] && Separable(strings[1..]))
  {
    assert forall i :: 1 <= i < |strings[1..]| ==> strings[1..][i] == strings[i + 1];
    assert forall i :: 2 <= i < |strings| ==> strings[i] == strings[1..][i - 1];
  }

  /** A serialised structure with more than its terminator, or with bytes behind it, is found as exactly its
      own slice if and only if no string but the first is empty. */
  lemma StructFound(pre: Data, s: Structure, tail: Data)
    requires WellFormed(s)
    ensures var table := pre + (StructBytes(s) + tail);
            && (StartsStruct(table, |pre|) <==> tail != [] || |Unformatted(s.strings)| > TERM_SIZE)
            && (StartsStruct(table, |pre|) ==>
                  (StructEnd(table, |pre|) == |pre| + |StructBytes(s)| <==> Separable(s.strings)))
  {
    hide ScanTerm, StringBytes, AllNulFree;
    var table := pre + (StructBytes(s) + tail);
    var body := |pre| + |s.formatted|;
    assert table[|pre| + 1] == s.formatted[1];
    AtLeastTerm(s.strings);
    if StartsStruct(table, |pre|) {
      if s.strings == [] {
        assert table[body] == 0 && table[body + 1] == 0;
        StopsAt(table, body);
      } else {
        ScanStrings(pre + s.formatted, s.strings, [0] + tail);
        assert table == (pre + s.formatted) + (StringBytes(s.strings) + ([0] + tail));
      }
    }
  }

  lemma AtLeastTerm(strings: seq<Data>)
    ensures |Unformatted(strings)| >= TERM_SIZE
  {
  }

  ghost predicate Readable(structures: seq<Structure>) {
    forall i :: 0 <= i < |structures| ==> WellFormed(structures[i]) && Separable(structures[i].strings)
  }

  ghost function Serialise(structures: seq<Structure>): Data {
    if structures == [] then [] else StructBytes(structures[0]) + Serialise(structures[1..])
  }

  ghost function Slices(structures: seq<Structure>): seq<Data> {
    if structures == [] then [] else [StructBytes(structures[0])] + Slices(structures[1..])
  }

  /** A table that starts with serialised structures and goes on is cut into exactly those, then the rest. */
  lemma {:induction false} StructsRead(pre: Data, structures: seq<Structure>, tail: Data)
    requires Readable(structures) && tail != []
    ensures var table := pre + (Serialise(structures) + tail);
            Structs(table, |pre|) == Slices(structures) + Structs(table, |pre| + |Serialise(structures)|)
    decreases |structures|
  {
    hide StartsStruct, StructEnd, StructBytes, WellFormed, Separable, Structs, Serialise, Slices;
    var table := pre + (Serialise(structures) + tail);
    Unfolded(structures);
    if structures == [] {
      assert Slices(structures) + Structs(table, |pre|) == Structs(table, |pre|);
    } else {
      var s, rest := structures[0], Serialise(structures[1..]) + tail;
      FirstStruct(pre, StructBytes(s), Serialise(structures[1..]), tail);
      StructFound(pre, s, rest);
      StructGrows(table, |pre|);
      StructsRead(pre + StructBytes(s), structures[1..], tail);
      var after := Structs(table, |pre| + |Serialise(structures)|);
      assert [StructBytes(s)] + (Slices(structures[1..]) + after) == Slices(structures) + after;
    }
  }

  lemma {:induction false} Unfolded(structures: seq<Structure>)
    ensures structures == [] ==> Serialise(structures) == [] && Slices(structures) == []
    ensures structures != [] ==>
              && Serialise(structures) == StructBytes(structures[0]) + Serialise(structures[1..])
              && Slices(structures) == [StructBytes(structures[0])] + Slices(structures[1..])
  {
  }

  lemma FirstStruct(pre: Data, b: Data, more: Data, tail: Data)
    ensures var table := pre + (b + more + tail);
            table == pre + (b + (more + tail)) == (pre + b) + (more + tail) && table[|pre|..|pre| + |b|] == b
  {
    assert b + more + tail == b + (more + tail);
  }

  lemma {:induction false} SerialiseSplit(structures: seq<Structure>)
    requires structures != []
    ensures var n := |structures| - 1;
            && Serialise(structures) == Serialise(structures[..n]) + StructBytes(structures[n])
            && Slices(structures) == Slices(structures[..n]) + [StructBytes(structures[n])]
    decreases |structures|
  {
    hide StructBytes;
    var n := |structures| - 1;
    if n == 0 {
      assert structures[..0] == [] && structures[1..] == [];
      assert StructBytes(structures[0]) + [] == StructBytes(structures[0]);
    } else {
      SerialiseSplit(structures[1..]);
      assert structures[1..][..n - 1] == structures[..n][1..];
    }
  }

  /** Cutting a serialised table gives back every structure, except a last one with no strings: that one,
      such as the usual end-of-table structure, is dropped. */
  lemma {:induction false} TableRoundTrip(structures: seq<Structure>)
    requires Readable(structures) && structures != []
    ensures var n := |structures| - 1;
            Structs(Serialise(structures), 0)
              == if |Unformatted(structures[n].strings)| > TERM_SIZE then Slices(structures)
                else Slices(structures[..n])
  {
    hide Structs, Serialise, Slices, StructBytes, Unformatted, WellFormed, Separable;
    var n := |structures| - 1;
    var front, last := structures[..n], structures[n];
    SerialiseSplit(structures);
    SomeStruct(last);
    assert [] + (Serialise(front) + StructBytes(last)) == Serialise(structures);
    StructsRead([], front, StructBytes(last));
    LastStruct(Serialise(front), last);
    assert Slices(front) + [] == Slices(front);
  }

  lemma SomeStruct(s: Structure)
    ensures StructBytes(s) != []
  {
  }

  lemma {:induction false} LastStruct(pre: Data, s: Structure)
    requires WellFormed(s) && Separable(s.strings)
    ensures Structs(pre + StructBytes(s), |pre|) == if |Unformatted(s.strings)| > TERM_SIZE then [StructBytes(s)]
            else []
  {
    hide StartsStruct, StructEnd, WellFormed, Separable, StructBytes, Unformatted;
    var table := pre + StructBytes(s);
    assert pre + (StructBytes(s) + []) == table;
    StructFound(pre, s, []);
    if StartsStruct(table, |pre|) {
      StructGrows(table, |pre|);
      assert table[|pre|..|table|] == StructBytes(s);
      AtEnd(table);
    }
  }

  ghost function OfType(structures: seq<Structure>, kind: Byte): seq<Structure>
    requires Readable(structures)
  {
    if structures == [] then []
    else (if structures[0].formatted[0] == kind then [structures[0]] else []) + OfType(structures[1..], kind)
  }

  /** Asking for one type selects exactly the structures of that type, in order, and raises nothing. */
  lemma {:induction false} TypeSelected(structures: seq<Structure>, kind: Byte)
    requires Readable(structures)
    ensures Select(Some(kind), Slices(structures)) == Some(Slices(OfType(structures, kind)))
    decreases |structures|
  {
    hide Separable, Unformatted;
    if structures != [] {
      var s, rest := structures[0], structures[1..];
      TypeSelected(rest, kind);
      assert Slices(structures)[1..] == Slices(rest) && Slices(structures)[0] == StructBytes(s);
      assert StructBytes(s)[0] == s.formatted[0];
      assert ([s] + OfType(rest, kind))[1..] == OfType(rest, kind);
      assert [] + OfType(rest, kind) == OfType(rest, kind);
      assert [] + Slices(OfType(rest, kind)) == Slices(OfType(rest, kind));
    }
  }

  /** get_raw_structs on a serialised table: all structures, or those of the type asked for, but not a last one
      without strings. */
  lemma SearchFinds(structures: seq<Structure>, kind: Byte)
    requires Readable(structures) && structures != []
    ensures var n := |structures| - 1;
            var read := if structures[n].strings in {[], [[]]} then structures[..n] else structures;
            && Searched(None, Serialise(structures)) == Found(Slices(read))
            && Readable(read)
            && Searched(Some(kind), Serialise(structures)) == Found(Slices(OfType(read, kind)))
  {
    hide Structs, Serialise, Slices, WellFormed, Separable, OfType, Unformatted;
    var n := |structures| - 1;
    TableRoundTrip(structures);
    BareStrings(structures[n].strings);
    var read := if structures[n].strings in {[], [[]]} then structures[..n] else structures;
    TypeSelected(read, kind);
  }

  lemma BareStrings(strings: seq<Data>)
    ensures |Unformatted(strings)| == TERM_SIZE <==> strings == [] || strings == [[]]
    ensures |Unformatted(strings)| >= TERM_SIZE
  {
    if strings != [] {
      assert StringBytes(strings) == strings[0] + [0] + StringBytes(strings[1..]);
      if strings[1..] != [] {
        assert |StringBytes(strings[1..])| >= 1;
      } else {
        assert strings == [strings[0]];
      }
    }
  }

  lemma AtEnd(table: Data)
    ensures Structs(table, |table|) == []
  {
  }

  lemma {:induction false} StringsRead(pre: Data, strings: seq<Data>)
    requires AllNulFree(strings)
    ensures StringsFrom(pre + (StringBytes(strings) + [0]), |pre|, 0) == strings
    decreases |strings|
  {
    hide StringsFrom;
    var raw := pre + (StringBytes(strings) + [0]);
    if strings == [] {
      OneByteLeft(raw, |pre|);
    } else {
      var s := strings[0];
      SplitFirst(pre, strings, [0]);
      SkipString(raw, |pre|, 0, |s|);
      StringEnds(raw, |pre|, |s|);
      StringsRead(pre + s + [0], strings[1..]);
    }
  }

  lemma OneByteLeft(raw: Data, tmp: nat)
    requires tmp + 1 >= |raw|
    ensures StringsFrom(raw, tmp, 0) == []
  {
  }

  lemma StringEnds(raw: Data, tmp: nat, n: nat)
    requires tmp + n + 1 < |raw| && raw[tmp + n] == 0
    ensures StringsFrom(raw, tmp, n) == [raw[tmp..tmp + n]] + StringsFrom(raw, tmp + n + 1, 0)
  {
  }

  lemma {:induction false} SkipString(raw: Data, tmp: nat, index: nat, n: nat)
    requires index <= n && tmp + n + 1 < |raw| && NulFree(raw[tmp..tmp + n])
    ensures StringsFrom(raw, tmp, index) == StringsFrom(raw, tmp, n)
    decreases n - index
  {
    if index < n {
      assert raw[tmp..tmp + n][index] == raw[tmp + index];
      SkipString(raw, tmp, index + 1, n);
    }
  }

  /** The strings of a serialised structure come back in order, except that a single empty string reads as none. */
  lemma StringRoundTrip(s: Structure)
    requires WellFormed(s)
    ensures StringsOf(StructBytes(s)) == Some(s.strings) <==> s.strings != [[]]
  {
    hide StringsFrom, StringBytes, AllNulFree;
    var raw := StructBytes(s);
    assert raw[1] == s.formatted[1];
    NoUnformatted(s.strings);
    if |Unformatted(s.strings)| > TERM_SIZE {
      StringsRead(s.formatted, s.strings);
    }
  }

  lemma NoUnformatted(strings: seq<Data>)
    ensures |Unformatted(strings)| >= TERM_SIZE
    ensures |Unformatted(strings)| == TERM_SIZE <==> strings == [] || strings == [[]]
  {
    if strings != [] {
      assert |StringBytes(strings)| == |strings[0]| + 1 + |StringBytes(strings[1..])|;
      if |strings| > 1 {
        assert |StringBytes(strings[1..])| >= 1;
      } else {
        assert strings == [strings[0]];
      }
    }
  }

  /** A concrete table that yields nothing: only the usual end-of-table structure. */
  lemma EndOfTableDropped(handle: Data)
    requires |handle| == 2
    ensures var s := Structure([127, 4] + handle, []);
            Readable([s]) && Structs(Serialise([s]), 0) == []
  {
    hide Structs, Serialise;
    var s := Structure([127, 4] + handle, []);
    assert s.formatted[1] == |s.formatted|;
    TableRoundTrip([s]);
    assert [s][..0] == [];
  }
}
