/** struct.pack and struct.unpack for little-endian unsigned fields: a format is the list of field sizes. */
module Structs {
  import opened Bytes
  import opened Options

  function CalcSize(fmt: seq<nat>): nat {
    if fmt == [] then 0 else fmt[0] + CalcSize(fmt[1..])
  }

  /** struct.pack; None when the values do not match the format or one does not fit its field. */
  function Pack(fmt: seq<nat>, vals: seq<nat>): (r: Option<Data>)
    ensures r.Some? ==> |vals| == |fmt| && |r.value| == CalcSize(fmt)
  {
    if |vals| != |fmt| then None
    else if fmt == [] then Some([])
    else if vals[0] >= Pow256(fmt[0]) then None
    else
      match Pack(fmt[1..], vals[1..])
      case None => None
      case Some(rest) => Some(Le(vals[0], fmt[0]) + rest)
  }

  function Unpack(fmt: seq<nat>, b: Data): (vals: seq<nat>)
    requires |b| == CalcSize(fmt)
    ensures |vals| == |fmt|
  {
    if fmt == [] then []
    else [FromLe(b[..fmt[0]])] + Unpack(fmt[1..], b[fmt[0]..])
  }

  ghost predicate FitsFormat(fmt: seq<nat>, vals: seq<nat>) {
    |vals| == |fmt| && forall i :: 0 <= i < |fmt| ==> vals[i] < Pow256(fmt[i])
  }

  lemma {:induction false} PackSucceeds(fmt: seq<nat>, vals: seq<nat>)
    ensures Pack(fmt, vals).Some? <==> FitsFormat(fmt, vals)
  {
    hide Pow256, Le;
    if |vals| == |fmt| && fmt != [] {
      PackSucceeds(fmt[1..], vals[1..]);
      assert forall i :: 0 < i < |fmt| ==> fmt[i] == fmt[1..][i - 1] && vals[i] == vals[1..][i - 1];
    }
  }

  /** Unpacking what was packed gives the values back. */
  lemma {:induction false} UnpackPack(fmt: seq<nat>, vals: seq<nat>)
    requires Pack(fmt, vals).Some?
    ensures Unpack(fmt, Pack(fmt, vals).value) == vals
  {
    hide Pow256;
    if fmt != [] {
      UnpackPack(fmt[1..], vals[1..]);
      var b, rest := Pack(fmt, vals).value, Pack(fmt[1..], vals[1..]).value;
      assert b[..fmt[0]] == Le(vals[0], fmt[0]) && b[fmt[0]..] == rest;
    }
  }

  /** Packing what was unpacked gives the bytes back. */
  lemma {:induction false} PackUnpack(fmt: seq<nat>, b: Data)
    requires |b| == CalcSize(fmt)
    ensures Pack(fmt, Unpack(fmt, b)) == Some(b)
  {
    hide Pow256;
    if fmt != [] {
      PackUnpack(fmt[1..], b[fmt[0]..]);
      LeFromLe(b[..fmt[0]]);
      assert b == b[..fmt[0]] + b[fmt[0]..];
      assert Unpack(fmt, b)[1..] == Unpack(fmt[1..], b[fmt[0]..]);
    }
  }

  /** A field repeated n times. */
  function Repeated(size: nat, n: nat): seq<nat> {
    seq(n, _ => size)
  }

  lemma {:induction false} RepeatedSize(size: nat, n: nat)
    ensures CalcSize(Repeated(size, n)) == n * size
  {
    if n > 0 {
      RepeatedSize(size, n - 1);
      assert Repeated(size, n)[1..] == Repeated(size, n - 1);
    }
  }
}
