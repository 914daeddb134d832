/** Fields as bits, most significant first, and headers as sequences of fields. */
module BitCodec {
  import opened Basics
  import opened Arith

  function Bits(v: nat, w: nat): (b: seq<bool>)
    ensures |b| == w
  {
    if w == 0 then [] else Bits(v / 2, w - 1) + [v % 2 == 1]
  }

  function Val(b: seq<bool>): nat {
    if b == [] then 0 else 2 * Val(b[..|b| - 1]) + (if b[|b| - 1] then 1 else 0)
  }

  lemma {:induction false} ValBits(v: nat, w: nat)
    requires v < Pow2(w)
    ensures Val(Bits(v, w)) == v
  {
    if w > 0 {
      ValBits(v / 2, w - 1);
      assert Bits(v, w)[..w - 1] == Bits(v / 2, w - 1);
    }
  }

  lemma {:induction false} BitsVal(b: seq<bool>)
    ensures Val(b) < Pow2(|b|) && Bits(Val(b), |b|) == b
  {
    if b != [] {
      BitsVal(b[..|b| - 1]);
      assert b == b[..|b| - 1] + [b[|b| - 1]];
    }
  }

  /** The first bit weighs most. */
  lemma {:induction false} FirstBitWeighsMost(x: bool, b: seq<bool>)
    ensures Val([x] + b) == (if x then Pow2(|b|) else 0) + Val(b) && Val([]) == 0
  {
    if b == [] {
      assert [x] + b == [x] && [x][..0] == [];
    } else {
      assert ([x] + b)[..|b|] == [x] + b[..|b| - 1];
      FirstBitWeighsMost(x, b[..|b| - 1]);
    }
  }

  // The widths of a header's fields, in order.
  type Layout = seq<nat>

  function Width(l: Layout): nat {
    if l == [] then 0 else l[0] + Width(l[1..])
  }

  predicate Fits(l: Layout, f: seq<nat>) {
    |l| == |f| && forall i :: 0 <= i < |l| ==> f[i] < Pow2(l[i])
  }

  function Pack(l: Layout, f: seq<nat>): (b: seq<bool>)
    requires |l| == |f|
    ensures |b| == Width(l)
  {
    if l == [] then [] else Bits(f[0], l[0]) + Pack(l[1..], f[1..])
  }

  function Unpack(l: Layout, b: seq<bool>): (f: seq<nat>)
    requires |b| == Width(l)
    ensures |f| == |l|
  {
    if l == [] then [] else [Val(b[..l[0]])] + Unpack(l[1..], b[l[0]..])
  }

  lemma {:induction false} UnpackPack(l: Layout, f: seq<nat>)
    requires Fits(l, f)
    ensures Unpack(l, Pack(l, f)) == f
  {
    if l != [] {
      ValBits(f[0], l[0]);
      UnpackPack(l[1..], f[1..]);
      var b := Pack(l, f);
      assert b[..l[0]] == Bits(f[0], l[0]) && b[l[0]..] == Pack(l[1..], f[1..]);
    }
  }

  lemma {:induction false} PackUnpack(l: Layout, b: seq<bool>)
    requires |b| == Width(l)
    ensures Fits(l, Unpack(l, b)) && Pack(l, Unpack(l, b)) == b
  {
    if l != [] {
      BitsVal(b[..l[0]]);
      PackUnpack(l[1..], b[l[0]..]);
      assert b == b[..l[0]] + b[l[0]..];
    }
  }

  /** Take one header's fields off the front of a packet, if enough bits are left. */
  function Extract(l: Layout, b: seq<bool>): Option<(seq<nat>, seq<bool>)> {
    if |b| < Width(l) then None else Some((Unpack(l, b[..Width(l)]), b[Width(l)..]))
  }

  /** Extraction succeeds exactly on packed fields followed by anything. */
  lemma {:induction false} ExtractIff(l: Layout, b: seq<bool>, f: seq<nat>, rest: seq<bool>)
    ensures Extract(l, b) == Some((f, rest)) <==> Fits(l, f) && b == Pack(l, f) + rest
  {
    if |b| >= Width(l) {
      PackUnpack(l, b[..Width(l)]);
      assert b == b[..Width(l)] + b[Width(l)..];
    }
    if Fits(l, f) && b == Pack(l, f) + rest {
      UnpackPack(l, f);
      assert b[..Width(l)] == Pack(l, f) && b[Width(l)..] == rest;
    }
  }
}
