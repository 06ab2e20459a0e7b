/**
 * The `convertbits` regrouping of BIP-173 ("Base32 address format for native
 * v0-16 witness outputs"), as its reference implementation defines it. The
 * Python `bech32` package that the converter calls ships this reference code.
 *
 * `ConvertBits` states what the regrouping computes, over bit strings;
 * `ConvertBitsReference` is the reference's accumulator loop, proved to
 * compute exactly that.
 */
module Bip173 {
  import opened Wrappers
  import opened Bits

  /**
   * Regroup `fromBits`-wide values into `toBits`-wide values. Fails on a value
   * that does not fit in `fromBits` bits. With `pad`, a final partial group is
   * filled with zero bits; without it, a final partial group is refused when it
   * is as long as an input group or holds a one bit.
   */
  function ConvertBits(data: seq<int>, fromBits: nat, toBits: nat, pad: bool): (r: Option<seq<int>>)
    requires 0 < fromBits && 0 < toBits
    ensures r.Some? ==> InRange(data, fromBits) && InRange(r.value, toBits)
  {
    if !InRange(data, fromBits) then None else Regroup(Stream(data, fromBits), fromBits, toBits, pad)
  }

  /** The regrouping of the bit string `s` of the input values. */
  function Regroup(s: seq<bool>, fromBits: nat, toBits: nat, pad: bool): (r: Option<seq<int>>)
    requires 0 < fromBits && 0 < toBits
    ensures r.Some? ==> InRange(r.value, toBits)
  {
    var rest := s[|s| - |s| % toBits..];
    if pad then
      Some(Chunks(s, toBits) + if rest == [] then [] else [FromBits(rest + Zeros(toBits - |rest|))])
    else if |rest| >= fromBits || FromBits(rest) != 0 then None
    else Some(Chunks(s, toBits))
  }

  /** Without padding, every input bit lands in an output group. */
  lemma NoPadLength(data: seq<int>, fromBits: nat, toBits: nat)
    requires 0 < fromBits && 0 < toBits
    requires ConvertBits(data, fromBits, toBits, false).Some?
    ensures |ConvertBits(data, fromBits, toBits, false).value| == |data| * fromBits / toBits
    ensures |data| * fromBits % toBits < fromBits
  {
    var s := Stream(data, fromBits);
    StreamLength(data, fromBits);
    ChunksLength(s, toBits);
    assert ConvertBits(data, fromBits, toBits, false) == Regroup(s, fromBits, toBits, false);
  }

  /** Number of zero bits that padding appends to `n` bits to reach a multiple of `t`. */
  function PadLength(n: nat, t: nat): (p: nat)
    requires 0 < t
    ensures p < t && (n + p) % t == 0
  {
    if n % t == 0 then 0
    else
      DivModUnique(n + (t - n % t), t, n / t + 1, 0);
      t - n % t
  }

  /** A last group made of the leftover bits and zero padding serialises to exactly those bits. */
  lemma AppendPadGroup(full: seq<int>, rest: seq<bool>, p: nat, t: nat)
    requires 0 < t && InRange(full, t) && |rest| + p == t
    ensures InRange(full + [FromBits(rest + Zeros(p))], t)
    ensures Stream(full + [FromBits(rest + Zeros(p))], t) == Stream(full, t) + rest + Zeros(p)
  {
    var last := FromBits(rest + Zeros(p));
    assert Stream([last], t) == rest + Zeros(p) by {
      ToFromBits(rest + Zeros(p));
    }
    StreamAppend(full, [last], t);
  }

  /** `PadLength` is the only padding shorter than a group that completes one. */
  lemma PadLengthUnique(n: nat, p: nat, t: nat)
    requires p < t && (n + p) % t == 0
    ensures PadLength(n, t) == p
  {
    if p > 0 {
      var q := (n + p) / t;
      assert n == (q - 1) * t + (t - p) by {
        assert n + p == q * t;
        assert (q - 1) * t == q * t - t;
      }
      DivModUnique(n, t, q - 1, t - p);
    }
  }

  /** Padded regrouping serialises to the input bits followed by zero padding. */
  lemma PaddedRegroup(s: seq<bool>, fromBits: nat, toBits: nat)
    requires 0 < fromBits && 0 < toBits
    ensures Regroup(s, fromBits, toBits, true).Some?
    ensures Stream(Regroup(s, fromBits, toBits, true).value, toBits) == s + Zeros(PadLength(|s|, toBits))
  {
    var cut := |s| - |s| % toBits;
    var rest := s[cut..];
    var full := Chunks(s, toBits);
    var p := PadLength(|s|, toBits);
    assert Stream(full, toBits) + rest == s by {
      StreamChunks(s, toBits);
      assert s[..cut] + s[cut..] == s;
    }
    if rest == [] {
      assert Regroup(s, fromBits, toBits, true).value == full by {
        assert full + [] == full;
      }
      assert Stream(full, toBits) == s + Zeros(p) by {
        assert Stream(full, toBits) + rest == Stream(full, toBits);
        assert p == 0;
        assert s + Zeros(p) == s;
      }
    } else {
      assert p == toBits - |rest|;
      assert Regroup(s, fromBits, toBits, true).value == full + [FromBits(rest + Zeros(p))];
      AppendPadGroup(full, rest, p, toBits);
    }
  }

  /** Without padding, a bit string whose length is `k` whole groups plus `p < fromBits` zero bits regroups to its `k` groups. */
  lemma RegroupDropsZeroPadding(s: seq<bool>, p: nat, fromBits: nat, toBits: nat)
    requires 0 < toBits && p < fromBits && p < toBits && |s| % toBits == 0
    ensures Regroup(s + Zeros(p), fromBits, toBits, false) == Some(Chunks(s, toBits))
  {
    var s' := s + Zeros(p);
    var rest := s'[|s'| - |s'| % toBits..];
    assert rest == Zeros(p) by {
      DivModUnique(|s|, toBits, |s| / toBits, 0);
      DivModUnique(|s'|, toBits, |s| / toBits, p);
    }
    assert FromBits(rest) == 0 by {
      FromBitsZeros(p);
    }
    assert Chunks(s', toBits) == Chunks(s, toBits) by {
      ChunksAppend(s, Zeros(p), toBits);
      ChunksShort(Zeros(p), toBits);
    }
  }

  /**
   * Regrouping into narrower groups with padding, then back without padding,
   * gives the original values: the padding is shorter than one narrow group,
   * hence shorter than one wide group, and all zero.
   */
  lemma RegroupRoundTrip(data: seq<int>, wide: nat, narrow: nat)
    requires 0 < narrow <= wide && InRange(data, wide)
    ensures ConvertBits(data, wide, narrow, true).Some?
    ensures ConvertBits(ConvertBits(data, wide, narrow, true).value, narrow, wide, false) == Some(data)
  {
    var s := Stream(data, wide);
    var p := PadLength(|s|, narrow);
    assert ConvertBits(data, wide, narrow, true) == Regroup(s, wide, narrow, true);
    PaddedRegroup(s, wide, narrow);
    var groups := ConvertBits(data, wide, narrow, true).value;
    assert ConvertBits(groups, narrow, wide, false) == Regroup(s + Zeros(p), narrow, wide, false);
    StreamLength(data, wide);
    DivModUnique(|s|, wide, |data|, 0);
    RegroupDropsZeroPadding(s, p, narrow, wide);
    ChunksStream(data, wide);
  }

  /**
   * Regrouping into wide groups without padding and back into narrow groups
   * with padding gives the original values: an accepted leftover is all zero
   * and shorter than a narrow group, which is exactly the padding put back.
   */
  lemma NoPadRoundTrip(data: seq<int>, narrow: nat, wide: nat)
    requires 0 < narrow && 0 < wide
    requires ConvertBits(data, narrow, wide, false).Some?
    ensures ConvertBits(ConvertBits(data, narrow, wide, false).value, wide, narrow, true) == Some(data)
  {
    var s := Stream(data, narrow);
    var cut := |s| - |s| % wide;
    var s0, rest := s[..cut], s[cut..];
    var groups := Chunks(s, wide);
    assert ConvertBits(data, narrow, wide, false) == Some(groups) && |rest| < narrow && FromBits(rest) == 0;
    assert Stream(groups, wide) == s0 by {
      StreamChunks(s, wide);
    }
    assert ConvertBits(groups, wide, narrow, true) == Regroup(s0, wide, narrow, true);
    assert PadLength(|s0|, narrow) == |rest| by {
      StreamLength(data, narrow);
      DivModUnique(|s|, narrow, |data|, 0);
      assert |s0| + |rest| == |s|;
      PadLengthUnique(|s0|, |rest|, narrow);
    }
    PaddedRegroup(s0, wide, narrow);
    var back := Regroup(s0, wide, narrow, true).value;
    assert Stream(back, narrow) == s by {
      FromBitsZeroIsZeros(rest);
      assert s0 + rest == s;
    }
    ChunksStream(back, narrow);
    ChunksStream(data, narrow);
  }

  /** A bit string that fills whole groups of both widths regroups exactly either way. */
  lemma ExactRegroup(s: seq<bool>, narrow: nat, wide: nat)
    requires 0 < narrow && 0 < wide && |s| % narrow == 0 && |s| % wide == 0
    ensures Regroup(s, narrow, wide, false) == Some(Chunks(s, wide))
    ensures Stream(Chunks(s, wide), wide) == s
    ensures Regroup(s, wide, narrow, true) == Some(Chunks(s, narrow))
  {
    assert Regroup(s, narrow, wide, false) == Some(Chunks(s, wide)) by {
      assert s[|s| - |s| % wide..] == [];
    }
    assert Regroup(s, wide, narrow, true) == Some(Chunks(s, narrow)) by {
      var rest := s[|s| - |s| % narrow..];
      assert rest == [];
      assert Chunks(s, narrow) + [] == Chunks(s, narrow);
    }
    StreamChunks(s, wide);
  }

  /**
   * When the input bits fill whole wide groups exactly, regrouping into wide
   * groups without padding and back into narrow groups with padding gives the
   * original values.
   */
  lemma ExactRoundTrip(data: seq<int>, narrow: nat, wide: nat)
    requires 0 < narrow && 0 < wide && InRange(data, narrow)
    requires |data| * narrow % wide == 0
    ensures ConvertBits(data, narrow, wide, false).Some?
    ensures ConvertBits(ConvertBits(data, narrow, wide, false).value, wide, narrow, true) == Some(data)
  {
    var s := Stream(data, narrow);
    assert |s| % narrow == 0 && |s| % wide == 0 by {
      StreamLength(data, narrow);
      DivModUnique(|s|, narrow, |data|, 0);
    }
    ExactRegroup(s, narrow, wide);
    var groups := Chunks(s, wide);
    assert ConvertBits(groups, wide, narrow, true) == Regroup(s, wide, narrow, true);
    ChunksStream(data, narrow);
  }

  /**
   * The accumulator state of the reference loop after the bits `s` have been
   * shifted in: the complete groups of all but the last `bits` bits have been
   * emitted as `ret`, and those last `bits` bits are the low bits of `acc`.
   */
  ghost predicate Framed(s: seq<bool>, acc: int, bits: nat, ret: seq<int>, toBits: nat)
    requires 0 < toBits
  {
    && bits <= |s|
    && (|s| - bits) % toBits == 0
    && ret == Chunks(s[..|s| - bits], toBits)
    && acc % Pow2(bits) == FromBits(s[|s| - bits..])
  }

  /** One input value shifted into the accumulator, which is masked to `fromBits + toBits - 1` bits. */
  lemma {:induction false} ShiftValueIn(s: seq<bool>, acc: int, bits: nat, ret: seq<int>, v: int, fromBits: nat, toBits: nat,
                                        accMod: int, acc': int)
    requires 0 < fromBits && 0 < toBits && 0 <= v < Pow2(fromBits)
    requires bits < toBits && Framed(s, acc, bits, ret, toBits) && accMod == Pow2(fromBits + toBits - 1)
    requires acc' == (acc * Pow2(fromBits) + v) % accMod
    ensures Framed(s + ToBits(v, fromBits), acc', bits + fromBits, ret, toBits)
  {
    var s' := s + ToBits(v, fromBits);
    var tail := s[|s| - bits..];
    assert s'[..|s'| - (bits + fromBits)] == s[..|s| - bits];
    assert s'[|s'| - (bits + fromBits)..] == tail + ToBits(v, fromBits);
    ModPow2Mod(acc * Pow2(fromBits) + v, bits + fromBits, fromBits + toBits - 1);
    ShiftIn(acc, bits, fromBits, v);
    FromBitsAppend(tail, ToBits(v, fromBits));
    FromToBits(v, fromBits);
  }

  /** Emitting the `toBits`-bit group that sits just above the low `bits - toBits` bits. */
  lemma {:induction false} EmitGroup(s: seq<bool>, acc: int, bits: nat, ret: seq<int>, toBits: nat, groupMod: int)
    requires 0 < toBits <= bits && Framed(s, acc, bits, ret, toBits) && groupMod == Pow2(toBits)
    ensures Framed(s, acc, bits - toBits, ret + [(acc / Pow2(bits - toBits)) % groupMod], toBits)
  {
    var start := |s| - bits;
    var group := s[start..start + toBits];
    EmitGroupValue(s, acc, bits, toBits);
    EmitGroupChunks(s, bits, ret, toBits);
  }

  lemma EmitGroupValue(s: seq<bool>, acc: int, bits: nat, toBits: nat)
    requires 0 < toBits <= bits <= |s| && acc % Pow2(bits) == FromBits(s[|s| - bits..])
    ensures (acc / Pow2(bits - toBits)) % Pow2(toBits) == FromBits(s[|s| - bits..|s| - bits + toBits])
    ensures acc % Pow2(bits - toBits) == FromBits(s[|s| - (bits - toBits)..])
  {
    var start := |s| - bits;
    var group, low := s[start..start + toBits], s[start + toBits..];
    assert s[start..] == group + low;
    FromBitsAppend(group, low);
    TakeHigh(acc, bits - toBits, toBits, FromBits(group), FromBits(low));
  }

  lemma EmitGroupChunks(s: seq<bool>, bits: nat, ret: seq<int>, toBits: nat)
    requires 0 < toBits <= bits <= |s| && (|s| - bits) % toBits == 0
    requires ret == Chunks(s[..|s| - bits], toBits)
    ensures Chunks(s[..|s| - (bits - toBits)], toBits) == ret + [FromBits(s[|s| - bits..|s| - bits + toBits])]
    ensures (|s| - (bits - toBits)) % toBits == 0
  {
    var start := |s| - bits;
    var group := s[start..start + toBits];
    assert s[..start + toBits] == s[..start] + group;
    ChunksAppend(s[..start], group, toBits);
    ChunksSingle(group, toBits);
    AddModulus(start, toBits);
  }

  /** Once fewer than `toBits` bits are pending, they are exactly the leftover of `s`. */
  lemma {:induction false} Drained(s: seq<bool>, acc: int, bits: nat, ret: seq<int>, toBits: nat)
    requires 0 < toBits && bits < toBits && Framed(s, acc, bits, ret, toBits)
    ensures bits == |s| % toBits
    ensures ret == Chunks(s, toBits)
  {
    var start := |s| - bits;
    DivModUnique(|s|, toBits, start / toBits, bits);
    assert s == s[..start] + s[start..];
    ChunksAppend(s[..start], s[start..], toBits);
    ChunksShort(s[start..], toBits);
  }

  /** The final partial group, shifted to the top of a `toBits`-bit group. */
  lemma {:induction false} FlushGroup(acc: int, rest: seq<bool>, toBits: nat)
    requires |rest| <= toBits && acc % Pow2(|rest|) == FromBits(rest)
    ensures (acc * Pow2(toBits - |rest|)) % Pow2(toBits) == FromBits(rest + Zeros(toBits - |rest|))
    ensures (acc * Pow2(toBits - |rest|)) % Pow2(toBits) == 0 <==> FromBits(rest) == 0
  {
    var z := toBits - |rest|;
    ShiftUp(acc, |rest|, z);
    FromBitsAppend(rest, Zeros(z));
    FromBitsZeros(z);
    if FromBits(rest) != 0 {
      MulAtLeast(FromBits(rest), Pow2(z));
    }
  }

  /** What the reference loop does once every value is shifted in agrees with `Regroup`. */
  lemma FinishMatches(s: seq<bool>, acc: int, bits: nat, ret: seq<int>, fromBits: nat, toBits: nat, pad: bool, groupMod: int)
    requires 0 < fromBits && 0 < toBits && groupMod == Pow2(toBits)
    requires bits < toBits && Framed(s, acc, bits, ret, toBits)
    ensures Regroup(s, fromBits, toBits, pad) ==
      if pad then Some(ret + if bits == 0 then [] else [(acc * Pow2(toBits - bits)) % groupMod])
      else if bits >= fromBits || (acc * Pow2(toBits - bits)) % groupMod != 0 then None
      else Some(ret)
  {
    Drained(s, acc, bits, ret, toBits);
    var rest := s[|s| - bits..];
    assert rest == s[|s| - |s| % toBits..];
    var flushed := (acc * Pow2(toBits - bits)) % Pow2(toBits);
    assert flushed == FromBits(rest + Zeros(toBits - bits)) && (flushed == 0 <==> FromBits(rest) == 0) by {
      FlushGroup(acc, rest, toBits);
    }
  }

  /** The reference's inner loop: emit every complete `toBits`-bit group held in the accumulator. */
  method EmitGroups(ghost s: seq<bool>, acc: int, bits: nat, ret: seq<int>, toBits: nat, maxv: int)
    returns (bits': nat, ret': seq<int>)
    requires 0 < toBits && maxv == Pow2(toBits) - 1 && Framed(s, acc, bits, ret, toBits)
    ensures bits' < toBits && Framed(s, acc, bits', ret', toBits)
  {
    bits', ret' := bits, ret;
    while bits' >= toBits
      invariant Framed(s, acc, bits', ret', toBits)
      decreases bits'
    {
      EmitGroup(s, acc, bits', ret', toBits, maxv + 1);
      bits' := bits' - toBits;
      ret' := ret' + [(acc / Pow2(bits')) % (maxv + 1)];
    }
  }

  /**
   * The reference's tail: with padding, emit the pending bits as a last group
   * filled with zero bits; without padding, refuse pending bits that make a
   * whole input value or that hold a one bit.
   */
  method Flush(ghost s: seq<bool>, acc: int, bits: nat, ret: seq<int>, fromBits: nat, toBits: nat, pad: bool, maxv: int)
    returns (r: Option<seq<int>>)
    requires 0 < fromBits && 0 < toBits && maxv == Pow2(toBits) - 1
    requires bits < toBits && Framed(s, acc, bits, ret, toBits)
    ensures r == Regroup(s, fromBits, toBits, pad)
  {
    ghost var expected := Regroup(s, fromBits, toBits, pad);
    FinishMatches(s, acc, bits, ret, fromBits, toBits, pad, maxv + 1);
    var out := ret;
    if pad {
      ghost var tail := if bits == 0 then [] else [(acc * Pow2(toBits - bits)) % (maxv + 1)];
      assert expected == Some(ret + tail);
      if bits > 0 {
        out := out + [(acc * Pow2(toBits - bits)) % (maxv + 1)];
      }
      assert out == ret + tail;
    } else if bits >= fromBits || (acc * Pow2(toBits - bits)) % (maxv + 1) != 0 {
      return None;
    }
    assert expected == Some(out);
    return Some(out);
  }

  /** A value that does not fit in `fromBits` bits makes the regrouping fail. */
  lemma OutOfRange(data: seq<int>, i: nat, fromBits: nat, toBits: nat, pad: bool)
    requires 0 < fromBits && 0 < toBits && i < |data| && !(0 <= data[i] < Pow2(fromBits))
    ensures ConvertBits(data, fromBits, toBits, pad) == None
  {
    assert !InRange(data, fromBits);
  }

  /** The bit stream of one more value is the previous stream followed by that value's bits. */
  lemma StreamPrefix(data: seq<int>, i: nat, w: nat)
    requires i < |data| && InRange(data[..i], w) && 0 <= data[i] < Pow2(w)
    ensures InRange(data[..i + 1], w)
    ensures Stream(data[..i + 1], w) == Stream(data[..i], w) + ToBits(data[i], w)
  {
    assert data[..i + 1] == data[..i] + [data[i]];
    StreamAppend(data[..i], [data[i]], w);
  }

  /** The reference implementation's accumulator loop. */
  method ConvertBitsReference(data: seq<int>, fromBits: nat, toBits: nat, pad: bool) returns (r: Option<seq<int>>)
    requires 0 < fromBits && 0 < toBits
    ensures r == ConvertBits(data, fromBits, toBits, pad)
  {
    var acc: int := 0;
    var bits: nat := 0;
    var ret: seq<int> := [];
    // `x & maxv` and `x & maxAcc` below are written `x % (maxv + 1)` and
    // `x % (maxAcc + 1)`: the masks are all-ones and `x` is never negative.
    var maxv := Pow2(toBits) - 1;
    var maxAcc := Pow2(fromBits + toBits - 1) - 1;
    ghost var s: seq<bool> := [];
    var i := 0;
    while i < |data|
      invariant i <= |data|
      invariant InRange(data[..i], fromBits) && s == Stream(data[..i], fromBits)
      invariant bits < toBits && Framed(s, acc, bits, ret, toBits)
    {
      var value := data[i];
      if value < 0 || value >= Pow2(fromBits) {
        OutOfRange(data, i, fromBits, toBits, pad);
        return None;
      }
      ghost var s' := s + ToBits(value, fromBits);
      StreamPrefix(data, i, fromBits);
      ghost var acc0 := acc;
      acc := (acc * Pow2(fromBits) + value) % (maxAcc + 1);
      ShiftValueIn(s, acc0, bits, ret, value, fromBits, toBits, maxAcc + 1, acc);
      bits, ret := EmitGroups(s', acc, bits + fromBits, ret, toBits, maxv);
      s := s';
      i := i + 1;
    }
    assert ConvertBits(data, fromBits, toBits, pad) == Regroup(s, fromBits, toBits, pad) by {
      assert data[..i] == data;
    }
    r := Flush(s, acc, bits, ret, fromBits, toBits, pad, maxv);
  }
}
