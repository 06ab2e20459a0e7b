/**
 * Bit strings and the arithmetic behind regrouping a sequence of fixed-width
 * integers into groups of another width. A bit string is a `seq<bool>`,
 * most significant bit first.
 */
module Bits {

  function Pow2(n: nat): (r: nat)
    ensures r > 0
  {
    if n == 0 then 1 else 2 * Pow2(n - 1)
  }

  lemma {:induction false} Pow2Add(a: nat, b: nat)
    ensures Pow2(a + b) == Pow2(a) * Pow2(b)
  {
    if b > 0 {
      Pow2Add(a, b - 1);
      calc {
        Pow2(a + b);
        2 * Pow2(a + b - 1);
        2 * (Pow2(a) * Pow2(b - 1));
        Pow2(a) * (2 * Pow2(b - 1));
        Pow2(a) * Pow2(b);
      }
    }
  }

  /** Quotient and remainder are determined by any decomposition x == q * d + r with 0 <= r < d. */
  lemma DivModUnique(x: int, d: int, q: int, r: int)
    requires 0 < d && 0 <= r < d && x == q * d + r
    ensures x / d == q && x % d == r
  {
    var q0, r0 := x / d, x % d;
    var k := q - q0;
    assert k * d == r0 - r;
    if k >= 1 { MulAtLeast(k, d); }
    if k <= -1 { MulAtLeast(-k, d); }
  }

  lemma {:induction false} MulAtLeast(k: int, d: int)
    requires k >= 1 && d > 0
    ensures k * d >= d
    decreases k
  {
    if k > 1 {
      MulAtLeast(k - 1, d);
      assert k * d == (k - 1) * d + d;
    }
  }

  lemma ModMulMod(x: int, m: int, n: int)
    requires 0 < m && 0 < n
    ensures (x % (m * n)) % m == x % m
  {
    var q, r := x / (m * n), x % (m * n);
    var q', r' := r / m, r % m;
    assert x == q * (m * n) + r;
    assert r == q' * m + r';
    calc {
      x;
      q * (m * n) + (q' * m + r');
      { assert q * (m * n) == (q * n) * m; }
      (q * n) * m + q' * m + r';
      { assert (q * n) * m + q' * m == (q * n + q') * m; }
      (q * n + q') * m + r';
    }
    DivModUnique(x, m, q * n + q', r');
  }

  lemma ShiftInMul(acc: int, m: int, n: int, v: int)
    requires 0 < m && 0 < n && 0 <= v < n
    ensures (acc * n + v) % (m * n) == acc % m * n + v
  {
    var q, r := acc / m, acc % m;
    assert acc == q * m + r;
    calc {
      acc * n + v;
      (q * m + r) * n + v;
      { assert (q * m + r) * n == q * (m * n) + r * n; }
      q * (m * n) + (r * n + v);
    }
    assert r * n <= (m - 1) * n by {
      assert (m - 1) * n - r * n == (m - 1 - r) * n;
      MulNonneg(m - 1 - r, n);
    }
    assert (m - 1) * n == m * n - n;
    DivModUnique(acc * n + v, m * n, q, r * n + v);
  }

  lemma MulNonneg(a: int, b: int)
    requires 0 <= a && 0 <= b
    ensures 0 <= a * b
  {
  }

  lemma TakeHighMul(acc: int, m: int, n: int, hi: int, lo: int)
    requires 0 < m && 0 < n
    requires 0 <= hi < n && 0 <= lo < m
    requires acc % (m * n) == hi * m + lo
    ensures (acc / m) % n == hi
    ensures acc % m == lo
  {
    var q := acc / (m * n);
    assert acc == q * (m * n) + (hi * m + lo);
    calc {
      acc;
      q * (m * n) + hi * m + lo;
      { assert q * (m * n) + hi * m == (q * n + hi) * m; }
      (q * n + hi) * m + lo;
    }
    DivModUnique(acc, m, q * n + hi, lo);
    DivModUnique(q * n + hi, n, q, hi);
  }

  /** Reducing modulo a larger power of two keeps the low bits. */
  lemma ModPow2Mod(x: int, a: nat, b: nat)
    requires a <= b
    ensures (x % Pow2(b)) % Pow2(a) == x % Pow2(a)
  {
    Pow2Add(a, b - a);
    ModMulMod(x, Pow2(a), Pow2(b - a));
  }

  /** Shifting `w` bits in at the bottom: the low `k + w` bits are the old low `k` bits, then `v`. */
  lemma ShiftIn(acc: int, k: nat, w: nat, v: int)
    requires 0 <= v < Pow2(w)
    ensures (acc * Pow2(w) + v) % Pow2(k + w) == acc % Pow2(k) * Pow2(w) + v
  {
    Pow2Add(k, w);
    ShiftInMul(acc, Pow2(k), Pow2(w), v);
  }

  /** Taking the `t` bits that sit above the low `k` bits. */
  lemma TakeHigh(acc: int, k: nat, t: nat, hi: int, lo: int)
    requires 0 <= hi < Pow2(t) && 0 <= lo < Pow2(k)
    requires acc % Pow2(k + t) == hi * Pow2(k) + lo
    ensures (acc / Pow2(k)) % Pow2(t) == hi
    ensures acc % Pow2(k) == lo
  {
    Pow2Add(k, t);
    TakeHighMul(acc, Pow2(k), Pow2(t), hi, lo);
  }

  /** Shifting the low `k` bits up to the top of a `k + z`-bit group. */
  lemma ShiftUp(acc: int, k: nat, z: nat)
    ensures (acc * Pow2(z)) % Pow2(k + z) == acc % Pow2(k) * Pow2(z)
  {
    ShiftIn(acc, k, z, 0);
  }

  function BitValue(b: bool): nat
  {
    if b then 1 else 0
  }

  /** The number a bit string denotes. */
  function FromBits(bs: seq<bool>): (r: nat)
    ensures r < Pow2(|bs|)
  {
    if bs == [] then 0 else 2 * FromBits(bs[..|bs| - 1]) + BitValue(bs[|bs| - 1])
  }

  /** The `w` low bits of `v`, most significant first. */
  function ToBits(v: nat, w: nat): (r: seq<bool>)
    ensures |r| == w
  {
    if w == 0 then [] else ToBits(v / 2, w - 1) + [v % 2 == 1]
  }

  function Zeros(n: nat): (r: seq<bool>)
    ensures |r| == n
  {
    seq(n, _ => false)
  }

  lemma {:induction false} FromToBits(v: nat, w: nat)
    requires v < Pow2(w)
    ensures FromBits(ToBits(v, w)) == v
  {
    if w > 0 {
      var t := ToBits(v, w);
      assert t[..w - 1] == ToBits(v / 2, w - 1);
      FromToBits(v / 2, w - 1);
    }
  }

  lemma {:induction false} ToFromBits(bs: seq<bool>)
    ensures ToBits(FromBits(bs), |bs|) == bs
  {
    if bs != [] {
      var n := |bs|;
      var f := FromBits(bs[..n - 1]);
      assert FromBits(bs) / 2 == f && FromBits(bs) % 2 == BitValue(bs[n - 1]) by {
        DivModUnique(FromBits(bs), 2, f, BitValue(bs[n - 1]));
      }
      ToFromBits(bs[..n - 1]);
      assert bs == bs[..n - 1] + [bs[n - 1]];
    }
  }

  lemma DoubleFactor(x: int, y: int)
    ensures 2 * (x * y) == x * (2 * y)
  {
  }

  lemma FromBitsSnoc(bs: seq<bool>, x: bool)
    ensures FromBits(bs + [x]) == 2 * FromBits(bs) + BitValue(x)
  {
    assert (bs + [x])[..|bs|] == bs;
  }

  lemma {:induction false} FromBitsAppend(a: seq<bool>, b: seq<bool>)
    ensures FromBits(a + b) == FromBits(a) * Pow2(|b|) + FromBits(b)
  {
    if b == [] {
      assert a + b == a;
    } else {
      var n := |b|;
      var init, last := b[..n - 1], b[n - 1];
      assert b == init + [last];
      assert a + b == (a + init) + [last];
      FromBitsSnoc(a + init, last);
      FromBitsSnoc(init, last);
      FromBitsAppend(a, init);
      var hi, p, lo := FromBits(a), Pow2(n - 1), FromBits(init);
      assert Pow2(|b|) == 2 * p;
      calc {
        FromBits(a + b);
        2 * FromBits(a + init) + BitValue(last);
        2 * (hi * p + lo) + BitValue(last);
        { DoubleFactor(hi, p); }
        hi * (2 * p) + (2 * lo + BitValue(last));
        hi * Pow2(|b|) + FromBits(b);
      }
    }
  }

  /** Only an all-zero bit string denotes zero. */
  lemma {:induction false} FromBitsZeroIsZeros(bs: seq<bool>)
    requires FromBits(bs) == 0
    ensures bs == Zeros(|bs|)
  {
    if bs != [] {
      var n := |bs|;
      FromBitsZeroIsZeros(bs[..n - 1]);
      assert bs == bs[..n - 1] + [bs[n - 1]];
      assert Zeros(n) == Zeros(n - 1) + [false];
    }
  }

  lemma {:induction false} FromBitsZeros(n: nat)
    ensures FromBits(Zeros(n)) == 0
  {
    if n > 0 {
      assert Zeros(n)[..n - 1] == Zeros(n - 1);
      FromBitsZeros(n - 1);
    }
  }

  /** Every element of `data` fits in `w` bits. */
  predicate InRange(data: seq<int>, w: nat)
  {
    forall i :: 0 <= i < |data| ==> 0 <= data[i] < Pow2(w)
  }

  /** The concatenated `w`-bit representations of the elements of `data`. */
  function Stream(data: seq<int>, w: nat): seq<bool>
    requires InRange(data, w)
  {
    if data == [] then [] else ToBits(data[0], w) + Stream(data[1..], w)
  }

  lemma {:induction false} StreamLength(data: seq<int>, w: nat)
    requires InRange(data, w)
    ensures |Stream(data, w)| == |data| * w
  {
    if data != [] {
      StreamLength(data[1..], w);
      assert (|data| - 1) * w + w == |data| * w;
    }
  }

  /** The complete `t`-bit groups of `bs`, as numbers; a final group shorter than `t` is dropped. */
  function Chunks(bs: seq<bool>, t: nat): (r: seq<int>)
    requires 0 < t
    ensures InRange(r, t)
    decreases |bs|
  {
    if |bs| < t then [] else [FromBits(bs[..t])] + Chunks(bs[t..], t)
  }

  lemma {:induction false} ChunksLength(bs: seq<bool>, t: nat)
    requires 0 < t
    ensures |Chunks(bs, t)| == |bs| / t
    decreases |bs|
  {
    if |bs| < t {
      DivModUnique(|bs|, t, 0, |bs|);
    } else {
      DivSub(|bs|, t);
      ChunksLength(bs[t..], t);
    }
  }

  lemma AddModulus(n: int, t: int)
    requires 0 < t
    ensures (n + t) % t == n % t
  {
    assert (n / t + 1) * t == n / t * t + t;
    DivModUnique(n + t, t, n / t + 1, n % t);
  }

  lemma DivSub(n: int, t: int)
    requires 0 < t <= n
    ensures (n - t) / t == n / t - 1 && (n - t) % t == n % t
  {
    DivModUnique(n - t, t, n / t - 1, n % t);
  }

  lemma {:induction false} StreamAppend(a: seq<int>, b: seq<int>, w: nat)
    requires InRange(a, w) && InRange(b, w)
    ensures InRange(a + b, w)
    ensures Stream(a + b, w) == Stream(a, w) + Stream(b, w)
  {
    if a != [] {
      assert (a + b)[1..] == a[1..] + b;
      StreamAppend(a[1..], b, w);
    } else {
      assert a + b == b;
    }
  }

  lemma {:induction false} ChunksAppend(a: seq<bool>, b: seq<bool>, t: nat)
    requires 0 < t && |a| % t == 0
    ensures Chunks(a + b, t) == Chunks(a, t) + Chunks(b, t)
    decreases |a|
  {
    if a == [] {
      assert a + b == b;
    } else {
      assert |a| >= t by {
        if |a| < t { DivModUnique(|a|, t, 0, |a|); }
      }
      DivSub(|a|, t);
      assert (a + b)[..t] == a[..t];
      assert (a + b)[t..] == a[t..] + b;
      ChunksAppend(a[t..], b, t);
    }
  }

  /** Splitting the stream of `w`-bit values into `w`-bit groups gives the values back. */
  lemma {:induction false} ChunksStream(data: seq<int>, w: nat)
    requires 0 < w && InRange(data, w)
    ensures Chunks(Stream(data, w), w) == data
  {
    if data != [] {
      var s := Stream(data, w);
      var head := ToBits(data[0], w);
      assert s[..w] == head;
      assert s[w..] == Stream(data[1..], w);
      FromToBits(data[0], w);
      ChunksStream(data[1..], w);
    }
  }

  /** Re-serialising the complete groups gives back the prefix of `bs` they cover. */
  lemma {:induction false} StreamChunks(bs: seq<bool>, t: nat)
    requires 0 < t
    ensures Stream(Chunks(bs, t), t) == bs[..|bs| - |bs| % t]
    decreases |bs|
  {
    if |bs| < t {
      DivModUnique(|bs|, t, 0, |bs|);
    } else {
      var rest := bs[t..];
      var c, c' := Chunks(bs, t), Chunks(rest, t);
      assert Stream(c, t) == bs[..t] + Stream(c', t) by {
        ToFromBits(bs[..t]);
        assert c[1..] == c';
      }
      StreamChunks(rest, t);
      assert bs[..|bs| - |bs| % t] == bs[..t] + rest[..|rest| - |rest| % t] by {
        DivSub(|bs|, t);
      }
    }
  }

  lemma ChunksSingle(g: seq<bool>, t: nat)
    requires 0 < t && |g| == t
    ensures Chunks(g, t) == [FromBits(g)]
  {
    assert g[..t] == g;
    assert Chunks(g[t..], t) == [];
  }

  lemma {:induction false} ChunksShort(bs: seq<bool>, t: nat)
    requires 0 < t && |bs| < t
    ensures Chunks(bs, t) == []
  {
  }
}
