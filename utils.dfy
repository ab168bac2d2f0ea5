/**
 * The helpers of cov/src/utils.rs: filling a bit set with ones, componentwise
 * tuple sums (and the folds the report code builds from them), and the
 * `or_default` entry operation.
 */
module Utils {
  import opened Words

  /**
   * `fill_fixedbitset_with_ones`: a bit set of `len` bits is stored in
   * `ceil(len / 32)` words; afterwards exactly the first `len` bits are set, and
   * the unused high bits of the last word stay clear.
   */
  method FillWithOnes(words: array<bv32>, len: nat)
    requires words.Length == (len + 31) / 32
    modifies words
    ensures forall j, b :: 0 <= j < words.Length && 0 <= b < 32 ==> (BitSet(words[j], b) <==> 32 * j + b < len)
    ensures len % 32 == 0 ==> forall j :: 0 <= j < words.Length ==> words[j] == 0xffff_ffff
  {
    var excessBits := len % 32;
    for j := 0 to words.Length
      invariant forall i :: 0 <= i < j ==> words[i] == 0xffff_ffff
    {
      words[j] := 0xffff_ffff;
    }
    if excessBits != 0 {
      words[words.Length - 1] := 0x7fff_ffff >> (31 - excessBits);
    }
    forall j, b | 0 <= j < words.Length && 0 <= b < 32
      ensures BitSet(words[j], b) <==> 32 * j + b < len
    {
      FillBit(words.Length, len, j, b, words[j]);
    }
  }

  /** The arithmetic behind `FillWithOnes`: which bit positions lie below `len`. */
  lemma FillBit(n: nat, len: nat, j: nat, b: nat, w: bv32)
    requires n == (len + 31) / 32 && j < n && b < 32
    requires len % 32 == 0 || j < n - 1 ==> w == 0xffff_ffff
    requires len % 32 != 0 && j == n - 1 ==> w == 0x7fff_ffff >> (31 - len % 32)
    ensures BitSet(w, b) <==> 32 * j + b < len
  {
    if len % 32 == 0 {
      assert len == 32 * n;
      assert 32 * j + b < 32 * (j + 1) <= len;
    } else if j < n - 1 {
      assert 32 * (n - 1) < len;
      assert 32 * j + b < 32 * (j + 1) <= 32 * (n - 1);
    } else {
      assert len == 32 * (n - 1) + len % 32;
      LowMaskBits(len % 32, b);
    }
  }

  /** `0x7fff_ffff >> (31 - k)` has exactly its low `k` bits set. */
  lemma LowMaskBits(k: nat, b: nat)
    requires 1 <= k <= 31 && b < 32
    ensures BitSet(0x7fff_ffff >> (31 - k), b) <==> b < k
  {
    var mb, bb := (31 - k) as bv5, b as bv5;
    LowMaskBv(mb, bb);
    ShiftByBv5(0x7fff_ffff, 31 - k, true);
    ShiftByBv5(1, b, false);
  }

  /** Shifting by a small whole number is shifting by the same amount as a 5-bit value. */
  lemma ShiftByBv5(w: bv32, n: nat, right: bool)
    requires n < 32
    ensures (n as bv5) as int == n
    ensures right ==> w >> n == w >> (n as bv5)
    ensures !right ==> w << n == w << (n as bv5)
  {
  }

  /** `LowMaskBits` over 5-bit shift amounts and positions, where the solver compares them cheaply. */
  lemma LowMaskBv(m: bv5, b: bv5)
    requires m <= 30
    ensures ((0x7fff_ffff as bv32) >> m) & ((1 as bv32) << b) != 0 <==> b as int + m as int < 31
  {
  }

  /** `tuple_3_add`. */
  function Tuple3Add(left: (nat, nat, nat), right: (nat, nat, nat)): (nat, nat, nat)
  {
    (left.0 + right.0, left.1 + right.1, left.2 + right.2)
  }

  /** `tuple_4_add`. */
  function Tuple4Add(left: (nat, nat, nat, nat), right: (nat, nat, nat, nat)): (nat, nat, nat, nat)
  {
    (left.0 + right.0, left.1 + right.1, left.2 + right.2, left.3 + right.3)
  }

  function Sum(xs: seq<nat>): nat
  {
    if xs == [] then 0 else Sum(xs[..|xs| - 1]) + xs[|xs| - 1]
  }

  /** `iter.fold((0, 0, 0), tuple_3_add)`. */
  function Fold3(xs: seq<(nat, nat, nat)>): (nat, nat, nat)
  {
    if xs == [] then (0, 0, 0) else Tuple3Add(Fold3(xs[..|xs| - 1]), xs[|xs| - 1])
  }

  /** `iter.fold((0, 0, 0, 0), tuple_4_add)`. */
  function Fold4(xs: seq<(nat, nat, nat, nat)>): (nat, nat, nat, nat)
  {
    if xs == [] then (0, 0, 0, 0) else Tuple4Add(Fold4(xs[..|xs| - 1]), xs[|xs| - 1])
  }

  /** Folding with `tuple_3_add` sums each component separately. */
  lemma {:induction false} Fold3Componentwise(xs: seq<(nat, nat, nat)>)
    ensures Fold3(xs) == (Sum(seq(|xs|, i requires 0 <= i < |xs| => xs[i].0)),
                          Sum(seq(|xs|, i requires 0 <= i < |xs| => xs[i].1)),
                          Sum(seq(|xs|, i requires 0 <= i < |xs| => xs[i].2)))
  {
    if xs != [] {
      var ys := xs[..|xs| - 1];
      Fold3Componentwise(ys);
      assert seq(|xs|, i requires 0 <= i < |xs| => xs[i].0)[..|ys|] == seq(|ys|, i requires 0 <= i < |ys| => ys[i].0);
      assert seq(|xs|, i requires 0 <= i < |xs| => xs[i].1)[..|ys|] == seq(|ys|, i requires 0 <= i < |ys| => ys[i].1);
      assert seq(|xs|, i requires 0 <= i < |xs| => xs[i].2)[..|ys|] == seq(|ys|, i requires 0 <= i < |ys| => ys[i].2);
    }
  }

  /** Folding with `tuple_4_add` sums each component separately. */
  lemma {:induction false} Fold4Componentwise(xs: seq<(nat, nat, nat, nat)>)
    ensures Fold4(xs) == (Sum(seq(|xs|, i requires 0 <= i < |xs| => xs[i].0)),
                          Sum(seq(|xs|, i requires 0 <= i < |xs| => xs[i].1)),
                          Sum(seq(|xs|, i requires 0 <= i < |xs| => xs[i].2)),
                          Sum(seq(|xs|, i requires 0 <= i < |xs| => xs[i].3)))
  {
    if xs != [] {
      var ys := xs[..|xs| - 1];
      Fold4Componentwise(ys);
      assert seq(|xs|, i requires 0 <= i < |xs| => xs[i].0)[..|ys|] == seq(|ys|, i requires 0 <= i < |ys| => ys[i].0);
      assert seq(|xs|, i requires 0 <= i < |xs| => xs[i].1)[..|ys|] == seq(|ys|, i requires 0 <= i < |ys| => ys[i].1);
      assert seq(|xs|, i requires 0 <= i < |xs| => xs[i].2)[..|ys|] == seq(|ys|, i requires 0 <= i < |ys| => ys[i].2);
      assert seq(|xs|, i requires 0 <= i < |xs| => xs[i].3)[..|ys|] == seq(|ys|, i requires 0 <= i < |ys| => ys[i].3);
    }
  }

  /** A sum of values each at most 1 is at most the number of values. */
  lemma {:induction false} SumOfBitsBounded(xs: seq<nat>)
    requires forall i :: 0 <= i < |xs| ==> xs[i] <= 1
    ensures Sum(xs) <= |xs|
  {
    if xs != [] {
      SumOfBitsBounded(xs[..|xs| - 1]);
    }
  }

  /**
   * `entry(key).or_default()`: the map with `key` present, holding its old
   * value if it had one and `default` otherwise; no other key changes.
   */
  function OrDefault<K(!new), V>(m: map<K, V>, key: K, default: V): (r: map<K, V>)
    ensures key in r && r[key] == (if key in m then m[key] else default)
    ensures forall k :: k != key ==> (k in r <==> k in m)
    ensures forall k :: k != key && k in m ==> r[k] == m[k]
  {
    if key in m then m else m[key := default]
  }

  /** `or_default` on a present key changes nothing, so applying it twice is applying it once. */
  lemma OrDefaultIdempotent<K(!new), V>(m: map<K, V>, key: K, default: V)
    ensures OrDefault(OrDefault(m, key, default), key, default) == OrDefault(m, key, default)
  {
  }
}
