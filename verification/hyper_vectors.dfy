/**
 * Binary hypervectors (Binary Spatter Codes) as sequences of booleans, and
 * the element-wise operations the text encoder applies to them: the all-false
 * vector, logical XOR, the count of set bits and circular rotation
 * (`torch.roll` along the dimension axis).
 */
module HyperVectors {

  type BitVec = seq<bool>

  /** `torch.zeros(1, n, dtype=torch.bool)`: the all-false vector of length `n`. */
  function Zeros(n: nat): (r: BitVec)
    ensures |r| == n
    ensures forall k :: 0 <= k < n ==> !r[k]
  {
    seq(n, _ => false)
  }

  /** `torch.logical_xor(a, b)` on two vectors of the same shape. */
  function Xor(a: BitVec, b: BitVec): (r: BitVec)
    requires |a| == |b|
    ensures |r| == |a|
    ensures forall k :: 0 <= k < |a| ==> (r[k] <==> a[k] != b[k])
  {
    seq(|a|, k requires 0 <= k < |a| => a[k] != b[k])
  }

  /**
   * Binding loses no information: XOR-ing the same vector in again undoes
   * it, and the all-false vector (the start of every n-gram fold) is neutral.
   */
  lemma XorUndoes(a: BitVec, b: BitVec)
    requires |a| == |b|
    ensures Xor(Xor(a, b), b) == a
    ensures Xor(a, Zeros(|a|)) == a
    ensures Xor(a, b) == Xor(b, a)
  {
  }

  /** Number of set bits (`.sum()` of a boolean tensor). */
  function PopCount(v: BitVec): (c: nat)
    ensures c <= |v|
  {
    if v == [] then 0 else (if v[0] then 1 else 0) + PopCount(v[1..])
  }

  lemma {:induction false} PopCountAppend(a: BitVec, b: BitVec)
    ensures PopCount(a + b) == PopCount(a) + PopCount(b)
  {
    if a != [] {
      assert (a + b)[0] == a[0] && (a + b)[1..] == a[1..] + b;
      PopCountAppend(a[1..], b);
    } else {
      assert a + b == b;
    }
  }

  /** A vector has no set bit exactly when its count of set bits is zero. */
  lemma {:induction false} PopCountZeroIff(v: BitVec)
    ensures PopCount(v) == 0 <==> forall k :: 0 <= k < |v| ==> !v[k]
  {
    if v != [] {
      PopCountZeroIff(v[1..]);
      assert forall k :: 1 <= k < |v| ==> v[k] == v[1..][k - 1];
    }
  }

  /**
   * `torch.roll(v, shifts=shift)`: every element moves `shift` places towards
   * the end, wrapping around, so element `j` of the result is element
   * `(j - shift) mod |v|` of `v`.
   */
  function Roll(v: BitVec, shift: nat): (r: BitVec)
    ensures |r| == |v|
    ensures |v| > 0 ==> r[shift % |v|] == v[0]
  {
    ShiftLandsOnZero(|v|, shift);
    seq(|v|, j requires 0 <= j < |v| => v[(j - shift) % |v|])
  }

  /** Position `shift mod n` is where a roll by `shift` puts element 0. */
  lemma ShiftLandsOnZero(n: nat, shift: nat)
    ensures n > 0 ==> (shift % n - shift) % n == 0
  {
    if n > 0 {
      DivModUnique(shift % n - shift, n, -(shift / n), 0);
    }
  }

  /** Euclidean division is unique: the quotient and remainder are determined. */
  lemma DivModUnique(a: int, d: int, q: int, r: int)
    requires d > 0 && 0 <= r < d && a == d * q + r
    ensures a / d == q && a % d == r
  {
    var q0, r0 := a / d, a % d;
    assert a == d * q0 + r0;
    if q0 < q {
      MulAtLeast(q - q0, d);
    } else if q < q0 {
      MulAtLeast(q0 - q, d);
    }
  }

  lemma {:induction false} MulAtLeast(x: int, d: int)
    requires x >= 1 && d > 0
    ensures d * x >= d
  {
    if x > 1 {
      MulAtLeast(x - 1, d);
      assert d * x == d * (x - 1) + d;
    }
  }

  /** Rolling by zero places leaves the vector as it is. */
  lemma RollZero(v: BitVec)
    ensures Roll(v, 0) == v
  {
  }

  /**
   * Rolling by `shift` is the rotation that moves the last `shift mod |v|`
   * elements to the front.
   */
  lemma RollIsRotation(v: BitVec, shift: nat)
    requires |v| > 0
    ensures var cut := |v| - shift % |v|;
            Roll(v, shift) == v[cut..] + v[..cut]
  {
    var n := |v|;
    var s := shift % n;
    var cut := n - s;
    var q := shift / n;
    assert shift == n * q + s;
    forall j | 0 <= j < n
      ensures Roll(v, shift)[j] == (v[cut..] + v[..cut])[j]
    {
      if j < s {
        DivModUnique(j - shift, n, -q - 1, cut + j);
      } else {
        DivModUnique(j - shift, n, -q, j - s);
      }
    }
  }

  /** Rotation keeps the number of set bits. */
  lemma RollPreservesPopCount(v: BitVec, shift: nat)
    ensures PopCount(Roll(v, shift)) == PopCount(v)
  {
    if |v| > 0 {
      var cut := |v| - shift % |v|;
      RollIsRotation(v, shift);
      PopCountAppend(v[cut..], v[..cut]);
      PopCountAppend(v[..cut], v[cut..]);
      assert v[..cut] + v[cut..] == v;
    }
  }

  /** Index arithmetic of a roll followed by the complementary roll. */
  lemma BackIndex(n: nat, shift: nat, j: nat)
    requires j < n
    ensures 0 <= (j - (n - shift % n)) % n < n
    ensures ((j - (n - shift % n)) % n - shift) % n == j
  {
    var s := shift % n;
    var back := n - s;
    var q := shift / n;
    assert shift == n * q + s;
    var m := (j - back) % n;
    if j < back {
      DivModUnique(j - back, n, -1, j + s);
      assert m - shift == n * -q + j;
      DivModUnique(m - shift, n, -q, j);
    } else {
      DivModUnique(j - back, n, 0, j - back);
      assert m - shift == n * (-q - 1) + j;
      DivModUnique(m - shift, n, -q - 1, j);
    }
  }

  lemma RollBackAt(v: BitVec, shift: nat, j: nat)
    requires j < |v|
    ensures Roll(Roll(v, shift), |v| - shift % |v|)[j] == v[j]
  {
    var n := |v|;
    BackIndex(n, shift, j);
    var once := Roll(v, shift);
    var m := (j - (n - shift % n)) % n;
    assert Roll(once, n - shift % n)[j] == once[m];
  }

  /** Rolling back by the complementary amount undoes a roll. */
  lemma RollInverse(v: BitVec, shift: nat)
    requires |v| > 0
    ensures Roll(Roll(v, shift), |v| - shift % |v|) == v
  {
    var n := |v|;
    var once := Roll(v, shift);
    var twice := Roll(once, n - shift % n);
    forall j | 0 <= j < n
      ensures twice[j] == v[j]
    {
      RollBackAt(v, shift, j);
    }
    assert twice == v;
  }
}
