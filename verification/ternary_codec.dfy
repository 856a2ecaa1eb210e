/**
 * The ternary side of `TernaryHDCEncoder`: the threshold mapping of
 * `ternarize`, the 2-bit packing codec (`pack_ternary` / `unpack_ternary`)
 * that stores four values of {-1, 0, +1} per byte, most significant pair
 * first, and the integer fields of `get_vector_size`.
 *
 * Ternary values are `int`s (the source's `astype(np.int8)` view of the
 * float tensor); bytes are `bv8` so that the shifts, masks and ORs of the
 * source keep their meaning.
 */
module TernaryCodec {
  import opened Wrappers

  type byte = bv8

  predicate IsTernary(v: int)
  {
    v == -1 || v == 0 || v == 1
  }

  predicate AllTernary(vector: seq<int>)
  {
    forall i :: 0 <= i < |vector| ==> IsTernary(vector[i])
  }

  // ---------------------------------------------------------------------------
  // ternarize: the threshold step
  // ---------------------------------------------------------------------------

  /**
   * The value `ternarize` leaves at one position: `+1` where `x > threshold`,
   * then `-1` where `x < -threshold` (the later assignment wins), else `0`.
   */
  function ThresholdValue(x: real, threshold: real): int
  {
    if x < -threshold then -1 else if x > threshold then 1 else 0
  }

  /**
   * With a non-negative threshold every output is ternary: `+1` exactly
   * above the threshold, `-1` exactly below its negation, `0` in between.
   */
  lemma ThresholdClassifies(x: real, threshold: real)
    requires threshold >= 0.0
    ensures IsTernary(ThresholdValue(x, threshold))
    ensures ThresholdValue(x, threshold) == 1 <==> x > threshold
    ensures ThresholdValue(x, threshold) == -1 <==> x < -threshold
    ensures ThresholdValue(x, threshold) == 0 <==> -threshold <= x <= threshold
  {
  }

  /**
   * The masked assignments of `ternarize` on one row, given that row's
   * threshold: start from zeros, write `+1` under the mask `x > threshold`,
   * then `-1` under the mask `x < -threshold`.
   */
  method Ternarize(vector: seq<real>, threshold: real) returns (ternary: seq<int>)
    ensures |ternary| == |vector|
    ensures forall i :: 0 <= i < |vector| ==> ternary[i] == ThresholdValue(vector[i], threshold)
    ensures AllTernary(ternary)
  {
    var t := new int[|vector|](_ => 0);
    var i := 0;
    while i < |vector|
      invariant 0 <= i <= |vector|
      invariant forall j :: 0 <= j < i ==> t[j] == if vector[j] > threshold then 1 else 0
      invariant forall j :: i <= j < |vector| ==> t[j] == 0
    {
      if vector[i] > threshold {
        t[i] := 1;
      }
      i := i + 1;
    }
    i := 0;
    while i < |vector|
      invariant 0 <= i <= |vector|
      invariant forall j :: 0 <= j < i ==> t[j] == ThresholdValue(vector[j], threshold)
      invariant forall j :: i <= j < |vector| ==> t[j] == if vector[j] > threshold then 1 else 0
    {
      if vector[i] < -threshold {
        t[i] := -1;
      }
      i := i + 1;
    }
    ternary := t[..];
  }

  // ---------------------------------------------------------------------------
  // pack_ternary
  // ---------------------------------------------------------------------------

  /** The 2-bit code of a value: 0 -> 00, +1 -> 01, -1 -> 10; other values get none. */
  function PairCode(v: int): Option<byte>
  {
    if v == 0 then Some(0) else if v == 1 then Some(1) else if v == -1 then Some(2) else None
  }

  /** The `bits` list: the codes of the values, in order, skipping values without a code. */
  function Codes(vector: seq<int>): (bits: seq<byte>)
    ensures |bits| <= |vector|
    ensures forall m :: 0 <= m < |bits| ==> bits[m] < 3
  {
    if vector == [] then []
    else
      var code := PairCode(vector[|vector| - 1]);
      Codes(vector[..|vector| - 1]) + (if code.Some? then [code.value] else [])
  }

  /**
   * The byte the inner loop has assembled for the group starting at `i`
   * after `j` of its four steps: step `j` ORs in `bits[i + j] << (6 - 2j)`
   * when that code exists.
   */
  function PartialByte(bits: seq<byte>, i: nat, j: nat): byte
    requires j <= 4
  {
    if j == 0 then 0
    else
      var b := PartialByte(bits, i, j - 1);
      if i + j - 1 < |bits| then b | Slot(bits[i + j - 1], j - 1) else b
  }

  /** `code << (6 - 2 * j)`: the code placed in slot `j` of a byte, slot 0 highest. */
  function Slot(code: byte, j: nat): byte
    requires j < 4
  {
    if j == 0 then code << 6 else if j == 1 then code << 4 else if j == 2 then code << 2 else code
  }

  /** `pack_ternary`: one byte per group of four codes (the last group may be short). */
  function Pack(vector: seq<int>): (packed: seq<byte>)
    ensures |packed| == (|Codes(vector)| + 3) / 4
  {
    var bits := Codes(vector);
    seq((|bits| + 3) / 4, k requires 0 <= k < (|bits| + 3) / 4 => PartialByte(bits, 4 * k, 4))
  }

  /** The inner loop of `pack_ternary`: up to four codes from `i` on, first code in the high bits. */
  method PackByte(bits: seq<byte>, i: nat) returns (b: byte)
    ensures b == PartialByte(bits, i, 4)
  {
    b := 0;
    var j := 0;
    while j < 4
      invariant 0 <= j <= 4
      invariant b == PartialByte(bits, i, j)
    {
      if i + j < |bits| {
        b := b | Slot(bits[i + j], j);
      }
      j := j + 1;
    }
  }

  /** `pack_ternary` as the source runs it: build the code list, then pack it four codes per byte. */
  method PackTernary(vector: seq<int>) returns (packed: seq<byte>)
    ensures packed == Pack(vector)
  {
    var bits: seq<byte> := [];
    var n := 0;
    while n < |vector|
      invariant 0 <= n <= |vector|
      invariant bits == Codes(vector[..n])
    {
      var val := vector[n];
      if val == 0 {
        bits := bits + [0x0];
      } else if val == 1 {
        bits := bits + [0x1];
      } else if val == -1 {
        bits := bits + [0x2];
      }
      assert vector[..n + 1][..n] == vector[..n];
      n := n + 1;
    }
    assert vector[..|vector|] == vector;
    packed := [];
    var i := 0;
    while i < |bits|
      invariant i == 4 * |packed| && i <= |bits| + 3
      invariant forall k :: 0 <= k < |packed| ==> packed[k] == PartialByte(bits, 4 * k, 4)
      decreases |bits| - i
    {
      var b := PackByte(bits, i);
      packed := packed + [b];
      i := i + 4;
    }
  }

  // ---------------------------------------------------------------------------
  // unpack_ternary
  // ---------------------------------------------------------------------------

  /** The pair read at step `s` of the inner loop: `(byte >> shift) & 0b11` with shift 6, 4, 2, 0. */
  function Pair(b: byte, s: nat): byte
    requires s < 4
  {
    if s == 0 then (b >> 6) & 3
    else if s == 1 then (b >> 4) & 3
    else if s == 2 then (b >> 2) & 3
    else b & 3
  }

  /** The value a pair decodes to: 00 -> 0, 01 -> +1, 10 -> -1; 11 gives none. */
  function DecodePair(p: byte): Option<int>
  {
    if p == 0 then Some(0) else if p == 1 then Some(1) else if p == 2 then Some(-1) else None
  }

  /** The values the first `s` pairs of a byte contribute. */
  function DecodeSlots(b: byte, s: nat): (values: seq<int>)
    requires s <= 4
    ensures |values| <= s
  {
    if s == 0 then []
    else
      var p := DecodePair(Pair(b, s - 1));
      DecodeSlots(b, s - 1) + (if p.Some? then [p.value] else [])
  }

  function DecodeByte(b: byte): (values: seq<int>)
    ensures |values| <= 4
  {
    DecodeSlots(b, 4)
  }

  /** All values of a packed buffer, byte after byte, before any truncation. */
  function Decoded(packed: seq<byte>): (values: seq<int>)
    ensures |values| <= 4 * |packed|
  {
    if packed == [] then []
    else Decoded(packed[..|packed| - 1]) + DecodeByte(packed[|packed| - 1])
  }

  /** Python's `values[:k]`, where a negative `k` counts from the end. */
  function PrefixSlice(values: seq<int>, k: int): seq<int>
  {
    if k >= 0 then values[..if k <= |values| then k else |values|]
    else values[..if |values| + k >= 0 then |values| + k else 0]
  }

  /**
   * `unpack_ternary`: the first `hdDim` decoded values; nothing at all when
   * `hdDim <= 0`.
   */
  function Unpack(packed: seq<byte>, hdDim: int): (values: seq<int>)
  {
    if hdDim <= 0 then [] else PrefixSlice(Decoded(packed), hdDim)
  }

  /**
   * The inner loop of `unpack_ternary` over the four pairs of byte `b`,
   * appending to `prefix`: it reads `s` pairs, stopping early exactly when
   * `hdDim` values are collected.
   */
  method UnpackByte(b: byte, prefix: seq<int>, hdDim: int) returns (decoded: seq<int>, s: nat)
    ensures 1 <= s <= 4
    ensures decoded == prefix + DecodeSlots(b, s)
    ensures |decoded| < hdDim ==> s == 4
    ensures s < 4 ==> |decoded| >= hdDim
    ensures s > 1 ==> |prefix + DecodeSlots(b, s - 1)| < hdDim
  {
    decoded := prefix;
    s := 0;
    while true
      invariant 0 <= s < 4
      invariant decoded == prefix + DecodeSlots(b, s)
      invariant s > 0 ==> |decoded| < hdDim
      decreases 4 - s
    {
      var bits := Pair(b, s);
      ghost var before := decoded;
      if bits == 0x0 {
        decoded := decoded + [0];
      } else if bits == 0x1 {
        decoded := decoded + [1];
      } else if bits == 0x2 {
        decoded := decoded + [-1];
      }
      assert decoded == prefix + DecodeSlots(b, s + 1) by {
        DecodeSlotsStep(b, s, bits);
        assert decoded == before + (if bits < 3 then [CodeValue(bits)] else []);
        AppendAssociates(prefix, DecodeSlots(b, s), if bits < 3 then [CodeValue(bits)] else []);
      }
      s := s + 1;
      if |decoded| >= hdDim || s == 4 {
        return;
      }
    }
  }

  /**
   * `unpack_ternary` as the source runs it: decode byte by byte, stopping
   * as soon as `hdDim` values are collected, then slice to `hdDim`.
   */
  method UnpackTernary(packed: seq<byte>, hdDim: int) returns (values: seq<int>)
    ensures values == Unpack(packed, hdDim)
  {
    var decoded: seq<int> := [];
    var n := 0;
    while n < |packed|
      invariant 0 <= n <= |packed|
      invariant decoded == Decoded(packed[..n])
      invariant hdDim > 0 ==> |decoded| < hdDim
      invariant hdDim <= 0 ==> n == 0 && decoded == []
    {
      var s;
      decoded, s := UnpackByte(packed[n], decoded, hdDim);
      if |decoded| >= hdDim {
        assert PrefixSlice(decoded, hdDim) == Unpack(packed, hdDim) by {
          UnpackStops(packed, n, s, hdDim);
        }
        break;
      }
      assert decoded == Decoded(packed[..n + 1]) by {
        DecodedStep(packed, n);
      }
      n := n + 1;
    }
    if n == |packed| && (hdDim <= 0 || |decoded| < hdDim) {
      assert PrefixSlice(decoded, hdDim) == Unpack(packed, hdDim) by {
        assert packed[..n] == packed;
      }
    }
    values := PrefixSlice(decoded, hdDim);
  }

  lemma AppendAssociates(a: seq<int>, b: seq<int>, c: seq<int>)
    ensures (a + b) + c == a + (b + c)
  {
  }

  lemma DecodeSlotsStep(b: byte, s: nat, bits: byte)
    requires s < 4 && bits == Pair(b, s)
    ensures DecodeSlots(b, s + 1) == DecodeSlots(b, s) + (if bits < 3 then [CodeValue(bits)] else [])
  {
  }

  lemma DecodedStep(packed: seq<byte>, n: nat)
    requires n < |packed|
    ensures Decoded(packed[..n + 1]) == Decoded(packed[..n]) + DecodeSlots(packed[n], 4)
  {
    assert packed[..n + 1][..n] == packed[..n];
  }

  /**
   * Stopping after pair `s` of byte `n`, as soon as `hdDim` values are
   * collected, yields the first `hdDim` values of the whole decoding.
   */
  lemma UnpackStops(packed: seq<byte>, n: nat, s: nat, hdDim: int)
    requires n < |packed| && 1 <= s <= 4
    requires |Decoded(packed[..n]) + DecodeSlots(packed[n], s)| >= hdDim
    requires hdDim <= 0 ==> n == 0 && s == 1
    ensures PrefixSlice(Decoded(packed[..n]) + DecodeSlots(packed[n], s), hdDim) == Unpack(packed, hdDim)
  {
    var decoded := Decoded(packed[..n]) + DecodeSlots(packed[n], s);
    if hdDim > 0 {
      DecodedPrefix(packed, n, s);
      assert decoded[..hdDim] == Decoded(packed)[..hdDim];
    } else {
      assert n == 0 && packed[..n] == [];
      assert |decoded| <= 1;
    }
  }

  /** What the first `s` pairs of byte `n` add to the first `n` bytes is a prefix of the whole decoding. */
  lemma DecodedPrefix(packed: seq<byte>, n: nat, s: nat)
    requires n < |packed| && s <= 4
    ensures Decoded(packed[..n]) + DecodeSlots(packed[n], s) <= Decoded(packed)
  {
    var front := Decoded(packed[..n]);
    var part := DecodeSlots(packed[n], s);
    var whole := DecodeSlots(packed[n], 4);
    DecodeSlotsPrefix(packed[n], s, 4);
    DecodedStep(packed, n);
    DecodedGrows(packed, n + 1);
    assert front + part <= front + whole;
  }

  lemma {:induction false} DecodeSlotsPrefix(b: byte, s: nat, t: nat)
    requires s <= t <= 4
    ensures DecodeSlots(b, s) <= DecodeSlots(b, t)
    decreases t - s
  {
    if s < t {
      DecodeSlotsPrefix(b, s, t - 1);
    }
  }

  lemma {:induction false} DecodedGrows(packed: seq<byte>, n: nat)
    requires n <= |packed|
    ensures Decoded(packed[..n]) <= Decoded(packed)
    decreases |packed| - n
  {
    if n < |packed| {
      DecodedGrows(packed, n + 1);
      DecodedStep(packed, n);
    } else {
      assert packed[..n] == packed;
    }
  }

  // ---------------------------------------------------------------------------
  // Properties of the codec
  // ---------------------------------------------------------------------------

  /** Every ternary value has a code, so a ternary vector keeps one code per value. */
  lemma {:induction false} CodesOfTernary(vector: seq<int>)
    requires AllTernary(vector)
    ensures |Codes(vector)| == |vector|
    ensures forall m :: 0 <= m < |vector| ==> Some(Codes(vector)[m]) == PairCode(vector[m])
  {
    if vector != [] {
      var last := |vector| - 1;
      CodesOfTernary(vector[..last]);
      forall m | 0 <= m < last ensures vector[..last][m] == vector[m] {
      }
    }
  }

  /** Four 2-bit codes ORed into place, most significant first, are read back pair by pair. */
  lemma ByteLayout(bits: seq<byte>, i: nat)
    requires forall m :: 0 <= m < |bits| ==> bits[m] < 3
    ensures forall s :: 0 <= s < 4 ==> Pair(PartialByte(bits, i, 4), s) == if i + s < |bits| then bits[i + s] else 0
  {
    var c0: byte := if i < |bits| then bits[i] else 0;
    var c1: byte := if i + 1 < |bits| then bits[i + 1] else 0;
    var c2: byte := if i + 2 < |bits| then bits[i + 2] else 0;
    var c3: byte := if i + 3 < |bits| then bits[i + 3] else 0;
    assert PartialByte(bits, i, 1) == c0 << 6;
    assert PartialByte(bits, i, 2) == (c0 << 6) | (c1 << 4);
    assert PartialByte(bits, i, 3) == ((c0 << 6) | (c1 << 4)) | (c2 << 2);
    assert PartialByte(bits, i, 4) == (((c0 << 6) | (c1 << 4)) | (c2 << 2)) | c3;
    FourPairs(c0, c1, c2, c3);
  }

  lemma FourPairs(c0: byte, c1: byte, c2: byte, c3: byte)
    requires c0 < 4 && c1 < 4 && c2 < 4 && c3 < 4
    ensures var b := (((c0 << 6) | (c1 << 4)) | (c2 << 2)) | c3;
            Pair(b, 0) == c0 && Pair(b, 1) == c1 && Pair(b, 2) == c2 && Pair(b, 3) == c3
  {
  }

  /** A ternary vector of length `n` packs into `ceil(n / 4)` bytes. */
  lemma PackLength(vector: seq<int>)
    requires AllTernary(vector)
    ensures |Pack(vector)| == (|vector| + 3) / 4
  {
    CodesOfTernary(vector);
  }

  /**
   * Layout of the packed bytes: value `4i + j` sits in bits `6 - 2j ..
   * 7 - 2j` of byte `i` under its code; the unused trailing pairs of the
   * last byte are 00; and no pair is ever 11.
   */
  lemma PackLayout(vector: seq<int>)
    requires AllTernary(vector)
    ensures |Pack(vector)| == (|vector| + 3) / 4
    ensures forall m :: 0 <= m < |vector| ==> Some(Pair(Pack(vector)[m / 4], m % 4)) == PairCode(vector[m])
    ensures forall m :: |vector| <= m < 4 * |Pack(vector)| ==> Pair(Pack(vector)[m / 4], m % 4) == 0
    ensures forall k, s :: 0 <= k < |Pack(vector)| && 0 <= s < 4 ==> Pair(Pack(vector)[k], s) != 3
  {
    var bits := Codes(vector);
    CodesOfTernary(vector);
    forall m | 0 <= m < 4 * |Pack(vector)|
      ensures Pair(Pack(vector)[m / 4], m % 4) == if m < |bits| then bits[m] else 0
    {
      PackedPair(vector, m / 4, m % 4);
    }
    forall k, s | 0 <= k < |Pack(vector)| && 0 <= s < 4
      ensures Pair(Pack(vector)[k], s) != 3
    {
      PackedPair(vector, k, s);
    }
  }

  /** Pair `s` of packed byte `k` holds code `4k + s`, or 0 past the last code. */
  lemma PackedPair(vector: seq<int>, k: nat, s: nat)
    requires k < |Pack(vector)| && s < 4
    ensures Pair(Pack(vector)[k], s) == if 4 * k + s < |Codes(vector)| then Codes(vector)[4 * k + s] else 0
  {
    ByteLayout(Codes(vector), 4 * k);
  }

  /** The value a code stands for, with 0 for the 00 padding. */
  function CodeValue(c: byte): int
  {
    if c == 1 then 1 else if c == 2 then -1 else 0
  }

  /**
   * Decoding a packed ternary vector gives the vector back, followed by one
   * zero for each unused pair of the last byte.
   */
  lemma DecodedOfPack(vector: seq<int>)
    requires AllTernary(vector)
    ensures |Pack(vector)| == (|vector| + 3) / 4
    ensures Decoded(Pack(vector)) == vector + seq(4 * |Pack(vector)| - |vector|, _ => 0)
  {
    var packed := Pack(vector);
    var bits := Codes(vector);
    CodesOfTernary(vector);
    PackLength(vector);
    var padded := vector + seq(4 * |packed| - |vector|, _ => 0);
    forall k | 0 <= k < |packed|
      ensures DecodeByte(packed[k]) == padded[4 * k..4 * k + 4]
    {
      ByteDecodes(vector, bits, padded, 4 * k, packed[k]);
    }
    DecodedUpTo(packed, padded, |packed|);
    assert packed[..|packed|] == packed;
  }

  /** The byte packed from the codes at `i` on decodes to the four (zero-padded) values they came from. */
  lemma ByteDecodes(vector: seq<int>, bits: seq<byte>, padded: seq<int>, i: nat, b: byte)
    requires |bits| == |vector| && forall m :: 0 <= m < |vector| ==> Some(bits[m]) == PairCode(vector[m])
    requires |vector| <= |padded| && padded == vector + seq(|padded| - |vector|, _ => 0)
    requires i + 4 <= |padded| && b == PartialByte(bits, i, 4)
    ensures DecodeByte(b) == padded[i..i + 4]
  {
    assert DecodeByte(b) == [padded[i], padded[i + 1], padded[i + 2], padded[i + 3]] by {
      assert forall m :: 0 <= m < |bits| ==> bits[m] < 3 by {
        forall m | 0 <= m < |bits| ensures bits[m] < 3 {
          assert Some(bits[m]) == PairCode(vector[m]);
        }
      }
      ByteLayout(bits, i);
      forall s | 0 <= s < 4
        ensures DecodePair(Pair(b, s)) == Some(padded[i + s])
      {
        SlotDecodes(vector, bits, padded, b, i, s);
      }
      DecodeFourPairs(b);
    }
    assert padded[i..i + 4] == [padded[i], padded[i + 1], padded[i + 2], padded[i + 3]];
  }

  /** A slot of a packed byte decodes to the value it was packed from, or to the padding 0. */
  lemma SlotDecodes(vector: seq<int>, bits: seq<byte>, padded: seq<int>, b: byte, i: nat, s: nat)
    requires |bits| == |vector| && forall m :: 0 <= m < |vector| ==> Some(bits[m]) == PairCode(vector[m])
    requires s < 4 && i + s < |padded|
    requires |vector| <= |padded| && padded == vector + seq(|padded| - |vector|, _ => 0)
    requires Pair(b, s) == if i + s < |bits| then bits[i + s] else 0
    ensures DecodePair(Pair(b, s)) == Some(padded[i + s])
  {
    if i + s < |vector| {
      assert Some(bits[i + s]) == PairCode(vector[i + s]);
    }
  }



  /** A byte with no 11 pair decodes to exactly four values, one per pair. */
  lemma DecodeFourPairs(b: byte)
    requires forall s :: 0 <= s < 4 ==> DecodePair(Pair(b, s)).Some?
    ensures DecodeByte(b) == [DecodePair(Pair(b, 0)).value, DecodePair(Pair(b, 1)).value,
                              DecodePair(Pair(b, 2)).value, DecodePair(Pair(b, 3)).value]
  {
    assert DecodeSlots(b, 1) == [DecodePair(Pair(b, 0)).value];
    assert DecodeSlots(b, 2) == DecodeSlots(b, 1) + [DecodePair(Pair(b, 1)).value];
    assert DecodeSlots(b, 3) == DecodeSlots(b, 2) + [DecodePair(Pair(b, 2)).value];
  }

  lemma {:induction false} DecodedUpTo(packed: seq<byte>, padded: seq<int>, n: nat)
    requires n <= |packed| && |padded| == 4 * |packed|
    requires forall k :: 0 <= k < |packed| ==> DecodeByte(packed[k]) == padded[4 * k..4 * k + 4]
    ensures Decoded(packed[..n]) == padded[..4 * n]
  {
    if n > 0 {
      DecodedUpTo(packed, padded, n - 1);
      assert packed[..n][..n - 1] == packed[..n - 1];
      assert padded[..4 * n] == padded[..4 * (n - 1)] + padded[4 * (n - 1)..4 * n];
    }
  }

  /** Round trip: unpacking a packed ternary vector with its own length gives it back. */
  lemma RoundTrip(vector: seq<int>)
    requires AllTernary(vector)
    ensures Unpack(Pack(vector), |vector|) == vector
  {
    DecodedOfPack(vector);
    PackLength(vector);
    var d := Decoded(Pack(vector));
    if |vector| > 0 {
      assert d[..|vector|] == vector;
    }
  }

  /** What `ternarize` produces always survives the packing round trip. */
  lemma TernarizedVectorsRoundTrip(vector: seq<real>, threshold: real)
    ensures var t := seq(|vector|, i requires 0 <= i < |vector| => ThresholdValue(vector[i], threshold));
            Unpack(Pack(t), |t|) == t
  {
    var t := seq(|vector|, i requires 0 <= i < |vector| => ThresholdValue(vector[i], threshold));
    RoundTrip(t);
  }

  lemma AllTernaryAppend(a: seq<int>, b: seq<int>)
    requires AllTernary(a) && AllTernary(b)
    ensures AllTernary(a + b)
  {
  }

  lemma {:induction false} DecodeSlotsAreTernary(b: byte, s: nat)
    requires s <= 4
    ensures AllTernary(DecodeSlots(b, s))
  {
    if s > 0 {
      DecodeSlotsAreTernary(b, s - 1);
      var p := DecodePair(Pair(b, s - 1));
      AllTernaryAppend(DecodeSlots(b, s - 1), if p.Some? then [p.value] else []);
    }
  }

  /** Decoding only ever yields -1, 0 and +1. */
  lemma {:induction false} DecodedIsTernary(packed: seq<byte>)
    ensures AllTernary(Decoded(packed))
  {
    if packed != [] {
      DecodedIsTernary(packed[..|packed| - 1]);
      DecodeSlotsAreTernary(packed[|packed| - 1], 4);
      AllTernaryAppend(Decoded(packed[..|packed| - 1]), DecodeByte(packed[|packed| - 1]));
    }
  }

  /**
   * `unpack_ternary` returns at most `hdDim` values, all ternary, and at most
   * four per byte; a `11` pair contributes nothing, wherever it sits.
   */
  lemma UnpackBounds(packed: seq<byte>, hdDim: int)
    ensures AllTernary(Unpack(packed, hdDim))
    ensures |Unpack(packed, hdDim)| <= 4 * |packed|
    ensures hdDim > 0 ==> |Unpack(packed, hdDim)| <= hdDim
    ensures hdDim <= 0 ==> Unpack(packed, hdDim) == []
    ensures forall b: byte, s: nat :: s < 4 && Pair(b, s) == 3 ==> DecodeSlots(b, s + 1) == DecodeSlots(b, s)
    ensures DecodeByte(0xFF) == []
  {
    DecodedIsTernary(packed);
    forall b: byte, s: nat | s < 4 && Pair(b, s) == 3
      ensures DecodeSlots(b, s + 1) == DecodeSlots(b, s)
    {
      DecodeSlotsStep(b, s, Pair(b, s));
    }
  }

  // ---------------------------------------------------------------------------
  // get_vector_size
  // ---------------------------------------------------------------------------

  /** The integer entries of the dictionary `get_vector_size` returns, in bytes. */
  datatype VectorSizes = VectorSizes(float32: int, float16: int, binary: int, ternaryPacked: int)

  datatype SizeError = ZeroDivision

  /**
   * `get_vector_size`. Python's `//` floors, as Dafny's `/` does for a
   * positive divisor. The dictionary also holds
   * `compression_ratio_vs_float32`, whose divisor is `ternary_packed`, so
   * the call raises `ZeroDivisionError` whenever that is 0: exactly for
   * `0 <= hdDim < 4`. Otherwise `binary` and `ternary_packed` are the whole
   * bytes needed at one and two bits per value, rounded down.
   */
  function GetVectorSize(hdDim: int): (r: Result<VectorSizes, SizeError>)
    ensures r.Err? <==> 0 <= hdDim < 4
    ensures r.Ok? ==>
              r.value.float32 == 2 * r.value.float16 == 4 * hdDim
              && 8 * r.value.binary <= hdDim < 8 * r.value.binary + 8
              && 8 * r.value.ternaryPacked <= 2 * hdDim < 8 * r.value.ternaryPacked + 8
  {
    var ternaryPacked := (hdDim * 2) / 8;
    if ternaryPacked == 0 then Err(ZeroDivision)
    else Ok(VectorSizes(hdDim * 4, hdDim * 2, hdDim / 8, ternaryPacked))
  }

  /**
   * The size report fails exactly for `0 <= hdDim < 4`; otherwise its packed
   * size is `hdDim / 4` rounded down, which is the length `pack_ternary`
   * produces for a ternary vector of that length iff `hdDim` is a multiple of 4.
   */
  lemma PackedSizeReport(hdDim: int, vector: seq<int>)
    requires AllTernary(vector) && |vector| == hdDim
    ensures GetVectorSize(hdDim).Err? <==> hdDim < 4
    ensures hdDim >= 4 ==> GetVectorSize(hdDim).value.ternaryPacked == hdDim / 4
    ensures hdDim >= 4 ==> (GetVectorSize(hdDim).value.ternaryPacked == |Pack(vector)| <==> hdDim % 4 == 0)
  {
    PackLength(vector);
  }
}
