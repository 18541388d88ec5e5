/**
 * Morris counters: the 8-bit and 16-bit probabilistic counters and the word that
 * packs four 16-bit counters side by side (count.go).
 *
 * The estimate tables n8/n16 and the delta tables d8/d16 are computed in the source
 * from floating-point formulas once at start-up. Here they are abstract constants:
 * any lookup functions with the stated properties (entry 0 is 0, entry 1 is 1,
 * entries never decrease, the last entry is the documented saturation value). The
 * draw `rand.Float32()` is an input, a `Roll` in [0, 1).
 *
 * Stored counter values are bit-vectors: `bv8` for Count8 and, for Count16, a
 * 64-bit bit-vector that is at most 0xFFFF (a `Field16`), so that a counter moves
 * in and out of the packed word without a change of representation.
 */
module Morris {

  const MaxUint8: bv8 := 0xFF
  /** n(MaxUint8, 31), the 8-bit saturation estimate. */
  const MaxCount8: nat := 101681

  const MaxUint16: bv64 := 0xFFFF
  /** n(MaxUint16, 5000), the 16-bit saturation estimate. */
  const MaxCount16: nat := 2458655843

  /** A 16-bit counter value (Count16), held in a 64-bit bit-vector. */
  type Field16 = f: bv64 | f <= MaxUint16

  /** One uniform draw in [0, 1), as `rand.Float32()` returns. */
  type Roll = r: real | 0.0 <= r < 1.0

  /**
   * n8: entry 0 is 0, entry 1 is 1 (the special case of the source), entries never
   * decrease, and entry 255 is the saturation estimate.
   */
  ghost predicate IsEstimateTable8(t: bv8 -> nat)
  {
    t(0) == 0 && t(1) == 1 && t(MaxUint8) == MaxCount8 &&
    forall a: bv8, b: bv8 :: a <= b ==> t(a) <= t(b)
  }

  type EstimateTable8 = t: bv8 -> nat | IsEstimateTable8(t)
    witness (c: bv8) => if c == 0 then 0 else if c == MaxUint8 then MaxCount8 else 1

  /** n16, with the same properties over 0..0xFFFF. */
  ghost predicate IsEstimateTable16(t: Field16 -> nat)
  {
    t(0) == 0 && t(1) == 1 && t(MaxUint16) == MaxCount16 &&
    forall a: Field16, b: Field16 :: a <= b ==> t(a) <= t(b)
  }

  type EstimateTable16 = t: Field16 -> nat | IsEstimateTable16(t)
    witness (c: Field16) => if c == 0 then 0 else if c == MaxUint16 then MaxCount16 else 1

  /** The process-wide tables of the source. */
  const N8: EstimateTable8
  const D8: bv8 -> real
  const N16: EstimateTable16
  const D16: Field16 -> real

  /** Table entries never decrease and never exceed the saturation estimate. */
  lemma N8Monotone(a: bv8, b: bv8)
    requires a <= b
    ensures N8(a) <= N8(b) <= MaxCount8
  {
    assert IsEstimateTable8(N8);
    assert b <= MaxUint8;
  }

  lemma N16Monotone(a: Field16, b: Field16)
    requires a <= b
    ensures N16(a) <= N16(b) <= MaxCount16
  {
    assert IsEstimateTable16(N16);
    assert b <= MaxUint16;
  }

  // ------------------------------------------------------------------------------
  // Count8

  /** The decision of Count8.Increment: below the top, the roll beats the delta entry. */
  predicate Advances8(c: bv8, roll: Roll)
  {
    c < MaxUint8 && roll < D8(c)
  }

  /** The stored value after one call of Count8.Increment. */
  function Next8(c: bv8, roll: Roll): (c': bv8)
    ensures c <= c'
    ensures c' == c || c' == c + 1
    ensures c == MaxUint8 ==> c' == c
    ensures c' != c <==> Advances8(c, roll)
  {
    if c >= MaxUint8 then c
    else if roll < D8(c) then c + 1
    else c
  }

  /** What Count8.Increment returns. */
  function Returned8(c: bv8, roll: Roll): nat
  {
    if c >= MaxUint8 then MaxCount8 else N8(Next8(c, roll))
  }

  /**
   * Count8.Increment returns the estimate of the counter it leaves behind, which
   * never falls below the estimate before the call and never exceeds the saturation.
   */
  lemma Returned8IsNewEstimate(c: bv8, roll: Roll)
    ensures Returned8(c, roll) == N8(Next8(c, roll))
    ensures N8(c) <= Returned8(c, roll) <= MaxCount8
  {
    N8Monotone(c, Next8(c, roll));
  }

  /** Count8: an 8-bit Morris counter. */
  class Count8 {
    var value: bv8

    constructor (c: bv8)
      ensures value == c
    {
      value := c;
    }

    function Estimate(): (e: nat)
      reads this
      ensures e <= MaxCount8
      ensures value == 0 ==> e == 0
      ensures value == 1 ==> e == 1
    {
      N8Monotone(value, value);
      N8(value)
    }

    method Increment(roll: Roll) returns (estimate: nat)
      modifies this
      ensures value == Next8(old(value), roll)
      ensures old(value) == MaxUint8 ==> value == old(value) && estimate == MaxCount8
      ensures estimate == Returned8(old(value), roll) == Estimate()
    {
      if value >= MaxUint8 {
        return MaxCount8;
      }
      if roll < D8(value) {
        value := value + 1;
      }
      estimate := N8(value);
    }
  }

  // ------------------------------------------------------------------------------
  // Count16

  /** The decision of Count16.Increment. */
  predicate Advances16(c: Field16, roll: Roll)
  {
    c < MaxUint16 && roll < D16(c)
  }

  /** The stored value after one call of Count16.Increment. */
  function Next16(c: Field16, roll: Roll): (c': Field16)
    ensures c <= c'
    ensures c' == c || c' == c + 1
    ensures c == MaxUint16 ==> c' == c
    ensures c' != c <==> Advances16(c, roll)
  {
    if c >= MaxUint16 then c
    else if roll < D16(c) then c + 1
    else c
  }

  /** What Count16.Increment returns. */
  function Returned16(c: Field16, roll: Roll): nat
  {
    if c >= MaxUint16 then MaxCount16 else N16(Next16(c, roll))
  }

  lemma Returned16IsNewEstimate(c: Field16, roll: Roll)
    ensures Returned16(c, roll) == N16(Next16(c, roll))
    ensures N16(c) <= Returned16(c, roll) <= MaxCount16
  {
    N16Monotone(c, Next16(c, roll));
  }

  /** Count16: a 16-bit Morris counter. */
  class Count16 {
    var value: Field16

    constructor (c: Field16)
      ensures value == c
    {
      value := c;
    }

    function Estimate(): (e: nat)
      reads this
      ensures e <= MaxCount16
      ensures value == 0 ==> e == 0
      ensures value == 1 ==> e == 1
    {
      N16Monotone(value, value);
      N16(value)
    }

    method Increment(roll: Roll) returns (estimate: nat)
      modifies this
      ensures value == Next16(old(value), roll)
      ensures old(value) == MaxUint16 ==> value == old(value) && estimate == MaxCount16
      ensures estimate == Returned16(old(value), roll) == Estimate()
    {
      if value >= MaxUint16 {
        return MaxCount16;
      }
      if roll < D16(value) {
        value := value + 1;
      }
      estimate := N16(value);
    }
  }

  // ------------------------------------------------------------------------------
  // Count16x4: four 16-bit counters in one 64-bit word, at bits 0, 16, 32 and 48.

  /** The four fields of a word, lowest first, as estimate16x4 extracts them. */
  function Unpack(w: bv64): (q: seq<Field16>)
    ensures |q| == 4
  {
    [w & MaxUint16, (w >> 16) & MaxUint16, (w >> 32) & MaxUint16, (w >> 48) & MaxUint16]
  }

  /** The word holding four given fields. */
  function Pack(q: seq<Field16>): bv64
    requires |q| == 4
  {
    (q[0] as bv64) | ((q[1] as bv64) << 16) | ((q[2] as bv64) << 32) | ((q[3] as bv64) << 48)
  }

  lemma PackUnpack(w: bv64)
    ensures Pack(Unpack(w)) == w
  {
  }

  lemma UnpackPack(q: seq<Field16>)
    requires |q| == 4
    ensures Unpack(Pack(q)) == q
  {
  }

  /** The shift count `uint(i*16)` of slot i. */
  function Offset(i: nat): (s: bv64)
    requires i < 4
  {
    if i == 0 then 0 else if i == 1 then 16 else if i == 2 then 32 else 48
  }

  /** Field i as IncrementAt extracts it: `Count16(loaded >> uint(i*16))`. */
  function Slot(w: bv64, i: nat): Field16
    requires i < 4
  {
    (w >> Offset(i)) & MaxUint16
  }

  /** Field i replaced by f: `(uint64(counter) << uint(i*16)) | (loaded & ^(0xFFFF << uint(i*16)))`. */
  function Replace(w: bv64, i: nat, f: Field16): bv64
    requires i < 4
  {
    ((f as bv64) << Offset(i)) | (w & !(MaxUint16 << Offset(i)))
  }

  lemma Slot0(w: bv64)
    ensures Slot(w, 0) == Unpack(w)[0]
  {
  }

  lemma Slot1(w: bv64)
    ensures Slot(w, 1) == Unpack(w)[1]
  {
  }

  lemma Slot2(w: bv64)
    ensures Slot(w, 2) == Unpack(w)[2]
  {
  }

  lemma Slot3(w: bv64)
    ensures Slot(w, 3) == Unpack(w)[3]
  {
  }

  /** The variable-shift extraction of IncrementAt agrees with estimate16x4's. */
  lemma {:induction false} SlotIsUnpacked(w: bv64, i: nat)
    requires i < 4
    ensures Slot(w, i) == Unpack(w)[i]
  {
    if i == 0 {
      Slot0(w);
    } else if i == 1 {
      Slot1(w);
    } else if i == 2 {
      Slot2(w);
    } else {
      Slot3(w);
    }
  }

  lemma Replace0(w: bv64, f: Field16)
    ensures Replace(w, 0, f) == Pack(Unpack(w)[0 := f])
  {
  }

  lemma Replace1(w: bv64, f: Field16)
    ensures Replace(w, 1, f) == Pack(Unpack(w)[1 := f])
  {
  }

  lemma Replace2(w: bv64, f: Field16)
    ensures Replace(w, 2, f) == Pack(Unpack(w)[2 := f])
  {
  }

  lemma Replace3(w: bv64, f: Field16)
    ensures Replace(w, 3, f) == Pack(Unpack(w)[3 := f])
  {
  }

  /**
   * Replacing field i gives field i the new value and leaves the other three
   * fields bit-for-bit as they were.
   */
  lemma {:induction false} ReplaceIsolated(w: bv64, i: nat, f: Field16)
    requires i < 4
    ensures Unpack(Replace(w, i, f)) == Unpack(w)[i := f]
  {
    if i == 0 {
      Replace0(w, f);
    } else if i == 1 {
      Replace1(w, f);
    } else if i == 2 {
      Replace2(w, f);
    } else {
      Replace3(w, f);
    }
    UnpackPack(Unpack(w)[i := f]);
  }

  lemma UnpackInjective(a: bv64, b: bv64)
    requires Unpack(a) == Unpack(b)
    ensures a == b
  {
    PackUnpack(a);
    PackUnpack(b);
  }

  lemma UpdateWithOwn<T>(q: seq<T>, i: nat)
    requires i < |q|
    ensures q[i := q[i]] == q
  {
  }

  /** Writing field i back with its own extracted value reproduces the word. */
  lemma {:induction false} ReplaceOwnSlot(w: bv64, i: nat)
    requires i < 4
    ensures Replace(w, i, Slot(w, i)) == w
  {
    SlotIsUnpacked(w, i);
    ReplaceIsolated(w, i, Slot(w, i));
    UpdateWithOwn(Unpack(w), i);
    UnpackInjective(Replace(w, i, Slot(w, i)), w);
  }

  /** The four estimates of a word (estimate16x4). */
  function Estimate16x4(w: bv64): (r: seq<nat>)
    ensures |r| == 4
    ensures forall i :: 0 <= i < 4 ==> r[i] == N16(Unpack(w)[i])
  {
    [N16(w & MaxUint16), N16((w >> 16) & MaxUint16), N16((w >> 32) & MaxUint16), N16((w >> 48) & MaxUint16)]
  }

  /** EstimateAt on the word w: the estimate of field i, or 0 when i is not a slot. */
  function WordEstimateAt(w: bv64, i: int): (r: nat)
    ensures 0 <= i < 4 ==> r == N16(Unpack(w)[i]) <= MaxCount16
    ensures !(0 <= i < 4) ==> r == 0
  {
    if i < 0 || i > 3 then 0
    else
      N16Monotone(Unpack(w)[i], Unpack(w)[i]);
      Estimate16x4(w)[i]
  }

  /** The word after one load/increment/pack round of IncrementAt at slot i. */
  function IncrementWord(w: bv64, i: nat, roll: Roll): bv64
    requires i < 4
  {
    Replace(w, i, Next16(Slot(w, i), roll))
  }

  /**
   * One round of IncrementAt at slot i: field i follows the Count16 rule, the other
   * three fields are unchanged, and the word changes exactly when the counter advances.
   */
  lemma {:induction false} IncrementWordIsolated(w: bv64, i: nat, roll: Roll)
    requires i < 4
    ensures Unpack(IncrementWord(w, i, roll))[i] == Next16(Unpack(w)[i], roll)
    ensures forall j :: 0 <= j < 4 && j != i ==> Unpack(IncrementWord(w, i, roll))[j] == Unpack(w)[j]
    ensures IncrementWord(w, i, roll) != w <==> Advances16(Unpack(w)[i], roll)
  {
    SlotIsUnpacked(w, i);
    ReplaceFacts(w, i, Next16(Slot(w, i), roll));
  }

  /** Replacing field i by f leaves the word as it was exactly when f is field i's value. */
  lemma {:induction false} ReplaceFacts(w: bv64, i: nat, f: Field16)
    requires i < 4
    ensures Unpack(Replace(w, i, f))[i] == f
    ensures forall j :: 0 <= j < 4 && j != i ==> Unpack(Replace(w, i, f))[j] == Unpack(w)[j]
    ensures Replace(w, i, f) == w <==> f == Unpack(w)[i]
  {
    ReplaceIsolated(w, i, f);
    UpdateFacts(Unpack(w), i, f);
    if f == Unpack(w)[i] {
      UnpackInjective(Replace(w, i, f), w);
    }
  }

  lemma UpdateFacts<T>(q: seq<T>, i: nat, x: T)
    requires i < |q|
    ensures q[i := x][i] == x
    ensures forall j :: 0 <= j < |q| && j != i ==> q[i := x][j] == q[j]
    ensures q[i := x] == q <==> x == q[i]
  {
  }

  /** Count16x4: the packed word of four 16-bit counters. */
  class Count16x4 {
    var v: bv64

    constructor ()
      ensures v == 0
    {
      v := 0;
    }

    /** Estimate: the four estimates decoded from the current word. */
    method Estimate() returns (r: seq<nat>)
      ensures |r| == 4
      ensures forall i :: 0 <= i < 4 ==> r[i] == N16(Unpack(v)[i])
    {
      r := Estimate16x4(v);
    }

    /** EstimateAt: the estimate of counter i, or 0 when i is not a slot. */
    method EstimateAt(i: int) returns (r: nat)
      ensures r == WordEstimateAt(v, i)
      ensures 0 <= i < 4 ==> r == N16(Unpack(v)[i]) <= MaxCount16
      ensures !(0 <= i < 4) ==> r == 0
    {
      if i < 0 || i > 3 {
        return 0;
      }
      var all := Estimate();
      r := all[i];
      N16Monotone(Unpack(v)[i], Unpack(v)[i]);
    }

    /**
     * IncrementAt: one round of the load/increment/compare-and-swap loop, with the
     * swap succeeding. Returns what Count16.Increment returned for field i.
     */
    method IncrementAt(i: int, roll: Roll) returns (estimate: nat)
      modifies this
      ensures 0 <= i < 4 ==> v == IncrementWord(old(v), i, roll)
      ensures 0 <= i < 4 ==> estimate == Returned16(Unpack(old(v))[i], roll)
      ensures 0 <= i < 4 ==> estimate == N16(Unpack(v)[i])
      ensures !(0 <= i < 4) ==> v == old(v) && estimate == 0
    {
      if i < 0 || i > 3 {
        return 0;
      }
      var loaded := v;
      SlotIsUnpacked(loaded, i);
      var counter := new Count16(Slot(loaded, i));
      estimate := counter.Increment(roll);
      var updated := Replace(loaded, i, counter.value);
      assert updated == IncrementWord(loaded, i, roll);
      IncrementWordIsolated(loaded, i, roll);
      v := updated;
    }

    /**
     * The roll-taking form the sketch uses (`incrementAt(slot, roll)`): one round
     * of IncrementAt at slot i with the roll supplied; true when the counter advanced.
     */
    method AdvanceAt(i: int, roll: Roll) returns (advanced: bool)
      modifies this
      ensures 0 <= i < 4 ==> v == IncrementWord(old(v), i, roll)
      ensures 0 <= i < 4 ==> advanced == Advances16(Unpack(old(v))[i], roll)
      ensures !(0 <= i < 4) ==> v == old(v) && !advanced
    {
      if i < 0 || i > 3 {
        return false;
      }
      var loaded := v;
      var updated := IncrementWord(loaded, i, roll);
      IncrementWordIsolated(loaded, i, roll);
      v := updated;
      advanced := updated != loaded;
    }

    /** Reset: swap the word to zero, returning the estimates it held. */
    method Reset() returns (r: seq<nat>)
      modifies this
      ensures v == 0
      ensures r == Estimate16x4(old(v))
    {
      var previous := v;
      v := 0;
      r := Estimate16x4(previous);
    }
  }
}
