/**
 * The Count-Min sketch (cms.go): a depth x width matrix of 16-bit Morris counters,
 * packed four to a 64-bit group, one hash function per row derived from a single
 * 64-bit hash by double hashing.
 *
 * A row of the source is a slice of Count16x4 values; here the matrix is an
 * `array2<bv64>` holding the packed words themselves, row by group, and a group is
 * read and written with the word functions of module Morris. The hash of an item is
 * an input, and so is the roll that the source draws once per update.
 */
module Sketch {
  import opened GoInt
  import opened Morris

  /** Four counters share one packed word. */
  const Stripe: nat := 4
  const MaxDepth: nat := 128
  const Pow40: nat := 0x100_0000_0000

  datatype Option<T> = None | Some(value: T)

  datatype Result<T, E> = Success(value: T) | Failure(error: E)

  /** The configuration errors of the constructors, one per distinct message. */
  datatype ConfigError =
    | DepthNotEven
    | DepthTooLarge
    | WidthNotMultipleOfStripe
    | WidthTooLarge
    | EpsilonOutOfRange
    | ConfidenceOutOfRange

  // ------------------------------------------------------------------------------
  // Validation

  /**
   * The checks of NewCountMinWithSize, in the order of its switch: depth even, depth
   * at most 128, width a multiple of 4, width at most 2^31 - 1.
   */
  function ValidateSize(depth: nat, width: nat): (e: Option<ConfigError>)
    ensures e.None? <==>
      depth % 2 == 0 && depth <= MaxDepth && width % Stripe == 0 && width <= MaxInt32
    ensures e == Some(DepthNotEven) <==> depth % 2 != 0
    ensures e == Some(DepthTooLarge) <==> depth % 2 == 0 && depth > MaxDepth
    ensures e == Some(WidthNotMultipleOfStripe) <==>
      depth % 2 == 0 && depth <= MaxDepth && width % Stripe != 0
    ensures e == Some(WidthTooLarge) <==>
      depth % 2 == 0 && depth <= MaxDepth && width % Stripe == 0 && width > MaxInt32
  {
    if depth % 2 != 0 then Some(DepthNotEven)
    else if depth > MaxDepth then Some(DepthTooLarge)
    else if width % Stripe != 0 then Some(WidthNotMultipleOfStripe)
    else if width > MaxInt32 then Some(WidthTooLarge)
    else None
  }

  /**
   * The checks of NewCountMinWithEstimates, epsilon first: each of epsilon and
   * confidence must lie strictly between 0 and 1.
   */
  function ValidateEstimates(epsilon: real, confidence: real): (e: Option<ConfigError>)
    ensures e.None? <==> 0.0 < epsilon < 1.0 && 0.0 < confidence < 1.0
    ensures e == Some(EpsilonOutOfRange) <==> !(0.0 < epsilon < 1.0)
    ensures e == Some(ConfidenceOutOfRange) <==>
      0.0 < epsilon < 1.0 && !(0.0 < confidence < 1.0)
  {
    if epsilon <= 0.0 || epsilon >= 1.0 then Some(EpsilonOutOfRange)
    else if confidence <= 0.0 || confidence >= 1.0 then Some(ConfidenceOutOfRange)
    else None
  }

  // ------------------------------------------------------------------------------
  // Index derivation

  /** `hash & ((1 << 32) - 1)`. */
  function Lo(hash: u64): nat
  {
    hash % Pow32
  }

  /** `hash >> 32`. */
  function Hi(hash: u64): nat
  {
    hash / Pow32
  }

  /** `hx := lo + uint64(i)*hi`, in unsigned 64-bit arithmetic. */
  function Mix(hash: u64, i: nat): u64
  {
    (Lo(hash) + i * Hi(hash)) % Pow64
  }

  /** The conversion `int(hx)` to a signed 64-bit integer. */
  function ToInt64(x: u64): int
  {
    if x < Pow63 then x else x - Pow64
  }

  /** Go's `%`, which truncates toward zero. */
  function GoRem(a: int, b: int): (r: int)
    requires b > 0
    ensures a >= 0 ==> 0 <= r < b
    ensures a < 0 ==> -b < r <= 0
  {
    if a >= 0 then a % b else -((-a) % b)
  }

  /** `idx := int(hx) % w`, the counter index of row i. */
  function Index(hash: u64, i: nat, width: nat): int
    requires width > 0
  {
    GoRem(ToInt64(Mix(hash, i)), width)
  }

  lemma MulBound(i: nat, h: nat, m: nat, k: nat)
    requires i <= m && h < k
    ensures i * h <= m * k
  {
    assert i * h <= m * h;
    assert m * h <= m * k;
  }

  /** For every row of a valid sketch, lo + i*hi stays below 2^40: it never wraps. */
  lemma MixNoWrap(hash: u64, i: nat)
    requires i < MaxDepth
    ensures Lo(hash) + i * Hi(hash) < Pow40
    ensures Mix(hash, i) == Lo(hash) + i * Hi(hash)
  {
    MulBound(i, Hi(hash), MaxDepth - 1, Pow32);
  }

  /** The index of row i is the plain residue of lo + i*hi, so it lies in [0, width). */
  lemma IndexInRange(hash: u64, i: nat, width: nat)
    requires i < MaxDepth && width > 0
    ensures Index(hash, i, width) == (Lo(hash) + i * Hi(hash)) % width
    ensures 0 <= Index(hash, i, width) < width
  {
    MixNoWrap(hash, i);
  }

  /** `idx/stripe`, the group of row i that holds the counter. */
  function Group(hash: u64, i: nat, width: nat): (g: nat)
    requires i < MaxDepth && width > 0
    ensures width % Stripe == 0 ==> g < width / Stripe
  {
    IndexInRange(hash, i, width);
    Index(hash, i, width) / Stripe
  }

  /** `idx%stripe`, the slot of the counter within its group. */
  function SlotOf(hash: u64, i: nat, width: nat): (s: nat)
    requires i < MaxDepth && width > 0
    ensures s < Stripe
    ensures Group(hash, i, width) * Stripe + s == Index(hash, i, width)
  {
    IndexInRange(hash, i, width);
    Index(hash, i, width) % Stripe
  }

  /** One row's share of UpdateHash on the word at row d, group g. */
  function StepCell(hash: u64, width: nat, roll: Roll, d: nat, g: nat, w: bv64): bv64
    requires d < MaxDepth && width > 0
  {
    if g == Group(hash, d, width) then IncrementWord(w, SlotOf(hash, d, width), roll) else w
  }

  /** The counter of row d advances when its group holds the word w. */
  predicate RowAdvances(hash: u64, width: nat, roll: Roll, d: nat, w: bv64)
    requires d < MaxDepth && width > 0
  {
    Advances16(Unpack(w)[SlotOf(hash, d, width)], roll)
  }

  /**
   * UpdateHash's step on one row: in the group the hash points at, the counter at
   * the hash's slot follows the Count16 rule and the other three counters keep
   * their bits; every other group of the row is left as it was.
   */
  lemma StepCellIsolated(hash: u64, width: nat, roll: Roll, d: nat, g: nat, w: bv64)
    requires d < MaxDepth && width > 0
    ensures g == Group(hash, d, width) ==>
      Unpack(StepCell(hash, width, roll, d, g, w))[SlotOf(hash, d, width)] ==
        Next16(Unpack(w)[SlotOf(hash, d, width)], roll)
    ensures g == Group(hash, d, width) ==>
      forall j :: 0 <= j < 4 && j != SlotOf(hash, d, width) ==>
        Unpack(StepCell(hash, width, roll, d, g, w))[j] == Unpack(w)[j]
    ensures g != Group(hash, d, width) ==> StepCell(hash, width, roll, d, g, w) == w
    ensures StepCell(hash, width, roll, d, g, w) != w <==>
      g == Group(hash, d, width) && RowAdvances(hash, width, roll, d, w)
  {
    IncrementWordIsolated(w, SlotOf(hash, d, width), roll);
  }

  /** The estimate of a counter, converted to uint32 as CountHash does. */
  function Truncate32(e: nat): (t: nat)
    ensures t < Pow32
    ensures e < Pow32 ==> t == e
  {
    e % Pow32
  }

  // ------------------------------------------------------------------------------
  // The sketch

  class CountMin {
    const depth: nat
    const width: nat
    /** Row d, group g: the packed word of counters 4g .. 4g+3 of row d. */
    const counts: array2<bv64>

    ghost predicate Valid()
      reads this
    {
      counts.Length0 == depth && counts.Length1 == width / Stripe &&
      ValidateSize(depth, width) == None
    }

    /** Every packed word of the matrix is zero. */
    ghost predicate Zeroed()
      reads this, counts
    {
      forall d, g :: 0 <= d < counts.Length0 && 0 <= g < counts.Length1 ==> counts[d, g] == 0
    }

    /** The estimate the row-d hash function of `hash` points at. */
    ghost function RowEstimate(hash: u64, d: nat): nat
      reads this, counts
      requires Valid() && d < depth && width > 0
    {
      N16(Unpack(counts[d, Group(hash, d, width)])[SlotOf(hash, d, width)])
    }

    /** The allocation of NewCountMinWithSize: `depth` rows of `width/4` zero groups. */
    constructor (depth: nat, width: nat)
      requires ValidateSize(depth, width) == None
      ensures this.depth == depth && this.width == width
      ensures Valid() && Zeroed() && fresh(counts)
    {
      this.depth := depth;
      this.width := width;
      counts := new bv64[depth, width / Stripe]((_, _) => 0);
    }

    /**
     * UpdateHash: in every row, the counter the hash points at takes one
     * incrementAt step with the one shared roll; no other word changes. The result
     * is true exactly when some row's counter advanced.
     */
    method UpdateHash(hash: u64, roll: Roll) returns (updated: bool)
      requires Valid()
      requires depth > 0 ==> width > 0
      modifies counts
      ensures forall d, g :: 0 <= d < depth && 0 <= g < counts.Length1 ==>
        counts[d, g] == StepCell(hash, width, roll, d, g, old(counts[d, g]))
      ensures updated <==>
        (exists d :: 0 <= d < depth && RowAdvances(hash, width, roll, d, old(counts[d, Group(hash, d, width)])))
    {
      updated := false;
      ghost var advancedRow := 0;
      var i := 0;
      while i < depth
        invariant 0 <= i <= depth
        invariant forall d, g :: 0 <= d < i && 0 <= g < counts.Length1 ==>
          counts[d, g] == StepCell(hash, width, roll, d, g, old(counts[d, g]))
        invariant forall d, g :: i <= d < depth && 0 <= g < counts.Length1 ==>
          counts[d, g] == old(counts[d, g])
        invariant updated ==> (0 <= advancedRow < i &&
          RowAdvances(hash, width, roll, advancedRow, old(counts[advancedRow, Group(hash, advancedRow, width)])))
        invariant !updated ==> forall d :: 0 <= d < i ==>
          !RowAdvances(hash, width, roll, d, old(counts[d, Group(hash, d, width)]))
      {
        var advanced := IncrementRow(hash, i, roll);
        if advanced {
          updated := true;
          advancedRow := i;
        }
        i := i + 1;
      }
    }

    /**
     * The body of UpdateHash's loop for row i: derive the index from the hash and
     * apply `incrementAt(idx%stripe, r)` to group `idx/stripe` of the row.
     */
    method IncrementRow(hash: u64, i: nat, roll: Roll) returns (advanced: bool)
      requires Valid() && i < depth && width > 0
      modifies counts
      ensures forall g :: 0 <= g < counts.Length1 ==>
        counts[i, g] == StepCell(hash, width, roll, i, g, old(counts[i, g]))
      ensures forall d, g :: 0 <= d < counts.Length0 && d != i && 0 <= g < counts.Length1 ==>
        counts[d, g] == old(counts[d, g])
      ensures advanced == RowAdvances(hash, width, roll, i, old(counts[i, Group(hash, i, width)]))
    {
      var lo := hash % Pow32;
      var hi := hash / Pow32;
      var w := width;
      var hx := (lo + i * hi) % Pow64;
      var idx := GoRem(ToInt64(hx), w);
      IndexInRange(hash, i, width);
      var group := idx / Stripe;
      var slot := idx % Stripe;
      assert group == Group(hash, i, width) && slot == SlotOf(hash, i, width);
      var loaded := counts[i, group];
      var next := IncrementWord(loaded, slot, roll);
      IncrementWordIsolated(loaded, slot, roll);
      counts[i, group] := next;
      advanced := next != loaded;
    }

    /**
     * CountHash: the minimum over the rows of the estimate the hash points at,
     * or 2^32 - 1 for a sketch without rows. The sketch is not changed.
     */
    method CountHash(hash: u64) returns (x: nat)
      requires Valid()
      requires depth > 0 ==> width > 0
      ensures depth == 0 ==> x == MaxUint32
      ensures forall d :: 0 <= d < depth ==> x <= RowEstimate(hash, d)
      ensures depth > 0 ==> exists d :: 0 <= d < depth && x == RowEstimate(hash, d)
    {
      x := MaxUint32;
      ghost var minRow := 0;
      var i := 0;
      while i < depth && x > 0
        invariant 0 <= i <= depth
        invariant i == 0 ==> x == MaxUint32
        invariant forall d :: 0 <= d < i ==> x <= RowEstimate(hash, d)
        invariant i > 0 ==> minRow < i && x == RowEstimate(hash, minRow)
      {
        var e32 := RowCount(hash, i);
        if e32 < x {
          x := e32;
          minRow := i;
        }
        i := i + 1;
      }
      if depth > 0 {
        assert minRow < depth && x == RowEstimate(hash, minRow);
      }
    }

    /**
     * The body of CountHash's loop for row i: derive the index from the hash and read
     * `uint32(at.EstimateAt(idx%stripe))` from group `idx/stripe` of the row.
     */
    method RowCount(hash: u64, i: nat) returns (e32: nat)
      requires Valid() && i < depth && width > 0
      ensures e32 == RowEstimate(hash, i)
      ensures e32 <= MaxCount16
    {
      var lo := hash % Pow32;
      var hi := hash / Pow32;
      var w := width;
      var hx := (lo + i * hi) % Pow64;
      var idx := GoRem(ToInt64(hx), w);
      IndexInRange(hash, i, width);
      var group := idx / Stripe;
      var slot := idx % Stripe;
      assert group == Group(hash, i, width) && slot == SlotOf(hash, i, width);
      e32 := Truncate32(WordEstimateAt(counts[i, group], slot));
    }

    /** Reset: every group of every row is swapped to zero. */
    method Reset()
      modifies counts
      ensures Zeroed()
    {
      var d := 0;
      while d < counts.Length0
        invariant 0 <= d <= counts.Length0
        invariant forall d', g :: 0 <= d' < d && 0 <= g < counts.Length1 ==> counts[d', g] == 0
      {
        var j := 0;
        while j < counts.Length1
          invariant 0 <= j <= counts.Length1
          invariant forall d', g :: 0 <= d' < d && 0 <= g < counts.Length1 ==> counts[d', g] == 0
          invariant forall g :: 0 <= g < j ==> counts[d, g] == 0
        {
          counts[d, j] := 0;
          j := j + 1;
        }
        d := d + 1;
      }
    }

    /** After a reset every row estimate is 0, so CountHash returns 0 once depth >= 1. */
    lemma ZeroedRowsEstimateZero(hash: u64, d: nat)
      requires Valid() && Zeroed() && d < depth && width > 0
      ensures RowEstimate(hash, d) == 0
    {
      var g := Group(hash, d, width);
      assert counts[d, g] == 0;
      assert Unpack(0) == [0, 0, 0, 0];
    }
  }

  /**
   * NewCountMinWithSize: the validation error, if any, or a fresh sketch of `depth`
   * rows of `width/4` zero groups.
   */
  method NewCountMinWithSize(depth: nat, width: nat) returns (r: Result<CountMin, ConfigError>)
    ensures r.Failure? <==> ValidateSize(depth, width).Some?
    ensures r.Failure? ==> r.error == ValidateSize(depth, width).value
    ensures r.Success? ==>
      fresh(r.value) && fresh(r.value.counts) && r.value.Valid() && r.value.Zeroed() &&
      r.value.depth == depth && r.value.width == width
  {
    var e := ValidateSize(depth, width);
    if e.Some? {
      return Failure(e.value);
    }
    var c := new CountMin(depth, width);
    return Success(c);
  }

  /** NewCountMin: the default sketch, 4 rows of 1024 counters (256 groups). */
  method NewCountMin() returns (r: Result<CountMin, ConfigError>)
    ensures r.Success?
    ensures fresh(r.value) && fresh(r.value.counts) && r.value.Valid() && r.value.Zeroed()
    ensures r.value.depth == 4 && r.value.width == 1024 && r.value.counts.Length1 == 256
  {
    r := NewCountMinWithSize(4, 1024);
  }
}
