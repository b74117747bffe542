/** How far the computed power of ten is from the product of the table entries
    its exponent selects: exactly the truncations of the single products,
    carried through the products that follow. */
module PowerOfTenTheorems {
  import opened Arithmetic
  import opened Littlenum
  import opened FlonumMult
  import opened FlonumMultTheorems
  import opened PowerOfTen

  /** The product of the mantissas of the entries the bits of `exponent`
      select, from `place` on, while the table lasts. */
  function ExactMantissa(table: seq<Num>, exponent: nat, place: nat): nat
    requires |table| == TABLE_SIZE + 1
  {
    if exponent == 0 then 1
    else if exponent % 2 == 0 then ExactMantissa(table, exponent / 2, place + 1)
    else if place > TABLE_SIZE then 1
    else table[place].mantissa * ExactMantissa(table, exponent / 2, place + 1)
  }

  function ExactExponent(table: seq<Num>, exponent: nat, place: nat): int
    requires |table| == TABLE_SIZE + 1
  {
    if exponent == 0 then 0
    else if exponent % 2 == 0 then ExactExponent(table, exponent / 2, place + 1)
    else if place > TABLE_SIZE then 0
    else table[place].exponent + ExactExponent(table, exponent / 2, place + 1)
  }

  /** How many littlenums a product loses, and the value of those littlenums. */
  function Cut(a: Num, b: Num, capacity: nat): nat {
    ProductNonnegative(a.mantissa, b.mantissa);
    Truncation(a.mantissa * b.mantissa, Max(0, a.size + b.size - 1), capacity)
  }

  function Remainder(a: Num, b: Num, capacity: nat): (r: nat)
    ensures r < Pow(RADIX, Cut(a, b, capacity))
  {
    PowPositive(RADIX, Cut(a, b, capacity));
    ProductNonnegative(a.mantissa, b.mantissa);
    a.mantissa * b.mantissa % Pow(RADIX, Cut(a, b, capacity))
  }

  /** Littlenums dropped so far, and what the result lacks on their account. */
  datatype Loss = Loss(dropped: nat, lacking: nat)

  function AddLoss(entry: Num, power: Num, capacity: nat, loss: Loss): Loss {
    ProductNonnegative(entry.mantissa, loss.lacking);
    ProductNonnegative(Remainder(entry, power, capacity), Pow(RADIX, loss.dropped));
    Loss(loss.dropped + Cut(entry, power, capacity),
         entry.mantissa * loss.lacking + Remainder(entry, power, capacity) * Pow(RADIX, loss.dropped))
  }

  function ChainLoss(table: seq<Num>, exponent: nat, place: nat, power: Num, capacity: nat, loss: Loss): Loss
    requires |table| == TABLE_SIZE + 1
  {
    if exponent == 0 then loss
    else if exponent % 2 == 0 then ChainLoss(table, exponent / 2, place + 1, power, capacity, loss)
    else if place > TABLE_SIZE then loss
    else ChainLoss(table, exponent / 2, place + 1, Step(table[place], power, capacity), capacity,
                   AddLoss(table[place], power, capacity, loss))
  }

  /** A mantissa fits its littlenums. */
  predicate Fits(n: Num) {
    n.mantissa < Pow(RADIX, n.size)
  }

  lemma TimesFits(a: Num, b: Num, capacity: nat)
    requires Fits(a) && Fits(b)
    ensures Fits(Times(a, b, capacity))
    ensures a.size == 0 || b.size == 0 ==> Times(a, b, capacity).size == 0
  {
    hide Pow, Truncation;
    var columns := Max(0, a.size + b.size - 1);
    var t := a.mantissa * b.mantissa;
    var k := Cut(a, b, capacity);
    PowZero();
    ProductFits(a, b, columns);
    TruncationBound(t, columns, capacity);
    QuotientFits(t, k, if t < Pow(RADIX, columns) then columns - k else columns + 1 - k);
    if t == 0 {
      ZeroCut(columns, capacity);
    }
  }

  lemma PowZero()
    ensures Pow(RADIX, 0) == 1
  {
  }

  lemma ProductFits(a: Num, b: Num, columns: nat)
    requires Fits(a) && Fits(b) && columns == Max(0, a.size + b.size - 1)
    ensures a.mantissa * b.mantissa < Pow(RADIX, columns + 1)
    ensures a.size == 0 || b.size == 0 ==> a.mantissa * b.mantissa == 0
  {
    hide Pow;
    PowZero();
    PowPositive(RADIX, columns + 1);
    if a.size > 0 && b.size > 0 {
      PowAdd(RADIX, a.size, b.size);
      MulMonotone(a.mantissa, b.mantissa, Pow(RADIX, b.size));
      PowPositive(RADIX, b.size);
      MulStrict(Pow(RADIX, b.size), a.mantissa, Pow(RADIX, a.size));
    }
  }

  lemma TruncationBound(t: nat, columns: nat, capacity: nat)
    ensures Truncation(t, columns, capacity) <= if t < Pow(RADIX, columns) then columns else columns + 1
  {
  }

  lemma ZeroCut(columns: nat, capacity: nat)
    ensures Pow(RADIX, columns) > 0 && Truncation(0, columns, capacity) == columns
  {
    PowPositive(RADIX, columns);
    var z := TrailingZeros(0, columns);
    PowPositive(RADIX, z + 1);
    DivModUnique(0, Pow(RADIX, z + 1), 0, 0);
  }

  lemma QuotientFits(t: nat, k: nat, n: int)
    requires n >= 0 && t < Pow(RADIX, k + n)
    ensures Shifted(t, k) < Pow(RADIX, n)
  {
    PowPositive(RADIX, k);
    PowAdd(RADIX, n, k);
    DivAtLeast(t, Pow(RADIX, k), Pow(RADIX, n));
  }

  /** One product: what was right up to a loss stays right up to the new loss. */
  lemma StepExactly(entry: Num, power: Num, capacity: nat, exact: nat, loss: Loss)
    requires Fits(entry) && Fits(power)
    requires exact == power.mantissa * Pow(RADIX, loss.dropped) + loss.lacking
    ensures var loss' := AddLoss(entry, power, capacity, loss);
      entry.mantissa * exact == Step(entry, power, capacity).mantissa * Pow(RADIX, loss'.dropped) + loss'.lacking
  {
    hide Pow, Truncation;
    TimesFits(entry, power, capacity);
    PowZero();
    var k, d := Cut(entry, power, capacity), loss.dropped;
    PowPositive(RADIX, k);
    PowAdd(RADIX, k, d);
    Composed(entry.mantissa, power.mantissa, Times(entry, power, capacity).mantissa,
             Remainder(entry, power, capacity), Pow(RADIX, k), Pow(RADIX, d), loss.lacking);
  }

  lemma Composed(t: nat, m: nat, q: nat, r: nat, p: nat, d: nat, lacking: nat)
    requires t * m == q * p + r
    ensures t * (m * d + lacking) == q * (p * d) + (t * lacking + r * d)
  {
    MulDistributes(t, m * d, lacking);
    MulRegroup(t, m, d);
    SumTimes(q * p, r, d);
    MulRegroup(q, p, d);
  }

  lemma StepFits(entry: Num, power: Num, capacity: nat)
    requires Fits(entry) && Fits(power)
    ensures Fits(Step(entry, power, capacity))
  {
    PowZero();
    TimesFits(entry, power, capacity);
  }

  /** The computed power, its dropped littlenums put back, is the exact product
      less what it lacks: never above it. */
  lemma {:induction false} ChainExactly(table: seq<Num>, exponent: nat, place: nat, power: Num, capacity: nat,
                                        exact: nat, loss: Loss)
    requires |table| == TABLE_SIZE + 1 && (forall i :: 0 <= i < |table| ==> Fits(table[i])) && Fits(power)
    requires exact == power.mantissa * Pow(RADIX, loss.dropped) + loss.lacking
    ensures var loss' := ChainLoss(table, exponent, place, power, capacity, loss);
      ExactMantissa(table, exponent, place) * exact
      == Chain(table, exponent, place, power, capacity).mantissa * Pow(RADIX, loss'.dropped) + loss'.lacking
  {
    hide Pow, Step, AddLoss, Fits;
    if exponent == 0 || (exponent % 2 == 1 && place > TABLE_SIZE) {
    } else if exponent % 2 == 0 {
      ChainExactly(table, exponent / 2, place + 1, power, capacity, exact, loss);
    } else {
      var entry := table[place];
      StepExactly(entry, power, capacity, exact, loss);
      StepFits(entry, power, capacity);
      ChainExactly(table, exponent / 2, place + 1, Step(entry, power, capacity), capacity,
                   entry.mantissa * exact, AddLoss(entry, power, capacity, loss));
      MulRegroup(ExactMantissa(table, exponent / 2, place + 1), entry.mantissa, exact);
    }
  }

  /** A nonzero power has the exponent its dropped littlenums call for. */
  lemma {:induction false} ChainExponent(table: seq<Num>, exponent: nat, place: nat, power: Num, capacity: nat,
                                         loss: Loss)
    requires |table| == TABLE_SIZE + 1 && (forall i :: 0 <= i < |table| ==> Fits(table[i])) && Fits(power)
    ensures var r := Chain(table, exponent, place, power, capacity);
      && (power.size == 0 ==> r.size == 0)
      && (r.size > 0 ==>
            r.exponent == power.exponent + ExactExponent(table, exponent, place)
              + ChainLoss(table, exponent, place, power, capacity, loss).dropped - loss.dropped)
  {
    hide Pow, Remainder, Truncation, Fits;
    if exponent == 0 || (exponent % 2 == 1 && place > TABLE_SIZE) {
    } else if exponent % 2 == 0 {
      ChainExponent(table, exponent / 2, place + 1, power, capacity, loss);
    } else {
      var entry := table[place];
      TimesFits(entry, power, capacity);
      StepFits(entry, power, capacity);
      ChainExponent(table, exponent / 2, place + 1, Step(entry, power, capacity), capacity,
                    AddLoss(entry, power, capacity, loss));
    }
  }

  /** Every product on the way has fewer columns than there is room for. */
  predicate AlwaysRoom(table: seq<Num>, exponent: nat, place: nat, power: Num, capacity: nat)
    requires |table| == TABLE_SIZE + 1
  {
    exponent == 0
    || (exponent % 2 == 0 && AlwaysRoom(table, exponent / 2, place + 1, power, capacity))
    || (exponent % 2 == 1 && place > TABLE_SIZE)
    || (exponent % 2 == 1 && place <= TABLE_SIZE && table[place].size + power.size <= capacity
        && AlwaysRoom(table, exponent / 2, place + 1, Step(table[place], power, capacity), capacity))
  }

  /** While every partial product fits, nothing is lost. */
  lemma {:induction false} ChainExactWithRoom(table: seq<Num>, exponent: nat, place: nat, power: Num, capacity: nat,
                                              loss: Loss)
    requires |table| == TABLE_SIZE + 1 && AlwaysRoom(table, exponent, place, power, capacity)
    requires loss.lacking == 0 && capacity > 0
    ensures ChainLoss(table, exponent, place, power, capacity, loss).lacking == 0
  {
    hide Pow, Step;
    if exponent == 0 || (exponent % 2 == 1 && place > TABLE_SIZE) {
    } else if exponent % 2 == 0 {
      ChainExactWithRoom(table, exponent / 2, place + 1, power, capacity, loss);
    } else {
      var entry := table[place];
      NoRemainder(entry, power, capacity);
      ChainExactWithRoom(table, exponent / 2, place + 1, Step(entry, power, capacity), capacity,
                         AddLoss(entry, power, capacity, loss));
    }
  }

  lemma NoRemainder(entry: Num, power: Num, capacity: nat)
    requires entry.size + power.size <= capacity && capacity > 0
    ensures Remainder(entry, power, capacity) == 0
  {
    hide Pow, Truncation;
    var t := entry.mantissa * power.mantissa;
    ExactWithRoom(t, Max(0, entry.size + power.size - 1), capacity);
    var p := Pow(RADIX, Cut(entry, power, capacity));
    ModOfMultiple(t / p, p);
  }
}
