/**
 * The GF(256) arithmetic of the QR generator: exponent and logarithm tables
 * for the field modulo x^8 + x^4 + x^3 + x^2 + 1 (0x11d), filled once by a
 * loop, and multiplication and exponentiation through those tables.
 * The source keeps the tables in static fields filled by a static block;
 * here they are the fields of an object filled by its constructor.
 */
module Gf256 {
  import opened Wrappers
  import opened JsPrims

  /** One turn of the table loop: `val << 1`, reduced by 0x11d when bit 8 is set. */
  function Double(v: bv16): bv16 {
    var w := v << 1;
    if w & 0x100 != 0 then w ^ 0x11d else w
  }

  /** `Double` applied k times to v. */
  function Iterate(v: bv16, k: nat): bv16
    decreases k
  {
    if k == 0 then v else Iterate(Double(v), k - 1)
  }

  /** The value the loop stores in EXP_TABLE[i]: the i-th power of the generator 2. */
  function Exp(i: nat): bv16 {
    Iterate(1, i)
  }

  /** None of the next k values reached from v by doubling is 1. */
  predicate AvoidsOne(v: bv16, k: nat)
    decreases k
  {
    k == 0 || (Double(v) != 1 && AvoidsOne(Double(v), k - 1))
  }

  lemma DoubleKeepsRange(v: bv16)
    requires 1 <= v <= 255
    ensures 1 <= Double(v) <= 255
  {
  }

  lemma DoubleInjective(v: bv16, w: bv16)
    requires v <= 255 && w <= 255 && Double(v) == Double(w)
    ensures v == w
  {
  }

  lemma {:induction false} IterateAdd(v: bv16, a: nat, b: nat)
    ensures Iterate(v, a + b) == Iterate(Iterate(v, a), b)
    decreases a
  {
    if a > 0 {
      IterateAdd(Double(v), a - 1, b);
    }
  }

  lemma {:induction false} AvoidsOneAdd(v: bv16, a: nat, b: nat)
    requires AvoidsOne(v, a) && AvoidsOne(Iterate(v, a), b)
    ensures AvoidsOne(v, a + b)
    decreases a
  {
    if a > 0 {
      AvoidsOneAdd(Double(v), a - 1, b);
    }
  }

  lemma {:induction false} AvoidsOneMeans(v: bv16, k: nat, j: nat)
    requires AvoidsOne(v, k) && 1 <= j <= k
    ensures Iterate(v, j) != 1
    decreases k
  {
    if j > 1 {
      AvoidsOneMeans(Double(v), k - 1, j - 1);
    }
  }

  /** Four turns of the loop, written out. */
  function Double4(v: bv16): bv16 {
    Double(Double(Double(Double(v))))
  }

  /** None of the four values Double4 passes through is 1. */
  predicate Avoids4(v: bv16) {
    Double(v) != 1 && Double(Double(v)) != 1 && Double(Double(Double(v))) != 1 && Double4(v) != 1
  }

  lemma Unroll4(v: bv16)
    ensures Iterate(v, 4) == Double4(v)
    ensures Avoids4(v) ==> AvoidsOne(v, 4)
  {
    var v1 := Double(v);
    var v2 := Double(v1);
    var v3 := Double(v2);
    assert Iterate(v, 4) == Iterate(v1, 3) == Iterate(v2, 2) == Iterate(v3, 1);
    assert Double(v3) != 1 ==> AvoidsOne(v3, 1);
  }

  /** Four more turns of the walk from 1, checked by evaluating Double4 at a known value. */
  lemma Hop(a: nat, v: bv16)
    requires AvoidsOne(1, a) && Iterate(1, a) == v && Avoids4(v)
    ensures AvoidsOne(1, a + 4) && Iterate(1, a + 4) == Double4(v)
  {
    Unroll4(v);
    AvoidsOneAdd(1, a, 4);
    IterateAdd(1, a, 4);
  }

  /** The walk from 1 reaches the value Exp gives at multiples of 16 without meeting 1. */
  lemma Reach16()
    ensures AvoidsOne(1, 16) && Iterate(1, 16) == 0x4c
  {
    Hop(0, 0x01);
    Hop(4, 0x10);
    Hop(8, 0x1d);
    Hop(12, 0xcd);
  }

  lemma Reach32()
    ensures AvoidsOne(1, 32) && Iterate(1, 32) == 0x9d
  {
    Reach16();
    Hop(16, 0x4c);
    Hop(20, 0xb4);
    Hop(24, 0x8f);
    Hop(28, 0x18);
  }

  lemma Reach48()
    ensures AvoidsOne(1, 48) && Iterate(1, 48) == 0x46
  {
    Reach32();
    Hop(32, 0x9d);
    Hop(36, 0x25);
    Hop(40, 0x6a);
    Hop(44, 0xee);
  }

  lemma Reach64()
    ensures AvoidsOne(1, 64) && Iterate(1, 64) == 0x5f
  {
    Reach48();
    Hop(48, 0x46);
    Hop(52, 0x14);
    Hop(56, 0x5d);
    Hop(60, 0xb9);
  }

  lemma Reach80()
    ensures AvoidsOne(1, 80) && Iterate(1, 80) == 0xfd
  {
    Reach64();
    Hop(64, 0x5f);
    Hop(68, 0x99);
    Hop(72, 0x65);
    Hop(76, 0x1e);
  }

  lemma Reach96()
    ensures AvoidsOne(1, 96) && Iterate(1, 96) == 0xd9
  {
    Reach80();
    Hop(80, 0xfd);
    Hop(84, 0x6b);
    Hop(88, 0xfe);
    Hop(92, 0x5b);
  }

  lemma Reach112()
    ensures AvoidsOne(1, 112) && Iterate(1, 112) == 0x81
  {
    Reach96();
    Hop(96, 0xd9);
    Hop(100, 0x11);
    Hop(104, 0x0d);
    Hop(108, 0xd0);
  }

  lemma Reach128()
    ensures AvoidsOne(1, 128) && Iterate(1, 128) == 0x85
  {
    Reach112();
    Hop(112, 0x81);
    Hop(116, 0xf8);
    Hop(120, 0x3b);
    Hop(124, 0x97);
  }

  lemma Reach144()
    ensures AvoidsOne(1, 144) && Iterate(1, 144) == 0xa8
  {
    Reach128();
    Hop(128, 0x85);
    Hop(132, 0xb8);
    Hop(136, 0x4f);
    Hop(140, 0x84);
  }

  lemma Reach160()
    ensures AvoidsOne(1, 160) && Iterate(1, 160) == 0xe6
  {
    Reach144();
    Hop(144, 0xa8);
    Hop(148, 0x52);
    Hop(152, 0x49);
    Hop(156, 0xe4);
  }

  lemma Reach176()
    ensures AvoidsOne(1, 176) && Iterate(1, 176) == 0xe3
  {
    Reach160();
    Hop(160, 0xe6);
    Hop(164, 0xc6);
    Hop(168, 0xfc);
    Hop(172, 0x7b);
  }

  lemma Reach192()
    ensures AvoidsOne(1, 192) && Iterate(1, 192) == 0x82
  {
    Reach176();
    Hop(176, 0xe3);
    Hop(180, 0x96);
    Hop(184, 0x95);
    Hop(188, 0xa5);
  }

  lemma Reach208()
    ensures AvoidsOne(1, 208) && Iterate(1, 208) == 0x51
  {
    Reach192();
    Hop(192, 0x82);
    Hop(196, 0xc8);
    Hop(200, 0x1c);
    Hop(204, 0xdd);
  }

  lemma Reach224()
    ensures AvoidsOne(1, 224) && Iterate(1, 224) == 0x12
  {
    Reach208();
    Hop(208, 0x51);
    Hop(212, 0x79);
    Hop(216, 0xc3);
    Hop(220, 0xac);
  }

  lemma Reach240()
    ensures AvoidsOne(1, 240) && Iterate(1, 240) == 0x2c
  {
    Reach224();
    Hop(224, 0x12);
    Hop(228, 0x3d);
    Hop(232, 0xf7);
    Hop(236, 0xcb);
  }
  /** 2 generates the multiplicative group: its powers return to 1 first at the 255th. */
  lemma Primitive()
    ensures AvoidsOne(1, 254) && Exp(255) == 1
  {
    Reach240();
    Hop(240, 0x2c);
    Hop(244, 0xfa);
    Hop(248, 0x1b);
    AvoidsOneAdd(1, 252, 2);
    IterateAdd(1, 252, 3);
  }

  lemma {:induction false} IterateInRange(v: bv16, k: nat)
    requires 1 <= v <= 255
    ensures 1 <= Iterate(v, k) <= 255
    decreases k
  {
    if k > 0 {
      DoubleKeepsRange(v);
      IterateInRange(Double(v), k - 1);
    }
  }

  lemma {:induction false} IterateInjective(v: bv16, w: bv16, k: nat)
    requires 1 <= v <= 255 && 1 <= w <= 255 && Iterate(v, k) == Iterate(w, k)
    ensures v == w
    decreases k
  {
    if k > 0 {
      DoubleKeepsRange(v);
      DoubleKeepsRange(w);
      IterateInjective(Double(v), Double(w), k - 1);
      DoubleInjective(v, w);
    }
  }

  /** Every table entry is a nonzero byte. */
  lemma ExpInRange(i: nat)
    ensures 1 <= Exp(i) <= 255
  {
    IterateInRange(1, i);
  }

  /** Each entry is the previous one doubled and reduced, as the loop computes it. */
  lemma ExpSucc(i: nat)
    ensures Exp(i + 1) == Double(Exp(i))
  {
    IterateAdd(1, i, 1);
  }

  /** The 255 entries of the exponent table are pairwise distinct. */
  lemma ExpInjective(i: nat, j: nat)
    requires i < j < 255
    ensures Exp(i) != Exp(j)
  {
    if Exp(i) == Exp(j) {
      Primitive();
      IterateAdd(1, j - i, i);
      IterateInRange(1, j - i);
      IterateInjective(Exp(j - i), 1, i);
      AvoidsOneMeans(1, 254, j - i);
      assert false;
    }
  }

  /** The powers of 2 repeat with period 255. */
  lemma {:induction false} ExpPeriodic(n: nat)
    ensures Exp(n) == Exp(n % 255)
    decreases n
  {
    if n >= 255 {
      Primitive();
      IterateAdd(1, 255, n - 255);
      ExpPeriodic(n - 255);
    }
  }

  /** The table entry as the number the source stores. */
  function ExpValue(i: nat): (r: int)
    ensures 1 <= r <= 255
  {
    ExpInRange(i);
    Exp(i) as int
  }

  lemma ToIntRoundTrip(a: bv16)
    ensures (a as int) as bv16 == a
  {
  }

  lemma ExpValueInjective(i: nat, j: nat)
    requires i < j < 255
    ensures ExpValue(i) != ExpValue(j)
  {
    ExpInjective(i, j);
    ToIntRoundTrip(Exp(i));
    ToIntRoundTrip(Exp(j));
  }

  lemma ExpValueFresh(i: nat)
    requires i < 255
    ensures forall k :: 0 <= k < i ==> ExpValue(k) != ExpValue(i)
  {
    forall k | 0 <= k < i
      ensures ExpValue(k) != ExpValue(i)
    {
      ExpValueInjective(k, i);
    }
  }

  /** The first n entries of the exponent table, as a set. */
  ghost function ExpSet(n: nat): set<int> {
    if n == 0 then {} else ExpSet(n - 1) + {ExpValue(n - 1)}
  }

  /** The numbers 1..hi. */
  ghost function Span(hi: nat): set<int> {
    if hi == 0 then {} else Span(hi - 1) + {hi as int}
  }

  lemma {:induction false} ExpSetMembers(n: nat, x: int)
    requires x in ExpSet(n)
    ensures exists i :: 0 <= i < n && ExpValue(i) == x
    decreases n
  {
    if x != ExpValue(n - 1) {
      ExpSetMembers(n - 1, x);
    }
  }

  lemma ExpSetFresh(n: nat)
    requires 0 < n <= 255
    ensures ExpValue(n - 1) !in ExpSet(n - 1)
  {
    if ExpValue(n - 1) in ExpSet(n - 1) {
      ExpSetMembers(n - 1, ExpValue(n - 1));
      var i :| 0 <= i < n - 1 && ExpValue(i) == ExpValue(n - 1);
      ExpValueInjective(i, n - 1);
    }
  }

  lemma {:induction false} ExpSetSize(n: nat)
    requires n <= 255
    ensures |ExpSet(n)| == n
    decreases n
  {
    if n > 0 {
      ExpSetSize(n - 1);
      ExpSetFresh(n);
    }
  }

  lemma {:induction false} SpanMembers(hi: nat, x: int)
    ensures x in Span(hi) <==> 1 <= x <= hi
    decreases hi
  {
    if hi > 0 {
      SpanMembers(hi - 1, x);
    }
  }

  lemma {:induction false} SpanSize(hi: nat)
    ensures |Span(hi)| == hi
    decreases hi
  {
    if hi > 0 {
      SpanSize(hi - 1);
      SpanMembers(hi - 1, hi);
    }
  }

  /** A proper subset is smaller. */
  lemma Pigeonhole(s: set<int>, t: set<int>, a: int)
    requires s <= t && a in t && a !in s
    ensures |s| < |t|
  {
    assert t == s + (t - s);
    assert a in t - s;
  }

  /** Every nonzero byte occurs in the exponent table, so the logarithm table has no gap in 1..255. */
  lemma ExpOnto(a: int)
    requires 1 <= a <= 255
    ensures exists i :: 0 <= i < 255 && ExpValue(i) == a
  {
    var n: nat := 255;
    if a !in ExpSet(n) {
      forall x | x in ExpSet(n)
        ensures x in Span(n)
      {
        ExpSetMembers(n, x);
        SpanMembers(n, x);
      }
      SpanMembers(n, a);
      Pigeonhole(ExpSet(n), Span(n), a);
      ExpSetSize(n);
      SpanSize(n);
      assert false;
    } else {
      ExpSetMembers(n, a);
    }
  }

  /**
   * The source's GaloisField: EXP_TABLE and LOG_TABLE, filled by the static
   * initialiser. LOG_TABLE[0] is never written there (a hole); here it keeps
   * the array's initial 0 and no operation reads it.
   */
  class GaloisField {
    var expTable: array<int>
    var logTable: array<int>

    ghost predicate Valid()
      reads this, expTable, logTable
    {
      && expTable.Length == 255
      && logTable.Length == 256
      && (forall i :: 0 <= i < 255 ==> expTable[i] == ExpValue(i))
      && (forall i :: 0 <= i < 255 ==> logTable[ExpValue(i)] == i)
    }

    /** The table loop: 255 turns of store, double, reduce by 0x11d. */
    constructor ()
      ensures Valid()
      ensures fresh(expTable) && fresh(logTable)
    {
      var exps := new int[255];
      var logs := new int[256];
      var val: bv16 := 1;
      var i := 0;
      while i < 255
        invariant 0 <= i <= 255
        invariant val == Exp(i) && 1 <= val <= 255
        invariant forall k :: 0 <= k < i ==> exps[k] == ExpValue(k)
        invariant forall k :: 0 <= k < i ==> logs[ExpValue(k)] == k
      {
        ExpValueFresh(i);
        var v := val as int;
        assert v == ExpValue(i);
        exps[i] := v;
        logs[v] := i;
        ExpSucc(i);
        ExpInRange(i + 1);
        val := val << 1;
        if val & 0x100 != 0 {
          val := val ^ 0x11d;
        }
        i := i + 1;
      }
      expTable := exps;
      logTable := logs;
    }

    /** LOG_TABLE[a] for a nonzero byte: its discrete logarithm, below 255. */
    lemma LogOf(a: int)
      requires Valid() && 1 <= a <= 255
      ensures 0 <= logTable[a] < 255 && ExpValue(logTable[a]) == a
    {
      ExpOnto(a);
      var i :| 0 <= i < 255 && ExpValue(i) == a;
      assert logTable[ExpValue(i)] == i;
    }

    /**
     * multiply: 0 when either factor is 0, otherwise the exponent-table entry
     * at the sum of the logarithms mod 255. A factor outside 0..255 has no
     * logarithm and the lookup yields `undefined` (None here).
     */
    function Multiply(a: int, b: int): (r: Option<int>)
      requires Valid()
      reads this, expTable, logTable
      ensures (a == 0 || b == 0) <==> r == Some(0)
      ensures r.None? <==> a != 0 && b != 0 && !(1 <= a <= 255 && 1 <= b <= 255)
      ensures r.Some? && r.value != 0 ==> 1 <= r.value <= 255
    {
      if a == 0 || b == 0 then Some(0)
      else if !(1 <= a <= 255 && 1 <= b <= 255) then None
      else
        LogOf(a);
        LogOf(b);
        var k := (logTable[a] + logTable[b]) % 255;
        Some(expTable[k])
    }

    /**
     * power: 0 for base 0; otherwise the entry at JavaScript's
     * `(LOG_TABLE[base] * exp) % 255`, which is undefined when that remainder
     * is negative or the base has no logarithm.
     */
    function Power(base: int, e: int): (r: Option<int>)
      requires Valid()
      reads this, expTable, logTable
      ensures base == 0 ==> r == Some(0)
      ensures base != 0 && r.Some? ==> 1 <= r.value <= 255
      ensures 1 <= base <= 255 && e >= 0 ==> r.Some?
    {
      if base == 0 then Some(0)
      else if !(1 <= base <= 255) then None
      else
        LogOf(base);
        var k := JsRem(logTable[base] * e, 255);
        if k < 0 then None
        else
          Some(expTable[k])
    }

    /** multiply is commutative. */
    lemma MultiplyCommutes(a: int, b: int)
      requires Valid()
      ensures Multiply(a, b) == Multiply(b, a)
    {
    }

    /** Multiplying powers of the generator adds their exponents. */
    lemma MultiplyPowers(i: nat, j: nat)
      requires Valid() && i < 255 && j < 255
      ensures Multiply(ExpValue(i), ExpValue(j)) == Some(ExpValue(i + j))
    {
      LogOf(ExpValue(i));
      LogOf(ExpValue(j));
      ExpPeriodic(i + j);
    }

    /** 1 is the unit of multiply on nonzero bytes. */
    lemma MultiplyByOne(a: int)
      requires Valid() && 1 <= a <= 255
      ensures Multiply(1, a) == Some(a)
    {
      LogOf(a);
      assert ExpValue(0) == 1;
      assert logTable[ExpValue(0)] == 0;
    }

    /** Raising a power of the generator multiplies its exponent. */
    lemma PowerOfPower(i: nat, e: nat)
      requires Valid() && i < 255
      ensures Power(ExpValue(i), e) == Some(ExpValue(i * e))
    {
      LogOf(ExpValue(i));
      ExpPeriodic(i * e);
    }
  }
}
