/**
 * The three probe sequences of the open-addressing maps, as closed-form index
 * functions: `Probe(p, h, size, i)` is the i-th slot index the generator of
 * strategy `p` yields for hash code `h` in a table of `size` slots.
 */
module Probing {

  datatype Strategy = Linear | Quadratic | DoubleHashing(prime: int)

  /** Double hashing divides by its prime; a zero prime has no probe sequence. */
  predicate WellFormed(p: Strategy)
  {
    p.DoubleHashing? ==> p.prime != 0
  }

  /** Python's `a % b`, whose result takes the sign of `b`. */
  function PyMod(a: int, b: int): (r: int)
    requires b != 0
    ensures b > 0 ==> r == a % b
    ensures b < 0 ==> b < r <= 0
    ensures (a - r) % b == 0
  {
    PyModDivides(a, b);
    if b > 0 then a % b else -((-a) % (-b))
  }

  /** 0^2 + 1^2 + ... + (n-1)^2: the offset the quadratic generator has
      accumulated when it yields its n-th index. */
  function SumOfSquares(n: nat): nat
  {
    if n == 0 then 0 else SumOfSquares(n - 1) + (n - 1) * (n - 1)
  }

  lemma {:induction false} SumOfSquaresClosedForm(n: nat)
    ensures 6 * SumOfSquares(n) == (n - 1) * n * (2 * n - 1)
  {
    if n > 0 {
      SumOfSquaresClosedForm(n - 1);
      assert 6 * SumOfSquares(n) == (n - 2) * (n - 1) * (2 * n - 3) + 6 * (n - 1) * (n - 1);
    }
  }

  /** The secondary hash of double hashing: `prime - (h % prime)`. */
  function Hash2(prime: int, h: int): (h2: int)
    requires prime != 0
    ensures prime > 0 ==> 1 <= h2 <= prime
    ensures prime < 0 ==> prime <= h2 < 0
  {
    prime - PyMod(h, prime)
  }

  /** The i-th index yielded by `_probing_sequence(key, h, size)`. */
  function Probe(p: Strategy, h: int, size: int, i: nat): (idx: nat)
    requires size > 0 && WellFormed(p)
    ensures idx < size
  {
    match p
    case Linear => (h % size + i) % size
    case Quadratic => (h % size + SumOfSquares(i)) % size
    case DoubleHashing(prime) => (h % size + Hash2(prime, h) % size + i) % size
  }

  lemma MulAtLeastOnce(m: int, d: int)
    requires m > 0 && d >= 1
    ensures m * d >= m
  {
    assert m * d == m * (d - 1) + m;
  }

  /** x % m is the only remainder r with x == m * q + r. */
  lemma ModOfMultiplePlus(m: int, q: int, r: int)
    requires 0 <= r < m
    ensures (m * q + r) % m == r
  {
    var x := m * q + r;
    var q', r' := x / m, x % m;
    assert x == m * q' + r';
    assert m * (q - q') == r' - r;
    if q > q' {
      MulAtLeastOnce(m, q - q');
    } else if q < q' {
      MulAtLeastOnce(m, q' - q);
    }
  }

  /** `a % b` in Python differs from a by a multiple of b. */
  lemma PyModDivides(a: int, b: int)
    requires b != 0
    ensures (a - (if b > 0 then a % b else -((-a) % (-b)))) % b == 0
  {
    if b > 0 {
      assert a - a % b == b * (a / b);
      ModOfMultiplePlus(b, a / b, 0);
    } else {
      var n, k := -b, (-a) / (-b);
      assert -a == n * k + (-a) % n;
      var x := a + (-a) % n;
      assert x == b * k;
      var q', r' := x / b, x % b;
      assert x == b * q' + r' && 0 <= r' < n;
      assert n * (q' - k) == r';
      if q' > k {
        MulAtLeastOnce(n, q' - k);
      } else if q' < k {
        MulAtLeastOnce(n, k - q');
      }
    }
  }

  /** Shifting by a multiple of m does not change the remainder. */
  lemma ModShift(a: int, b: int, m: int)
    requires m > 0 && (a - b) % m == 0
    ensures a % m == b % m
  {
    var k := (a - b) / m;
    assert a - b == m * k;
    assert b == m * (b / m) + b % m;
    assert a == m * (k + b / m) + b % m;
    ModOfMultiplePlus(m, k + b / m, b % m);
  }

  /** Linear probing visits (h + i) mod size. */
  lemma LinearProbeFormula(h: int, size: int, i: nat)
    requires size > 0
    ensures Probe(Linear, h, size, i) == (h + i) % size
  {
    assert (h % size + i) - (h + i) == -(size * (h / size));
    ModOfMultiplePlus(size, -(h / size), 0);
    ModShift(h % size + i, h + i, size);
  }

  /** Quadratic probing is cumulative: the first two probes are the home
      slot, and probe n sits (n-1)n(2n-1)/6 slots after it. */
  lemma QuadraticProbeFormula(h: int, size: int, n: nat)
    requires size > 0
    ensures Probe(Quadratic, h, size, 0) == Probe(Quadratic, h, size, 1) == h % size
    ensures Probe(Quadratic, h, size, n) == (h + (n - 1) * n * (2 * n - 1) / 6) % size
  {
    SumOfSquaresClosedForm(n);
    var offset := SumOfSquares(n);
    SixthOf((n - 1) * n * (2 * n - 1), offset);
    LinearProbeFormula(h, size, offset);
    LinearProbeFormula(h, size, 0);
    assert SumOfSquares(1) == 0;
  }

  lemma SixthOf(x: int, q: int)
    requires x == 6 * q
    ensures x / 6 == q
  {
    ModOfMultiplePlus(6, q, 0);
  }

  /** Double hashing is linear probing started from a shifted slot. */
  lemma DoubleHashingIsShiftedLinear(prime: int, h: int, size: int, i: nat)
    requires size > 0 && prime != 0
    ensures Probe(DoubleHashing(prime), h, size, i)
         == Probe(Linear, h % size + Hash2(prime, h) % size, size, i)
  {
    var start := h % size + Hash2(prime, h) % size;
    LinearProbeFormula(start, size, i);
  }

  /** The first `size` linear probes are pairwise distinct ... */
  lemma LinearProbesDistinct(h: int, size: int, i: nat, j: nat)
    requires i < j < size
    ensures Probe(Linear, h, size, i) != Probe(Linear, h, size, j)
  {
    ShiftChangesMod(h % size + i, j - i, size);
    assert h % size + j == (h % size + i) + (j - i);
  }

  /** Adding 0 < d < m to a number changes its remainder modulo m. */
  lemma ShiftChangesMod(a: int, d: int, m: int)
    requires 0 < d < m
    ensures a % m != (a + d) % m
  {
    var q, r := a / m, a % m;
    assert a + d == m * q + (r + d);
    if r + d < m {
      ModOfMultiplePlus(m, q, r + d);
    } else {
      assert a + d == m * (q + 1) + (r + d - m);
      ModOfMultiplePlus(m, q + 1, r + d - m);
    }
  }

  /** ... and reach every slot. */
  lemma LinearReaches(h: int, size: int, slot: int) returns (i: nat)
    requires 0 <= slot < size
    ensures i < size && Probe(Linear, h, size, i) == slot
  {
    i := (slot - h % size) % size;
    var k := (slot - h % size) / size;
    assert slot - h % size == size * k + i;
    assert h % size + i == size * (-k) + slot;
    ModOfMultiplePlus(size, -k, slot);
  }

  /** `slot` is on the probe path of hash code h. */
  ghost predicate Reaches(p: Strategy, h: int, size: int, slot: int)
    requires size > 0 && WellFormed(p)
  {
    exists i: nat :: Probe(p, h, size, i) == slot
  }

  /** Every slot lies on every probe path: what makes a probe loop that stops
      at the first EMPTY slot terminate as soon as some slot is EMPTY. */
  ghost predicate Covering(p: Strategy, size: int)
    requires size > 0 && WellFormed(p)
  {
    forall h: int, slot: int :: 0 <= slot < size ==> Reaches(p, h, size, slot)
  }

  /** Linear probing and double hashing cover every table size; quadratic
      probing does not (with 5 slots it only ever visits 3 of them). */
  lemma LinearAndDoubleHashingCover(p: Strategy, size: int)
    requires size > 0 && WellFormed(p) && !p.Quadratic?
    ensures Covering(p, size)
  {
    forall h: int, slot: int | 0 <= slot < size
      ensures Reaches(p, h, size, slot)
    {
      match p
      case Linear =>
        var i := LinearReaches(h, size, slot);
      case DoubleHashing(prime) =>
        var start := h % size + Hash2(prime, h) % size;
        var i := LinearReaches(start, size, slot);
        DoubleHashingIsShiftedLinear(prime, h, size, i);
    }
  }

  /** Quadratic probing does not cover a table of 5 slots: from home slot 0
      it never reaches slot 2. */
  lemma QuadraticMissesSlotsOfFive()
    ensures !Covering(Quadratic, 5)
  {
    if Covering(Quadratic, 5) {
      assert Reaches(Quadratic, 0, 5, 2);
      var i: nat :| Probe(Quadratic, 0, 5, i) == 2;
      QuadraticModFive(i);
      assert false;
    }
  }

  /** Modulo 5 the cumulative offsets only take the values 0, 1 and 4: the
      squares of five consecutive integers add up to a multiple of 5. */
  lemma {:induction false} QuadraticModFive(n: nat)
    ensures SumOfSquares(n) % 5 == 0 || SumOfSquares(n) % 5 == 1 || SumOfSquares(n) % 5 == 4
  {
    if n >= 5 {
      var a := n - 5;
      QuadraticModFive(a);
      assert SumOfSquares(a + 1) == SumOfSquares(a) + a * a;
      assert SumOfSquares(a + 2) == SumOfSquares(a + 1) + (a + 1) * (a + 1);
      assert SumOfSquares(a + 3) == SumOfSquares(a + 2) + (a + 2) * (a + 2);
      assert SumOfSquares(a + 4) == SumOfSquares(a + 3) + (a + 3) * (a + 3);
      assert SumOfSquares(n) == SumOfSquares(a + 4) + (a + 4) * (a + 4);
      var k := a * a + 4 * a + 6;
      assert SumOfSquares(n) - SumOfSquares(a) == 5 * k;
      ModOfMultiplePlus(5, k, 0);
      ModShift(SumOfSquares(n), SumOfSquares(a), 5);
    } else if n == 4 {
      assert SumOfSquares(4) == 14 by {
        assert SumOfSquares(3) == 5 by { assert SumOfSquares(2) == 1; }
      }
    } else if n == 3 {
      assert SumOfSquares(3) == 5 by { assert SumOfSquares(2) == 1; }
    } else if n == 2 {
      assert SumOfSquares(2) == 1;
    }
  }
}
