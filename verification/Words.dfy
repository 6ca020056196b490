/**
 Machine words and the bit tricks of src/util.rs and src/config/mod.rs.

 Words are integers in a range; wrap-around is written out. `And` is the bitwise
 conjunction of two naturals, defined on their binary expansions.
 */
module Words {

  const TWO32: nat := 0x1_0000_0000
  const TWO64: nat := 0x1_0000_0000_0000_0000

  type u32 = n: int | 0 <= n < 0x1_0000_0000
  type usize = n: int | 0 <= n < 0x1_0000_0000_0000_0000
  type byte = n: int | 0 <= n < 256

  datatype Option<+T> = None | Some(value: T)

  datatype Result<+T, +E> = Ok(value: T) | Err(error: E)

  function Min(a: int, b: int): int {
    if a < b then a else b
  }

  /** The u32 that an unbounded ring position is stored as. */
  function Wrap(n: int): u32 {
    n % TWO32
  }

  /** The slot of an unbounded position in a ring of d slots. */
  function Rem(n: nat, d: nat): (r: nat)
    requires d > 0
    ensures r < d
  {
    if n < d then n else Rem(n - d, d)
  }

  function WrapAdd(a: int, b: int): u32 {
    Wrap(a + b)
  }

  function WrapSub(a: int, b: int): u32 {
    Wrap(a - b)
  }

  function And(a: nat, b: nat): nat {
    if a == 0 || b == 0 then 0
    else 2 * And(a / 2, b / 2) + if a % 2 == 1 && b % 2 == 1 then 1 else 0
  }

  function Pow2(k: nat): (p: nat)
    ensures p > 0
  {
    if k == 0 then 1 else 2 * Pow2(k - 1)
  }

  /** `is_pow_of_two`: the `val & (val - 1)` test. */
  predicate IsPowOfTwo(val: u32) {
    val != 0 && And(val, val - 1) == 0
  }

  lemma {:induction false} AndSelf(a: nat)
    ensures And(a, a) == a
  {
    if a == 0 {
    } else {
      AndSelf(a / 2);
    }
  }

  lemma {:induction false} AndBound(a: nat, b: nat)
    ensures And(a, b) <= b
  {
    if a == 0 || b == 0 {
    } else {
      AndBound(a / 2, b / 2);
    }
  }

  lemma {:induction false} TestMeansPow2(val: nat)
    requires val > 0
    ensures And(val, val - 1) == 0 <==> exists k: nat :: val == Pow2(k)
    decreases val
  {
    if val == 1 {
      var zero: nat := 0;
      assert val == Pow2(zero);
      assert exists k: nat :: val == Pow2(k);
    } else if val % 2 == 1 {
      AndSelf(val / 2);
      forall k: nat ensures val != Pow2(k) {
        assert Pow2(0) == 1;
      }
    } else {
      TestMeansPow2(val / 2);
      assert And(val, val - 1) == 2 * And(val / 2, val / 2 - 1) by {
        assert (val - 1) / 2 == val / 2 - 1;
      }
      if k: nat :| val == Pow2(k) {
        assert exists j: nat :: val / 2 == Pow2(j) by {
          assert val / 2 == Pow2(k - 1);
        }
        assert exists j: nat :: val == Pow2(j);
      } else {
        forall k: nat ensures val / 2 != Pow2(k) {
          assert val != Pow2(k + 1);
        }
      }
    }
  }

  lemma {:induction false} Pow2Monotone(j: nat, k: nat)
    requires j <= k
    ensures Pow2(j) <= Pow2(k)
    decreases k
  {
    if j == k {
    } else {
      Pow2Monotone(j, k - 1);
    }
  }

  lemma {:induction false} Pow2Split(j: nat, k: nat)
    ensures Pow2(j + k) == Pow2(j) * Pow2(k)
    decreases j
  {
    if j == 0 {
    } else {
      Pow2Split(j - 1, k);
      assert Pow2(j + k) == 2 * Pow2(j - 1 + k);
    }
  }

  lemma Pow32()
    ensures Pow2(32) == TWO32
  {
    assert Pow2(4) == 16;
    Pow2Split(4, 4);
    Pow2Split(8, 8);
    Pow2Split(16, 16);
  }

  /** The test accepts exactly the 32 powers of two a u32 can hold. */
  lemma IsPowOfTwoExact(val: u32)
    ensures IsPowOfTwo(val) <==> exists k: nat :: k < 32 && val == Pow2(k)
  {
    if val != 0 {
      TestMeansPow2(val);
      forall k: nat | val == Pow2(k) ensures k < 32 {
        Pow32();
        if k >= 32 {
          Pow2Monotone(32, k);
        }
      }
    } else {
      assert forall k: nat :: Pow2(k) > 0;
    }
  }

  lemma MultipleBounds(d: int, p: int)
    requires d > 0
    ensures p >= 1 ==> d * p >= d
    ensures p <= -1 ==> d * p <= -d
    ensures p <= 0 ==> d * p <= 0
  {
    if p >= 1 {
      assert d * p == d + d * (p - 1);
    } else if p <= -1 {
      assert d * p == -d + d * (p + 1);
    }
  }

  lemma ModUnique(n: int, d: int, q: int, r: int)
    requires d > 0 && n == d * q + r && 0 <= r < d
    ensures n % d == r
  {
    var p := n / d - q;
    assert d * p == r - n % d by {
      assert n == d * (n / d) + n % d;
      assert d * p == d * (n / d) - d * q;
    }
    MultipleBounds(d, p);
  }

  lemma ModMod(n: int, a: nat, b: nat)
    requires a > 0 && b > 0
    ensures a * b > 0
    ensures (n % (a * b)) % a == n % a
  {
    var m := n % (a * b);
    var q := n / (a * b);
    assert n == (a * b) * q + m;
    assert (a * b) * q == a * (b * q);
    assert m == a * (m / a) + m % a;
    assert a * (b * q) + a * (m / a) == a * (b * q + m / a);
    ModUnique(n, a, b * q + m / a, m % a);
  }

  lemma HalfMod(m: nat, p: nat)
    requires p > 0
    ensures m % (2 * p) == 2 * ((m / 2) % p) + m % 2
  {
    var h := m / 2;
    var q := h / p;
    assert h == p * q + h % p;
    assert (2 * p) * q == 2 * (p * q);
    ModUnique(m, 2 * p, q, 2 * (h % p) + m % 2);
  }

  lemma {:induction false} LowBits(m: nat, k: nat)
    ensures And(m, Pow2(k) - 1) == m % Pow2(k)
    decreases k
  {
    if k == 0 {
    } else {
      var p := Pow2(k - 1);
      LowBits(m / 2, k - 1);
      assert (2 * p - 1) / 2 == p - 1 && (2 * p - 1) % 2 == 1;
      HalfMod(m, p);
    }
  }

  lemma {:induction false} RemIsMod(n: nat, d: nat)
    requires d > 0
    ensures Rem(n, d) == n % d
  {
    if n < d {
      ModUnique(n, d, 0, n);
    } else {
      RemIsMod(n - d, d);
      var q := (n - d) / d;
      assert n - d == d * q + (n - d) % d;
      assert d * (q + 1) == d * q + d;
      ModUnique(n, d, q + 1, (n - d) % d);
    }
  }

  /** `ring[idx & mask]` hits slot `n % size` for every unbounded position n, past every wrap of the u32 index. */
  lemma MaskIsMod(n: nat, size: u32)
    requires IsPowOfTwo(size)
    ensures And(Wrap(n), size - 1) == n % size == Rem(n, size)
  {
    IsPowOfTwoExact(size);
    var k: nat :| k < 32 && size == Pow2(k);
    LowBits(Wrap(n), k);
    Pow2Split(k, 32 - k);
    Pow32();
    ModMod(n, Pow2(k), Pow2(32 - k));
    RemIsMod(n, size);
  }

  /** Accepted sizes are at most 2^31, so an occupancy always fits a u32 difference. */
  lemma PowOfTwoBound(size: u32)
    requires IsPowOfTwo(size)
    ensures 1 <= size <= 0x8000_0000
  {
    IsPowOfTwoExact(size);
    var k: nat :| k < 32 && size == Pow2(k);
    Pow2Monotone(k, 31);
    Pow32();
    assert Pow2(32) == 2 * Pow2(31);
  }

  /** Wrapping subtraction of stored positions is exact while the distance fits a u32. */
  lemma WrapSubExact(a: nat, b: nat)
    requires 0 <= a - b < TWO32
    ensures WrapSub(Wrap(a), Wrap(b)) == a - b
  {
  }

  lemma WrapEqual(a: nat, b: nat)
    requires 0 <= a - b < TWO32
    ensures Wrap(a) == Wrap(b) <==> a == b
  {
  }

  lemma WrapAddExact(a: nat, b: nat)
    ensures WrapAdd(Wrap(a), b) == Wrap(a + b)
  {
  }

  /** Stepping an index one at a time. */
  lemma WrapStep(start: u32, i: nat)
    ensures WrapAdd(WrapAdd(start, i), 1) == WrapAdd(start, i + 1)
  {
  }

  lemma WrapZero(idx: u32)
    ensures WrapAdd(idx, 0) == idx
  {
  }

  lemma WrapBelow(n: nat)
    ensures Wrap(n) <= n
    ensures n < TWO32 ==> Wrap(n) == n
  {
  }

  /** Two positions less than a ring apart never share a slot. */
  lemma {:induction false} SlotsDiffer(i: nat, j: nat, size: nat)
    requires 0 < j - i < size
    ensures Rem(i, size) != Rem(j, size)
  {
    if j < size {
    } else if i < size {
      assert Rem(j, size) == j - size;
    } else {
      SlotsDiffer(i - size, j - size, size);
    }
  }

  // ----- src/config/mod.rs -----

  datatype QueueSizeError = QueueSizeError(size: u32)

  function NewQueueSize(size: u32): (r: Result<u32, QueueSizeError>)
    ensures r.Ok? <==> exists k: nat :: k < 32 && size == Pow2(k)
    ensures r.Ok? ==> r.value == size
    ensures r.Err? ==> r.error.size == size
  {
    IsPowOfTwoExact(size);
    if !IsPowOfTwo(size) then Err(QueueSizeError(size)) else Ok(size)
  }
}
