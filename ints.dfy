/** Fixed-width integers of the Rust sources, as subsets of `int`.
    Arithmetic that would leave these ranges panics in a debug build; the
    model states those cases as preconditions, and spells out the
    conversions that wrap instead (`as i32`, `wrapping_add`). */
module Ints {

  const U32_LIMIT: int := 0x1_0000_0000
  const U32_MAX: int := 0xFFFF_FFFF
  const I32_MIN: int := -0x8000_0000
  const I32_MAX: int := 0x7FFF_FFFF

  type u8 = x: int | 0 <= x < 0x100
  type u32 = x: int | 0 <= x < 0x1_0000_0000
  type i32 = x: int | -0x8000_0000 <= x < 0x8000_0000

  /** The smaller of two integers (`Ord::min`). */
  function Min(a: int, b: int): (m: int)
    ensures m <= a && m <= b
    ensures m == a || m == b
  {
    if a <= b then a else b
  }

  /** The larger of two integers (Python's `max`). */
  function Max(a: int, b: int): (m: int)
    ensures m >= a && m >= b
    ensures m == a || m == b
  {
    if a >= b then a else b
  }

  /** The smaller of two reals (`f32::min` without NaN). */
  function MinReal(a: real, b: real): (m: real)
    ensures m <= a && m <= b
    ensures m == a || m == b
  {
    if a <= b then a else b
  }

  /** `x as i32` for an unsigned 32-bit value: the bit pattern is reread as
      two's complement, so values above `I32_MAX` become negative. */
  function U32AsI32(x: u32): (r: i32)
    ensures (r - x) % U32_LIMIT == 0
    ensures x <= I32_MAX ==> r == x
  {
    if x <= I32_MAX then x else x - U32_LIMIT
  }

  /** `x as u32` for a non-negative float: the cast truncates toward zero
      and saturates at `u32::MAX`. */
  function RealAsU32(x: real): (r: u32)
    requires x >= 0.0
    ensures r as real <= x || r == U32_MAX
    ensures r == U32_MAX || x < r as real + 1.0
  {
    if x.Floor > U32_MAX then U32_MAX else x.Floor
  }

  /** Multiplying by a positive integer does not decrease a natural number. */
  lemma {:induction false} MulAtLeast(q: nat, b: nat)
    requires b >= 1
    ensures q * b >= q
  {
    if q > 0 {
      MulAtLeast(q - 1, b);
      assert q * b == (q - 1) * b + b;
    }
  }

  /** Dividing by a positive integer does not increase a natural number. */
  lemma DivAtMost(a: nat, b: nat)
    requires b > 0
    ensures 0 <= a / b <= a
  {
    var q := a / b;
    assert a == q * b + a % b && 0 <= a % b;
    MulAtLeast(q, b);
  }
}

/** Success and failure values of the Rust `Option` and `Result` types. */
module Results {

  datatype Option<+T> = None | Some(value: T)

  datatype Result<+T, +E> = Ok(value: T) | Err(error: E)
}

/** Sums over finite sets, for specifications of loops that visit the
    entries of a hash map in an unspecified order. */
module Sums {

  /** The sum of `f` over `s`. */
  ghost function SumOver<K>(s: set<K>, f: K -> int): int
    decreases s
  {
    if s == {} then 0 else var k :| k in s; f(k) + SumOver(s - {k}, f)
  }

  /** The sum does not depend on which element the definition picks first. */
  lemma {:induction false} SumOverRemove<K>(s: set<K>, f: K -> int, x: K)
    requires x in s
    ensures SumOver(s, f) == f(x) + SumOver(s - {x}, f)
    decreases s
  {
    var k :| k in s && SumOver(s, f) == f(k) + SumOver(s - {k}, f);
    if k != x {
      SumOverRemove(s - {k}, f, x);
      SumOverRemove(s - {x}, f, k);
      assert s - {k} - {x} == s - {x} - {k};
    }
  }

  /** Adding one new element adds its value. */
  lemma SumOverAdd<K>(s: set<K>, f: K -> int, x: K)
    requires x !in s
    ensures SumOver(s + {x}, f) == SumOver(s, f) + f(x)
  {
    SumOverRemove(s + {x}, f, x);
    assert s + {x} - {x} == s;
  }

  /** Summing the indicator of `k` over `s` counts the elements of `s` in `k`. */
  lemma {:induction false} SumOverIndicator<K>(s: set<K>, k: set<K>, f: K -> int)
    requires forall x :: x in s ==> f(x) == if x in k then 1 else 0
    ensures SumOver(s, f) == |s * k|
    decreases s
  {
    if s != {} {
      var x :| x in s;
      SumOverRemove(s, f, x);
      SumOverIndicator(s - {x}, k, f);
      if x in k {
        assert s * k == (s - {x}) * k + {x};
      } else {
        assert s * k == (s - {x}) * k;
      }
    }
  }

  /** Terms that are all zero sum to zero. */
  lemma {:induction false} SumOverZero<K>(s: set<K>, f: K -> int)
    requires forall x :: x in s ==> f(x) == 0
    ensures SumOver(s, f) == 0
    decreases s
  {
    if s != {} {
      var x :| x in s;
      SumOverRemove(s, f, x);
      SumOverZero(s - {x}, f);
    }
  }

  /** Sums of pointwise-equal terms are equal. */
  lemma {:induction false} SumOverCongruent<K>(s: set<K>, f: K -> int, g: K -> int)
    requires forall x :: x in s ==> f(x) == g(x)
    ensures SumOver(s, f) == SumOver(s, g)
    decreases s
  {
    if s != {} {
      var x :| x in s;
      SumOverRemove(s, f, x);
      SumOverRemove(s, g, x);
      SumOverCongruent(s - {x}, f, g);
    }
  }
}

/** Sequence operations shared by the models. */
module Seqs {
  import opened Results

  /** A prefix one longer ends with the next element. */
  lemma PrefixStep<T>(s: seq<T>, i: nat)
    requires i < |s|
    ensures s[..i + 1] == s[..i] + [s[i]]
  {
  }

  /** `s` without its element at `k` (`Vec::remove`). */
  function RemoveAt<T>(s: seq<T>, k: nat): (r: seq<T>)
    requires k < |s|
    ensures |r| == |s| - 1
    ensures forall j :: 0 <= j < k ==> r[j] == s[j]
    ensures forall j :: k <= j < |r| ==> r[j] == s[j + 1]
    ensures multiset(r) + multiset{s[k]} == multiset(s)
  {
    assert s == s[..k] + [s[k]] + s[k + 1..];
    s[..k] + s[k + 1..]
  }

  /** The index of the first element equal to `x` (`list.index` when
      present). */
  function FirstIndexOf<T(==)>(s: seq<T>, x: T): (r: Option<nat>)
    ensures r.Some? ==> r.value < |s| && s[r.value] == x
                        && forall j :: 0 <= j < r.value ==> s[j] != x
    ensures r.None? ==> x !in s
  {
    if s == [] then None
    else if s[0] == x then Some(0)
    else match FirstIndexOf(s[1..], x)
         case None => None
         case Some(k) => Some(k + 1)
  }
}
