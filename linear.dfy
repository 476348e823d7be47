/**
 * Row sums shared by the two linear-system solvers of lab2: the sum of
 * row[j] * v[j] over a range of columns, added from left to right as the
 * source's loops add it.
 */
module Linear {
  /** The zero vector of length n, the starting point of both solvers. */
  function Zeros(n: nat): (z: seq<real>)
    ensures |z| == n && forall i | 0 <= i < n :: z[i] == 0.0
  {
    seq(n, _ => 0.0)
  }

  /** row[lo] * v[lo] + ... + row[hi - 1] * v[hi - 1]. */
  function Sum(row: seq<real>, v: seq<real>, lo: nat, hi: nat): real
    requires lo <= hi <= |row| && hi <= |v|
    decreases hi - lo
  {
    if lo == hi then 0.0 else Sum(row, v, lo, hi - 1) + row[hi - 1] * v[hi - 1]
  }

  /** A sum over [lo, hi) is the sum over [lo, mid) plus the sum over [mid, hi). */
  lemma {:induction false} SumSplit(row: seq<real>, v: seq<real>, lo: nat, mid: nat, hi: nat)
    requires lo <= mid <= hi <= |row| && hi <= |v|
    ensures Sum(row, v, lo, hi) == Sum(row, v, lo, mid) + Sum(row, v, mid, hi)
    decreases hi - mid
  {
    if mid < hi {
      SumSplit(row, v, lo, mid, hi - 1);
    }
  }

  /** A sum only looks at the entries of its range. */
  lemma {:induction false} SumAgree(row: seq<real>, u: seq<real>, v: seq<real>, lo: nat, hi: nat)
    requires lo <= hi <= |row| && hi <= |u| && hi <= |v|
    requires forall j | lo <= j < hi :: u[j] == v[j]
    ensures Sum(row, u, lo, hi) == Sum(row, v, lo, hi)
    decreases hi - lo
  {
    if lo < hi {
      SumAgree(row, u, v, lo, hi - 1);
    }
  }

  /** Scaling every coefficient of the row by t scales the sum by t. */
  lemma {:induction false} SumScale(row: seq<real>, scaled: seq<real>, t: real, v: seq<real>, lo: nat, hi: nat)
    requires lo <= hi <= |row| && hi <= |scaled| && hi <= |v|
    requires forall j | lo <= j < hi :: scaled[j] == t * row[j]
    ensures Sum(scaled, v, lo, hi) == t * Sum(row, v, lo, hi)
    decreases hi - lo
  {
    if lo < hi {
      SumScale(row, scaled, t, v, lo, hi - 1);
      assert scaled[hi - 1] * v[hi - 1] == t * (row[hi - 1] * v[hi - 1]);
    }
  }

  /** Adding delta to v[s] inside the range adds row[s] * delta to the sum. */
  lemma {:induction false} SumUpdate(row: seq<real>, v: seq<real>, s: nat, delta: real, lo: nat, hi: nat)
    requires lo <= s < hi <= |row| && hi <= |v|
    ensures Sum(row, v[s := v[s] + delta], lo, hi) == Sum(row, v, lo, hi) + row[s] * delta
    decreases hi - lo
  {
    var w := v[s := v[s] + delta];
    if s == hi - 1 {
      SumAgree(row, w, v, lo, hi - 1);
    } else {
      SumUpdate(row, v, s, delta, lo, hi - 1);
    }
  }

  /** The sum against the zero vector is zero. */
  lemma {:induction false} SumZero(row: seq<real>, v: seq<real>, lo: nat, hi: nat)
    requires lo <= hi <= |row| && hi <= |v|
    requires forall j | lo <= j < hi :: v[j] == 0.0
    ensures Sum(row, v, lo, hi) == 0.0
    decreases hi - lo
  {
    if lo < hi {
      SumZero(row, v, lo, hi - 1);
    }
  }

  /** A sum over the first hi entries only needs those entries. */
  lemma SumPrefix(row: seq<real>, v: seq<real>, lo: nat, hi: nat)
    requires lo <= hi <= |row| && hi <= |v|
    ensures Sum(row, v[..hi], lo, hi) == Sum(row, v, lo, hi)
  {
    SumAgree(row, v[..hi], v, lo, hi);
  }

  /** The loops `for j in range(lo, hi): total += row[j] * v[j]` of lab2. */
  method RowSum(row: seq<real>, v: seq<real>, lo: nat, hi: nat) returns (total: real)
    requires lo <= hi <= |row| && hi <= |v|
    ensures total == Sum(row, v, lo, hi)
  {
    total := 0.0;
    var j := lo;
    while j < hi
      invariant lo <= j <= hi
      invariant total == Sum(row, v, lo, j)
    {
      total := total + row[j] * v[j];
      j := j + 1;
    }
  }
}
