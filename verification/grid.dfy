/** What a row-major nested loop appends to a list: for each row `y` below
    `h`, for each column `x` below `w`, the values `f(y, x)`. The grid mesh
    generators are all loops of this shape. */
module Grid {
  /** The values appended by the first `h` rows. */
  function Rows<T>(f: (nat, nat) -> seq<T>, w: nat, h: nat): seq<T>
    decreases h
  {
    if h == 0 then [] else Rows(f, w, h - 1) + Row(f, h - 1, w)
  }

  /** The values appended by the first `n` columns of row `y`. */
  function Row<T>(f: (nat, nat) -> seq<T>, y: nat, n: nat): seq<T>
    decreases n
  {
    if n == 0 then [] else Row(f, y, n - 1) + f(y, n - 1)
  }

  /** Every step appends exactly `k` values. */
  ghost predicate Uniform<T>(f: (nat, nat) -> seq<T>, k: nat) {
    forall y: nat, x: nat :: |f(y, x)| == k
  }

  lemma MulSucc(a: nat, b: nat)
    ensures a * (b + 1) == a * b + a
    ensures (b + 1) * a == b * a + a
  {
  }

  lemma {:induction false} RowLength<T>(f: (nat, nat) -> seq<T>, k: nat, y: nat, n: nat)
    requires Uniform(f, k)
    ensures |Row(f, y, n)| == k * n
    decreases n
  {
    if n > 0 {
      RowLength(f, k, y, n - 1);
      MulSucc(k, n - 1);
    }
  }

  /** A loop of `h` rows of `w` steps of `k` values appends `k * w * h`
      values. */
  lemma {:induction false} RowsLength<T>(f: (nat, nat) -> seq<T>, k: nat, w: nat, h: nat)
    requires Uniform(f, k)
    ensures |Rows(f, w, h)| == k * w * h == k * (w * h)
    decreases h
  {
    if h > 0 {
      RowsLength(f, k, w, h - 1);
      RowLength(f, k, h - 1, w);
      MulSucc(k * w, h - 1);
    }
    MulAssoc(k, w, h);
  }

  lemma MulAssoc(a: nat, b: nat, c: nat)
    ensures a * b * c == a * (b * c)
  {
  }

  /** The first `y` rows are a prefix of the first `h`. */
  lemma {:induction false} RowsPrefix<T>(f: (nat, nat) -> seq<T>, w: nat, y: nat, h: nat)
    requires y <= h
    ensures |Rows(f, w, y)| <= |Rows(f, w, h)| && Rows(f, w, h)[..|Rows(f, w, y)|] == Rows(f, w, y)
    decreases h
  {
    if y < h {
      RowsPrefix(f, w, y, h - 1);
    }
  }

  /** The first `x` steps of a row are a prefix of the first `n`. */
  lemma {:induction false} RowPrefix<T>(f: (nat, nat) -> seq<T>, y: nat, x: nat, n: nat)
    requires x <= n
    ensures |Row(f, y, x)| <= |Row(f, y, n)| && Row(f, y, n)[..|Row(f, y, x)|] == Row(f, y, x)
    decreases n
  {
    if x < n {
      RowPrefix(f, y, x, n - 1);
    }
  }

  /** Step `x` of a row sits right after the steps before it. */
  lemma StepInRow<T>(f: (nat, nat) -> seq<T>, y: nat, w: nat, x: nat, j: nat)
    requires x < w && j < |f(y, x)|
    ensures |Row(f, y, x)| + j < |Row(f, y, w)| && Row(f, y, w)[|Row(f, y, x)| + j] == f(y, x)[j]
  {
    var prefix, step := Row(f, y, x), f(y, x);
    assert Row(f, y, x + 1) == prefix + step;
    ConcatRight(prefix, step, |prefix| + j, j);
    RowPrefix(f, y, x + 1, w);
    PrefixAt(Row(f, y, w), Row(f, y, x + 1), |prefix| + j);
  }

  /** Row `y` sits right after the rows before it. */
  lemma RowInRows<T>(f: (nat, nat) -> seq<T>, w: nat, h: nat, y: nat, i: nat)
    requires y < h && i < |Row(f, y, w)|
    ensures |Rows(f, w, y)| + i < |Rows(f, w, h)| && Rows(f, w, h)[|Rows(f, w, y)| + i] == Row(f, y, w)[i]
  {
    var before, row := Rows(f, w, y), Row(f, y, w);
    assert Rows(f, w, y + 1) == before + row;
    ConcatRight(before, row, |before| + i, i);
    RowsPrefix(f, w, y + 1, h);
    PrefixAt(Rows(f, w, h), Rows(f, w, y + 1), |before| + i);
  }

  /** Step `x` of row `y` sits right after the rows before `y` and the
      steps before `x`. */
  lemma StepAt<T>(f: (nat, nat) -> seq<T>, w: nat, h: nat, y: nat, x: nat, j: nat)
    requires y < h && x < w && j < |f(y, x)|
    ensures var o := |Rows(f, w, y)| + |Row(f, y, x)| + j;
            o < |Rows(f, w, h)| && Rows(f, w, h)[o] == f(y, x)[j]
  {
    StepInRow(f, y, w, x, j);
    RowInRows(f, w, h, y, |Row(f, y, x)| + j);
  }

  /** Step `x` of row `y` is the block of `k` values at `k * (y * w + x)`. */
  lemma RowsAt<T>(f: (nat, nat) -> seq<T>, k: nat, w: nat, h: nat, y: nat, x: nat, j: nat)
    requires Uniform(f, k) && y < h && x < w && j < k
    ensures k * (y * w + x) + j < |Rows(f, w, h)| && Rows(f, w, h)[k * (y * w + x) + j] == f(y, x)[j]
  {
    StepAt(f, w, h, y, x, j);
    RowsLength(f, k, w, y);
    RowLength(f, k, y, x);
    BlockOffset(k, w, y, x);
  }

  lemma BlockOffset(k: nat, w: nat, y: nat, x: nat)
    ensures k * (y * w + x) == k * w * y + k * x
  {
    Distrib(k, y * w, x);
    Assoc(k, y, w);
  }

  lemma PrefixAt<T>(a: seq<T>, b: seq<T>, i: nat)
    requires |b| <= |a| && a[..|b|] == b && i < |b|
    ensures a[i] == b[i]
  {
    assert a[..|b|][i] == a[i];
  }

  lemma ConcatRight<T>(a: seq<T>, b: seq<T>, i: nat, j: nat)
    requires i == |a| + j && j < |b|
    ensures (a + b)[i] == b[j]
  {
  }

  lemma MulNat(a: nat, b: nat)
    ensures a * b >= 0
  {
  }

  lemma Distrib(a: nat, b: nat, c: nat)
    ensures a * (b + c) == a * b + a * c
  {
  }

  lemma Assoc(a: nat, b: nat, c: nat)
    ensures a * (b * c) == a * c * b
  {
  }

  /** A property every appended value has holds of the whole list. */
  lemma {:induction false} RowsAll<T>(f: (nat, nat) -> seq<T>, P: T -> bool, w: nat, h: nat)
    requires forall y: nat, x: nat, i :: y < h && x < w && 0 <= i < |f(y, x)| ==> P(f(y, x)[i])
    ensures forall i :: 0 <= i < |Rows(f, w, h)| ==> P(Rows(f, w, h)[i])
    decreases h
  {
    if h > 0 {
      RowsAll(f, P, w, h - 1);
      RowAll(f, P, h - 1, w);
    }
  }

  lemma {:induction false} RowAll<T>(f: (nat, nat) -> seq<T>, P: T -> bool, y: nat, n: nat)
    requires forall x: nat, i :: x < n && 0 <= i < |f(y, x)| ==> P(f(y, x)[i])
    ensures forall i :: 0 <= i < |Row(f, y, n)| ==> P(Row(f, y, n)[i])
    decreases n
  {
    if n > 0 {
      RowAll(f, P, y, n - 1);
      var a := Row(f, y, n - 1);
      var b := f(y, n - 1);
      assert forall i :: |a| <= i < |a| + |b| ==> (a + b)[i] == b[i - |a|];
    }
  }

  /** The number of times `for (i = 0; i < n; i++)` runs. */
  function Count(n: int): nat {
    if n > 0 then n else 0
  }

  /** A float array of `len` entries, allocated as zeros and then filled
      three at a time (`for (i = 0; i < len; i += 3)`): entry `3m + c` is
      channel `c` of triple `m`. */
  method FillTriples<T>(len: nat, zero: T, at: (nat, nat) -> T) returns (a: seq<T>)
    requires len % 3 == 0
    ensures |a| == len && forall j :: 0 <= j < len ==> a[j] == at(j / 3, j % 3)
  {
    a := seq(len, _ => zero);
    var i := 0;
    while i < len
      invariant 0 <= i <= len && i % 3 == 0 && |a| == len
      invariant forall j :: 0 <= j < i ==> a[j] == at(j / 3, j % 3)
    {
      a := a[i := at(i / 3, 0)][i + 1 := at(i / 3, 1)][i + 2 := at(i / 3, 2)];
      i := i + 3;
    }
  }

  /** The nested loop `for (y = 0; y < h; y++) for (x = 0; x < w; x++)`
      appending `f(y, x)` at each step. */
  method AppendRows<T>(f: (nat, nat) -> seq<T>, w: int, h: int) returns (out: seq<T>)
    ensures out == Rows(f, Count(w), Count(h))
  {
    out := [];
    var y := 0;
    while y < h
      invariant 0 <= y <= Count(h) && out == Rows(f, Count(w), y)
    {
      out := AppendRow(f, w, y, out);
      y := y + 1;
    }
  }

  /** One pass of the inner loop. */
  method AppendRow<T>(f: (nat, nat) -> seq<T>, w: int, y: nat, out0: seq<T>) returns (out: seq<T>)
    ensures out == out0 + Row(f, y, Count(w))
  {
    out := out0;
    var x := 0;
    while x < w
      invariant 0 <= x <= Count(w) && out == out0 + Row(f, y, x)
    {
      out := out + f(y, x);
      x := x + 1;
    }
  }
}
