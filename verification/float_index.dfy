/** Face indices on their way into the index array of `readMesh`: each
    triangle is stored as a `Vector3f`, so every index is widened to a
    32-bit float (`new Vector3f(v1.intValue(), …)`) and narrowed back with
    `(int)` when the array is filled. A float holds 24 significant bits, so
    an index above 2^24 may come back as a different vertex. */
module FloatIndex {
  import opened Utils
  import Text

  type Triangle = Vec3<int>

  /** 2^24: every integer up to this one is a float. */
  const Exact: nat := 0x100_0000

  /** The distance between neighbouring floats around `n`: 1 below 2^24 and
      doubling with each further bit of `n`. */
  function Ulp(n: nat): (u: nat)
    ensures u >= 1 && n < Exact * u
    ensures u > 1 ==> Exact * u <= 2 * n && u % 2 == 0
    decreases n
  {
    if n < Exact then 1 else 2 * Ulp(n / 2)
  }

  /** `(float) n` for a non-negative int: the nearest multiple of the float
      spacing, the even multiple on a tie (IEEE 754 round to nearest). */
  function ToFloat(n: nat): (f: nat)
    ensures 2 * (f - n) <= Ulp(n) && 2 * (n - f) <= Ulp(n)
  {
    var u := Ulp(n);
    var q := n / u;
    var r := n % u;
    DivMod(n, u);
    if 2 * r < u || (2 * r == u && q % 2 == 0) then q * u else q * u + u
  }

  lemma DivMod(n: nat, u: nat)
    requires u >= 1
    ensures n == (n / u) * u + n % u && 0 <= n % u < u
  {
  }

  /** `(int) f` for a non-negative float that is an integer: the value,
      saturated at `Integer.MAX_VALUE`. */
  function ToInt(f: nat): (n: nat)
    ensures n <= Text.JavaIntMax
    ensures f <= Text.JavaIntMax ==> n == f
  {
    if f > Text.JavaIntMax then Text.JavaIntMax else f
  }

  /** An index after the round trip through a float. */
  function ThroughFloat(n: nat): nat {
    ToInt(ToFloat(n))
  }

  /** Up to 2^24 the round trip is exact. */
  lemma ThroughFloatExact(n: nat)
    requires n <= Exact
    ensures ThroughFloat(n) == n
  {
    if n == Exact {
      assert Ulp(n) == 2 * Ulp(n / 2);
    }
  }

  /** 2^24 + 1 is the first index the round trip changes: it comes back as
      2^24. */
  lemma ThroughFloatCounterexample()
    ensures ThroughFloat(Exact + 1) == Exact
  {
    assert Ulp(Exact + 1) == 2 * Ulp((Exact + 1) / 2) == 2;
    assert (Exact + 1) / 2 == Exact / 2;
  }

  /** The corners of a triangle that names vertices by non-negative
      indices. */
  predicate Corners(t: Triangle) {
    t.x >= 0 && t.y >= 0 && t.z >= 0
  }

  predicate AllCorners(tris: seq<Triangle>) {
    forall i :: 0 <= i < |tris| ==> Corners(tris[i])
  }

  /** A triangle as it comes out of its `Vector3f`. */
  function Rounded(t: Triangle): Triangle
    requires Corners(t)
  {
    Vec3(ThroughFloat(t.x), ThroughFloat(t.y), ThroughFloat(t.z))
  }

  /** The index array the code fills: three entries per triangle, each the
      corner after the round trip through a float. */
  function IndicesAsWritten(tris: seq<Triangle>): (a: seq<int>)
    requires AllCorners(tris)
  {
    Flatten(seq(|tris|, i requires 0 <= i < |tris| => Rounded(tris[i])))
  }

  /** The index array as intended: the corners themselves, three per
      triangle in emission order. */
  function Indices(tris: seq<Triangle>): (a: seq<int>)
    ensures |a| == 3 * |tris|
    ensures forall i :: 0 <= i < |tris| ==> a[3 * i] == tris[i].x && a[3 * i + 1] == tris[i].y && a[3 * i + 2] == tris[i].z
  {
    forall i | 0 <= i < |tris|
      ensures Flatten(tris)[3 * i] == tris[i].x && Flatten(tris)[3 * i + 1] == tris[i].y && Flatten(tris)[3 * i + 2] == tris[i].z
    {
      FlattenAt(tris, i);
    }
    Flatten(tris)
  }

  /** With every corner at most 2^24 the array as written is the intended
      one. */
  lemma IndicesAsWrittenExact(tris: seq<Triangle>)
    requires AllCorners(tris)
    requires forall i :: 0 <= i < |tris| ==> tris[i].x <= Exact && tris[i].y <= Exact && tris[i].z <= Exact
    ensures IndicesAsWritten(tris) == Indices(tris)
  {
    var rounded := seq(|tris|, i requires 0 <= i < |tris| => Rounded(tris[i]));
    forall i | 0 <= i < |tris|
      ensures rounded[i] == tris[i]
    {
      ThroughFloatExact(tris[i].x);
      ThroughFloatExact(tris[i].y);
      ThroughFloatExact(tris[i].z);
    }
    assert rounded == tris;
  }

  /** A triangle with corner 2^24 + 1 is stored as one with corner 2^24. */
  lemma IndicesAsWrittenCounterexample()
    ensures IndicesAsWritten([Vec3(0, 1, Exact + 1)]) == [0, 1, Exact]
    ensures Indices([Vec3(0, 1, Exact + 1)]) == [0, 1, Exact + 1]
  {
    var t := Vec3(0, 1, Exact + 1);
    ThroughFloatExact(0);
    ThroughFloatExact(1);
    ThroughFloatCounterexample();
    assert Rounded(t) == Vec3(0, 1, Exact);
    assert seq(1, i requires 0 <= i < 1 => Rounded([t][i])) == [Vec3(0, 1, Exact)];
    assert Flatten([Vec3(0, 1, Exact)]) == Flatten<int>([]) + [0, 1, Exact];
    assert Flatten([t]) == Flatten<int>([]) + [0, 1, Exact + 1];
  }

  /** The loop that fills `indicesArr`, as written: it copies the corners
      of the `Vector3f`s, which hold them already rounded to floats. */
  method IndexArrayAsWritten(tris: seq<Triangle>) returns (a: array<int>)
    requires AllCorners(tris)
    ensures a[..] == IndicesAsWritten(tris)
    ensures a.Length == 3 * |tris|
    ensures forall i :: 0 <= i < |tris| ==>
              a[3 * i] == ThroughFloat(tris[i].x) && a[3 * i + 1] == ThroughFloat(tris[i].y) && a[3 * i + 2] == ThroughFloat(tris[i].z)
  {
    var stored := seq(|tris|, i requires 0 <= i < |tris| => Rounded(tris[i]));
    a := IndexArray(stored);
    assert forall i :: 0 <= i < |tris| ==> stored[i] == Rounded(tris[i]);
  }

  /** The same loop storing the corners themselves. */
  method IndexArray(tris: seq<Triangle>) returns (a: array<int>)
    ensures a[..] == Indices(tris)
  {
    a := new int[|tris| * 3];
    for i := 0 to |tris|
      invariant forall k :: 0 <= k < i ==> a[3 * k] == tris[k].x && a[3 * k + 1] == tris[k].y && a[3 * k + 2] == tris[k].z
    {
      a[3 * i] := tris[i].x;
      a[3 * i + 1] := tris[i].y;
      a[3 * i + 2] := tris[i].z;
    }
    var want := Indices(tris);
    forall j | 0 <= j < a.Length
      ensures a[j] == want[j]
    {
      var i := j / 3;
      assert want[3 * i] == tris[i].x && want[3 * i + 1] == tris[i].y && want[3 * i + 2] == tris[i].z;
      assert a[3 * i] == tris[i].x && a[3 * i + 1] == tris[i].y && a[3 * i + 2] == tris[i].z;
      assert j == 3 * i || j == 3 * i + 1 || j == 3 * i + 2;
    }
  }
}
