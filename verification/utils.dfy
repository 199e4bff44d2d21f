/** `Vector3f` triples and `Utils.listToArr`, which lays a list of triples
    out as one flat array. */
module Utils {

  /** A triple of components; the mesh code uses it for positions, normals,
      colours and triangles. */
  datatype Vec3<T> = Vec3(x: T, y: T, z: T)

  /** The triples' components in list order, three per triple. */
  function Flatten<T>(vs: seq<Vec3<T>>): (f: seq<T>)
    ensures |f| == 3 * |vs|
  {
    if |vs| == 0 then []
    else
      var v := vs[|vs| - 1];
      Flatten(vs[..|vs| - 1]) + [v.x, v.y, v.z]
  }

  /** The triples a flat sequence of length `3n` holds, three components
      each. */
  function Unflatten<T>(f: seq<T>): (vs: seq<Vec3<T>>)
    requires |f| % 3 == 0
    ensures |vs| == |f| / 3
  {
    if |f| == 0 then []
    else Unflatten(f[..|f| - 3]) + [Vec3(f[|f| - 3], f[|f| - 2], f[|f| - 1])]
  }

  /** Component `j` of triple `i` lies at position `3i + j`. */
  lemma {:induction false} FlattenAt<T>(vs: seq<Vec3<T>>, i: nat)
    requires i < |vs|
    ensures Flatten(vs)[3 * i] == vs[i].x
    ensures Flatten(vs)[3 * i + 1] == vs[i].y
    ensures Flatten(vs)[3 * i + 2] == vs[i].z
    decreases |vs|
  {
    if i < |vs| - 1 {
      FlattenAt(vs[..|vs| - 1], i);
    }
  }

  lemma {:induction false} FlattenConcat<T>(a: seq<Vec3<T>>, b: seq<Vec3<T>>)
    ensures Flatten(a + b) == Flatten(a) + Flatten(b)
    decreases |b|
  {
    if |b| == 0 {
      assert a + b == a;
    } else {
      assert (a + b)[..|a + b| - 1] == a + b[..|b| - 1];
      FlattenConcat(a, b[..|b| - 1]);
    }
  }

  /** Laying out and regrouping are inverse. */
  lemma {:induction false} UnflattenFlatten<T>(vs: seq<Vec3<T>>)
    ensures Unflatten(Flatten(vs)) == vs
    decreases |vs|
  {
    if |vs| > 0 {
      var f := Flatten(vs);
      assert f[..|f| - 3] == Flatten(vs[..|vs| - 1]);
      UnflattenFlatten(vs[..|vs| - 1]);
    }
  }

  lemma {:induction false} FlattenUnflatten<T>(f: seq<T>)
    requires |f| % 3 == 0
    ensures Flatten(Unflatten(f)) == f
    decreases |f|
  {
    if |f| > 0 {
      var vs := Unflatten(f);
      assert vs[..|vs| - 1] == Unflatten(f[..|f| - 3]);
      FlattenUnflatten(f[..|f| - 3]);
    }
  }

  /** `listToArr`: a float array of `3n` entries, allocated as `zero`s
      (Java's `0f`) and filled triple by triple. */
  method ListToArr<T>(vs: seq<Vec3<T>>, zero: T) returns (f: seq<T>)
    ensures |f| == 3 * |vs|
    ensures forall k :: 0 <= k < |vs| ==> f[3 * k] == vs[k].x && f[3 * k + 1] == vs[k].y && f[3 * k + 2] == vs[k].z
    ensures f == Flatten(vs)
  {
    f := seq(|vs| * 3, _ => zero);
    var i := 0;
    for k := 0 to |vs|
      invariant i == 3 * k && |f| == 3 * |vs|
      invariant f[..i] == Flatten(vs[..k])
    {
      var v := vs[k];
      f := f[i := v.x][i + 1 := v.y][i + 2 := v.z];
      assert vs[..k + 1][..k] == vs[..k];
      assert f[..i + 3] == f[..i] + [v.x, v.y, v.z];
      i := i + 3;
    }
    assert f == f[..i];
    assert vs[..|vs|] == vs;
    forall k | 0 <= k < |vs|
      ensures f[3 * k] == vs[k].x && f[3 * k + 1] == vs[k].y && f[3 * k + 2] == vs[k].z
    {
      FlattenAt(vs, k);
    }
  }
}
