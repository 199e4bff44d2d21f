/** The face half of `readMesh`: each face record's `vertex_indices` list
    is read as a triangle or a quad, every index is checked against the
    number of vertices as soon as it is read, and a quad is split into two
    triangles. Other properties of a face record are skipped. */
module Faces {
  import opened Wrappers
  import opened PlyErrors
  import opened PlyTypes
  import opened PlyHeader
  import opened BodyInput
  import opened Records
  import opened Utils

  type Triangle = Vec3<int>

  /** Every corner of every triangle names one of the `vcount` vertices. */
  predicate InRange(tris: seq<Triangle>, vcount: nat) {
    forall k :: 0 <= k < |tris| ==>
      0 <= tris[k].x < vcount && 0 <= tris[k].y < vcount && 0 <= tris[k].z < vcount
  }

  /** The property at `k` is the face index list: a list of an integral
      type, as the bindings guarantee. */
  predicate IndexList(props: seq<Property>, k: nat) {
    k < |props| && props[k].List? && IsIntegral(props[k].countType) && IsIntegral(props[k].elemType)
  }

  /** A fan of triangles over a polygon's corners: `(v0, v1, v2)`,
      `(v0, v2, v3)`, and so on. */
  function Triangulate(vs: seq<int>): (tris: seq<Triangle>)
    requires |vs| >= 3
    ensures |tris| == |vs| - 2
    ensures |vs| == 3 ==> tris == [Vec3(vs[0], vs[1], vs[2])]
    ensures |vs| == 4 ==> tris == [Vec3(vs[0], vs[1], vs[2]), Vec3(vs[0], vs[2], vs[3])]
  {
    seq(|vs| - 2, k requires 0 <= k < |vs| - 2 => Vec3(vs[0], vs[k + 1], vs[k + 2]))
  }

  /** The integers of values of an integral type (a value of a
      floating-point type, which the reader never passes here, counts as 0). */
  function Ints(vs: seq<Number>): (ns: seq<int>)
    ensures |ns| == |vs|
  {
    if |vs| == 0 then [] else [if vs[0].IntNum? then vs[0].n else 0] + Ints(vs[1..])
  }

  lemma {:induction false} IntsAt(vs: seq<Number>, k: nat)
    requires k < |vs| && vs[k].IntNum?
    ensures Ints(vs)[k] == vs[k].n
  {
    if k > 0 {
      IntsAt(vs[1..], k - 1);
    }
  }

  /** Values of an integral type that all name one of `vcount` vertices. */
  predicate AllIndices(vs: seq<Number>, vcount: nat) {
    forall k :: 0 <= k < |vs| ==> vs[k].IntNum? && 0 <= vs[k].n < vcount
  }

  /** Reads one vertex index and checks it at once: it must name one of the
      `vcount` vertices. */
  function ReadIndex(src: Source, t: PlyType, vcount: nat): (r: Result<(int, Source), PlyError>)
    requires IsIntegral(t)
    ensures r.Ok? ==> 0 <= r.value.0 < vcount
    ensures r.Ok? ==> r.value.1.Tokens? == src.Tokens? && Remaining(r.value.1) == Remaining(src) - ValueSize(src, t)
    ensures r.Err? && r.error.InvalidVertexIndex? ==> r.error.index < 0 || r.error.index >= vcount
  {
    var (v, rest) :- ReadValue(src, t);
    if v.n < 0 || v.n >= vcount then Err(InvalidVertexIndex(v.n)) else Ok((v.n, rest))
  }

  /** One checked index. */
  function IndexStep(t: PlyType, vcount: nat): Source -> Result<(int, Source), PlyError>
    requires IsIntegral(t)
  {
    (s: Source) => ReadIndex(s, t, vcount)
  }

  /** Reads `n` indices one after another, each checked as soon as it is
      read. */
  function ReadIndices(src: Source, t: PlyType, vcount: nat, n: nat): (r: Result<(seq<int>, Source), PlyError>)
    requires IsIntegral(t)
    ensures r.Ok? ==> |r.value.0| == n && forall k :: 0 <= k < n ==> 0 <= r.value.0[k] < vcount
    ensures r.Err? && r.error.InvalidVertexIndex? ==> r.error.index < 0 || r.error.index >= vcount
  {
    CollectEach(IndexStep(t, vcount), (v: int) => 0 <= v < vcount, n, src);
    CollectFails(IndexStep(t, vcount), (e: PlyError) => e.InvalidVertexIndex? ==> e.index < 0 || e.index >= vcount, n, src);
    Collect(IndexStep(t, vcount), n, src)
  }

  /** Reads one face's index list: a count below 3 or above 4 fails before
      any index is read; otherwise the three or four indices are read and
      checked one by one, a triangle is kept as read and a quad
      `(v1, v2, v3, v4)` becomes `(v1, v2, v3)` and `(v1, v3, v4)`. */
  function ReadIndexList(p: Property, vcount: nat, src: Source): (r: Result<(seq<Triangle>, Source), PlyError>)
    requires p.List? && IsIntegral(p.countType) && IsIntegral(p.elemType)
    ensures r.Ok? ==> (|r.value.0| == 1 || |r.value.0| == 2) && InRange(r.value.0, vcount)
    ensures ReadValue(src, p.countType).Ok? && IntValue(ReadValue(src, p.countType).value.0) < 3 ==> r == Err(DegenerateFace)
    ensures ReadValue(src, p.countType).Ok? && IntValue(ReadValue(src, p.countType).value.0) > 4 ==> r == Err(FaceTooLarge)
    ensures r.Err? && r.error.InvalidVertexIndex? ==> r.error.index < 0 || r.error.index >= vcount
  {
    var (c, s0) :- ReadValue(src, p.countType);
    var count := IntValue(c);
    if count < 3 then Err(DegenerateFace)
    else if count > 4 then Err(FaceTooLarge)
    else
      var (vs, rest) :- ReadIndices(s0, p.elemType, vcount, count);
      Ok((Triangulate(vs), rest))
  }

  /** An index list as a writer lays it out: its count, then its indices. */
  function PutList(p: Property, vs: seq<int>, src: Source): Source
    requires p.List? && IsIntegral(p.countType) && IsIntegral(p.elemType)
    requires |vs| <= 4 && AllFit(p.elemType, vs)
  {
    Put(p.countType, |vs|, PutAll(p.elemType, vs, src))
  }

  lemma ReadIndexPut(t: PlyType, vcount: nat, n: int, src: Source)
    requires IsIntegral(t) && 0 <= n < vcount && MinValue(t) <= n <= MaxValue(t)
    ensures ReadValue(Put(t, n, src), t) == Ok((IntNum(n), src))
    ensures ReadIndex(Put(t, n, src), t, vcount) == Ok((n, src))
  {
    ReadPut(t, n, src);
  }

  /** Every one of the values names one of `vcount` vertices. */
  predicate AllBelow(vcount: nat, vs: seq<int>)
    decreases |vs|
  {
    |vs| == 0 || (0 <= vs[0] < vcount && AllBelow(vcount, vs[1..]))
  }

  /** Valid indices read one by one are read back by the checked reads. */
  lemma {:induction false} ReadIndicesYields(s: Source, t: PlyType, vcount: nat, vs: seq<int>, end: Source)
    requires IsIntegral(t) && Yields(s, t, vs, end) && AllBelow(vcount, vs)
    ensures ReadIndices(s, t, vcount, |vs|) == Ok((vs, end))
    decreases |vs|
  {
    if |vs| > 0 {
      var (v, rest) := ReadValue(s, t).value;
      assert v == IntNum(vs[0]) && Yields(rest, t, vs[1..], end);
      assert 0 <= vs[0] < vcount && AllBelow(vcount, vs[1..]);
      ReadIndicesYields(rest, t, vcount, vs[1..], end);
      ReadIndicesStep(s, t, vcount, |vs|, v, rest);
      assert ReadIndices(s, t, vcount, |vs|) == Cons(vs[0], Ok((vs[1..], end)));
      assert [vs[0]] + vs[1..] == vs;
    }
  }

  /** A written triangle or quad of valid indices reads back as its fan of
      triangles, leaving exactly what follows it. */
  lemma ReadIndexListPut(p: Property, vcount: nat, vs: seq<int>, src: Source)
    requires p.List? && IsIntegral(p.countType) && IsIntegral(p.elemType)
    requires 3 <= |vs| <= 4 && AllFit(p.elemType, vs) && AllBelow(vcount, vs)
    ensures ReadIndexList(p, vcount, PutList(p, vs, src)) == Ok((Triangulate(vs), src))
  {
    ReadPut(p.countType, |vs|, PutAll(p.elemType, vs, src));
    PutAllYields(p.elemType, vs, src);
    ReadIndicesYields(PutAll(p.elemType, vs, src), p.elemType, vcount, vs, src);
  }

  /** Checked reads `ri` agree with plain reads `rv`: they succeed exactly
      when `rv` does with valid indices, and then give the same indices and
      stop at the same place. */
  predicate IndicesAgree(ri: Result<(seq<int>, Source), PlyError>, rv: Result<(seq<Number>, Source), PlyError>, vcount: nat) {
    (ri.Ok? <==> rv.Ok? && AllIndices(rv.value.0, vcount))
    && (ri.Ok? ==> AllIndices(rv.value.0, vcount) && ri.value == (Ints(rv.value.0), rv.value.1))
  }

  lemma AllIndicesCons(v: Number, vs: seq<Number>, vcount: nat)
    ensures AllIndices([v] + vs, vcount) <==> v.IntNum? && 0 <= v.n < vcount && AllIndices(vs, vcount)
  {
    var all := [v] + vs;
    assert all[0] == v;
    assert forall k :: 0 <= k < |vs| ==> all[k + 1] == vs[k];
  }

  lemma IntsCons(v: Number, vs: seq<Number>)
    requires v.IntNum?
    ensures Ints([v] + vs) == [v.n] + Ints(vs)
  {
    assert ([v] + vs)[1..] == vs;
  }

  lemma ConsAgree(v: Number, ri: Result<(seq<int>, Source), PlyError>, rv: Result<(seq<Number>, Source), PlyError>,
                  vcount: nat, e: PlyError)
    requires IndicesAgree(ri, rv, vcount)
    ensures IndicesAgree(if v.IntNum? && 0 <= v.n < vcount then Cons(v.n, ri) else Err(e), Cons(v, rv), vcount)
  {
    if rv.Ok? {
      AllIndicesCons(v, rv.value.0, vcount);
      if ri.Ok? && v.IntNum? && 0 <= v.n < vcount {
        IntsCons(v, rv.value.0);
      }
    }
  }

  /** A checked read `ri` agrees with the plain read `rv`. */
  predicate IndexAgrees(ri: Result<(int, Source), PlyError>, rv: Result<(Number, Source), PlyError>, vcount: nat) {
    (ri.Ok? <==> rv.Ok? && rv.value.0.IntNum? && 0 <= rv.value.0.n < vcount)
    && (ri.Ok? ==> rv.Ok? && rv.value.0.IntNum? && ri.value == (rv.value.0.n, rv.value.1))
  }

  /** Collecting checked reads agrees with collecting plain reads when each
      step does. */
  lemma {:induction false} CollectChecked(indexStep: Source -> Result<(int, Source), PlyError>,
                                          valueStep: Source -> Result<(Number, Source), PlyError>,
                                          vcount: nat, n: nat, src: Source)
    requires forall s: Source :: IndexAgrees(indexStep(s), valueStep(s), vcount)
    ensures IndicesAgree(Collect(indexStep, n, src), Collect(valueStep, n, src), vcount)
    decreases n
  {
    if n > 0 {
      var ri := indexStep(src);
      var rv := valueStep(src);
      assert IndexAgrees(ri, rv, vcount);
      if rv.Ok? {
        var (v, rest) := rv.value;
        CollectChecked(indexStep, valueStep, vcount, n - 1, rest);
        assert Collect(valueStep, n, src) == Cons(v, Collect(valueStep, n - 1, rest));
        var e := if ri.Err? then ri.error else UnexpectedEof;
        assert Collect(indexStep, n, src)
               == if v.IntNum? && 0 <= v.n < vcount then Cons(v.n, Collect(indexStep, n - 1, rest)) else Err(e);
        ConsAgree(v, Collect(indexStep, n - 1, rest), Collect(valueStep, n - 1, rest), vcount, e);
      }
    }
  }

  /** Checking indices one at a time agrees with reading them all and
      checking them afterwards. */
  lemma ReadIndicesValues(src: Source, t: PlyType, vcount: nat, n: nat)
    requires IsIntegral(t)
    ensures IndicesAgree(ReadIndices(src, t, vcount, n), ReadValues(src, t, n), vcount)
  {
    forall s: Source
      ensures IndexAgrees(IndexStep(t, vcount)(s), ValueStep(t)(s), vcount)
    {
    }
    CollectChecked(IndexStep(t, vcount), ValueStep(t), vcount, n, src);
  }

  lemma ReadIndexOf(src: Source, t: PlyType, vcount: nat, v: Number, rest: Source)
    requires IsIntegral(t) && ReadValue(src, t) == Ok((v, rest))
    ensures ReadIndex(src, t, vcount) == if 0 <= v.n < vcount then Ok((v.n, rest)) else Err(InvalidVertexIndex(v.n))
  {
  }

  lemma ReadIndicesStep(src: Source, t: PlyType, vcount: nat, n: nat, v: Number, rest: Source)
    requires IsIntegral(t) && n > 0 && ReadValue(src, t) == Ok((v, rest))
    ensures ReadIndices(src, t, vcount, n)
            == if 0 <= v.n < vcount then Cons(v.n, ReadIndices(rest, t, vcount, n - 1)) else Err(InvalidVertexIndex(v.n))
  {
    var step := IndexStep(t, vcount);
    ReadIndexOf(src, t, vcount, v, rest);
    assert step(src) == ReadIndex(src, t, vcount);
    if 0 <= v.n < vcount {
      CollectStep(step, n, src, v.n, rest);
    } else {
      CollectStop(step, n, src);
    }
  }

  /** A record's index list field holds a face the reader accepts: three
      or four indices, each naming a vertex. */
  predicate ValidFace(f: Field, vcount: nat) {
    f.Many? && 3 <= |f.vs| <= 4 && AllIndices(f.vs, vcount)
  }

  /** Reading an index list succeeds exactly when reading the list in full
      does and gives a valid face; it then yields the fan of that face and
      stops where the full read stops. */
  lemma ReadIndexListField(p: Property, vcount: nat, src: Source)
    requires p.List? && IsIntegral(p.countType) && IsIntegral(p.elemType)
    ensures ReadIndexList(p, vcount, src).Ok? <==> ReadField(p, src).Ok? && ValidFace(ReadField(p, src).value.0, vcount)
    ensures ReadIndexList(p, vcount, src).Ok? ==>
              ReadIndexList(p, vcount, src).value
              == (Triangulate(Ints(ReadField(p, src).value.0.vs)), ReadField(p, src).value.1)
  {
    var rc := ReadValue(src, p.countType);
    if rc.Ok? {
      var (c, s0) := rc.value;
      var count := IntValue(c);
      if 3 <= count <= 4 {
        ReadIndicesValues(s0, p.elemType, vcount, count);
      }
    }
  }

  /** Reads one face record from property position `pi` on: the index
      list, if bound, is read as a face; every other property is skipped. */
  function ReadFace(props: seq<Property>, idx: Option<nat>, vcount: nat, pi: nat, src: Source)
    : (r: Result<(seq<Triangle>, Source), PlyError>)
    requires pi <= |props| && IntegralCounts(props) && (idx.Some? ==> IndexList(props, idx.value))
    ensures r.Ok? ==> InRange(r.value.0, vcount)
    decreases |props| - pi
  {
    if pi == |props| then Ok(([], src))
    else if idx == Some(pi) then
      var (tris, rest) :- ReadIndexList(props[pi], vcount, src);
      var (more, rest') :- ReadFace(props, idx, vcount, pi + 1, rest);
      Ok((tris + more, rest'))
    else
      var rest :- SkipProperty(props[pi], src);
      ReadFace(props, idx, vcount, pi + 1, rest)
  }

  /** The sequences `count` results of `step` give, concatenated. */
  function Gather<T>(step: Source -> Result<(seq<T>, Source), PlyError>, count: nat, src: Source): Result<(seq<T>, Source), PlyError>
    decreases count
  {
    if count == 0 then Ok(([], src))
    else
      var (xs, rest) :- step(src);
      Append(xs, Gather(step, count - 1, rest))
  }

  lemma {:induction false} GatherInRange(step: Source -> Result<(seq<Triangle>, Source), PlyError>, vcount: nat, count: nat, src: Source)
    requires forall s: Source :: step(s).Ok? ==> InRange(step(s).value.0, vcount)
    ensures Gather(step, count, src).Ok? ==> InRange(Gather(step, count, src).value.0, vcount)
    decreases count
  {
    if count > 0 && step(src).Ok? {
      var (xs, rest) := step(src).value;
      GatherInRange(step, vcount, count - 1, rest);
      var more := Gather(step, count - 1, rest);
      if more.Ok? {
        var all := xs + more.value.0;
        assert forall k :: |xs| <= k < |all| ==> all[k] == more.value.0[k - |xs|];
      }
    }
  }

  /** One face record. */
  function FaceStep(props: seq<Property>, idx: Option<nat>, vcount: nat): Source -> Result<(seq<Triangle>, Source), PlyError>
    requires IntegralCounts(props) && (idx.Some? ==> IndexList(props, idx.value))
  {
    (s: Source) => ReadFace(props, idx, vcount, 0, s)
  }

  /** Reads `count` face records, collecting their triangles in order. */
  function ReadFaces(props: seq<Property>, idx: Option<nat>, vcount: nat, count: nat, src: Source)
    : (r: Result<(seq<Triangle>, Source), PlyError>)
    requires IntegralCounts(props) && (idx.Some? ==> IndexList(props, idx.value))
    ensures r.Ok? ==> InRange(r.value.0, vcount)
  {
    var step := FaceStep(props, idx, vcount);
    GatherInRange(step, vcount, count, src);
    Gather(step, count, src)
  }


  /** The face a record's fields describe, when the index list is at `k`
      among them: valid exactly when the reader accepts it. */
  predicate FaceIn(fs: seq<Field>, k: nat, vcount: nat) {
    k < |fs| && ValidFace(fs[k], vcount)
  }

  /** The triangles of a record whose index list, at `k`, is valid. */
  function FanOf(fs: seq<Field>, k: nat, vcount: nat): (tris: seq<Triangle>)
    requires FaceIn(fs, k, vcount)
  {
    Triangulate(Ints(fs[k].vs))
  }

  /** `rf`, a face read from position `pi` on, agrees with `rr`, the same
      record read in full: it succeeds exactly when `rr` does with a valid
      index list (if one is bound at or after `pi`), yields that list's
      fan, and stops where `rr` stops. */
  predicate FaceAgrees(rf: Result<(seq<Triangle>, Source), PlyError>, rr: Result<(seq<Field>, Source), PlyError>,
                       idx: Option<nat>, vcount: nat, pi: nat) {
    var wanted := idx.Some? && pi <= idx.value;
    (rr.Ok? && (wanted ==> FaceIn(rr.value.0, idx.value - pi, vcount)) ==> rf.Ok?)
    && (rf.Ok? ==>
          rr.Ok? && rf.value.1 == rr.value.1
          && (wanted ==> FaceIn(rr.value.0, idx.value - pi, vcount) && rf.value.0 == FanOf(rr.value.0, idx.value - pi, vcount))
          && (!wanted ==> rf.value.0 == []))
  }

  lemma AgreesSkip(rf: Result<(seq<Triangle>, Source), PlyError>, rr: Result<(seq<Field>, Source), PlyError>,
                   f: Field, idx: Option<nat>, vcount: nat, pi: nat)
    requires idx != Some(pi) && FaceAgrees(rf, rr, idx, vcount, pi + 1)
    ensures FaceAgrees(rf, Cons(f, rr), idx, vcount, pi)
  {
    if rr.Ok? && idx.Some? && pi < idx.value && idx.value - (pi + 1) < |rr.value.0| {
      var fs := [f] + rr.value.0;
      assert fs[idx.value - pi] == rr.value.0[idx.value - (pi + 1)];
    }
  }

  lemma AgreesHere(rf: Result<(seq<Triangle>, Source), PlyError>, rr: Result<(seq<Field>, Source), PlyError>,
                   f: Field, vcount: nat, pi: nat, e: PlyError)
    requires FaceAgrees(rf, rr, Some(pi), vcount, pi + 1)
    ensures FaceAgrees(if ValidFace(f, vcount) then Append(Triangulate(Ints(f.vs)), rf) else Err(e), Cons(f, rr), Some(pi), vcount, pi)
  {
    if rr.Ok? {
      var fs := [f] + rr.value.0;
      assert fs[0] == f;
      if rf.Ok? && ValidFace(f, vcount) {
        assert rf.value.0 == [];
        assert Triangulate(Ints(f.vs)) + [] == Triangulate(Ints(f.vs));
      }
    }
  }

  /** Reading a face record agrees with reading the record in full. */
  lemma {:induction false} ReadFaceRecord(props: seq<Property>, idx: Option<nat>, vcount: nat, pi: nat, src: Source)
    requires pi <= |props| && IntegralCounts(props) && (idx.Some? ==> IndexList(props, idx.value))
    ensures FaceAgrees(ReadFace(props, idx, vcount, pi, src), ReadRecord(props, pi, src), idx, vcount, pi)
    decreases |props| - pi
  {
    if pi < |props| {
      var p := props[pi];
      var rfield := ReadField(p, src);
      SkipPropertyReads(p, src);
      if idx == Some(pi) {
        ReadIndexListField(p, vcount, src);
      }
      if rfield.Ok? {
        var (f, rest) := rfield.value;
        var rf := ReadFace(props, idx, vcount, pi + 1, rest);
        var rr := ReadRecord(props, pi + 1, rest);
        ReadFaceRecord(props, idx, vcount, pi + 1, rest);
        assert FaceAgrees(rf, rr, idx, vcount, pi + 1);
        ReadRecordStep(props, pi, src, f, rest);
        assert ReadRecord(props, pi, src) == Cons(f, rr);
        if idx == Some(pi) {
          var rl := ReadIndexList(p, vcount, src);
          assert rl.Ok? <==> ValidFace(f, vcount);
          assert ReadFace(props, idx, vcount, pi, src) == if rl.Ok? then Append(rl.value.0, rf) else Err(rl.error);
          AgreesHere(rf, rr, f, vcount, pi, if rl.Err? then rl.error else UnexpectedEof);
        } else {
          assert SkipProperty(p, src) == Ok(rest);
          assert ReadFace(props, idx, vcount, pi, src) == rf;
          AgreesSkip(rf, rr, f, idx, vcount, pi);
        }
      } else {
        assert ReadRecord(props, pi, src).Err?;
        assert ReadFace(props, idx, vcount, pi, src).Err?;
      }
    }
  }

  /** Every record's index list, if one is bound, is a valid face. */
  predicate AllFaces(fss: seq<seq<Field>>, idx: Option<nat>, vcount: nat)
    decreases |fss|
  {
    |fss| == 0 || ((idx.Some? ==> FaceIn(fss[0], idx.value, vcount)) && AllFaces(fss[1..], idx, vcount))
  }

  /** The triangles of the records, record by record. */
  function Fans(fss: seq<seq<Field>>, idx: Option<nat>, vcount: nat): seq<Triangle>
    requires AllFaces(fss, idx, vcount)
    decreases |fss|
  {
    if |fss| == 0 then []
    else (if idx.Some? then FanOf(fss[0], idx.value, vcount) else []) + Fans(fss[1..], idx, vcount)
  }

  /** `rf`, faces read record by record, agrees with `rr`, the same records
      read in full: it succeeds exactly when `rr` does with a valid face in
      every record, yields their fans in order, and stops where `rr`
      stops. */
  predicate FacesAgree(rf: Result<(seq<Triangle>, Source), PlyError>, rr: Result<(seq<seq<Field>>, Source), PlyError>,
                       idx: Option<nat>, vcount: nat) {
    (rr.Ok? && AllFaces(rr.value.0, idx, vcount) ==> rf.Ok?)
    && (rf.Ok? ==>
          rr.Ok? && AllFaces(rr.value.0, idx, vcount)
          && rf.value == (Fans(rr.value.0, idx, vcount), rr.value.1))
  }

  lemma FacesAgreeCons(tris: seq<Triangle>, fs: seq<Field>, rf: Result<(seq<Triangle>, Source), PlyError>,
                       rr: Result<(seq<seq<Field>>, Source), PlyError>, idx: Option<nat>, vcount: nat)
    requires idx.Some? ==> FaceIn(fs, idx.value, vcount) && tris == FanOf(fs, idx.value, vcount)
    requires idx.None? ==> tris == []
    requires FacesAgree(rf, rr, idx, vcount)
    ensures FacesAgree(Append(tris, rf), Cons(fs, rr), idx, vcount)
  {
    if rr.Ok? {
      var fss := [fs] + rr.value.0;
      assert fss[0] == fs && fss[1..] == rr.value.0;
    }
  }

  lemma FacesAgreeFail(rf: Result<(seq<Triangle>, Source), PlyError>, fs: seq<Field>,
                       rr: Result<(seq<seq<Field>>, Source), PlyError>, idx: Option<nat>, vcount: nat)
    requires rf.Err? && idx.Some? && !FaceIn(fs, idx.value, vcount)
    ensures FacesAgree(rf, Cons(fs, rr), idx, vcount)
  {
    if rr.Ok? {
      var fss := [fs] + rr.value.0;
      assert fss[0] == fs;
    }
  }

  /** Gathering faces agrees with collecting records when each step
      does. */
  lemma {:induction false} GatherCollect(faceStep: Source -> Result<(seq<Triangle>, Source), PlyError>,
                                         recordStep: Source -> Result<(seq<Field>, Source), PlyError>,
                                         idx: Option<nat>, vcount: nat, count: nat, src: Source)
    requires forall s: Source :: FaceAgrees(faceStep(s), recordStep(s), idx, vcount, 0)
    ensures FacesAgree(Gather(faceStep, count, src), Collect(recordStep, count, src), idx, vcount)
    decreases count
  {
    if count > 0 {
      var rf := faceStep(src);
      var rr := recordStep(src);
      assert FaceAgrees(rf, rr, idx, vcount, 0);
      if rf.Ok? {
        var (tris, rest) := rf.value;
        GatherCollect(faceStep, recordStep, idx, vcount, count - 1, rest);
        assert Gather(faceStep, count, src) == Append(tris, Gather(faceStep, count - 1, rest));
        assert Collect(recordStep, count, src) == Cons(rr.value.0, Collect(recordStep, count - 1, rest));
        FacesAgreeCons(tris, rr.value.0, Gather(faceStep, count - 1, rest), Collect(recordStep, count - 1, rest), idx, vcount);
      } else if rr.Ok? {
        assert Collect(recordStep, count, src) == Cons(rr.value.0, Collect(recordStep, count - 1, rr.value.1));
        FacesAgreeFail(Gather(faceStep, count, src), rr.value.0, Collect(recordStep, count - 1, rr.value.1), idx, vcount);
      }
    }
  }

  /** Reading faces agrees with reading their records in full. */
  lemma ReadFacesRecords(props: seq<Property>, idx: Option<nat>, vcount: nat, count: nat, src: Source)
    requires IntegralCounts(props) && (idx.Some? ==> IndexList(props, idx.value))
    ensures FacesAgree(ReadFaces(props, idx, vcount, count, src), ReadRecords(props, count, src), idx, vcount)
  {
    var faceStep := FaceStep(props, idx, vcount);
    var recordStep := RecordStep(props);
    forall s
      ensures FaceAgrees(faceStep(s), recordStep(s), idx, vcount, 0)
    {
      ReadFaceRecord(props, idx, vcount, 0, s);
    }
    GatherCollect(faceStep, recordStep, idx, vcount, count, src);
  }

}
