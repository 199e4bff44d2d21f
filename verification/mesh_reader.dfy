/** `PlyReader.readMesh`: the walk over the body, element by element in
    header order. The vertex element yields one position, normal and colour
    per record; the face element yields the triangles of its index lists;
    every other element is read and dropped. The body must end right after
    the last element. The result is laid out as flat arrays.

    Floats are not computed: a component is kept as the value it is
    converted from. */
module MeshReader {
  import opened Wrappers
  import opened PlyErrors
  import opened PlyTypes
  import opened PlyHeader
  import opened PlyBindings
  import opened BodyInput
  import opened Records
  import opened Utils
  import opened Faces
  import FloatIndex

  // ---------------------------------------------------------------------
  // Vertices

  /** One float of the output: `0`, the float nearest a value read
      (`(float) doubleValue()`), or a colour level scaled to `[0, 1]`
      (`intValue() / 255f`). */
  datatype Component = Zero | AsFloat(v: Number) | Scaled(v: Number)

  datatype Vertex = Vertex(position: Vec3<Component>, normal: Vec3<Component>, color: Vec3<Component>)

  const Origin: Vec3<Component> := Vec3(Zero, Zero, Zero)

  /** A vertex as the reader creates it, before any property is read. */
  const Blank: Vertex := Vertex(Origin, Origin, Origin)

  /** The nine vertex slots, in the order the reader compares against them. */
  datatype Slot = X | Y | Z | Red | Green | Blue | NX | NY | NZ

  function Name(k: Slot): string {
    match k
    case X => "x"
    case Y => "y"
    case Z => "z"
    case Red => "red"
    case Green => "green"
    case Blue => "blue"
    case NX => "nx"
    case NY => "ny"
    case NZ => "nz"
  }

  lemma NameInjective(k: Slot, k': Slot)
    requires Name(k) == Name(k')
    ensures k == k'
  {
  }

  /** Slot `k` is bound to the property at position `pi`. */
  predicate Bound(slots: map<string, nat>, k: Slot, pi: nat) {
    Name(k) in slots && slots[Name(k)] == pi
  }

  /** The slot the property at `pi` fills, found by comparing against the slots in
      the reader's order; none for a property the reader skips. */
  function SlotAt(slots: map<string, nat>, pi: nat): (r: Option<Slot>)
    ensures r.Some? ==> Bound(slots, r.value, pi)
    ensures r.None? ==> forall k :: !Bound(slots, k, pi)
  {
    if Bound(slots, X, pi) then Some(X)
    else if Bound(slots, Y, pi) then Some(Y)
    else if Bound(slots, Z, pi) then Some(Z)
    else if Bound(slots, Red, pi) then Some(Red)
    else if Bound(slots, Green, pi) then Some(Green)
    else if Bound(slots, Blue, pi) then Some(Blue)
    else if Bound(slots, NX, pi) then Some(NX)
    else if Bound(slots, NY, pi) then Some(NY)
    else if Bound(slots, NZ, pi) then Some(NZ)
    else None
  }

  /** Every bound slot names a scalar property of its own name, as the
      bindings guarantee. */
  predicate SlotLayout(props: seq<Property>, slots: map<string, nat>) {
    forall name :: name in slots ==>
      slots[name] < |props| && props[slots[name]].Scalar? && props[slots[name]].name == name
  }

  /** No two slots share a property. */
  lemma UniqueAt(props: seq<Property>, slots: map<string, nat>, pi: nat, k0: Slot)
    requires SlotLayout(props, slots) && Bound(slots, k0, pi)
    ensures forall k :: Bound(slots, k, pi) ==> k == k0
  {
    forall k | Bound(slots, k, pi)
      ensures k == k0
    {
      NameInjective(k, k0);
    }
  }

  /** The float a slot gets from a value read: a colour level is scaled,
      anything else converted. */
  function Conv(k: Slot, x: Number): Component {
    if k.Red? || k.Green? || k.Blue? then Scaled(x) else AsFloat(x)
  }

  /** The component of `v` a slot fills. */
  function Get(v: Vertex, k: Slot): Component {
    match k
    case X => v.position.x
    case Y => v.position.y
    case Z => v.position.z
    case Red => v.color.x
    case Green => v.color.y
    case Blue => v.color.z
    case NX => v.normal.x
    case NY => v.normal.y
    case NZ => v.normal.z
  }

  /** `v` with the component of slot `k` set to `c` and nothing else
      changed. */
  function Assign(v: Vertex, k: Slot, c: Component): (r: Vertex)
    ensures forall k' :: Get(r, k') == if k' == k then c else Get(v, k')
  {
    match k
    case X => v.(position := v.position.(x := c))
    case Y => v.(position := v.position.(y := c))
    case Z => v.(position := v.position.(z := c))
    case Red => v.(color := v.color.(x := c))
    case Green => v.(color := v.color.(y := c))
    case Blue => v.(color := v.color.(z := c))
    case NX => v.(normal := v.normal.(x := c))
    case NY => v.(normal := v.normal.(y := c))
    case NZ => v.(normal := v.normal.(z := c))
  }

  /** A vertex is its nine components. */
  lemma VertexExt(a: Vertex, b: Vertex)
    requires forall k :: Get(a, k) == Get(b, k)
    ensures a == b
  {
    assert Get(a, X) == Get(b, X) && Get(a, Y) == Get(b, Y) && Get(a, Z) == Get(b, Z);
    assert Get(a, Red) == Get(b, Red) && Get(a, Green) == Get(b, Green) && Get(a, Blue) == Get(b, Blue);
    assert Get(a, NX) == Get(b, NX) && Get(a, NY) == Get(b, NY) && Get(a, NZ) == Get(b, NZ);
  }

  /** Reads the rest of a vertex record from property position `pi` on: a
      bound property sets its component, any other is skipped. */
  function ReadVertexFrom(props: seq<Property>, slots: map<string, nat>, pi: nat, v: Vertex, src: Source)
    : (r: Result<(Vertex, Source), PlyError>)
    requires pi <= |props| && IntegralCounts(props) && SlotLayout(props, slots)
    decreases |props| - pi
  {
    if pi == |props| then Ok((v, src))
    else
      match SlotAt(slots, pi)
      case Some(k) =>
        var (x, rest) :- ReadValue(src, props[pi].ty);
        ReadVertexFrom(props, slots, pi + 1, Assign(v, k, Conv(k, x)), rest)
      case None =>
        var rest :- SkipProperty(props[pi], src);
        ReadVertexFrom(props, slots, pi + 1, v, rest)
  }

  /** Reads one vertex record. */
  function ReadVertex(props: seq<Property>, slots: map<string, nat>, src: Source): Result<(Vertex, Source), PlyError>
    requires IntegralCounts(props) && SlotLayout(props, slots)
  {
    ReadVertexFrom(props, slots, 0, Blank, src)
  }

  function VertexStep(props: seq<Property>, slots: map<string, nat>): Source -> Result<(Vertex, Source), PlyError>
    requires IntegralCounts(props) && SlotLayout(props, slots)
  {
    (s: Source) => ReadVertex(props, slots, s)
  }

  /** Reads `count` vertex records. */
  function ReadVertices(props: seq<Property>, slots: map<string, nat>, count: nat, src: Source)
    : (r: Result<(seq<Vertex>, Source), PlyError>)
    requires IntegralCounts(props) && SlotLayout(props, slots)
    ensures r.Ok? ==> |r.value.0| == count
  {
    Collect(VertexStep(props, slots), count, src)
  }

  // ---------------------------------------------------------------------
  // What a vertex record means

  /** The float slot `k` gets from the fields of a whole record: converted
      from the bound property's value, or `0` when the slot is unbound. */
  function Comp(fs: seq<Field>, slots: map<string, nat>, k: Slot): Component {
    if Name(k) in slots && slots[Name(k)] < |fs| && fs[slots[Name(k)]].One? then Conv(k, fs[slots[Name(k)]].v)
    else Zero
  }

  /** The vertex a record describes. */
  function VertexOf(fs: seq<Field>, slots: map<string, nat>): (v: Vertex)
    ensures forall k :: Get(v, k) == Comp(fs, slots, k)
  {
    Vertex(Vec3(Comp(fs, slots, X), Comp(fs, slots, Y), Comp(fs, slots, Z)),
           Vec3(Comp(fs, slots, NX), Comp(fs, slots, NY), Comp(fs, slots, NZ)),
           Vec3(Comp(fs, slots, Red), Comp(fs, slots, Green), Comp(fs, slots, Blue)))
  }

  function Interpret(slots: map<string, nat>): seq<Field> -> Vertex {
    (fs: seq<Field>) => VertexOf(fs, slots)
  }

  /** What slot `k` holds after the properties from `pi` on, whose fields
      are `fs`, have been read into `v`. */
  function Expect(fs: seq<Field>, slots: map<string, nat>, pi: nat, v: Vertex, k: Slot): Component {
    if Name(k) in slots && pi <= slots[Name(k)] < pi + |fs| && fs[slots[Name(k)] - pi].One?
    then Conv(k, fs[slots[Name(k)] - pi].v)
    else Get(v, k)
  }

  /** `rv`, a vertex read from `pi` on, agrees with `rr`, the same
      properties read in full: both succeed or fail together, with the same
      error, stop at the same place, and each bound slot holds its field's
      value. */
  predicate VertexAgrees(rv: Result<(Vertex, Source), PlyError>, rr: Result<(seq<Field>, Source), PlyError>,
                         slots: map<string, nat>, pi: nat, v: Vertex) {
    rv.Ok? == rr.Ok?
    && (rv.Err? ==> rv.error == rr.error)
    && (rv.Ok? ==> rv.value.1 == rr.value.1 && forall k :: Get(rv.value.0, k) == Expect(rr.value.0, slots, pi, v, k))
  }

  lemma AgreesAssign(rv: Result<(Vertex, Source), PlyError>, rr: Result<(seq<Field>, Source), PlyError>,
                     slots: map<string, nat>, pi: nat, v: Vertex, k0: Slot, x: Number)
    requires Bound(slots, k0, pi) && forall k :: Bound(slots, k, pi) ==> k == k0
    requires VertexAgrees(rv, rr, slots, pi + 1, Assign(v, k0, Conv(k0, x)))
    ensures VertexAgrees(rv, Cons(One(x), rr), slots, pi, v)
  {
    if rv.Ok? {
      var fs := rr.value.0;
      var all := [One(x)] + fs;
      var w := Assign(v, k0, Conv(k0, x));
      forall k
        ensures Get(rv.value.0, k) == Expect(all, slots, pi, v, k)
      {
        assert Get(rv.value.0, k) == Expect(fs, slots, pi + 1, w, k);
        if k == k0 {
          assert all[0] == One(x);
        } else if Name(k) in slots && pi < slots[Name(k)] < pi + |all| {
          assert all[slots[Name(k)] - pi] == fs[slots[Name(k)] - (pi + 1)];
        } else {
          assert !Bound(slots, k, pi);
        }
      }
    }
  }

  lemma AgreesPass(rv: Result<(Vertex, Source), PlyError>, rr: Result<(seq<Field>, Source), PlyError>,
                   slots: map<string, nat>, pi: nat, v: Vertex, f: Field)
    requires forall k :: !Bound(slots, k, pi)
    requires VertexAgrees(rv, rr, slots, pi + 1, v)
    ensures VertexAgrees(rv, Cons(f, rr), slots, pi, v)
  {
    if rv.Ok? {
      var fs := rr.value.0;
      var all := [f] + fs;
      forall k
        ensures Get(rv.value.0, k) == Expect(all, slots, pi, v, k)
      {
        assert Get(rv.value.0, k) == Expect(fs, slots, pi + 1, v, k);
        assert !Bound(slots, k, pi);
        if Name(k) in slots && pi < slots[Name(k)] < pi + |all| {
          assert all[slots[Name(k)] - pi] == fs[slots[Name(k)] - (pi + 1)];
        }
      }
    }
  }

  /** What the field read at `pi` does to the vertex being built. */
  function Take(slots: map<string, nat>, pi: nat, v: Vertex, f: Field): Vertex {
    match SlotAt(slots, pi)
    case Some(k) => if f.One? then Assign(v, k, Conv(k, f.v)) else v
    case None => v
  }

  /** Reading one property of a vertex record is reading its field and
      taking it into the vertex. */
  lemma ReadVertexStep(props: seq<Property>, slots: map<string, nat>, pi: nat, v: Vertex, src: Source, f: Field, rest: Source)
    requires pi < |props| && IntegralCounts(props) && SlotLayout(props, slots)
    requires ReadField(props[pi], src) == Ok((f, rest))
    ensures ReadVertexFrom(props, slots, pi, v, src) == ReadVertexFrom(props, slots, pi + 1, Take(slots, pi, v, f), rest)
  {
    if SlotAt(slots, pi).None? {
      SkipPropertyReads(props[pi], src);
    }
  }

  lemma ReadVertexStop(props: seq<Property>, slots: map<string, nat>, pi: nat, v: Vertex, src: Source)
    requires pi < |props| && IntegralCounts(props) && SlotLayout(props, slots)
    requires ReadField(props[pi], src).Err?
    ensures ReadVertexFrom(props, slots, pi, v, src) == Err(ReadField(props[pi], src).error)
    ensures ReadRecord(props, pi, src) == Err(ReadField(props[pi], src).error)
  {
    if SlotAt(slots, pi).None? {
      SkipPropertyReads(props[pi], src);
    }
  }

  lemma AgreesTake(rv: Result<(Vertex, Source), PlyError>, rr: Result<(seq<Field>, Source), PlyError>,
                   props: seq<Property>, slots: map<string, nat>, pi: nat, v: Vertex, f: Field)
    requires pi < |props| && SlotLayout(props, slots) && f.One? == props[pi].Scalar?
    requires VertexAgrees(rv, rr, slots, pi + 1, Take(slots, pi, v, f))
    ensures VertexAgrees(rv, Cons(f, rr), slots, pi, v)
  {
    var at := SlotAt(slots, pi);
    if at.Some? {
      UniqueAt(props, slots, pi, at.value);
      AgreesAssign(rv, rr, slots, pi, v, at.value, f.v);
    } else {
      AgreesPass(rv, rr, slots, pi, v, f);
    }
  }

  /** Reading a vertex from `pi` on agrees with reading the same properties
      in full. */
  lemma {:induction false} ReadVertexFromRecord(props: seq<Property>, slots: map<string, nat>, pi: nat, v: Vertex, src: Source)
    requires pi <= |props| && IntegralCounts(props) && SlotLayout(props, slots)
    ensures VertexAgrees(ReadVertexFrom(props, slots, pi, v, src), ReadRecord(props, pi, src), slots, pi, v)
    decreases |props| - pi
  {
    if pi < |props| {
      var rf := ReadField(props[pi], src);
      if rf.Ok? {
        var (f, rest) := rf.value;
        var w := Take(slots, pi, v, f);
        ReadVertexStep(props, slots, pi, v, src, f, rest);
        ReadRecordStep(props, pi, src, f, rest);
        ReadVertexFromRecord(props, slots, pi + 1, w, rest);
        AgreesTake(ReadVertexFrom(props, slots, pi + 1, w, rest), ReadRecord(props, pi + 1, rest), props, slots, pi, v, f);
      } else {
        ReadVertexStop(props, slots, pi, v, src);
      }
    }
  }

  /** `f` applied to what `r` reads. */
  function MapOk<A, B>(f: A -> B, r: Result<(A, Source), PlyError>): Result<(B, Source), PlyError> {
    if r.Ok? then Ok((f(r.value.0), r.value.1)) else Err(r.error)
  }

  /** Reading a vertex record gives the vertex the record describes, and
      fails exactly where reading the record in full fails. */
  lemma ReadVertexRecord(props: seq<Property>, slots: map<string, nat>, src: Source)
    requires IntegralCounts(props) && SlotLayout(props, slots)
    ensures ReadVertex(props, slots, src) == MapOk(Interpret(slots), ReadRecord(props, 0, src))
  {
    ReadVertexFromRecord(props, slots, 0, Blank, src);
    var rv := ReadVertex(props, slots, src);
    var rr := ReadRecord(props, 0, src);
    if rv.Ok? {
      var fs := rr.value.0;
      forall k
        ensures Get(rv.value.0, k) == Get(VertexOf(fs, slots), k)
      {
        assert Expect(fs, slots, 0, Blank, k) == Comp(fs, slots, k);
      }
      VertexExt(rv.value.0, VertexOf(fs, slots));
    }
  }

  /** `f` applied to each element of `xs`. */
  function MapSeq<A, B>(f: A -> B, xs: seq<A>): (ys: seq<B>)
    ensures |ys| == |xs| && forall i :: 0 <= i < |xs| ==> ys[i] == f(xs[i])
    decreases |xs|
  {
    if |xs| == 0 then [] else [f(xs[0])] + MapSeq(f, xs[1..])
  }

  /** `f` applied to each element of what `r` reads. */
  function MapAll<A, B>(f: A -> B, r: Result<(seq<A>, Source), PlyError>): Result<(seq<B>, Source), PlyError> {
    if r.Ok? then Ok((MapSeq(f, r.value.0), r.value.1)) else Err(r.error)
  }

  /** A step that maps another step's results maps their collection. */
  lemma {:induction false} CollectMap<A, B>(mapped: Source -> Result<(B, Source), PlyError>,
                                            step: Source -> Result<(A, Source), PlyError>,
                                            f: A -> B, count: nat, src: Source)
    requires forall s: Source :: mapped(s) == MapOk(f, step(s))
    ensures Collect(mapped, count, src) == MapAll(f, Collect(step, count, src))
    decreases count
  {
    if count > 0 {
      var r := step(src);
      assert mapped(src) == MapOk(f, r);
      if r.Ok? {
        var (a, rest) := r.value;
        CollectMap(mapped, step, f, count - 1, rest);
        CollectStep(mapped, count, src, f(a), rest);
        CollectStep(step, count, src, a, rest);
        var more := Collect(step, count - 1, rest);
        if more.Ok? {
          assert ([a] + more.value.0)[1..] == more.value.0;
        }
      }
    }
  }

  /** Reading vertex records gives, in order, the vertices the records
      describe, and fails exactly where reading the records in full
      fails. */
  lemma ReadVerticesRecords(props: seq<Property>, slots: map<string, nat>, count: nat, src: Source)
    requires IntegralCounts(props) && SlotLayout(props, slots)
    ensures ReadVertices(props, slots, count, src) == MapAll(Interpret(slots), ReadRecords(props, count, src))
  {
    var vertexStep := VertexStep(props, slots);
    var recordStep := RecordStep(props);
    forall s: Source
      ensures vertexStep(s) == MapOk(Interpret(slots), recordStep(s))
    {
      ReadVertexRecord(props, slots, s);
    }
    CollectMap(vertexStep, recordStep, Interpret(slots), count, src);
  }

  // ---------------------------------------------------------------------
  // The walk over the elements

  /** What the walk takes from one element: the vertices of the vertex
      element, the triangles of the face element, nothing from any other. */
  datatype Part = Verts(vs: seq<Vertex>) | Tris(tris: seq<Triangle>) | Skipped

  /** Every list property of every element has an integral count type. */
  predicate Typed(es: seq<Element>) {
    forall i :: 0 <= i < |es| ==> IntegralCounts(es[i].props)
  }

  /** What the bindings guarantee the walk: the vertex and face elements
      are two different elements of the header, each bound slot is a scalar
      of its name, and the index list is an integral list. */
  predicate Layout(es: seq<Element>, b: Binding) {
    (b.vertex.Some? ==> b.vertex.value < |es| && SlotLayout(es[b.vertex.value].props, b.slots))
    && (b.face.Some? ==> b.face.value < |es| && b.vertex != b.face
                         && (b.indices.Some? ==> IndexList(es[b.face.value].props, b.indices.value)))
  }

  /** `vertexElement.count`, which every face index is checked against. */
  function VertexCount(es: seq<Element>, b: Binding): nat {
    if b.vertex.Some? && b.vertex.value < |es| then es[b.vertex.value].count else 0
  }

  /** Reads all records of element `i`: as vertices, as faces, or
      skipped. */
  function ReadPart(es: seq<Element>, b: Binding, i: nat, src: Source): (r: Result<(Part, Source), PlyError>)
    requires i < |es| && Typed(es) && Layout(es, b)
    ensures r.Ok? ==> PartFits(r.value.0, es, b, i)
  {
    var e := es[i];
    if b.vertex == Some(i) then
      var (vs, rest) :- ReadVertices(e.props, b.slots, e.count, src);
      Ok((Verts(vs), rest))
    else if b.face == Some(i) then
      var (tris, rest) :- ReadFaces(e.props, b.indices, VertexCount(es, b), e.count, src);
      Ok((Tris(tris), rest))
    else
      var rest :- SkipRecords(e.props, e.count, src);
      Ok((Skipped, rest))
  }

  /** The part of element `i` has the kind its role asks for: one vertex
      per vertex record, triangles whose corners all name a vertex. */
  predicate PartFits(p: Part, es: seq<Element>, b: Binding, i: nat) {
    i < |es|
    && (b.vertex == Some(i) ==> p.Verts? && |p.vs| == es[i].count)
    && (b.vertex != Some(i) && b.face == Some(i) ==> p.Tris? && InRange(p.tris, VertexCount(es, b)))
  }

  /** Reads the elements from position `i` on, in header order. */
  function ReadParts(es: seq<Element>, b: Binding, i: nat, src: Source): (r: Result<(seq<Part>, Source), PlyError>)
    requires i <= |es| && Typed(es) && Layout(es, b)
    ensures r.Ok? ==> |r.value.0| == |es| - i && forall j :: 0 <= j < |r.value.0| ==> PartFits(r.value.0[j], es, b, i + j)
    decreases |es| - i
  {
    if i == |es| then Ok(([], src))
    else
      var (p, rest) :- ReadPart(es, b, i, src);
      var (ps, rest') :- ReadParts(es, b, i + 1, rest);
      Ok(([p] + ps, rest'))
  }

  /** The arrays `readMesh` returns: positions, colours and normals, three
      floats per vertex, and three indices per triangle. */
  datatype Mesh = Mesh(positions: seq<Component>, colors: seq<Component>, normals: seq<Component>, indices: seq<int>)

  function Positions(vs: seq<Vertex>): (ps: seq<Vec3<Component>>)
    ensures |ps| == |vs| && forall k :: 0 <= k < |vs| ==> ps[k] == vs[k].position
  {
    seq(|vs|, k requires 0 <= k < |vs| => vs[k].position)
  }

  function Colors(vs: seq<Vertex>): (cs: seq<Vec3<Component>>)
    ensures |cs| == |vs| && forall k :: 0 <= k < |vs| ==> cs[k] == vs[k].color
  {
    seq(|vs|, k requires 0 <= k < |vs| => vs[k].color)
  }

  function Normals(vs: seq<Vertex>): (ns: seq<Vec3<Component>>)
    ensures |ns| == |vs| && forall k :: 0 <= k < |vs| ==> ns[k] == vs[k].normal
  {
    seq(|vs|, k requires 0 <= k < |vs| => vs[k].normal)
  }

  /** `listToArr` of the three vertex lists and the index array. */
  function MeshOf(vs: seq<Vertex>, tris: seq<Triangle>): Mesh {
    Mesh(Flatten(Positions(vs)), Flatten(Colors(vs)), Flatten(Normals(vs)), FloatIndex.Indices(tris))
  }

  function VertsOf(p: Part): seq<Vertex> {
    if p.Verts? then p.vs else []
  }

  function TrisOf(p: Part): seq<Triangle> {
    if p.Tris? then p.tris else []
  }

  /** The output of a walk that read every element. */
  function Assemble(es: seq<Element>, b: Binding, parts: seq<Part>): (m: Mesh)
    requires b.vertex.Some? && b.face.Some? && Layout(es, b) && |parts| == |es|
    requires PartFits(parts[b.vertex.value], es, b, b.vertex.value) && PartFits(parts[b.face.value], es, b, b.face.value)
    ensures var n := VertexCount(es, b);
            |m.positions| == 3 * n && |m.colors| == 3 * n && |m.normals| == 3 * n
            && |m.indices| % 3 == 0 && forall j :: 0 <= j < |m.indices| ==> 0 <= m.indices[j] < n
  {
    var tris := TrisOf(parts[b.face.value]);
    IndicesInRange(tris, VertexCount(es, b));
    MeshOf(VertsOf(parts[b.vertex.value]), tris)
  }

  /** `readMesh`: refuses a file without vertices or without faces, reads
      every element in header order, and requires the body to end right
      after the last one. */
  function ReadMesh(rd: Reader, src: Source): (r: Result<Mesh, PlyError>)
    requires Typed(rd.header.elements) && Layout(rd.header.elements, rd.binding)
    ensures !HasVertices(rd.binding) ==> r == Err(NoVertices)
    ensures HasVertices(rd.binding) && !HasFaces(rd.header.elements, rd.binding) ==> r == Err(NoFaces)
    ensures r.Ok? ==> var n := VertexCount(rd.header.elements, rd.binding);
                      |r.value.positions| == 3 * n && |r.value.colors| == 3 * n && |r.value.normals| == 3 * n
                      && |r.value.indices| % 3 == 0
                      && forall j :: 0 <= j < |r.value.indices| ==> 0 <= r.value.indices[j] < n
  {
    var es := rd.header.elements;
    var b := rd.binding;
    if !HasVertices(b) then Err(NoVertices)
    else if !HasFaces(es, b) then Err(NoFaces)
    else Finish(es, b, ReadParts(es, b, 0, src))
  }

  /** After the walk: the end check, then the output arrays. */
  function Finish(es: seq<Element>, b: Binding, rps: Result<(seq<Part>, Source), PlyError>): (r: Result<Mesh, PlyError>)
    requires b.vertex.Some? && b.face.Some? && Layout(es, b)
    requires rps.Ok? ==> |rps.value.0| == |es| && forall j :: 0 <= j < |es| ==> PartFits(rps.value.0[j], es, b, 0 + j)
    ensures r.Ok? ==> var n := VertexCount(es, b);
                      |r.value.positions| == 3 * n && |r.value.colors| == 3 * n && |r.value.normals| == 3 * n
                      && |r.value.indices| % 3 == 0
                      && forall j :: 0 <= j < |r.value.indices| ==> 0 <= r.value.indices[j] < n
  {
    var (parts, rest) :- rps;
    var _ :- NeedEnd(rest);
    assert PartFits(parts[b.vertex.value], es, b, 0 + b.vertex.value);
    assert PartFits(parts[b.face.value], es, b, 0 + b.face.value);
    Ok(Assemble(es, b, parts))
  }

  /** Every entry of the index array names one of `n` vertices. */
  lemma IndicesInRange(tris: seq<Triangle>, n: nat)
    requires InRange(tris, n)
    ensures forall j :: 0 <= j < |FloatIndex.Indices(tris)| ==> 0 <= FloatIndex.Indices(tris)[j] < n
  {
    var a := FloatIndex.Indices(tris);
    forall j | 0 <= j < |a|
      ensures 0 <= a[j] < n
    {
      var i := j / 3;
      assert a[3 * i] == tris[i].x && a[3 * i + 1] == tris[i].y && a[3 * i + 2] == tris[i].z;
      assert j == 3 * i || j == 3 * i + 1 || j == 3 * i + 2;
    }
  }

  // ---------------------------------------------------------------------
  // The walk agrees with reading every record in full

  /** Reads every record of the elements from position `i` on, in full. */
  function ReadBody(es: seq<Element>, i: nat, src: Source): (r: Result<(seq<seq<seq<Field>>>, Source), PlyError>)
    requires i <= |es| && Typed(es)
    ensures r.Ok? ==> |r.value.0| == |es| - i
    decreases |es| - i
  {
    if i == |es| then Ok(([], src))
    else
      var (recs, rest) :- ReadRecords(es[i].props, es[i].count, src);
      var (more, rest') :- ReadBody(es, i + 1, rest);
      Ok(([recs] + more, rest'))
  }

  /** What the walk takes from the records of element `i`: the vertices
      they describe, the fans of their faces (none if a face is invalid),
      or nothing. */
  function PartOf(recs: seq<seq<Field>>, es: seq<Element>, b: Binding, i: nat): Option<Part> {
    if b.vertex == Some(i) then Some(Verts(MapSeq(Interpret(b.slots), recs)))
    else if b.face == Some(i) then
      if AllFaces(recs, b.indices, VertexCount(es, b)) then Some(Tris(Fans(recs, b.indices, VertexCount(es, b)))) else None
    else Some(Skipped)
  }

  /** `rp`, element `i` read by the walk, agrees with `rr`, its records
      read in full: it succeeds exactly when `rr` does with records the
      walk accepts, yields what they mean, and stops where `rr` stops. */
  predicate PartAgrees(rp: Result<(Part, Source), PlyError>, rr: Result<(seq<seq<Field>>, Source), PlyError>,
                       es: seq<Element>, b: Binding, i: nat) {
    (rr.Ok? && PartOf(rr.value.0, es, b, i).Some? ==> rp.Ok?)
    && (rp.Ok? ==> rr.Ok? && PartOf(rr.value.0, es, b, i).Some? && rp.value == (PartOf(rr.value.0, es, b, i).value, rr.value.1))
  }

  /** Reading an element the walk's way agrees with reading its records in
      full. */
  lemma ReadPartRecords(es: seq<Element>, b: Binding, i: nat, src: Source)
    requires i < |es| && Typed(es) && Layout(es, b)
    ensures PartAgrees(ReadPart(es, b, i, src), ReadRecords(es[i].props, es[i].count, src), es, b, i)
  {
    var e := es[i];
    if b.vertex == Some(i) {
      ReadVerticesRecords(e.props, b.slots, e.count, src);
    } else if b.face == Some(i) {
      ReadFacesRecords(e.props, b.indices, VertexCount(es, b), e.count, src);
    } else {
      SkipRecordsReads(e.props, e.count, src);
    }
  }

  /** `f` accepts every entry of `xs`, the first one at position `i`. */
  predicate AllSome<A, B>(f: (A, nat) -> Option<B>, xs: seq<A>, i: nat)
    decreases |xs|
  {
    |xs| == 0 || (f(xs[0], i).Some? && AllSome(f, xs[1..], i + 1))
  }

  /** What `f` makes of every entry of `xs`. */
  function Somes<A, B>(f: (A, nat) -> Option<B>, xs: seq<A>, i: nat): (ys: seq<B>)
    requires AllSome(f, xs, i)
    ensures |ys| == |xs|
    decreases |xs|
  {
    if |xs| == 0 then [] else [f(xs[0], i).value] + Somes(f, xs[1..], i + 1)
  }

  lemma {:induction false} AllSomeAt<A, B>(f: (A, nat) -> Option<B>, xs: seq<A>, i: nat)
    ensures AllSome(f, xs, i) <==> forall j :: 0 <= j < |xs| ==> f(xs[j], i + j).Some?
    decreases |xs|
  {
    if |xs| > 0 {
      AllSomeAt(f, xs[1..], i + 1);
      assert forall j :: 1 <= j < |xs| ==> xs[1..][j - 1] == xs[j] && i + 1 + (j - 1) == i + j;
    }
  }

  lemma {:induction false} SomesAt<A, B>(f: (A, nat) -> Option<B>, xs: seq<A>, i: nat, j: nat)
    requires AllSome(f, xs, i) && j < |xs|
    ensures f(xs[j], i + j).Some? && Somes(f, xs, i)[j] == f(xs[j], i + j).value
    decreases |xs|
  {
    if j > 0 {
      SomesAt(f, xs[1..], i + 1, j - 1);
      assert xs[1..][j - 1] == xs[j] && i + 1 + (j - 1) == i + j;
    }
  }

  /** `PartOf` as a function of the records and the element position. */
  function Parts(es: seq<Element>, b: Binding): (seq<seq<Field>>, nat) -> Option<Part> {
    (recs: seq<seq<Field>>, i: nat) => PartOf(recs, es, b, i)
  }

  /** Every element's records are accepted by the walk. */
  predicate AllParts(body: seq<seq<seq<Field>>>, es: seq<Element>, b: Binding, i: nat) {
    AllSome(Parts(es, b), body, i)
  }

  function PartsOf(body: seq<seq<seq<Field>>>, es: seq<Element>, b: Binding, i: nat): (ps: seq<Part>)
    requires AllParts(body, es, b, i)
    ensures |ps| == |body|
  {
    Somes(Parts(es, b), body, i)
  }

  /** The walk from element `i` on agrees with reading every record from
      there on in full. */
  predicate PartsAgree(rps: Result<(seq<Part>, Source), PlyError>, rb: Result<(seq<seq<seq<Field>>>, Source), PlyError>,
                       es: seq<Element>, b: Binding, i: nat) {
    (rb.Ok? && AllParts(rb.value.0, es, b, i) ==> rps.Ok?)
    && (rps.Ok? ==> rb.Ok? && AllParts(rb.value.0, es, b, i) && rps.value == (PartsOf(rb.value.0, es, b, i), rb.value.1))
  }

  lemma PartsCons(p: Part, recs: seq<seq<Field>>, rps: Result<(seq<Part>, Source), PlyError>,
                  rb: Result<(seq<seq<seq<Field>>>, Source), PlyError>, es: seq<Element>, b: Binding, i: nat)
    requires PartOf(recs, es, b, i) == Some(p) && PartsAgree(rps, rb, es, b, i + 1)
    ensures PartsAgree(Cons(p, rps), Cons(recs, rb), es, b, i)
  {
    if rb.Ok? {
      var body := [recs] + rb.value.0;
      assert body[0] == recs && body[1..] == rb.value.0;
    }
  }

  lemma PartsFail(rps: Result<(seq<Part>, Source), PlyError>, recs: seq<seq<Field>>,
                  rb: Result<(seq<seq<seq<Field>>>, Source), PlyError>, es: seq<Element>, b: Binding, i: nat)
    requires rps.Err? && PartOf(recs, es, b, i).None?
    ensures PartsAgree(rps, Cons(recs, rb), es, b, i)
  {
    if rb.Ok? {
      var body := [recs] + rb.value.0;
      assert body[0] == recs;
    }
  }

  lemma ReadPartsStep(es: seq<Element>, b: Binding, i: nat, src: Source, p: Part, rest: Source)
    requires i < |es| && Typed(es) && Layout(es, b) && ReadPart(es, b, i, src) == Ok((p, rest))
    ensures ReadParts(es, b, i, src) == Cons(p, ReadParts(es, b, i + 1, rest))
  {
  }

  lemma ReadBodyStep(es: seq<Element>, i: nat, src: Source, recs: seq<seq<Field>>, rest: Source)
    requires i < |es| && Typed(es) && ReadRecords(es[i].props, es[i].count, src) == Ok((recs, rest))
    ensures ReadBody(es, i, src) == Cons(recs, ReadBody(es, i + 1, rest))
  {
  }

  /** The walk agrees with reading every record in full. */
  lemma {:induction false} ReadPartsBody(es: seq<Element>, b: Binding, i: nat, src: Source)
    requires i <= |es| && Typed(es) && Layout(es, b)
    ensures PartsAgree(ReadParts(es, b, i, src), ReadBody(es, i, src), es, b, i)
    decreases |es| - i
  {
    if i < |es| {
      var rp := ReadPart(es, b, i, src);
      var rr := ReadRecords(es[i].props, es[i].count, src);
      ReadPartRecords(es, b, i, src);
      if rp.Ok? {
        var (p, rest) := rp.value;
        ReadPartsStep(es, b, i, src, p, rest);
        ReadBodyStep(es, i, src, rr.value.0, rest);
        ReadPartsBody(es, b, i + 1, rest);
        PartsCons(p, rr.value.0, ReadParts(es, b, i + 1, rest), ReadBody(es, i + 1, rest), es, b, i);
      } else if rr.Ok? {
        ReadBodyStep(es, i, src, rr.value.0, rr.value.1);
        PartsFail(ReadParts(es, b, i, src), rr.value.0, ReadBody(es, i + 1, rr.value.1), es, b, i);
      }
    }
  }

  lemma AllPartsAt(body: seq<seq<seq<Field>>>, es: seq<Element>, b: Binding, i: nat)
    ensures AllParts(body, es, b, i) <==> forall j :: 0 <= j < |body| ==> PartOf(body[j], es, b, i + j).Some?
  {
    AllSomeAt(Parts(es, b), body, i);
    assert forall j :: 0 <= j < |body| ==> Parts(es, b)(body[j], i + j) == PartOf(body[j], es, b, i + j);
  }

  lemma PartsOfAt(body: seq<seq<seq<Field>>>, es: seq<Element>, b: Binding, i: nat, j: nat)
    requires AllParts(body, es, b, i) && j < |body|
    ensures PartOf(body[j], es, b, i + j).Some? && PartsOf(body, es, b, i)[j] == PartOf(body[j], es, b, i + j).value
  {
    SomesAt(Parts(es, b), body, i, j);
  }

  /** The walk accepts every element's records exactly when the face
      records hold valid faces. */
  lemma AllPartsFaces(body: seq<seq<seq<Field>>>, es: seq<Element>, b: Binding)
    requires Layout(es, b) && b.face.Some? && |body| == |es|
    ensures AllParts(body, es, b, 0) <==> AllFaces(body[b.face.value], b.indices, VertexCount(es, b))
  {
    var f := b.face.value;
    AllPartsAt(body, es, b, 0);
    assert PartOf(body[f], es, b, 0 + f).Some? <==> AllFaces(body[f], b.indices, VertexCount(es, b));
    if AllFaces(body[f], b.indices, VertexCount(es, b)) {
      forall j | 0 <= j < |body|
        ensures PartOf(body[j], es, b, 0 + j).Some?
      {
      }
    }
  }

  /** A walk that read every element finishes exactly when the body ends
      there, with the mesh of its vertex and face parts. */
  lemma FinishOk(es: seq<Element>, b: Binding, parts: seq<Part>, rest: Source)
    requires b.vertex.Some? && b.face.Some? && Layout(es, b)
    requires |parts| == |es| && forall j :: 0 <= j < |es| ==> PartFits(parts[j], es, b, 0 + j)
    ensures Finish(es, b, Ok((parts, rest))).Ok? <==> Remaining(rest) == 0
    ensures Remaining(rest) == 0 ==>
              Finish(es, b, Ok((parts, rest))).value == MeshOf(VertsOf(parts[b.vertex.value]), TrisOf(parts[b.face.value]))
  {
  }

  /** The vertex part of a body the walk accepts holds the vertices the
      vertex records describe. */
  lemma PartsOfVertices(body: seq<seq<seq<Field>>>, es: seq<Element>, b: Binding)
    requires b.vertex.Some? && b.vertex.value < |body| && AllParts(body, es, b, 0)
    ensures VertsOf(PartsOf(body, es, b, 0)[b.vertex.value]) == MapSeq(Interpret(b.slots), body[b.vertex.value])
  {
    var vi := b.vertex.value;
    PartsOfAt(body, es, b, 0, vi);
    assert PartOf(body[vi], es, b, 0 + vi) == Some(Verts(MapSeq(Interpret(b.slots), body[vi])));
  }

  /** The face part of a body the walk accepts holds the fans of the face
      records. */
  lemma PartsOfFaces(body: seq<seq<seq<Field>>>, es: seq<Element>, b: Binding)
    requires b.face.Some? && b.vertex != b.face && b.face.value < |body| && AllParts(body, es, b, 0)
    requires AllFaces(body[b.face.value], b.indices, VertexCount(es, b))
    ensures TrisOf(PartsOf(body, es, b, 0)[b.face.value]) == Fans(body[b.face.value], b.indices, VertexCount(es, b))
  {
    var fi := b.face.value;
    PartsOfAt(body, es, b, 0, fi);
    assert PartOf(body[fi], es, b, 0 + fi) == Some(Tris(Fans(body[fi], b.indices, VertexCount(es, b))));
  }

  /** The end of the walk agrees with the end of reading every record in
      full. */
  lemma FinishAgrees(es: seq<Element>, b: Binding, rps: Result<(seq<Part>, Source), PlyError>,
                     rb: Result<(seq<seq<seq<Field>>>, Source), PlyError>)
    requires b.vertex.Some? && b.face.Some? && Layout(es, b)
    requires rps.Ok? ==> |rps.value.0| == |es| && forall j :: 0 <= j < |es| ==> PartFits(rps.value.0[j], es, b, 0 + j)
    requires rb.Ok? ==> |rb.value.0| == |es|
    requires PartsAgree(rps, rb, es, b, 0)
    ensures Finish(es, b, rps).Ok? <==>
              rb.Ok? && AllFaces(rb.value.0[b.face.value], b.indices, VertexCount(es, b)) && Remaining(rb.value.1) == 0
    ensures Finish(es, b, rps).Ok? ==>
              var body := rb.value.0;
              Finish(es, b, rps).value
              == MeshOf(MapSeq(Interpret(b.slots), body[b.vertex.value]), Fans(body[b.face.value], b.indices, VertexCount(es, b)))
  {
    if rb.Ok? {
      AllPartsFaces(rb.value.0, es, b);
    }
    if rps.Ok? {
      var body := rb.value.0;
      FinishOk(es, b, rps.value.0, rps.value.1);
      PartsOfVertices(body, es, b);
      PartsOfFaces(body, es, b);
    }
  }

  /** `readMesh` succeeds exactly when the file has vertices and faces,
      every record of every element reads in full, every face is valid and
      nothing follows the last element; the mesh is then made of the
      vertices the vertex records describe and the fans of the faces, in
      order. */
  lemma ReadMeshBody(rd: Reader, src: Source)
    requires Typed(rd.header.elements) && Layout(rd.header.elements, rd.binding)
    ensures var es := rd.header.elements;
            var b := rd.binding;
            ReadMesh(rd, src).Ok? <==>
              HasVertices(b) && HasFaces(es, b) && ReadBody(es, 0, src).Ok?
              && AllFaces(ReadBody(es, 0, src).value.0[b.face.value], b.indices, VertexCount(es, b))
              && Remaining(ReadBody(es, 0, src).value.1) == 0
    ensures var es := rd.header.elements;
            var b := rd.binding;
            ReadMesh(rd, src).Ok? ==>
              var body := ReadBody(es, 0, src).value.0;
              ReadMesh(rd, src).value
              == MeshOf(MapSeq(Interpret(b.slots), body[b.vertex.value]), Fans(body[b.face.value], b.indices, VertexCount(es, b)))
  {
    var es := rd.header.elements;
    var b := rd.binding;
    if HasVertices(b) && HasFaces(es, b) {
      ReadPartsBody(es, b, 0, src);
      FinishAgrees(es, b, ReadParts(es, b, 0, src), ReadBody(es, 0, src));
    }
  }

  /** Vertex `k` of the output holds the position, colour and normal of
      the `k`-th vertex, each at `3k`, `3k + 1`, `3k + 2`. */
  lemma MeshVertex(vs: seq<Vertex>, tris: seq<Triangle>, k: nat)
    requires k < |vs|
    ensures var m := MeshOf(vs, tris);
            |m.positions| == |m.colors| == |m.normals| == 3 * |vs|
            && m.positions[3 * k] == vs[k].position.x && m.positions[3 * k + 1] == vs[k].position.y
            && m.positions[3 * k + 2] == vs[k].position.z
            && m.colors[3 * k] == vs[k].color.x && m.colors[3 * k + 1] == vs[k].color.y
            && m.colors[3 * k + 2] == vs[k].color.z
            && m.normals[3 * k] == vs[k].normal.x && m.normals[3 * k + 1] == vs[k].normal.y
            && m.normals[3 * k + 2] == vs[k].normal.z
  {
    FlattenAt(Positions(vs), k);
    FlattenAt(Colors(vs), k);
    FlattenAt(Normals(vs), k);
  }

  /** The vertex a record describes holds the record's slot values; a
      colour or normal the record does not carry is 0. */
  lemma VertexOfSlots(fs: seq<Field>, slots: map<string, nat>)
    ensures var v := VertexOf(fs, slots);
            v.position == Vec3(Comp(fs, slots, X), Comp(fs, slots, Y), Comp(fs, slots, Z))
            && v.color == Vec3(Comp(fs, slots, Red), Comp(fs, slots, Green), Comp(fs, slots, Blue))
            && v.normal == Vec3(Comp(fs, slots, NX), Comp(fs, slots, NY), Comp(fs, slots, NZ))
    ensures !HasColors(Binding(None, None, slots, None)) ==> VertexOf(fs, slots).color == Origin
    ensures !HasNormals(Binding(None, None, slots, None)) ==> VertexOf(fs, slots).normal == Origin
  {
  }
}
