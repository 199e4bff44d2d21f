/** The semantic bindings of a parsed header (the second half of the
    `PlyReader` constructor): which element holds the vertices and which the
    faces, where in a vertex record the coordinates, normal and colour
    components sit, and where in a face record the index list sits. */
module PlyBindings {
  import opened Wrappers
  import opened PlyErrors
  import opened PlyTypes
  import opened PlyHeader

  /** The vertex property names the reader binds to a slot. */
  const VertexSlots: set<string> := {"x", "y", "z", "nx", "ny", "nz", "red", "green", "blue"}

  const IndicesName: string := "vertex_indices"

  /** Where the reader found what it needs: the positions of the vertex and
      face elements in the header, the property position of each bound
      vertex slot, and the property position of the face index list. */
  datatype Binding = Binding(vertex: Option<nat>, face: Option<nat>, slots: map<string, nat>, indices: Option<nat>)

  const Unbound: Binding := Binding(None, None, map[], None)

  /** Binds the slot-named properties of the vertex element from position
      `pi` on: each must be a scalar and bound only once. */
  function BindVertexProps(props: seq<Property>, pi: nat, slots: map<string, nat>): (r: Result<map<string, nat>, PlyError>)
    requires pi <= |props|
    ensures r.Err? ==> r.error.ListVertexProperty? || r.error.DuplicateVertexProperty?
    decreases |props| - pi
  {
    if pi == |props| then Ok(slots)
    else
      var p := props[pi];
      if p.name in VertexSlots then
        if p.List? then Err(ListVertexProperty(p.name))
        else if p.name in slots then Err(DuplicateVertexProperty(p.name))
        else BindVertexProps(props, pi + 1, slots[p.name := pi])
      else BindVertexProps(props, pi + 1, slots)
  }

  /** Binds `vertex_indices` of the face element from position `pi` on: it
      must be a list of an integral type and appear only once. */
  function BindFaceProps(props: seq<Property>, pi: nat, indices: Option<nat>): (r: Result<Option<nat>, PlyError>)
    requires pi <= |props|
    ensures r.Err? ==> r.error in {IndicesNotList, NonIntegralIndices, DuplicateIndices}
    decreases |props| - pi
  {
    if pi == |props| then Ok(indices)
    else
      var p := props[pi];
      if p.name == IndicesName then
        if p.Scalar? then Err(IndicesNotList)
        else if !IsIntegral(p.elemType) then Err(NonIntegralIndices)
        else if indices.Some? then Err(DuplicateIndices)
        else BindFaceProps(props, pi + 1, Some(pi))
      else BindFaceProps(props, pi + 1, indices)
  }

  /** The loop over the elements from position `i` on. */
  function BindElements(es: seq<Element>, i: nat, b: Binding): (r: Result<Binding, PlyError>)
    requires i <= |es|
    decreases |es| - i
  {
    if i == |es| then Ok(b)
    else if es[i].name == "vertex" then
      if b.vertex.Some? then Err(MultipleVertexElements)
      else
        var slots :- BindVertexProps(es[i].props, 0, b.slots);
        BindElements(es, i + 1, b.(vertex := Some(i), slots := slots))
    else if es[i].name == "face" then
      if b.face.Some? then Err(MultipleFaceElements)
      else
        var indices :- BindFaceProps(es[i].props, 0, b.indices);
        BindElements(es, i + 1, b.(face := Some(i), indices := indices))
    else BindElements(es, i + 1, b)
  }

  /** A parsed header together with its bindings: the state of a
      constructed `PlyReader`. */
  datatype Reader = Reader(header: Header, binding: Binding)

  predicate HasVertices(b: Binding) {
    b.vertex.Some?
  }

  predicate HasNormals(b: Binding) {
    "nx" in b.slots || "ny" in b.slots || "nz" in b.slots
  }

  predicate HasColors(b: Binding) {
    "red" in b.slots || "green" in b.slots || "blue" in b.slots
  }

  predicate HasFaces(es: seq<Element>, b: Binding) {
    b.face.Some? && b.face.value < |es| && es[b.face.value].count > 0
  }

  /** The checks after the loop, in the reader's order. */
  function CheckBinding(h: Header, b: Binding): (r: Result<Reader, PlyError>)
    ensures r.Ok? ==> r.value == Reader(h, b)
  {
    if HasVertices(b) && "x" !in b.slots then Err(MissingCoordinate("x"))
    else if HasVertices(b) && "y" !in b.slots then Err(MissingCoordinate("y"))
    else if HasVertices(b) && "z" !in b.slots then Err(MissingCoordinate("z"))
    else if HasNormals(b) && !("nx" in b.slots && "ny" in b.slots && "nz" in b.slots) then Err(IncompleteNormal)
    else if HasColors(b) && !("red" in b.slots && "green" in b.slots && "blue" in b.slots) then Err(IncompleteColor)
    else if HasFaces(h.elements, b) && !HasVertices(b) then Err(FacesWithoutVertices)
    else if HasFaces(h.elements, b) && b.indices.None? then Err(MissingIndices)
    else Ok(Reader(h, b))
  }

  /** The bindings of a parsed header. */
  function Bind(h: Header): (r: Result<Reader, PlyError>)
  {
    var b :- BindElements(h.elements, 0, Unbound);
    CheckBinding(h, b)
  }

  /** The whole constructor: parse the header lines, then bind. */
  function Open(lines: seq<string>): (r: Result<Reader, PlyError>)
    ensures |lines| == 0 ==> r == Err(HeaderEof)
    ensures |lines| > 0 && lines[0] != "ply" ==> r == Err(NotPly)
    ensures r.Ok? ==> ParseHeader(lines) == Ok(r.value.header)
  {
    var h :- ParseHeader(lines);
    Bind(h)
  }

  // ---------------------------------------------------------------------
  // What a successful binding means, stated over the schema alone

  /** Some property of the list has the name. */
  ghost predicate HasProp(props: seq<Property>, name: string) {
    exists j :: 0 <= j < |props| && props[j].name == name
  }

  /** No property before position `k` has the name. */
  ghost predicate NoEarlierProp(props: seq<Property>, k: nat, name: string)
    requires k <= |props|
  {
    forall j :: 0 <= j < k ==> props[j].name != name
  }

  /** The property at `k`, if slot-named, is a scalar whose slot no earlier
      property took. */
  ghost predicate VertexPropOkAt(props: seq<Property>, k: nat)
    requires k < |props|
  {
    props[k].name in VertexSlots ==> props[k].Scalar? && NoEarlierProp(props, k, props[k].name)
  }

  ghost predicate VertexPropsOkUpTo(props: seq<Property>, n: nat)
    requires n <= |props|
  {
    forall k :: 0 <= k < n ==> VertexPropOkAt(props, k)
  }

  ghost predicate VertexPropsOk(props: seq<Property>) {
    VertexPropsOkUpTo(props, |props|)
  }

  /** `slots` binds exactly the slot-named properties among the first `n`,
      each to its own position. */
  ghost predicate SlotsOf(props: seq<Property>, n: nat, slots: map<string, nat>)
    requires n <= |props|
  {
    (forall s :: s in slots ==> s in VertexSlots && slots[s] < n && props[slots[s]].name == s)
    && (forall j :: 0 <= j < n && props[j].name in VertexSlots ==> props[j].name in slots && slots[props[j].name] == j)
  }

  lemma {:induction false} BindVertexPropsSpec(props: seq<Property>, pi: nat, slots: map<string, nat>)
    requires pi <= |props|
    requires VertexPropsOkUpTo(props, pi) && SlotsOf(props, pi, slots)
    ensures BindVertexProps(props, pi, slots).Ok? <==> VertexPropsOk(props)
    ensures BindVertexProps(props, pi, slots).Ok? ==> SlotsOf(props, |props|, BindVertexProps(props, pi, slots).value)
    decreases |props| - pi
  {
    if pi < |props| {
      var p := props[pi];
      if p.name in VertexSlots && (p.List? || p.name in slots) {
        VertexPropRejected(props, pi, slots);
      } else {
        var slots' := if p.name in VertexSlots then slots[p.name := pi] else slots;
        VertexPropAccepted(props, pi, slots);
        BindVertexPropsSpec(props, pi + 1, slots');
      }
    }
  }

  lemma VertexPropRejected(props: seq<Property>, pi: nat, slots: map<string, nat>)
    requires pi < |props| && SlotsOf(props, pi, slots)
    requires props[pi].name in VertexSlots && (props[pi].List? || props[pi].name in slots)
    ensures !VertexPropsOk(props)
  {
    if props[pi].name in slots {
      var j := slots[props[pi].name];
      assert j < pi && props[j].name == props[pi].name;
    }
    assert !VertexPropOkAt(props, pi);
  }

  lemma VertexPropAccepted(props: seq<Property>, pi: nat, slots: map<string, nat>)
    requires pi < |props| && VertexPropsOkUpTo(props, pi) && SlotsOf(props, pi, slots)
    requires props[pi].name in VertexSlots ==> props[pi].Scalar? && props[pi].name !in slots
    ensures VertexPropsOkUpTo(props, pi + 1)
    ensures SlotsOf(props, pi + 1, if props[pi].name in VertexSlots then slots[props[pi].name := pi] else slots)
  {
    if props[pi].name in VertexSlots {
      forall j | 0 <= j < pi
        ensures props[j].name != props[pi].name
      {
        if props[j].name in VertexSlots {
          assert props[j].name in slots;
        }
      }
    }
  }

  /** The property at `k`, if it is `vertex_indices`, is an integral list
      and the first of that name. */
  ghost predicate FacePropOkAt(props: seq<Property>, k: nat)
    requires k < |props|
  {
    props[k].name == IndicesName ==> props[k].List? && IsIntegral(props[k].elemType) && NoEarlierProp(props, k, IndicesName)
  }

  ghost predicate FacePropsOkUpTo(props: seq<Property>, n: nat)
    requires n <= |props|
  {
    forall k :: 0 <= k < n ==> FacePropOkAt(props, k)
  }

  ghost predicate FacePropsOk(props: seq<Property>) {
    FacePropsOkUpTo(props, |props|)
  }

  /** `indices` is the position of `vertex_indices` among the first `n`
      properties, or none when it is not among them. */
  ghost predicate IndicesOf(props: seq<Property>, n: nat, indices: Option<nat>)
    requires n <= |props|
  {
    (indices.Some? ==> indices.value < n && props[indices.value].name == IndicesName)
    && (forall j :: 0 <= j < n && props[j].name == IndicesName ==> indices == Some(j))
  }

  lemma {:induction false} BindFacePropsSpec(props: seq<Property>, pi: nat, indices: Option<nat>)
    requires pi <= |props|
    requires FacePropsOkUpTo(props, pi) && IndicesOf(props, pi, indices)
    ensures BindFaceProps(props, pi, indices).Ok? <==> FacePropsOk(props)
    ensures BindFaceProps(props, pi, indices).Ok? ==> IndicesOf(props, |props|, BindFaceProps(props, pi, indices).value)
    decreases |props| - pi
  {
    if pi < |props| {
      var p := props[pi];
      if p.name == IndicesName {
        if p.Scalar? || !IsIntegral(p.elemType) {
          assert !FacePropOkAt(props, pi);
        } else if indices.Some? {
          assert indices.value < pi && props[indices.value].name == IndicesName;
          assert !FacePropOkAt(props, pi);
        } else {
          assert FacePropsOkUpTo(props, pi + 1);
          assert IndicesOf(props, pi + 1, Some(pi));
          BindFacePropsSpec(props, pi + 1, Some(pi));
        }
      } else {
        assert FacePropsOkUpTo(props, pi + 1);
        assert IndicesOf(props, pi + 1, indices);
        BindFacePropsSpec(props, pi + 1, indices);
      }
    }
  }

  /** No element before position `j` has the name. */
  ghost predicate NoEarlier(es: seq<Element>, j: nat, name: string)
    requires j <= |es|
  {
    forall i :: 0 <= i < j ==> es[i].name != name
  }

  /** The element at `i` binds without error given the elements before it:
      it is not a second vertex or face element and its properties are
      acceptable. */
  ghost predicate ElementOkAt(es: seq<Element>, i: nat)
    requires i < |es|
  {
    (es[i].name == "vertex" ==> NoEarlier(es, i, "vertex") && VertexPropsOk(es[i].props))
    && (es[i].name == "face" ==> NoEarlier(es, i, "face") && FacePropsOk(es[i].props))
  }

  ghost predicate ElementsOkUpTo(es: seq<Element>, n: nat)
    requires n <= |es|
  {
    forall i :: 0 <= i < n ==> ElementOkAt(es, i)
  }

  /** The element at `i`, if it is the vertex or face element, is the one
      `b` records. */
  ghost predicate BoundAt(es: seq<Element>, i: nat, b: Binding)
    requires i < |es|
  {
    (es[i].name == "vertex" ==> b.vertex == Some(i)) && (es[i].name == "face" ==> b.face == Some(i))
  }

  /** `b` records the vertex element with its slots and the face element
      with its index list, all among the first `n` elements. */
  ghost predicate Recorded(es: seq<Element>, n: nat, b: Binding)
    requires n <= |es|
  {
    (b.vertex.Some? ==> b.vertex.value < n && es[b.vertex.value].name == "vertex"
                        && SlotsOf(es[b.vertex.value].props, |es[b.vertex.value].props|, b.slots))
    && (b.vertex.None? ==> b.slots == map[] && NoEarlier(es, n, "vertex"))
    && (b.face.Some? ==> b.face.value < n && es[b.face.value].name == "face"
                         && IndicesOf(es[b.face.value].props, |es[b.face.value].props|, b.indices))
    && (b.face.None? ==> b.indices.None? && NoEarlier(es, n, "face"))
  }

  /** `b` is what binding the first `n` elements yields. */
  ghost predicate BindingOf(es: seq<Element>, n: nat, b: Binding)
    requires n <= |es|
  {
    Recorded(es, n, b) && forall i :: 0 <= i < n ==> BoundAt(es, i, b)
  }

  lemma EmptySlots(props: seq<Property>)
    ensures SlotsOf(props, 0, map[]) && VertexPropsOkUpTo(props, 0)
  {
  }

  lemma NoIndices(props: seq<Property>)
    ensures IndicesOf(props, 0, None) && FacePropsOkUpTo(props, 0)
  {
  }

  lemma {:induction false} BindElementsSpec(es: seq<Element>, i: nat, b: Binding)
    requires i <= |es|
    requires ElementsOkUpTo(es, i) && BindingOf(es, i, b)
    ensures BindElements(es, i, b).Ok? <==> ElementsOkUpTo(es, |es|)
    ensures BindElements(es, i, b).Ok? ==> BindingOf(es, |es|, BindElements(es, i, b).value)
    decreases |es| - i, 1
  {
    if i < |es| {
      var e := es[i];
      if e.name == "vertex" {
        BindVertexElementSpec(es, i, b);
      } else if e.name == "face" {
        BindFaceElementSpec(es, i, b);
      } else {
        assert ElementsOkUpTo(es, i + 1);
        assert BindingOf(es, i + 1, b);
        BindElementsSpec(es, i + 1, b);
      }
    }
  }

  /** The loop at the vertex element. */
  lemma {:induction false} BindVertexElementSpec(es: seq<Element>, i: nat, b: Binding)
    requires i < |es| && es[i].name == "vertex"
    requires ElementsOkUpTo(es, i) && BindingOf(es, i, b)
    ensures BindElements(es, i, b).Ok? <==> ElementsOkUpTo(es, |es|)
    ensures BindElements(es, i, b).Ok? ==> BindingOf(es, |es|, BindElements(es, i, b).value)
    decreases |es| - i, 0
  {
    var e := es[i];
    if b.vertex.Some? {
      SecondElementRejected(es, i, b.vertex.value);
      RejectedAt(es, i);
    } else {
      EmptySlots(e.props);
      BindVertexPropsSpec(e.props, 0, map[]);
      if BindVertexProps(e.props, 0, map[]).Ok? {
        var b' := b.(vertex := Some(i), slots := BindVertexProps(e.props, 0, map[]).value);
        VertexElementAccepted(es, i, b, b'.slots);
        BindElementsSpec(es, i + 1, b');
      } else {
        RejectedAt(es, i);
      }
    }
  }

  /** The loop at the face element. */
  lemma {:induction false} BindFaceElementSpec(es: seq<Element>, i: nat, b: Binding)
    requires i < |es| && es[i].name == "face"
    requires ElementsOkUpTo(es, i) && BindingOf(es, i, b)
    ensures BindElements(es, i, b).Ok? <==> ElementsOkUpTo(es, |es|)
    ensures BindElements(es, i, b).Ok? ==> BindingOf(es, |es|, BindElements(es, i, b).value)
    decreases |es| - i, 0
  {
    var e := es[i];
    if b.face.Some? {
      SecondElementRejected(es, i, b.face.value);
      RejectedAt(es, i);
    } else {
      NoIndices(e.props);
      BindFacePropsSpec(e.props, 0, None);
      if BindFaceProps(e.props, 0, None).Ok? {
        var b' := b.(face := Some(i), indices := BindFaceProps(e.props, 0, None).value);
        FaceElementAccepted(es, i, b, b'.indices);
        BindElementsSpec(es, i + 1, b');
      } else {
        RejectedAt(es, i);
      }
    }
  }

  /** One element that does not bind rejects the schema. */
  lemma RejectedAt(es: seq<Element>, i: nat)
    requires i < |es| && !ElementOkAt(es, i)
    ensures !ElementsOkUpTo(es, |es|)
  {
  }

  lemma SecondElementRejected(es: seq<Element>, i: nat, j: nat)
    requires j < i < |es| && es[j].name == es[i].name
    ensures !NoEarlier(es, i, es[i].name)
  {
  }

  lemma VertexElementAccepted(es: seq<Element>, i: nat, b: Binding, slots: map<string, nat>)
    requires i < |es| && es[i].name == "vertex" && b.vertex.None?
    requires ElementsOkUpTo(es, i) && BindingOf(es, i, b)
    requires VertexPropsOk(es[i].props) && SlotsOf(es[i].props, |es[i].props|, slots)
    ensures ElementsOkUpTo(es, i + 1) && BindingOf(es, i + 1, b.(vertex := Some(i), slots := slots))
  {
    var b' := b.(vertex := Some(i), slots := slots);
    forall j | 0 <= j < i + 1
      ensures BoundAt(es, j, b')
    {
      if j < i {
        assert BoundAt(es, j, b);
        assert es[j].name != "vertex";
      }
    }
  }

  lemma FaceElementAccepted(es: seq<Element>, i: nat, b: Binding, indices: Option<nat>)
    requires i < |es| && es[i].name == "face" && b.face.None?
    requires ElementsOkUpTo(es, i) && BindingOf(es, i, b)
    requires FacePropsOk(es[i].props) && IndicesOf(es[i].props, |es[i].props|, indices)
    ensures ElementsOkUpTo(es, i + 1) && BindingOf(es, i + 1, b.(face := Some(i), indices := indices))
  {
    var b' := b.(face := Some(i), indices := indices);
    forall j | 0 <= j < i + 1
      ensures BoundAt(es, j, b')
    {
      if j < i {
        assert BoundAt(es, j, b);
        assert es[j].name != "face";
      }
    }
  }

  // ---------------------------------------------------------------------
  // The whole binding step

  /** A vertex element with every coordinate, and with all three or none of
      the normal components and of the colour components. */
  ghost predicate VertexComplete(props: seq<Property>) {
    HasProp(props, "x") && HasProp(props, "y") && HasProp(props, "z")
    && (HasProp(props, "nx") || HasProp(props, "ny") || HasProp(props, "nz")
        ==> HasProp(props, "nx") && HasProp(props, "ny") && HasProp(props, "nz"))
    && (HasProp(props, "red") || HasProp(props, "green") || HasProp(props, "blue")
        ==> HasProp(props, "red") && HasProp(props, "green") && HasProp(props, "blue"))
  }

  ghost predicate IsVertexElement(es: seq<Element>, i: int) {
    0 <= i < |es| && es[i].name == "vertex"
  }

  /** A face element that declares at least one face. */
  ghost predicate IsNonEmptyFaceElement(es: seq<Element>, i: int) {
    0 <= i < |es| && es[i].name == "face" && es[i].count > 0
  }

  /** A schema the reader accepts: every element binds, the vertex element is
      complete, and a non-empty face element has an index list and a vertex
      element to index into. */
  ghost predicate SchemaOk(es: seq<Element>) {
    ElementsOkUpTo(es, |es|)
    && (forall i :: IsVertexElement(es, i) ==> VertexComplete(es[i].props))
    && (forall i :: IsNonEmptyFaceElement(es, i) ==>
          HasProp(es[i].props, IndicesName) && exists j :: IsVertexElement(es, j))
  }

  /** The reader accepts a header exactly when its schema is acceptable, and
      then records the vertex and face elements and their properties. */
  lemma BindSpec(h: Header)
    ensures Bind(h).Ok? <==> SchemaOk(h.elements)
    ensures Bind(h).Ok? ==> Bind(h).value.header == h && BindingOf(h.elements, |h.elements|, Bind(h).value.binding)
  {
    var es := h.elements;
    assert BindingOf(es, 0, Unbound);
    BindElementsSpec(es, 0, Unbound);
    if BindElements(es, 0, Unbound).Ok? {
      var b := BindElements(es, 0, Unbound).value;
      VertexChecks(es, b);
      FaceChecks(es, b);
    }
  }

  /** A slot is bound exactly when the vertex element has a property of that
      name. */
  lemma SlotIffHasProp(props: seq<Property>, slots: map<string, nat>, s: string)
    requires SlotsOf(props, |props|, slots) && s in VertexSlots
    ensures s in slots <==> HasProp(props, s)
  {
    if HasProp(props, s) {
      var j :| 0 <= j < |props| && props[j].name == s;
      assert props[j].name in VertexSlots;
    }
    if s in slots {
      assert props[slots[s]].name == s;
    }
  }

  /** The coordinate, normal and colour checks pass exactly when the vertex
      element, if any, is complete. */
  lemma VertexChecks(es: seq<Element>, b: Binding)
    requires BindingOf(es, |es|, b)
    ensures (HasVertices(b) ==> "x" in b.slots && "y" in b.slots && "z" in b.slots)
            && (HasNormals(b) ==> "nx" in b.slots && "ny" in b.slots && "nz" in b.slots)
            && (HasColors(b) ==> "red" in b.slots && "green" in b.slots && "blue" in b.slots)
            <==> (forall i :: IsVertexElement(es, i) ==> VertexComplete(es[i].props))
    ensures HasVertices(b) <==> exists j :: IsVertexElement(es, j)
  {
    if b.vertex.Some? {
      var v := b.vertex.value;
      var props := es[v].props;
      assert IsVertexElement(es, v);
      forall s | s in VertexSlots
        ensures s in b.slots <==> HasProp(props, s)
      {
        SlotIffHasProp(props, b.slots, s);
      }
      forall i | IsVertexElement(es, i)
        ensures i == v
      {
        assert BoundAt(es, i, b);
      }
    } else {
      assert NoEarlier(es, |es|, "vertex");
      assert forall i :: !IsVertexElement(es, i);
    }
  }

  /** `vertex_indices` is bound exactly when the face element has a property
      of that name. */
  lemma IndicesIffHasProp(props: seq<Property>, indices: Option<nat>)
    requires IndicesOf(props, |props|, indices)
    ensures indices.Some? <==> HasProp(props, IndicesName)
  {
    if HasProp(props, IndicesName) {
      var j :| 0 <= j < |props| && props[j].name == IndicesName;
      assert indices == Some(j);
    }
  }

  /** The face checks pass exactly when a non-empty face element has its
      index list and a vertex element exists. */
  lemma FaceChecks(es: seq<Element>, b: Binding)
    requires BindingOf(es, |es|, b)
    ensures (HasFaces(es, b) ==> HasVertices(b) && b.indices.Some?)
            <==> (forall i :: IsNonEmptyFaceElement(es, i) ==>
                    HasProp(es[i].props, IndicesName) && exists j :: IsVertexElement(es, j))
  {
    VertexChecks(es, b);
    if b.face.Some? {
      var f := b.face.value;
      IndicesIffHasProp(es[f].props, b.indices);
      forall i | IsNonEmptyFaceElement(es, i)
        ensures i == f
      {
        assert BoundAt(es, i, b);
      }
      if HasFaces(es, b) {
        assert IsNonEmptyFaceElement(es, f);
      }
    } else {
      assert NoEarlier(es, |es|, "face");
      assert forall i :: !IsNonEmptyFaceElement(es, i);
    }
  }
}
