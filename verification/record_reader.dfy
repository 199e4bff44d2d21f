/** One record of an element read from the body property by property, and
    the reader's way of skipping properties and whole records it has no use
    for. Reading a record in full is the reference: skipping consumes
    exactly what reading consumes and fails exactly when reading fails. */
module Records {
  import opened Wrappers
  import opened PlyErrors
  import opened PlyTypes
  import opened PlyHeader
  import opened BodyInput

  /** The value of one property in a record: a scalar, or the elements of a
      list (its count is their number). */
  datatype Field = One(v: Number) | Many(vs: seq<Number>)

  /** Every list property of the record has an integral count type, as the
      header parser guarantees. */
  predicate IntegralCounts(props: seq<Property>) {
    forall j :: 0 <= j < |props| ==> (props[j].List? ==> IsIntegral(props[j].countType))
  }

  /** Reads `n` values of type `t`. */
  function ReadValues(src: Source, t: PlyType, n: nat): (r: Result<(seq<Number>, Source), PlyError>)
    ensures r.Ok? ==> |r.value.0| == n && forall k :: 0 <= k < n ==> Fits(t, r.value.0[k])
    ensures r.Ok? ==> r.value.1.Tokens? == src.Tokens?
                      && Remaining(r.value.1) == Remaining(src) - n * ValueSize(src, t)
  {
    CollectEach(ValueStep(t), (v: Number) => Fits(t, v), n, src);
    assert forall s: Source :: s.Tokens? == src.Tokens? ==> ValueSize(s, t) == ValueSize(src, t);
    CollectConsumes(ValueStep(t), ValueSize(src, t), src.Tokens?, n, src);
    Collect(ValueStep(t), n, src)
  }

  /** One value of type `t`. */
  function ValueStep(t: PlyType): Source -> Result<(Number, Source), PlyError> {
    (s: Source) => ReadValue(s, t)
  }

  /** Reads one property's value: a scalar, or a list's count (which must
      not be negative) and then its elements. */
  function ReadField(p: Property, src: Source): (r: Result<(Field, Source), PlyError>)
    requires p.List? ==> IsIntegral(p.countType)
    ensures r.Ok? ==> r.value.0.One? == p.Scalar?
    ensures r.Ok? && p.Scalar? ==> Fits(p.ty, r.value.0.v)
    ensures r.Ok? && p.List? ==> forall k :: 0 <= k < |r.value.0.vs| ==> Fits(p.elemType, r.value.0.vs[k])
  {
    if p.Scalar? then
      var (v, rest) :- ReadValue(src, p.ty);
      Ok((One(v), rest))
    else
      var (c, rest) :- ReadValue(src, p.countType);
      var count := IntValue(c);
      if count < 0 then Err(NegativeListCount)
      else
        var (vs, rest') :- ReadValues(rest, p.elemType, count);
        Ok((Many(vs), rest'))
  }

  /** Reads the properties of a record from position `pi` on. */
  function ReadRecord(props: seq<Property>, pi: nat, src: Source): (r: Result<(seq<Field>, Source), PlyError>)
    requires pi <= |props| && IntegralCounts(props)
    ensures r.Ok? ==> |r.value.0| == |props| - pi
    decreases |props| - pi
  {
    if pi == |props| then Ok(([], src))
    else
      var (f, rest) :- ReadField(props[pi], src);
      var (fs, rest') :- ReadRecord(props, pi + 1, rest);
      Ok(([f] + fs, rest'))
  }

  /** The fields, read from position `pi` on, have the shapes of their
      properties. */
  predicate FieldsShaped(fs: seq<Field>, props: seq<Property>, pi: nat) {
    pi + |fs| <= |props| && forall j :: 0 <= j < |fs| ==> fs[j].One? == props[pi + j].Scalar?
  }

  /** `r` with `x` put in front of the sequence it reads. */
  function Cons<T>(x: T, r: Result<(seq<T>, Source), PlyError>): Result<(seq<T>, Source), PlyError> {
    if r.Ok? then Ok(([x] + r.value.0, r.value.1)) else Err(r.error)
  }

  /** `r` with `xs` put in front of the sequence it reads. */
  function Append<T>(xs: seq<T>, r: Result<(seq<T>, Source), PlyError>): Result<(seq<T>, Source), PlyError> {
    if r.Ok? then Ok((xs + r.value.0, r.value.1)) else Err(r.error)
  }

  lemma ReadRecordStep(props: seq<Property>, pi: nat, src: Source, f: Field, rest: Source)
    requires pi < |props| && IntegralCounts(props) && ReadField(props[pi], src) == Ok((f, rest))
    ensures ReadRecord(props, pi, src) == Cons(f, ReadRecord(props, pi + 1, rest))
  {
  }

  lemma ShapedCons(f: Field, r: Result<(seq<Field>, Source), PlyError>, props: seq<Property>, pi: nat)
    requires pi < |props| && f.One? == props[pi].Scalar?
    requires r.Ok? ==> FieldsShaped(r.value.0, props, pi + 1)
    ensures Cons(f, r).Ok? ==> FieldsShaped(Cons(f, r).value.0, props, pi)
  {
    if r.Ok? {
      var fs := [f] + r.value.0;
      assert fs[0] == f;
      assert forall j :: 1 <= j < |fs| ==> fs[j] == r.value.0[j - 1];
    }
  }

  /** Each field of a record read has the shape of its property. */
  lemma {:induction false} ReadRecordShape(props: seq<Property>, pi: nat, src: Source)
    requires pi <= |props| && IntegralCounts(props)
    ensures ReadRecord(props, pi, src).Ok? ==> FieldsShaped(ReadRecord(props, pi, src).value.0, props, pi)
    decreases |props| - pi
  {
    if pi < |props| && ReadField(props[pi], src).Ok? {
      var (f, rest) := ReadField(props[pi], src).value;
      ReadRecordShape(props, pi + 1, rest);
      ReadRecordStep(props, pi, src, f, rest);
      ShapedCons(f, ReadRecord(props, pi + 1, rest), props, pi);
    }
  }

  /** Skips one property the reader does not bind. */
  function SkipProperty(p: Property, src: Source): (r: Result<Source, PlyError>)
    requires p.List? ==> IsIntegral(p.countType)
  {
    if p.List? then SkipList(src, p.countType, p.elemType) else SkipScalar(src, p.ty)
  }

  /** Skips the properties of a record from position `pi` on. */
  function SkipRecord(props: seq<Property>, pi: nat, src: Source): (r: Result<Source, PlyError>)
    requires pi <= |props| && IntegralCounts(props)
    decreases |props| - pi
  {
    if pi == |props| then Ok(src)
    else
      var rest :- SkipProperty(props[pi], src);
      SkipRecord(props, pi + 1, rest)
  }

  /** Skips `count` records of an element the reader does not bind. */
  function SkipRecords(props: seq<Property>, count: nat, src: Source): (r: Result<Source, PlyError>)
    requires IntegralCounts(props)
    decreases count
  {
    if count == 0 then Ok(src)
    else
      var rest :- SkipRecord(props, 0, src);
      SkipRecords(props, count - 1, rest)
  }

  /** `count` results of `step`, taken one after another. */
  function Collect<T>(step: Source -> Result<(T, Source), PlyError>, count: nat, src: Source): (r: Result<(seq<T>, Source), PlyError>)
    ensures r.Ok? ==> |r.value.0| == count
    decreases count
  {
    if count == 0 then Ok(([], src))
    else
      var (x, rest) :- step(src);
      var (xs, rest') :- Collect(step, count - 1, rest);
      Ok(([x] + xs, rest'))
  }

  /** Every result `step` gives satisfies `ok`, so every result collected
      does. */
  lemma {:induction false} CollectEach<T>(step: Source -> Result<(T, Source), PlyError>, ok: T -> bool, count: nat, src: Source)
    requires forall s: Source :: step(s).Ok? ==> ok(step(s).value.0)
    ensures Collect(step, count, src).Ok? ==>
              forall k :: 0 <= k < count ==> ok(Collect(step, count, src).value.0[k])
    decreases count
  {
    if count > 0 && step(src).Ok? {
      var (x, rest) := step(src).value;
      CollectEach(step, ok, count - 1, rest);
      var more := Collect(step, count - 1, rest);
      if more.Ok? {
        var all := [x] + more.value.0;
        assert forall k :: 1 <= k < count ==> all[k] == more.value.0[k - 1];
      }
    }
  }

  lemma CollectStep<T>(step: Source -> Result<(T, Source), PlyError>, count: nat, src: Source, x: T, rest: Source)
    requires count > 0 && step(src) == Ok((x, rest))
    ensures Collect(step, count, src) == Cons(x, Collect(step, count - 1, rest))
  {
  }

  lemma CollectStop<T>(step: Source -> Result<(T, Source), PlyError>, count: nat, src: Source)
    requires count > 0 && step(src).Err?
    ensures Collect(step, count, src) == Err(step(src).error)
  {
  }

  /** Every failure of `step` satisfies `bad`, so every failure collected
      does. */
  lemma {:induction false} CollectFails<T>(step: Source -> Result<(T, Source), PlyError>, bad: PlyError -> bool, count: nat, src: Source)
    requires forall s: Source :: step(s).Err? ==> bad(step(s).error)
    ensures Collect(step, count, src).Err? ==> bad(Collect(step, count, src).error)
    decreases count
  {
    if count > 0 && step(src).Ok? {
      CollectFails(step, bad, count - 1, step(src).value.1);
    }
  }

  /** Every step consumes `size` of a source of one kind, so `count` steps
      consume `count` times that. */
  lemma {:induction false} CollectConsumes<T>(step: Source -> Result<(T, Source), PlyError>, size: nat, tokens: bool, count: nat, src: Source)
    requires src.Tokens? == tokens
    requires forall s: Source :: s.Tokens? == tokens && step(s).Ok? ==>
               step(s).value.1.Tokens? == tokens && Remaining(step(s).value.1) == Remaining(s) - size
    ensures Collect(step, count, src).Ok? ==>
              Collect(step, count, src).value.1.Tokens? == tokens
              && Remaining(Collect(step, count, src).value.1) == Remaining(src) - count * size
    decreases count
  {
    if count > 0 && step(src).Ok? {
      var (x, rest) := step(src).value;
      CollectConsumes(step, size, tokens, count - 1, rest);
      assert count * size == (count - 1) * size + size;
    }
  }

  /** Reads `count` records in full. */
  function ReadRecords(props: seq<Property>, count: nat, src: Source): (r: Result<(seq<seq<Field>>, Source), PlyError>)
    requires IntegralCounts(props)
    ensures r.Ok? ==> |r.value.0| == count
  {
    Collect(RecordStep(props), count, src)
  }

  /** One record, read in full. */
  function RecordStep(props: seq<Property>): Source -> Result<(seq<Field>, Source), PlyError>
    requires IntegralCounts(props)
  {
    (s: Source) => ReadRecord(props, 0, s)
  }

  /** `r` skips to where `full` reads to, or fails as `full` does. */
  predicate SkipsLike<T>(r: Result<Source, PlyError>, full: Result<(T, Source), PlyError>) {
    if full.Ok? then r == Ok(full.value.1) else r == Err(full.error)
  }

  lemma {:induction false} SkipValuesReads(src: Source, t: PlyType, n: nat)
    ensures SkipsLike(SkipValues(src, t, n), ReadValues(src, t, n))
    decreases n
  {
    if n > 0 && ReadValue(src, t).Ok? {
      SkipValuesReads(ReadValue(src, t).value.1, t, n - 1);
    }
  }

  /** Skipping a property consumes exactly its value. */
  lemma SkipPropertyReads(p: Property, src: Source)
    requires p.List? ==> IsIntegral(p.countType)
    ensures SkipsLike(SkipProperty(p, src), ReadField(p, src))
  {
    if p.List? && ReadValue(src, p.countType).Ok? {
      var (c, rest) := ReadValue(src, p.countType).value;
      if IntValue(c) >= 0 {
        SkipValuesReads(rest, p.elemType, IntValue(c));
      }
    }
  }

  /** Skipping a record consumes exactly the record. */
  lemma {:induction false} SkipRecordReads(props: seq<Property>, pi: nat, src: Source)
    requires pi <= |props| && IntegralCounts(props)
    ensures SkipsLike(SkipRecord(props, pi, src), ReadRecord(props, pi, src))
    decreases |props| - pi
  {
    if pi < |props| {
      SkipPropertyReads(props[pi], src);
      if ReadField(props[pi], src).Ok? {
        SkipRecordReads(props, pi + 1, ReadField(props[pi], src).value.1);
      }
    }
  }

  /** Skipping records consumes exactly the records. */
  lemma {:induction false} SkipRecordsReads(props: seq<Property>, count: nat, src: Source)
    requires IntegralCounts(props)
    ensures SkipsLike(SkipRecords(props, count, src), ReadRecords(props, count, src))
    decreases count
  {
    if count > 0 {
      var first := ReadRecord(props, 0, src);
      SkipRecordReads(props, 0, src);
      if first.Ok? {
        var rest := first.value.1;
        SkipRecordsReads(props, count - 1, rest);
        assert SkipRecords(props, count, src) == SkipRecords(props, count - 1, rest);
      }
    }
  }

  /** A scalar skip consumes one value, a list skip its count and that
      many values. */
  lemma SkipPropertyConsumes(p: Property, src: Source)
    requires p.List? ==> IsIntegral(p.countType)
    ensures SkipProperty(p, src).Ok? && p.Scalar? ==>
              Remaining(SkipProperty(p, src).value) == Remaining(src) - ValueSize(src, p.ty)
    ensures SkipProperty(p, src).Ok? && p.List? ==>
              var count := IntValue(ReadValue(src, p.countType).value.0);
              0 <= count
              && Remaining(SkipProperty(p, src).value)
                 == Remaining(src) - ValueSize(src, p.countType) - count * ValueSize(src, p.elemType)
  {
    if p.List? {
      SkipListConsumes(src, p.countType, p.elemType);
    }
  }
}
