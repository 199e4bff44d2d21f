/** The body of a PLY file as the reader's `Input` interface sees it: a
    source of values read one at a time, each of a type the schema names.
    An ASCII body is a sequence of whitespace-separated tokens; a binary
    body is a sequence of bytes in the file's byte order. */
module BodyInput {
  import opened Wrappers
  import opened PlyErrors
  import opened PlyTypes
  import opened Bytes
  import Text

  datatype Source = Tokens(ts: seq<string>) | Stream(bs: seq<byte>, order: ByteOrder)

  /** What is left to read: tokens for an ASCII body, bytes for a binary one. */
  function Remaining(src: Source): nat {
    match src
    case Tokens(ts) => |ts|
    case Stream(bs, _) => |bs|
  }

  /** How much of the source one value of type `t` occupies. */
  function ValueSize(src: Source, t: PlyType): nat {
    if src.Tokens? then 1 else Width(t)
  }

  /** `Input.read(type)`: the next value, decoded as the type, and the source
      after it. */
  function ReadValue(src: Source, t: PlyType): (r: Result<(Number, Source), PlyError>)
    ensures r.Ok? ==> Fits(t, r.value.0)
    ensures r.Ok? ==> r.value.1.Tokens? == src.Tokens?
                      && Remaining(r.value.1) == Remaining(src) - ValueSize(src, t)
    ensures r.Err? ==> r.error in {UnexpectedEof, BadValue}
    ensures Remaining(src) < ValueSize(src, t) ==> r == Err(UnexpectedEof)
    ensures src.Stream? ==> r.Ok? == (Width(t) <= Remaining(src))
  {
    match src
    case Tokens(ts) =>
      if |ts| == 0 then Err(UnexpectedEof)
      else
        var v :- DecodeToken(t, ts[0]);
        Ok((v, Tokens(ts[1..])))
    case Stream(bs, order) =>
      if |bs| < Width(t) then Err(UnexpectedEof)
      else Ok((DecodeBinary(t, bs[..Width(t)], order), Stream(bs[Width(t)..], order)))
  }

  /** `Input.needEnd()`: nothing may follow the last declared element. */
  function NeedEnd(src: Source): (r: Result<(), PlyError>)
    ensures r.Ok? <==> Remaining(src) == 0
    ensures r.Err? ==> r.error == TrailingData
  {
    if Remaining(src) == 0 then Ok(()) else Err(TrailingData)
  }

  /** The source with one integral value of type `t` written in front of it,
      in the source's own encoding. */
  function Put(t: PlyType, n: int, src: Source): Source
    requires IsIntegral(t) && MinValue(t) <= n <= MaxValue(t)
  {
    match src
    case Tokens(ts) => Tokens([Text.ShowInt(n)] + ts)
    case Stream(bs, order) => Stream(EncodeBinary(t, n, order) + bs, order)
  }

  /** Reading a written value gives it back and leaves exactly the source it
      was written in front of. */
  lemma ReadPut(t: PlyType, n: int, src: Source)
    requires IsIntegral(t) && MinValue(t) <= n <= MaxValue(t)
    ensures ReadValue(Put(t, n, src), t) == Ok((IntNum(n), src))
  {
    match src
    case Tokens(ts) =>
      DecodeTokenShowInt(t, n);
      assert ([Text.ShowInt(n)] + ts)[1..] == ts;
    case Stream(bs, order) =>
      var enc := EncodeBinary(t, n, order);
      assert (enc + bs)[..Width(t)] == enc;
      assert (enc + bs)[Width(t)..] == bs;
      DecodeEncodeBinary(t, n, order);
  }

  /** `Number.intValue()` of a value of an integral type. */
  function IntValue(v: Number): (n: int)
    requires v.IntNum?
    ensures Text.JavaIntMin <= n <= Text.JavaIntMax
  {
    JavaInt(v.n)
  }

  /** Reads `count` values of type `t` and discards them. */
  function SkipValues(src: Source, t: PlyType, count: nat): (r: Result<Source, PlyError>)
    ensures r.Ok? ==> r.value.Tokens? == src.Tokens?
                      && Remaining(r.value) == Remaining(src) - count * ValueSize(src, t)
    ensures r.Err? ==> r.error in {UnexpectedEof, BadValue}
    decreases count
  {
    if count == 0 then Ok(src)
    else
      var (_, rest) :- ReadValue(src, t);
      var size := ValueSize(src, t);
      assert ValueSize(rest, t) == size;
      assert count * size == (count - 1) * size + size;
      SkipValues(rest, t, count - 1)
  }

  /** Skips one scalar property value. */
  function SkipScalar(src: Source, t: PlyType): (r: Result<Source, PlyError>)
    ensures r.Ok? ==> r.value.Tokens? == src.Tokens?
                      && Remaining(r.value) == Remaining(src) - ValueSize(src, t)
  {
    var (_, rest) :- ReadValue(src, t);
    Ok(rest)
  }

  /** Skips one list property value: its count, which must not be negative,
      then that many elements. */
  function SkipList(src: Source, countType: PlyType, elemType: PlyType): (r: Result<Source, PlyError>)
    requires IsIntegral(countType)
    ensures r.Err? ==> r.error in {UnexpectedEof, BadValue, NegativeListCount}
  {
    var (c, rest) :- ReadValue(src, countType);
    var count := IntValue(c);
    if count < 0 then Err(NegativeListCount)
    else SkipValues(rest, elemType, count)
  }

  /** A skipped list consumes its count and exactly that many elements. */
  lemma SkipListConsumes(src: Source, countType: PlyType, elemType: PlyType)
    requires IsIntegral(countType)
    ensures SkipList(src, countType, elemType).Ok? ==>
              var count := IntValue(ReadValue(src, countType).value.0);
              0 <= count
              && SkipList(src, countType, elemType).value.Tokens? == src.Tokens?
              && Remaining(SkipList(src, countType, elemType).value)
                 == Remaining(src) - ValueSize(src, countType) - count * ValueSize(src, elemType)
  {
    if SkipList(src, countType, elemType).Ok? {
      var rest := ReadValue(src, countType).value.1;
      assert ValueSize(rest, elemType) == ValueSize(src, elemType);
    }
  }

  /** A list written with a non-negative count is skipped up to exactly the
      source after it. */
  lemma {:induction false} SkipValuesPut(t: PlyType, vs: seq<int>, src: Source)
    requires IsIntegral(t) && AllFit(t, vs)
    ensures SkipValues(PutAll(t, vs, src), t, |vs|) == Ok(src)
    decreases |vs|
  {
    if |vs| > 0 {
      ReadPut(t, vs[0], PutAll(t, vs[1..], src));
      SkipValuesPut(t, vs[1..], src);
    }
  }

  /** Every one of the values lies in the range of type `t`. */
  predicate AllFit(t: PlyType, vs: seq<int>)
    requires IsIntegral(t)
    decreases |vs|
  {
    |vs| == 0 || (MinValue(t) <= vs[0] <= MaxValue(t) && AllFit(t, vs[1..]))
  }

  /** The source with the values `vs` written in front of it, in order. */
  function PutAll(t: PlyType, vs: seq<int>, src: Source): Source
    requires IsIntegral(t) && AllFit(t, vs)
    decreases |vs|
  {
    if |vs| == 0 then src else Put(t, vs[0], PutAll(t, vs[1..], src))
  }

  /** Reading `|vs|` values of type `t` from `s`, one after another, gives
      the integers `vs` and leaves `end`. */
  predicate Yields(s: Source, t: PlyType, vs: seq<int>, end: Source)
    decreases |vs|
  {
    if |vs| == 0 then s == end
    else
      ReadValue(s, t).Ok? && ReadValue(s, t).value.0 == IntNum(vs[0])
      && Yields(ReadValue(s, t).value.1, t, vs[1..], end)
  }

  /** Written values read back one by one as written. */
  lemma {:induction false} PutAllYields(t: PlyType, vs: seq<int>, src: Source)
    requires IsIntegral(t) && AllFit(t, vs)
    ensures Yields(PutAll(t, vs, src), t, vs, src)
    decreases |vs|
  {
    if |vs| > 0 {
      ReadPut(t, vs[0], PutAll(t, vs[1..], src));
      PutAllYields(t, vs[1..], src);
    }
  }

  /** Skipping a written list consumes exactly the list. */
  lemma SkipListPut(countType: PlyType, elemType: PlyType, vs: seq<int>, src: Source)
    requires IsIntegral(countType) && |vs| <= MaxValue(countType) && |vs| <= Text.JavaIntMax
    requires IsIntegral(elemType) && AllFit(elemType, vs)
    ensures SkipList(Put(countType, |vs|, PutAll(elemType, vs, src)), countType, elemType) == Ok(src)
  {
    ReadPut(countType, |vs|, PutAll(elemType, vs, src));
    SkipValuesPut(elemType, vs, src);
  }
}
