/** The PLY header: the schema of elements and properties, and the
    line-by-line keyword parser that builds it (the first half of the
    `PlyReader` constructor). */
module PlyHeader {
  import opened Wrappers
  import opened PlyErrors
  import opened PlyTypes
  import Text

  /** A property is either one value of a type or a counted list of values. */
  datatype Property =
    | Scalar(name: string, ty: PlyType)
    | List(name: string, countType: PlyType, elemType: PlyType)

  /** A named group of `count` records, each holding `props` in order. */
  datatype Element = Element(name: string, count: nat, props: seq<Property>)

  datatype Format = Ascii | BinaryLittleEndian | BinaryBigEndian

  datatype Header = Header(format: Format, elements: seq<Element>)

  /** State of the keyword loop: the last `format` line's two words, and the
      elements declared so far (the current element is the last one). */
  datatype Scan = Scan(format: Option<(string, string)>, elements: seq<Element>)

  datatype Step = Next(scan: Scan) | End

  const Keywords: set<string> := {"format", "comment", "element", "property", "obj_info", "end_header"}

  /** Appends a property to the current (last) element. */
  function AddProperty(sc: Scan, p: Property): (r: Scan)
    requires |sc.elements| > 0
    ensures r.format == sc.format
    ensures |r.elements| == |sc.elements|
    ensures r.elements[..|r.elements| - 1] == sc.elements[..|sc.elements| - 1]
    ensures Last(r.elements) == Last(sc.elements).(props := Last(sc.elements).props + [p])
  {
    var n := |sc.elements|;
    sc.(elements := sc.elements[..n - 1] + [sc.elements[n - 1].(props := sc.elements[n - 1].props + [p])])
  }

  function Last<T>(s: seq<T>): T
    requires |s| > 0
  {
    s[|s| - 1]
  }

  /** Every list's count type is integral and the count fits a Java int:
      what the parser guarantees of each element it accepts. */
  ghost predicate ElementTyped(e: Element) {
    e.count <= Text.JavaIntMax
    && forall j :: 0 <= j < |e.props| ==> (e.props[j].List? ==> IsIntegral(e.props[j].countType))
  }

  ghost predicate WellTyped(es: seq<Element>) {
    forall i :: 0 <= i < |es| ==> ElementTyped(es[i])
  }

  /** One header line after the first, given as its words. */
  function ParseLine(words: seq<string>, sc: Scan): (r: Result<Step, PlyError>)
    ensures |words| == 0 ==> r == Err(MissingToken)
    ensures |words| > 0 && words[0] !in Keywords ==> r == Err(UnrecognizedKeyword)
    ensures |words| > 0 && words[0] == "end_header" <==> r == Ok(End)
    // a later format line replaces an earlier one
    ensures |words| == 3 && words[0] == "format" ==> r == Ok(Next(sc.(format := Some((words[1], words[2])))))
    ensures |words| > 0 && words[0] in {"comment", "obj_info"} ==> r == Ok(Next(sc))
    ensures |words| > 0 && words[0] == "property" && |sc.elements| == 0 ==> r == Err(PropertyWithoutElement)
    ensures (|words| == 3 && words[0] == "element" && Text.ParseJavaInt(words[2]).Some?
             && Text.ParseJavaInt(words[2]).value < 0) ==> r == Err(NegativeElementCount)
    ensures (|words| >= 3 && words[0] == "property" && |sc.elements| > 0 && words[1] == "list"
             && words[2] in TypeNames && !IsIntegral(ParseType(words[2]).value)) ==> r == Err(NonIntegralListCount)
    // a scalar property line ignores any words after the name
    ensures (|words| >= 3 && words[0] == "property" && |sc.elements| > 0 && words[1] != "list"
             && words[1] in TypeNames) ==> r == Ok(Next(AddProperty(sc, Scalar(words[2], ParseType(words[1]).value))))
    ensures r.Ok? && r.value.Next? && WellTyped(sc.elements) ==> WellTyped(r.value.scan.elements)
  {
    if |words| == 0 then Err(MissingToken)
    else
      var keyword := words[0];
      if keyword == "format" then
        if |words| < 3 then Err(MissingToken)
        else if |words| > 3 then Err(TrailingTokens)
        else Ok(Next(sc.(format := Some((words[1], words[2])))))
      else if keyword == "comment" then Ok(Next(sc))
      else if keyword == "element" then
        if |words| < 3 then Err(MissingToken)
        else
          match Text.ParseJavaInt(words[2])
          case None => Err(NotAnInteger)
          case Some(count) =>
            if count < 0 then Err(NegativeElementCount)
            else if |words| > 3 then Err(TrailingTokens)
            else Ok(Next(sc.(elements := sc.elements + [Element(words[1], count, [])])))
      else if keyword == "property" then
        if |sc.elements| == 0 then Err(PropertyWithoutElement)
        else if |words| < 2 then Err(MissingToken)
        else if words[1] == "list" then
          if |words| < 3 then Err(MissingToken)
          else
            var countType :- ParseType(words[2]);
            if !IsIntegral(countType) then Err(NonIntegralListCount)
            else if |words| < 4 then Err(MissingToken)
            else
              var elemType :- ParseType(words[3]);
              if |words| < 5 then Err(MissingToken)
              else if |words| > 5 then Err(TrailingTokens)
              else Ok(Next(AddProperty(sc, List(words[4], countType, elemType))))
        else
          if |words| < 3 then Err(MissingToken)
          else
            var ty :- ParseType(words[1]);
            Ok(Next(AddProperty(sc, Scalar(words[2], ty))))
      else if keyword == "obj_info" then Ok(Next(sc))
      else if keyword == "end_header" then Ok(End)
      else Err(UnrecognizedKeyword)
  }

  /** The words of every line. */
  function LineWords(lines: seq<string>): (ws: seq<seq<string>>)
    ensures |ws| == |lines|
    ensures forall k :: 0 <= k < |lines| ==> ws[k] == Text.Words(lines[k])
  {
    seq(|lines|, k requires 0 <= k < |lines| => Text.Words(lines[k]))
  }

  /** How one header line changes the loop state. The reader's step is
      `ParseLine`; the loop is stated over any step so that facts about the
      loop itself do not depend on how a line is parsed. */
  type LineStep = (seq<string>, Scan) -> Result<Step, PlyError>

  /** The keyword loop over the lines after `ply`, each given as its words,
      up to and including `end_header`; running out of lines first fails. */
  function KeywordLoop(step: LineStep, ls: seq<seq<string>>, sc: Scan): (r: Result<Scan, PlyError>)
    ensures |ls| == 0 ==> r == Err(HeaderEof)
    decreases |ls|
  {
    if |ls| == 0 then Err(HeaderEof)
    else
      var s :- step(ls[0], sc);
      match s
      case End => Ok(sc)
      case Next(sc') => KeywordLoop(step, ls[1..], sc')
  }

  /** The state after lines that all continue the header, if they do. */
  function Run(step: LineStep, ls: seq<seq<string>>, sc: Scan): Option<Scan>
    decreases |ls|
  {
    if |ls| == 0 then Some(sc)
    else
      match step(ls[0], sc)
      case Ok(Next(sc')) => Run(step, ls[1..], sc')
      case _ => None
  }

  /** Lines that only continue the header can be run first and the loop
      resumed after them. */
  lemma {:induction false} LoopAfterRun(step: LineStep, pre: seq<seq<string>>, rest: seq<seq<string>>, sc: Scan)
    requires Run(step, pre, sc).Some?
    ensures KeywordLoop(step, pre + rest, sc) == KeywordLoop(step, rest, Run(step, pre, sc).value)
    decreases |pre|
  {
    if |pre| > 0 {
      var sc' := step(pre[0], sc).value.scan;
      assert (pre + rest)[0] == pre[0];
      assert (pre + rest)[1..] == pre[1..] + rest;
      LoopAfterRun(step, pre[1..], rest, sc');
    } else {
      assert pre + rest == rest;
    }
  }

  lemma {:induction false} RunConcat(step: LineStep, a: seq<seq<string>>, b: seq<seq<string>>, sc: Scan)
    requires Run(step, a, sc).Some?
    ensures Run(step, a + b, sc) == Run(step, b, Run(step, a, sc).value)
    decreases |a|
  {
    if |a| > 0 {
      var sc' := step(a[0], sc).value.scan;
      assert (a + b)[0] == a[0];
      assert (a + b)[1..] == a[1..] + b;
      RunConcat(step, a[1..], b, sc');
    } else {
      assert a + b == b;
    }
  }

  /** The loop keeps an invariant of the state that every step keeps. */
  lemma {:induction false} LoopKeeps(step: LineStep, inv: Scan -> bool, ls: seq<seq<string>>, sc: Scan)
    requires forall w, s :: inv(s) && step(w, s).Ok? && step(w, s).value.Next? ==> inv(step(w, s).value.scan)
    requires inv(sc)
    ensures KeywordLoop(step, ls, sc).Ok? ==> inv(KeywordLoop(step, ls, sc).value)
    decreases |ls|
  {
    if |ls| > 0 && step(ls[0], sc).Ok? && step(ls[0], sc).value.Next? {
      LoopKeeps(step, inv, ls[1..], step(ls[0], sc).value.scan);
    }
  }

  const FormatNames: set<string> := {"ascii", "binary_little_endian", "binary_big_endian"}

  function FormatName(f: Format): (name: string)
    ensures name in FormatNames
  {
    match f
    case Ascii => "ascii"
    case BinaryLittleEndian => "binary_little_endian"
    case BinaryBigEndian => "binary_big_endian"
  }

  /** The checks after the loop: a format line must exist, its version must
      be `1.0` and its name one of the three formats. */
  function FinishHeader(sc: Scan): (r: Result<Header, PlyError>)
    ensures sc.format.None? ==> r == Err(MissingFormat)
    ensures sc.format.Some? && sc.format.value.1 != "1.0" ==> r == Err(UnknownVersion)
    ensures r.Ok? <==> sc.format.Some? && sc.format.value.1 == "1.0" && sc.format.value.0 in FormatNames
    ensures r.Ok? ==> FormatName(r.value.format) == sc.format.value.0 && r.value.elements == sc.elements
  {
    match sc.format
    case None => Err(MissingFormat)
    case Some((name, version)) =>
      if version != "1.0" then Err(UnknownVersion)
      else if name == "ascii" then Ok(Header(Ascii, sc.elements))
      else if name == "binary_big_endian" then Ok(Header(BinaryBigEndian, sc.elements))
      else if name == "binary_little_endian" then Ok(Header(BinaryLittleEndian, sc.elements))
      else Err(InvalidFormatName)
  }

  /** The header of a file given as its lines. */
  function ParseHeader(lines: seq<string>): (r: Result<Header, PlyError>)
    ensures |lines| == 0 ==> r == Err(HeaderEof)
    ensures |lines| > 0 && lines[0] != "ply" ==> r == Err(NotPly)
  {
    if |lines| == 0 then Err(HeaderEof)
    else if lines[0] != "ply" then Err(NotPly)
    else
      var sc :- KeywordLoop(ParseLine, LineWords(lines)[1..], Scan(None, []));
      FinishHeader(sc)
  }

  /** Every accepted header has integral list counts and element counts
      that fit a Java int. */
  lemma ParseHeaderWellTyped(lines: seq<string>)
    ensures ParseHeader(lines).Ok? ==> WellTyped(ParseHeader(lines).value.elements)
  {
    if |lines| > 0 && lines[0] == "ply" {
      var inv := (s: Scan) => WellTyped(s.elements);
      forall w, s | inv(s) && ParseLine(w, s).Ok? && ParseLine(w, s).value.Next?
        ensures inv(ParseLine(w, s).value.scan)
      {
      }
      LoopKeeps(ParseLine, inv, LineWords(lines)[1..], Scan(None, []));
    }
  }

  // ---------------------------------------------------------------------
  // Printing a header, the inverse of parsing it

  /** A schema that can be written as a header: every name is one word and
      every count fits a Java int. */
  ghost predicate Printable(h: Header) {
    WellTyped(h.elements)
    && forall i :: 0 <= i < |h.elements| ==> NamesAreWords(h.elements[i])
  }

  ghost predicate NamesAreWords(e: Element) {
    Text.IsWord(e.name) && forall j :: 0 <= j < |e.props| ==> Text.IsWord(e.props[j].name)
  }

  function PropertyWords(p: Property): seq<string>
  {
    match p
    case Scalar(name, ty) => ["property", TypeName(ty), name]
    case List(name, ct, et) => ["property", "list", TypeName(ct), TypeName(et), name]
  }

  function ElementWords(e: Element): seq<string>
  {
    ["element", e.name, Text.ShowInt(e.count)]
  }

  function PropertyWordLines(ps: seq<Property>): (ls: seq<seq<string>>)
    ensures |ls| == |ps|
    ensures forall k :: 0 <= k < |ps| ==> ls[k] == PropertyWords(ps[k])
  {
    seq(|ps|, k requires 0 <= k < |ps| => PropertyWords(ps[k]))
  }

  function ElementWordLines(es: seq<Element>): seq<seq<string>>
    decreases |es|
  {
    if |es| == 0 then []
    else [ElementWords(es[0])] + PropertyWordLines(es[0].props) + ElementWordLines(es[1..])
  }

  /** The words of each line of the header text of a schema. */
  function HeaderWordLines(h: Header): seq<seq<string>>
  {
    [["ply"], ["format", FormatName(h.format), "1.0"]] + ElementWordLines(h.elements) + [["end_header"]]
  }

  /** The header text of a schema, one string per line, words separated by
      single spaces. */
  function PrintHeader(h: Header): (ls: seq<string>)
    ensures |ls| == |HeaderWordLines(h)|
  {
    var ws := HeaderWordLines(h);
    seq(|ws|, k requires 0 <= k < |ws| => Text.Unwords(ws[k]))
  }

  ghost predicate WordLine(l: seq<string>) {
    forall j :: 0 <= j < |l| ==> Text.IsWord(l[j])
  }

  ghost predicate AllWords(ls: seq<seq<string>>) {
    forall k :: 0 <= k < |ls| ==> WordLine(ls[k])
  }

  lemma AllWordsConcat(a: seq<seq<string>>, b: seq<seq<string>>)
    requires AllWords(a) && AllWords(b)
    ensures AllWords(a + b)
  {
    forall k | 0 <= k < |a + b|
      ensures WordLine((a + b)[k])
    {
      if k >= |a| {
        assert (a + b)[k] == b[k - |a|];
      }
    }
  }

  lemma TypeNameIsWord(t: PlyType)
    ensures Text.IsWord(TypeName(t))
  {
    var w := TypeName(t);
    assert forall i :: 0 <= i < |w| ==> 'a' <= w[i] <= 'z';
  }

  lemma PropertyWordsAreWords(p: Property)
    requires Text.IsWord(p.name)
    ensures WordLine(PropertyWords(p))
  {
    assert Text.IsWord("property") && Text.IsWord("list");
    match p
    case Scalar(name, ty) =>
      TypeNameIsWord(ty);
    case List(name, ct, et) =>
      TypeNameIsWord(ct);
      TypeNameIsWord(et);
  }

  lemma PropertyWordLinesAreWords(ps: seq<Property>)
    requires forall j :: 0 <= j < |ps| ==> Text.IsWord(ps[j].name)
    ensures AllWords(PropertyWordLines(ps))
  {
    forall k | 0 <= k < |ps|
      ensures WordLine(PropertyWords(ps[k]))
    {
      PropertyWordsAreWords(ps[k]);
    }
  }

  lemma ElementLinesAreWords(e: Element)
    requires NamesAreWords(e)
    ensures AllWords([ElementWords(e)] + PropertyWordLines(e.props))
  {
    Text.ShowIntIsWord(e.count);
    assert Text.IsWord("element");
    assert AllWords([ElementWords(e)]);
    PropertyWordLinesAreWords(e.props);
    AllWordsConcat([ElementWords(e)], PropertyWordLines(e.props));
  }

  lemma {:induction false} ElementWordLinesAreWords(es: seq<Element>)
    requires forall i :: 0 <= i < |es| ==> NamesAreWords(es[i])
    ensures AllWords(ElementWordLines(es))
    decreases |es|
  {
    if |es| > 0 {
      ElementLinesAreWords(es[0]);
      assert forall i :: 0 <= i < |es[1..]| ==> es[1..][i] == es[i + 1];
      ElementWordLinesAreWords(es[1..]);
      AllWordsConcat([ElementWords(es[0])] + PropertyWordLines(es[0].props), ElementWordLines(es[1..]));
    }
  }

  lemma HeaderWordLinesAreWords(h: Header)
    requires Printable(h)
    ensures AllWords(HeaderWordLines(h))
  {
    var a: seq<seq<string>> := [["ply"], ["format", FormatName(h.format), "1.0"]];
    ElementWordLinesAreWords(h.elements);
    assert Text.IsWord(FormatName(h.format)) by {
      var w := FormatName(h.format);
      assert forall i :: 0 <= i < |w| ==> 'a' <= w[i] <= 'z' || w[i] == '_';
    }
    assert AllWords(a);
    AllWordsConcat(a, ElementWordLines(h.elements));
    AllWordsConcat(a + ElementWordLines(h.elements), [["end_header"]]);
  }

  /** Splitting the printed header back into words gives the words it was
      printed from; the body lines after it are split independently. */
  lemma PrintedHeaderWords(h: Header, body: seq<string>)
    requires Printable(h)
    ensures forall k :: 0 <= k < |HeaderWordLines(h)| ==> LineWords(PrintHeader(h) + body)[k] == HeaderWordLines(h)[k]
  {
    var ws := HeaderWordLines(h);
    HeaderWordLinesAreWords(h);
    forall k | 0 <= k < |ws|
      ensures LineWords(PrintHeader(h) + body)[k] == ws[k]
    {
      assert (PrintHeader(h) + body)[k] == Text.Unwords(ws[k]);
      assert WordLine(ws[k]);
      Text.WordsUnwords(ws[k]);
    }
  }

  /** A printed property line adds exactly that property to the current element. */
  lemma ParsePropertyLine(p: Property, sc: Scan)
    requires |sc.elements| > 0
    requires p.List? ==> IsIntegral(p.countType)
    ensures ParseLine(PropertyWords(p), sc) == Ok(Next(AddProperty(sc, p)))
  {
    match p
    case Scalar(name, ty) =>
      ParseTypeName(ty);
    case List(name, ct, et) =>
      ParseTypeName(ct);
      ParseTypeName(et);
  }

  /** A printed element line declares that element with no properties yet. */
  lemma ParseElementLine(e: Element, sc: Scan)
    requires e.count <= Text.JavaIntMax
    ensures ParseLine(ElementWords(e), sc) == Ok(Next(sc.(elements := sc.elements + [Element(e.name, e.count, [])])))
  {
    Text.ParseShowInt(e.count);
  }

  /** `step` reads a printed property line as `ParseLine` does. */
  ghost predicate ReadsPropertyLine(step: LineStep, p: Property, sc: Scan) {
    |sc.elements| > 0 && (p.List? ==> IsIntegral(p.countType))
    ==> step(PropertyWords(p), sc) == Ok(Next(AddProperty(sc, p)))
  }

  /** `step` reads a printed element line as `ParseLine` does. */
  ghost predicate ReadsElementLine(step: LineStep, e: Element, sc: Scan) {
    e.count <= Text.JavaIntMax
    ==> step(ElementWords(e), sc) == Ok(Next(sc.(elements := sc.elements + [Element(e.name, e.count, [])])))
  }

  ghost predicate ReadsPrintedLines(step: LineStep) {
    (forall p: Property, sc: Scan :: ReadsPropertyLine(step, p, sc))
    && (forall e: Element, sc: Scan :: ReadsElementLine(step, e, sc))
  }

  lemma ParseLineReadsPrintedLines()
    ensures ReadsPrintedLines(ParseLine)
  {
    forall p: Property, sc: Scan
      ensures ReadsPropertyLine(ParseLine, p, sc)
    {
      if |sc.elements| > 0 && (p.List? ==> IsIntegral(p.countType)) {
        ParsePropertyLine(p, sc);
      }
    }
    forall e: Element, sc: Scan
      ensures ReadsElementLine(ParseLine, e, sc)
    {
      if e.count <= Text.JavaIntMax {
        ParseElementLine(e, sc);
      }
    }
  }

  /** Adds the properties one after another to the current element. */
  function AddProperties(sc: Scan, ps: seq<Property>): (r: Scan)
    requires |sc.elements| > 0
    ensures |r.elements| == |sc.elements|
    decreases |ps|
  {
    if |ps| == 0 then sc else AddProperties(AddProperty(sc, ps[0]), ps[1..])
  }

  lemma {:induction false} AddPropertiesAppends(sc: Scan, ps: seq<Property>)
    requires |sc.elements| > 0
    ensures AddProperties(sc, ps)
            == sc.(elements := sc.elements[..|sc.elements| - 1]
                               + [Last(sc.elements).(props := Last(sc.elements).props + ps)])
    decreases |ps|
  {
    var n := |sc.elements|;
    if |ps| == 0 {
      assert Last(sc.elements).props + ps == Last(sc.elements).props;
      assert sc.elements[..n - 1] + [Last(sc.elements)] == sc.elements;
    } else {
      var sc' := AddProperty(sc, ps[0]);
      AddPropertiesAppends(sc', ps[1..]);
      assert Last(sc'.elements).props + ps[1..] == Last(sc.elements).props + ps by {
        assert [ps[0]] + ps[1..] == ps;
      }
    }
  }

  lemma {:induction false} RunProperties(step: LineStep, ps: seq<Property>, sc: Scan)
    requires ReadsPrintedLines(step)
    requires |sc.elements| > 0
    requires forall k :: 0 <= k < |ps| ==> ps[k].List? ==> IsIntegral(ps[k].countType)
    ensures Run(step, PropertyWordLines(ps), sc) == Some(AddProperties(sc, ps))
    decreases |ps|
  {
    if |ps| > 0 {
      var sc' := AddProperty(sc, ps[0]);
      assert ReadsPropertyLine(step, ps[0], sc);
      assert PropertyWordLines(ps)[1..] == PropertyWordLines(ps[1..]);
      RunProperties(step, ps[1..], sc');
    }
  }

  /** One printed element: its element line, then its property lines. */
  lemma RunElement(step: LineStep, e: Element, sc: Scan)
    requires ReadsPrintedLines(step)
    requires ElementTyped(e)
    ensures Run(step, [ElementWords(e)] + PropertyWordLines(e.props), sc) == Some(sc.(elements := sc.elements + [e]))
  {
    var sc1 := sc.(elements := sc.elements + [Element(e.name, e.count, [])]);
    assert ReadsElementLine(step, e, sc);
    assert Run(step, [ElementWords(e)], sc) == Some(sc1) by {
      assert [ElementWords(e)][1..] == [];
    }
    RunProperties(step, e.props, sc1);
    RunConcat(step, [ElementWords(e)], PropertyWordLines(e.props), sc);
    AddPropertiesAppends(sc1, e.props);
    assert sc1.elements[..|sc1.elements| - 1] == sc.elements;
    assert Last(sc1.elements).(props := [] + e.props) == e;
  }

  lemma WellTypedSplit(es: seq<Element>)
    requires WellTyped(es) && |es| > 0
    ensures ElementTyped(es[0]) && WellTyped(es[1..])
  {
    assert forall k :: 0 <= k < |es[1..]| ==> es[1..][k] == es[k + 1];
  }

  lemma {:induction false} RunElements(step: LineStep, es: seq<Element>, sc: Scan)
    requires ReadsPrintedLines(step)
    requires WellTyped(es)
    ensures Run(step, ElementWordLines(es), sc) == Some(sc.(elements := sc.elements + es))
    decreases |es|
  {
    if |es| == 0 {
      assert sc.elements + es == sc.elements;
    } else {
      var e := es[0];
      var first := [ElementWords(e)] + PropertyWordLines(e.props);
      WellTypedSplit(es);
      RunElement(step, e, sc);
      var sc2 := sc.(elements := sc.elements + [e]);
      RunElements(step, es[1..], sc2);
      RunConcat(step, first, ElementWordLines(es[1..]), sc);
      ConsAppend(sc.elements, es);
    }
  }

  lemma ConsAppend<T>(a: seq<T>, s: seq<T>)
    requires |s| > 0
    ensures a + [s[0]] + s[1..] == a + s
  {
    assert [s[0]] + s[1..] == s;
  }

  /** The word lines of a printed header followed by a body, after the
      `ply` line: the header's own lines, then `end_header` and the body. */
  lemma PrintedLines(h: Header, body: seq<string>)
    requires Printable(h)
    ensures var lines := LineWords(PrintHeader(h) + body)[1..];
            var pre := [["format", FormatName(h.format), "1.0"]] + ElementWordLines(h.elements);
            (PrintHeader(h) + body)[0] == "ply"
            && |pre| < |lines| && lines == pre + lines[|pre|..] && lines[|pre|] == ["end_header"]
  {
    var ws := HeaderWordLines(h);
    var lines := LineWords(PrintHeader(h) + body)[1..];
    var pre := [["format", FormatName(h.format), "1.0"]] + ElementWordLines(h.elements);
    PrintedHeaderWords(h, body);
    assert |ws| == |pre| + 2;
    forall k | 0 <= k < |pre|
      ensures lines[k] == pre[k]
    {
      assert lines[k] == ws[k + 1];
    }
    assert lines[|pre|] == ws[|pre| + 1];
    PrefixSplit(lines, pre);
    assert (PrintHeader(h) + body)[0] == Text.Unwords(["ply"]);
  }

  lemma PrefixSplit<T>(s: seq<T>, pre: seq<T>)
    requires |pre| <= |s|
    requires forall k :: 0 <= k < |pre| ==> s[k] == pre[k]
    ensures s == pre + s[|pre|..]
  {
    assert s[..|pre|] == pre;
    assert s == s[..|pre|] + s[|pre|..];
  }

  /** Lines that continue the header followed by a line that ends it. */
  lemma LoopEndsAfterRun(step: LineStep, pre: seq<seq<string>>, rest: seq<seq<string>>, sc0: Scan, sc: Scan)
    requires Run(step, pre, sc0) == Some(sc)
    requires |rest| > 0 && step(rest[0], sc) == Ok(End)
    ensures KeywordLoop(step, pre + rest, sc0) == Ok(sc)
  {
    LoopAfterRun(step, pre, rest, sc0);
  }

  /** The lines of a printed header before `end_header` declare its format
      and its elements. */
  lemma RunHeader(h: Header)
    requires WellTyped(h.elements)
    ensures Run(ParseLine, [["format", FormatName(h.format), "1.0"]] + ElementWordLines(h.elements), Scan(None, []))
            == Some(Scan(Some((FormatName(h.format), "1.0")), h.elements))
  {
    var fmt := ["format", FormatName(h.format), "1.0"];
    var sc0 := Scan(None, []);
    var sc1 := Scan(Some((FormatName(h.format), "1.0")), []);
    assert ParseLine(fmt, sc0) == Ok(Next(sc1));
    assert Run(ParseLine, [fmt], sc0) == Some(sc1) by {
      assert [fmt][1..] == [];
    }
    ParseLineReadsPrintedLines();
    RunElements(ParseLine, h.elements, sc1);
    RunConcat(ParseLine, [fmt], ElementWordLines(h.elements), sc0);
    assert [] + h.elements == h.elements;
  }

  /** A file starting with `ply` has the header its keyword loop builds. */
  lemma ParseHeaderAfterPly(lines: seq<string>, sc: Scan)
    requires |lines| > 0 && lines[0] == "ply"
    requires KeywordLoop(ParseLine, LineWords(lines)[1..], Scan(None, [])) == Ok(sc)
    ensures ParseHeader(lines) == FinishHeader(sc)
  {
  }

  lemma FinishPrinted(h: Header)
    ensures FinishHeader(Scan(Some((FormatName(h.format), "1.0")), h.elements)) == Ok(h)
  {
  }

  /** Parsing the printed header of a schema, followed by any body, gives the
      schema back. */
  lemma ParsePrintHeader(h: Header, body: seq<string>)
    requires Printable(h)
    ensures ParseHeader(PrintHeader(h) + body) == Ok(h)
  {
    var text := PrintHeader(h) + body;
    var lines := LineWords(text)[1..];
    var pre := [["format", FormatName(h.format), "1.0"]] + ElementWordLines(h.elements);
    var sc := Scan(Some((FormatName(h.format), "1.0")), h.elements);
    PrintedLines(h, body);
    RunHeader(h);
    assert ParseLine(["end_header"], sc) == Ok(End);
    LoopEndsAfterRun(ParseLine, pre, lines[|pre|..], Scan(None, []), sc);
    ParseHeaderAfterPly(text, sc);
    FinishPrinted(h);
  }
}
