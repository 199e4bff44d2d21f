/** `AsciiInput`: the body of an ASCII file. The file is read afresh, every
    line up to and including the first one that is exactly `end_header` is
    skipped, and the rest is read as whitespace-separated tokens. */
module AsciiInput {
  import opened Wrappers
  import opened PlyErrors
  import opened Text
  import opened BodyInput

  /** The text after the first line that is exactly `end_header`; running
      out of lines first fails. */
  function SkipHeader(text: string): (r: Result<string, PlyError>)
    ensures r.Err? ==> r.error == HeaderNotFound
    ensures r.Ok? ==> |r.value| < |text|
    decreases |text|
  {
    if |text| == 0 then Err(HeaderNotFound)
    else if text[..LineLength(text)] == "end_header" then Ok(AfterLine(text))
    else SkipHeader(AfterLine(text))
  }

  /** Line `k` is the first line that is exactly `end_header`. */
  ghost predicate FirstEndAt(ls: seq<string>, k: int) {
    0 <= k < |ls| && ls[k] == "end_header" && forall j :: 0 <= j < k ==> ls[j] != "end_header"
  }

  /** The skip stops at the first `end_header` line, and what follows holds
      exactly the lines after it; it fails exactly when there is no such
      line. */
  lemma {:induction false} SkipHeaderSpec(text: string)
    ensures SkipHeader(text).Ok? <==> "end_header" in Lines(text)
    ensures SkipHeader(text).Ok? ==>
              exists k :: FirstEndAt(Lines(text), k) && Lines(SkipHeader(text).value) == Lines(text)[k + 1..]
    decreases |text|
  {
    if |text| > 0 {
      var first := text[..LineLength(text)];
      var rest := AfterLine(text);
      LinesSplit(text);
      var ls := Lines(rest);
      if first == "end_header" {
        assert FirstEndAt([first] + ls, 0);
      } else {
        SkipHeaderSpec(rest);
        EndInCons(first, ls);
        if SkipHeader(rest).Ok? {
          var k :| FirstEndAt(ls, k) && Lines(SkipHeader(rest).value) == ls[k + 1..];
          FirstEndInCons(first, ls, k);
        }
      }
    }
  }

  lemma EndInCons(first: string, ls: seq<string>)
    requires first != "end_header"
    ensures "end_header" in [first] + ls <==> "end_header" in ls
  {
    assert forall x :: x in [first] + ls <==> x == first || x in ls;
  }

  lemma FirstEndInCons(first: string, ls: seq<string>, k: int)
    requires first != "end_header" && FirstEndAt(ls, k)
    ensures FirstEndAt([first] + ls, k + 1) && ([first] + ls)[k + 2..] == ls[k + 1..]
  {
  }

  /** The body source of an ASCII file: the tokens after the header. */
  function Open(text: string): (r: Result<Source, PlyError>)
    ensures r.Ok? ==> r.value.Tokens? && forall i :: 0 <= i < |r.value.ts| ==> IsWord(r.value.ts[i])
    ensures r.Err? ==> r.error == HeaderNotFound
  {
    var body :- SkipHeader(text);
    Ok(Tokens(Words(body)))
  }

  /** A header ending in an `end_header` line, with no earlier such line,
      followed by the values written one per line, opens to exactly those
      values. */
  lemma OpenWritten(header: seq<string>, values: seq<string>)
    requires |header| > 0 && header[|header| - 1] == "end_header" && "end_header" !in header[..|header| - 1]
    requires forall i, j :: 0 <= i < |header| && 0 <= j < |header[i]| ==> !IsLineBreak(header[i][j])
    requires forall i :: 0 <= i < |values| ==> IsWord(values[i])
    ensures Open(UnlinesLf(header) + Unwords(values)) == Ok(Tokens(values))
  {
    SkipWritten(header, Unwords(values));
    WordsUnwords(values);
  }

  lemma {:induction false} SkipWritten(header: seq<string>, body: string)
    requires |header| > 0 && header[|header| - 1] == "end_header" && "end_header" !in header[..|header| - 1]
    requires forall i, j :: 0 <= i < |header| && 0 <= j < |header[i]| ==> !IsLineBreak(header[i][j])
    ensures SkipHeader(UnlinesLf(header) + body) == Ok(body)
    decreases |header|
  {
    var text := UnlinesLf(header) + body;
    var rest := UnlinesLf(header[1..]) + body;
    assert text == header[0] + "\n" + rest;
    LineLengthOfLine(header[0], "\n" + rest);
    assert text == header[0] + ("\n" + rest);
    assert text[..|header[0]|] == header[0];
    assert AfterLine(text) == rest;
    if |header| > 1 {
      assert header[0] in header[..|header| - 1];
      assert header[1..][..|header| - 2] == header[1..|header| - 1];
      SkipWritten(header[1..], body);
    } else {
      assert UnlinesLf(header[1..]) == "";
      assert rest == body;
    }
  }
}
