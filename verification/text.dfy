/** Text primitives the reader relies on from `java.util.Scanner`: splitting
    text into lines (`nextLine`), splitting a line into whitespace-separated
    words (`next`/`hasNext`) and reading a decimal integer (`nextInt`). The
    text is always the US-ASCII decoding of the file, so only ASCII
    whitespace and ASCII line terminators can occur. */
module Text {
  import opened Wrappers

  /** `Character.isWhitespace` restricted to ASCII: space, tab, line feed,
      vertical tab, form feed, carriage return and the four separators
      U+001C..U+001F. */
  predicate IsWhitespace(c: char) {
    c == ' ' || c == '\t' || c == '\n' || c == '\U{B}' || c == '\U{C}' || c == '\r'
    || ('\U{1C}' <= c <= '\U{1F}')
  }

  predicate IsWord(w: string) {
    |w| > 0 && forall i :: 0 <= i < |w| ==> !IsWhitespace(w[i])
  }

  /** Length of the longest whitespace-free prefix. */
  function WordLength(s: string): (n: nat)
    ensures n <= |s|
    ensures forall i :: 0 <= i < n ==> !IsWhitespace(s[i])
    ensures n < |s| ==> IsWhitespace(s[n])
  {
    if |s| == 0 || IsWhitespace(s[0]) then 0 else 1 + WordLength(s[1..])
  }

  /** The words of a line, in order, as successive `Scanner.next()` calls
      return them. */
  function Words(s: string): (ws: seq<string>)
    ensures forall i :: 0 <= i < |ws| ==> IsWord(ws[i])
    decreases |s|
  {
    if |s| == 0 then []
    else if IsWhitespace(s[0]) then Words(s[1..])
    else
      var n := WordLength(s);
      [s[..n]] + Words(s[n..])
  }

  /** Words joined by single spaces: a line whose `Words` are `ws`. */
  function Unwords(ws: seq<string>): string
  {
    if |ws| == 0 then "" else if |ws| == 1 then ws[0] else ws[0] + " " + Unwords(ws[1..])
  }

  lemma {:induction false} WordLengthOfWord(w: string, rest: string)
    requires IsWord(w)
    requires |rest| == 0 || IsWhitespace(rest[0])
    ensures WordLength(w + rest) == |w|
    decreases |w|
  {
    if |w| > 1 {
      assert (w + rest)[1..] == w[1..] + rest;
      WordLengthOfWord(w[1..], rest);
    } else {
      assert (w + rest)[1..] == rest;
    }
  }

  /** Splitting is the inverse of joining with spaces. */
  lemma {:induction false} WordsUnwords(ws: seq<string>)
    requires forall i :: 0 <= i < |ws| ==> IsWord(ws[i])
    ensures Words(Unwords(ws)) == ws
    decreases |ws|
  {
    if |ws| == 0 {
    } else if |ws| == 1 {
      WordLengthOfWord(ws[0], "");
      assert ws[0] + "" == ws[0];
      assert ws[0][|ws[0]|..] == "";
    } else {
      var s := Unwords(ws);
      var rest := Unwords(ws[1..]);
      assert s == ws[0] + (" " + rest);
      WordLengthOfWord(ws[0], " " + rest);
      assert s[..|ws[0]|] == ws[0];
      assert s[|ws[0]|..] == " " + rest;
      assert (" " + rest)[1..] == rest;
      WordsUnwords(ws[1..]);
      assert Words(s) == [ws[0]] + Words(" " + rest);
      assert ws == [ws[0]] + ws[1..];
    }
  }

  /** Line terminators `Scanner.nextLine` recognises in ASCII text. */
  predicate IsLineBreak(c: char) {
    c == '\n' || c == '\r'
  }

  function LineLength(s: string): (n: nat)
    ensures n <= |s|
    ensures forall i :: 0 <= i < n ==> !IsLineBreak(s[i])
    ensures n < |s| ==> IsLineBreak(s[n])
  {
    if |s| == 0 || IsLineBreak(s[0]) then 0 else 1 + LineLength(s[1..])
  }

  /** The lines `Scanner.nextLine` returns one after another: `\r\n`, `\n`
      and `\r` end a line, and a final line without a terminator is still a
      line. */
  function Lines(s: string): (ls: seq<string>)
    ensures forall i, j :: 0 <= i < |ls| && 0 <= j < |ls[i]| ==> !IsLineBreak(ls[i][j])
    decreases |s|
  {
    if |s| == 0 then []
    else
      var n := LineLength(s);
      if n == |s| then [s]
      else if s[n] == '\r' && n + 1 < |s| && s[n + 1] == '\n' then [s[..n]] + Lines(s[n + 2..])
      else [s[..n]] + Lines(s[n + 1..])
  }

  /** The text after the first line and its terminator. */
  function AfterLine(s: string): (rest: string)
    ensures |rest| < |s| || |s| == 0
  {
    var n := LineLength(s);
    if n == |s| then ""
    else if s[n] == '\r' && n + 1 < |s| && s[n + 1] == '\n' then s[n + 2..]
    else s[n + 1..]
  }

  /** A non-empty text splits into its first line and the lines after it. */
  lemma LinesSplit(s: string)
    requires |s| > 0
    ensures Lines(s) == [s[..LineLength(s)]] + Lines(AfterLine(s))
  {
    if LineLength(s) == |s| {
      assert s[..|s|] == s;
    }
  }

  /** Lines each followed by `\n`: the text of a file with these lines. */
  function UnlinesLf(ls: seq<string>): string
  {
    if |ls| == 0 then "" else ls[0] + "\n" + UnlinesLf(ls[1..])
  }

  lemma {:induction false} LineLengthOfLine(l: string, rest: string)
    requires forall j :: 0 <= j < |l| ==> !IsLineBreak(l[j])
    requires |rest| > 0 && IsLineBreak(rest[0])
    ensures LineLength(l + rest) == |l|
    decreases |l|
  {
    if |l| > 0 {
      assert (l + rest)[1..] == l[1..] + rest;
      LineLengthOfLine(l[1..], rest);
    } else {
      assert l + rest == rest;
    }
  }

  /** A line ended by `\n` is split off as the first line. */
  lemma LinesCons(l: string, rest: string)
    requires forall j :: 0 <= j < |l| ==> !IsLineBreak(l[j])
    ensures Lines(l + "\n" + rest) == [l] + Lines(rest)
  {
    var s := l + "\n" + rest;
    assert s == l + ("\n" + rest);
    LineLengthOfLine(l, "\n" + rest);
    assert s[..|l|] == l;
    assert s[|l| + 1..] == rest;
  }

  /** Splitting into lines is the inverse of writing lines with `\n`. */
  lemma {:induction false} LinesUnlines(ls: seq<string>)
    requires forall i, j :: 0 <= i < |ls| && 0 <= j < |ls[i]| ==> !IsLineBreak(ls[i][j])
    ensures Lines(UnlinesLf(ls)) == ls
    decreases |ls|
  {
    if |ls| > 0 {
      LinesCons(ls[0], UnlinesLf(ls[1..]));
      LinesUnlines(ls[1..]);
      assert ls == [ls[0]] + ls[1..];
    }
  }

  predicate IsDigit(c: char) {
    '0' <= c <= '9'
  }

  predicate AllDigits(s: string) {
    forall i :: 0 <= i < |s| ==> IsDigit(s[i])
  }

  /** Value of a non-empty run of decimal digits. */
  function DigitsValue(s: string): nat
    requires AllDigits(s)
  {
    if |s| == 0 then 0 else 10 * DigitsValue(s[..|s| - 1]) + (s[|s| - 1] as int - '0' as int)
  }

  /** The integer a word denotes for `Scanner.nextInt`: an optional sign
      followed by at least one decimal digit. Range is checked separately. */
  function ParseInteger(w: string): Option<int>
  {
    if |w| > 0 && (w[0] == '-' || w[0] == '+') then
      if |w| > 1 && AllDigits(w[1..]) then
        var v: int := DigitsValue(w[1..]);
        Some(if w[0] == '-' then -v else v)
      else None
    else if |w| > 0 && AllDigits(w) then Some(DigitsValue(w))
    else None
  }

  const JavaIntMin: int := -0x8000_0000
  const JavaIntMax: int := 0x7fff_ffff

  /** `Scanner.nextInt`: the word must denote an integer that fits a Java `int`. */
  function ParseJavaInt(w: string): (r: Option<int>)
    ensures r.Some? ==> JavaIntMin <= r.value <= JavaIntMax
  {
    match ParseInteger(w)
    case Some(n) => if JavaIntMin <= n <= JavaIntMax then Some(n) else None
    case None => None
  }

  function DigitChar(d: nat): char
    requires d < 10
  {
    ('0' as int + d) as char
  }

  /** Decimal text of a natural number, without leading zeros. */
  function ShowNat(n: nat): (s: string)
    ensures |s| > 0 && AllDigits(s)
  {
    if n < 10 then [DigitChar(n)] else ShowNat(n / 10) + [DigitChar(n % 10)]
  }

  function ShowInt(n: int): string
  {
    if n < 0 then "-" + ShowNat(-n) else ShowNat(n)
  }

  lemma {:induction false} DigitsShowNat(n: nat)
    ensures DigitsValue(ShowNat(n)) == n
    decreases n
  {
    var s := ShowNat(n);
    if n >= 10 {
      assert s[..|s| - 1] == ShowNat(n / 10);
      DigitsShowNat(n / 10);
    }
  }

  /** Printing then parsing an integer gives it back. */
  lemma ParseShowInt(n: int)
    ensures ParseInteger(ShowInt(n)) == Some(n)
  {
    var s := ShowNat(if n < 0 then -n else n);
    DigitsShowNat(if n < 0 then -n else n);
    if n < 0 {
      assert ShowInt(n)[1..] == s;
    }
  }

  /** A printed integer is one word. */
  lemma ShowIntIsWord(n: int)
    ensures IsWord(ShowInt(n))
  {
    var s := ShowNat(if n < 0 then -n else n);
    assert forall i :: 0 <= i < |s| ==> !IsWhitespace(s[i]);
  }
}
