/** Decimal rendering of integers and the ", "-separated lists the recognizer
    advertises, with the parsers that read them back. */
module Text {

  datatype Option<T> = None | Some(value: T)

  predicate IsDigit(c: char) { '0' <= c <= '9' }

  predicate AllDigits(s: string) { forall i :: 0 <= i < |s| ==> IsDigit(s[i]) }

  function DigitChar(d: nat): (c: char)
    requires d < 10
    ensures IsDigit(c) && c as int - '0' as int == d
  {
    ('0' as int + d) as char
  }

  /** The value of a non-empty run of decimal digits, most significant first. */
  function DigitsValue(s: string): (n: nat)
    requires AllDigits(s)
  {
    if s == [] then 0 else DigitsValue(s[..|s| - 1]) * 10 + (s[|s| - 1] as int - '0' as int)
  }

  /** Shortest decimal text of a natural number. */
  function DecimalText(n: nat): (s: string)
    ensures 1 <= |s| && AllDigits(s)
    ensures n < 10 <==> |s| == 1
  {
    if n < 10 then [DigitChar(n)] else DecimalText(n / 10) + [DigitChar(n % 10)]
  }

  lemma {:induction false} DecimalRoundTrip(n: nat)
    ensures DigitsValue(DecimalText(n)) == n
  {
    if n >= 10 {
      DecimalRoundTrip(n / 10);
      var s := DecimalText(n);
      assert s[..|s| - 1] == DecimalText(n / 10);
    }
  }

  /** Decimal text of an integer, with a leading '-' when it is negative. */
  function IntText(i: int): (s: string)
    ensures 1 <= |s|
    ensures forall k :: 0 <= k < |s| ==> s[k] == '-' || IsDigit(s[k])
  {
    if i < 0 then "-" + DecimalText(-i) else DecimalText(i)
  }

  /** Reads back what IntText writes; None for anything that is not an integer. */
  function ParseInt(s: string): (r: Option<int>)
  {
    if 2 <= |s| && s[0] == '-' && AllDigits(s[1..]) then Some(0 - DigitsValue(s[1..]) as int)
    else if 1 <= |s| && AllDigits(s) then Some(DigitsValue(s))
    else None
  }

  lemma IntRoundTrip(i: int)
    ensures ParseInt(IntText(i)) == Some(i)
  {
    if i < 0 {
      DecimalRoundTrip(-i);
      assert IntText(i)[1..] == DecimalText(-i);
    } else {
      DecimalRoundTrip(i);
    }
  }

  lemma IntTextInjective(a: int, b: int)
    requires IntText(a) == IntText(b)
    ensures a == b
  {
    IntRoundTrip(a);
    IntRoundTrip(b);
  }

  const Separator: string := ", "

  /** The words separated by ", ", as in the advertised version lists. */
  function Join(ws: seq<string>): (s: string)
  {
    if |ws| == 0 then ""
    else if |ws| == 1 then ws[0]
    else ws[0] + Separator + Join(ws[1..])
  }

  lemma JoinCons(w: string, ws: seq<string>)
    requires 1 <= |ws|
    ensures Join([w] + ws) == w + Separator + Join(ws)
  {
    assert ([w] + ws)[1..] == ws;
  }

  /** Joining two non-empty lists is joining each and separating the halves. */
  lemma {:induction false} JoinAppend(a: seq<string>, b: seq<string>)
    requires 1 <= |a| && 1 <= |b|
    ensures Join(a + b) == Join(a) + Separator + Join(b)
  {
    if |a| == 1 {
      JoinCons(a[0], b);
    } else {
      assert a + b == [a[0]] + (a[1..] + b);
      JoinCons(a[0], a[1..] + b);
      JoinAppend(a[1..], b);
      JoinCons(a[0], a[1..]);
      assert [a[0]] + a[1..] == a;
    }
  }

  lemma JoinThree(a: string, b: string, c: string)
    ensures Join([a, b, c]) == a + Separator + b + Separator + c
  {
    assert [a, b, c] == [a] + [b, c];
    JoinCons(a, [b, c]);
  }

  lemma JoinFive(a: string, b: string, c: string, d: string, e: string)
    ensures Join([a, b, c, d, e]) == a + Separator + b + Separator + c + Separator + d + Separator + e
  {
    JoinThree(c, d, e);
    JoinAppend([a, b], [c, d, e]);
    assert [a, b] + [c, d, e] == [a, b, c, d, e];
    JoinCons(a, [b]);
  }

  /** Cuts a text at every ", "; the pieces between the separators, in order. */
  function Split(s: string): (ws: seq<string>)
    ensures 1 <= |ws|
    decreases |s|
  {
    if s == [] then [""]
    else if 2 <= |s| && s[0] == ',' && s[1] == ' ' then [""] + Split(s[2..])
    else
      var rest := Split(s[1..]);
      [[s[0]] + rest[0]] + rest[1..]
  }

  lemma {:induction false} SplitAfterWord(w: string, t: string)
    requires ',' !in w
    ensures Split(w + t) == [w + Split(t)[0]] + Split(t)[1..]
  {
    if w != [] {
      assert w[0] in w;
      assert (w + t)[0] == w[0] != ',';
      assert (w + t)[1..] == w[1..] + t;
      SplitAfterWord(w[1..], t);
      var rest := Split(w[1..] + t);
      assert Split(w + t) == [[w[0]] + rest[0]] + rest[1..];
      assert rest[0] == w[1..] + Split(t)[0] && rest[1..] == Split(t)[1..];
      assert [w[0]] + (w[1..] + Split(t)[0]) == w + Split(t)[0];
    } else {
      assert w + t == t && w + Split(t)[0] == Split(t)[0];
    }
  }

  /** Splitting a joined list gives the words back, provided no word holds a comma. */
  lemma {:induction false} SplitJoin(ws: seq<string>)
    requires 1 <= |ws|
    requires forall k :: 0 <= k < |ws| ==> ',' !in ws[k]
    ensures Split(Join(ws)) == ws
  {
    if |ws| == 1 {
      SplitAfterWord(ws[0], "");
      assert ws[0] + "" == ws[0];
    } else {
      var tail := Separator + Join(ws[1..]);
      assert Join(ws) == ws[0] + tail;
      SplitAfterWord(ws[0], tail);
      assert tail[2..] == Join(ws[1..]);
      SplitJoin(ws[1..]);
      assert Split(tail) == [""] + ws[1..];
      assert ws[0] + "" == ws[0];
    }
  }

  function IntTexts(xs: seq<int>): (ws: seq<string>)
    ensures |ws| == |xs|
    ensures forall k :: 0 <= k < |xs| ==> ws[k] == IntText(xs[k])
  {
    if xs == [] then [] else [IntText(xs[0])] + IntTexts(xs[1..])
  }

  /** Parses each word as an integer; None as soon as one is not. */
  function ParseAll(ws: seq<string>): (r: Option<seq<int>>)
  {
    if ws == [] then Some([])
    else match (ParseInt(ws[0]), ParseAll(ws[1..]))
      case (Some(x), Some(xs)) => Some([x] + xs)
      case _ => None
  }

  /** Reads a ", "-separated list of integers. */
  function ParseIntList(s: string): (r: Option<seq<int>>)
  {
    ParseAll(Split(s))
  }

  lemma {:induction false} ParseAllIntTexts(xs: seq<int>)
    ensures ParseAll(IntTexts(xs)) == Some(xs)
  {
    if xs != [] {
      IntRoundTrip(xs[0]);
      assert IntTexts(xs)[1..] == IntTexts(xs[1..]);
      ParseAllIntTexts(xs[1..]);
      assert [xs[0]] + xs[1..] == xs;
    }
  }

  /** A non-empty list of integers written with IntText and Join reads back unchanged. */
  lemma IntListRoundTrip(xs: seq<int>)
    requires 1 <= |xs|
    ensures ParseIntList(Join(IntTexts(xs))) == Some(xs)
  {
    var ws := IntTexts(xs);
    assert forall k :: 0 <= k < |ws| ==> ',' !in ws[k];
    SplitJoin(ws);
    ParseAllIntTexts(xs);
  }
}
