/** The string helpers the engine takes from the C++ and Boost libraries:
    `std::string::find`, `boost::starts_with`, `boost::trim`/`trim_copy_if`,
    `boost::split(..., boost::is_space())` (empty pieces kept) and
    `boost::lexical_cast<std::string>` of an unsigned index. */
module Strings {
  import opened Failures

  /** `std::isspace` in the "C" locale, which `boost::is_space` and `boost::trim` use. */
  predicate IsSpace(c: char) {
    c == ' ' || c == '\t' || c == '\n' || c == '\U{000B}' || c == '\U{000C}' || c == '\r'
  }

  predicate NoSpace(s: string) {
    forall k :: 0 <= k < |s| ==> !IsSpace(s[k])
  }

  predicate AllSpace(s: string) {
    forall k :: 0 <= k < |s| ==> IsSpace(s[k])
  }

  /** `s.find(c)`: the first position of `c`, or `None` for `npos`. */
  function Find(s: string, c: char): (r: Option<nat>)
    ensures r.None? <==> c !in s
    ensures r.Some? ==> r.value < |s| && s[r.value] == c && c !in s[..r.value]
  {
    if s == [] then None
    else if s[0] == c then Some(0)
    else match Find(s[1..], c)
      case None => None
      case Some(k) => Some(k + 1)
  }

  /** The position of the first `c` is the one `Find` reports. */
  lemma {:induction false} FindFirst(s: string, c: char, i: nat)
    requires i < |s| && s[i] == c && c !in s[..i]
    ensures Find(s, c) == Some(i)
  {
    if i > 0 {
      assert s[..i][0] == s[0];
      assert s[1..][..i - 1] == s[1..i] && s[..i][1..] == s[1..i];
      FindFirst(s[1..], c, i - 1);
    }
  }

  predicate StartsWith(s: string, prefix: string) {
    |prefix| <= |s| && s[..|prefix|] == prefix
  }

  /** Drops the leading characters that satisfy `drop`. */
  function TrimLeftBy(s: string, drop: char -> bool): (r: string)
    ensures |r| <= |s| && r == s[|s| - |r|..]
    ensures r == [] || !drop(r[0])
    ensures forall k :: 0 <= k < |s| - |r| ==> drop(s[k])
  {
    if s != [] && drop(s[0]) then
      var r := TrimLeftBy(s[1..], drop);
      assert s[1..][|s| - 1 - |r|..] == s[|s| - |r|..];
      assert forall k :: 1 <= k < |s| - |r| ==> s[k] == s[1..][k - 1];
      r
    else s
  }

  /** Drops the trailing characters that satisfy `drop`. */
  function TrimRightBy(s: string, drop: char -> bool): (r: string)
    ensures |r| <= |s| && r == s[..|r|]
    ensures r == [] || !drop(r[|r| - 1])
    ensures forall k :: |r| <= k < |s| ==> drop(s[k])
  {
    if s != [] && drop(s[|s| - 1]) then TrimRightBy(s[..|s| - 1], drop) else s
  }

  /** `boost::trim_copy`: white space removed at both ends. */
  function Trim(s: string): (r: string)
    ensures |r| <= |s|
    ensures r == [] || (!IsSpace(r[0]) && !IsSpace(r[|r| - 1]))
  {
    TrimRightBy(TrimLeftBy(s, IsSpace), IsSpace)
  }

  predicate IsQuote(c: char) {
    c == '"'
  }

  /** `boost::trim_copy_if(key, c == '"')`: double quotes removed at both ends. */
  function TrimQuotes(s: string): (r: string)
    ensures |r| <= |s|
    ensures r == [] || (r[0] != '"' && r[|r| - 1] != '"')
  {
    TrimRightBy(TrimLeftBy(s, IsQuote), IsQuote)
  }

  lemma {:induction false} TrimLeftSkips(lead: string, u: string, drop: char -> bool)
    requires forall k :: 0 <= k < |lead| ==> drop(lead[k])
    requires u == [] || !drop(u[0])
    ensures TrimLeftBy(lead + u, drop) == u
  {
    if lead != [] {
      assert (lead + u)[1..] == lead[1..] + u;
      TrimLeftSkips(lead[1..], u, drop);
    }
  }

  lemma {:induction false} TrimRightSkips(u: string, trail: string, drop: char -> bool)
    requires forall k :: 0 <= k < |trail| ==> drop(trail[k])
    requires u == [] || !drop(u[|u| - 1])
    ensures TrimRightBy(u + trail, drop) == u
  {
    if trail != [] {
      assert (u + trail)[..|u + trail| - 1] == u + trail[..|trail| - 1];
      TrimRightSkips(u, trail[..|trail| - 1], drop);
    }
  }

  /** Trimming removes exactly the white-space padding around text whose ends are not white space. */
  lemma TrimPadded(lead: string, x: string, trail: string)
    requires AllSpace(lead) && AllSpace(trail)
    requires x == [] || (!IsSpace(x[0]) && !IsSpace(x[|x| - 1]))
    ensures Trim(lead + x + trail) == x
  {
    if x == [] {
      assert lead + x + trail == (lead + trail) + [];
      TrimLeftSkips(lead + trail, [], IsSpace);
    } else {
      assert lead + x + trail == lead + (x + trail);
      TrimLeftSkips(lead, x + trail, IsSpace);
      TrimRightSkips(x, trail, IsSpace);
    }
  }

  /** Stripping quotes removes exactly the quotes around text whose ends are not quotes:
      what lies between them is kept as it is, inner quotes included. */
  lemma TrimQuotesPadded(lead: string, x: string, trail: string)
    requires forall k :: 0 <= k < |lead| ==> IsQuote(lead[k])
    requires forall k :: 0 <= k < |trail| ==> IsQuote(trail[k])
    requires x == [] || (!IsQuote(x[0]) && !IsQuote(x[|x| - 1]))
    ensures TrimQuotes(lead + x + trail) == x
  {
    if x == [] {
      assert lead + x + trail == (lead + trail) + [];
      TrimLeftSkips(lead + trail, [], IsQuote);
    } else {
      assert lead + x + trail == lead + (x + trail);
      TrimLeftSkips(lead, x + trail, IsQuote);
      TrimRightSkips(x, trail, IsQuote);
    }
  }

  /** Text that does not start with white space keeps its first character when trimmed. */
  lemma TrimStartsWith(s: string)
    requires s != [] && !IsSpace(s[0])
    ensures Trim(s) != [] && Trim(s)[0] == s[0]
  {
    assert TrimLeftBy(s, IsSpace) == s;
    var r, first := TrimRightBy(s, IsSpace), s[0];
    assert |r| > 0 || IsSpace(first);
  }

  /** Trimming twice is trimming once (the lexer trims an end marker's text a second time). */
  lemma TrimIdempotent(s: string)
    ensures Trim(Trim(s)) == Trim(s)
  {
    TrimPadded([], Trim(s), []);
    assert [] + Trim(s) + [] == Trim(s);
  }

  /** The white-space characters of `s`, in order: the separators `Split` cuts at. */
  function Separators(s: string): (r: string)
    ensures AllSpace(r)
  {
    if s == [] then []
    else if IsSpace(s[0]) then [s[0]] + Separators(s[1..])
    else Separators(s[1..])
  }

  /** `boost::split(elements, s, boost::is_space())`: cut at every white-space character,
      keeping the empty pieces between adjacent separators. */
  function Split(s: string): (r: seq<string>)
    ensures |r| == |Separators(s)| + 1
    ensures forall k :: 0 <= k < |r| ==> NoSpace(r[k])
  {
    if s == [] then [""]
    else
      var tail := Split(s[1..]);
      if IsSpace(s[0]) then [""] + tail
      else [[s[0]] + tail[0]] + tail[1..]
  }

  /** The pieces put back together with the separators between them. */
  function Interleave(pieces: seq<string>, seps: string): (r: string)
    requires |pieces| == |seps| + 1
    decreases seps
  {
    if seps == [] then pieces[0]
    else pieces[0] + [seps[0]] + Interleave(pieces[1..], seps[1..])
  }

  lemma InterleaveCons(c: char, pieces: seq<string>, seps: string)
    requires |pieces| == |seps| + 1
    ensures Interleave([[c] + pieces[0]] + pieces[1..], seps) == [c] + Interleave(pieces, seps)
  {
    var moved := [[c] + pieces[0]] + pieces[1..];
    assert moved[0] == [c] + pieces[0] && moved[1..] == pieces[1..];
  }

  /** Splitting loses nothing: the pieces and the separators give back the input. */
  lemma {:induction false} SplitRoundTrip(s: string)
    ensures Interleave(Split(s), Separators(s)) == s
  {
    if s != [] {
      SplitRoundTrip(s[1..]);
      var tail := Split(s[1..]);
      if IsSpace(s[0]) {
        var pieces := [""] + tail;
        assert pieces[0] == "" && pieces[1..] == tail;
        assert s == [s[0]] + s[1..];
      } else {
        InterleaveCons(s[0], tail, Separators(s[1..]));
        assert s == [s[0]] + s[1..];
      }
    }
  }

  /** Text without white space is a single piece. */
  lemma {:induction false} SplitNoSpace(a: string)
    requires NoSpace(a)
    ensures Split(a) == [a]
  {
    if a != [] {
      SplitNoSpace(a[1..]);
      assert a == [a[0]] + a[1..];
    }
  }

  /** The pieces of `[x] + rest`, given the pieces of `rest`: a separator starts a
      new empty piece, any other character joins the first piece. */
  function PushChar(x: char, pieces: seq<string>): seq<string>
    requires |pieces| >= 1
  {
    if IsSpace(x) then [""] + pieces else [[x] + pieces[0]] + pieces[1..]
  }

  lemma SplitCons(x: char, rest: string)
    ensures Split([x] + rest) == PushChar(x, Split(rest))
  {
    assert ([x] + rest)[0] == x && ([x] + rest)[1..] == rest;
  }

  lemma PushCharAppend(x: char, p: seq<string>, q: seq<string>)
    requires |p| >= 1
    ensures PushChar(x, p + q) == PushChar(x, p) + q
  {
    if !IsSpace(x) {
      assert (p + q)[0] == p[0] && (p + q)[1..] == p[1..] + q;
    }
  }

  /** One white-space character cuts the pieces of what surrounds it apart. */
  lemma {:induction false} SplitAtSpace(a: string, c: char, b: string)
    requires IsSpace(c)
    ensures Split(a + [c] + b) == Split(a) + Split(b)
  {
    if a == [] {
      assert a + [c] + b == [c] + b;
      SplitCons(c, b);
    } else {
      var rest := a[1..] + [c] + b;
      assert a + [c] + b == [a[0]] + rest;
      assert a == [a[0]] + a[1..];
      SplitAtSpace(a[1..], c, b);
      SplitCons(a[0], rest);
      SplitCons(a[0], a[1..]);
      PushCharAppend(a[0], Split(a[1..]), Split(b));
    }
  }

  /** Words written with a single space between each two. */
  function Unwords(words: seq<string>): string
    requires |words| >= 1
  {
    if |words| == 1 then words[0]
    else Unwords(words[..|words| - 1]) + " " + words[|words| - 1]
  }

  /** Splitting words that were joined by single spaces gives the words back. */
  lemma {:induction false} SplitUnwords(words: seq<string>)
    requires |words| >= 1
    requires forall k :: 0 <= k < |words| ==> NoSpace(words[k])
    ensures Split(Unwords(words)) == words
  {
    var last := words[|words| - 1];
    SplitNoSpace(last);
    if |words| > 1 {
      var init := words[..|words| - 1];
      SplitUnwords(init);
      SplitAtSpace(Unwords(init), ' ', last);
      assert words == init + [last];
    }
  }

  predicate IsDigits(s: string) {
    forall k :: 0 <= k < |s| ==> '0' <= s[k] <= '9'
  }

  function Digit(d: nat): (c: char)
    requires d < 10
  {
    ('0' as int + d) as char
  }

  /** `boost::lexical_cast<std::string>` of an unsigned number: its decimal digits. */
  function Decimal(n: nat): (r: string)
    ensures |r| >= 1 && IsDigits(r)
    ensures r[0] == '0' ==> n == 0 && r == "0"
  {
    if n < 10 then [Digit(n)] else Decimal(n / 10) + [Digit(n % 10)]
  }

  /** The number a string of decimal digits denotes. */
  function DigitsValue(s: string): nat
    requires IsDigits(s)
  {
    if s == [] then 0
    else 10 * DigitsValue(s[..|s| - 1]) + (s[|s| - 1] as int - '0' as int)
  }

  /** The decimal text reads back as the number it was made from, so distinct
      loop indices give distinct texts. */
  lemma {:induction false} DecimalRoundTrip(n: nat)
    ensures DigitsValue(Decimal(n)) == n
  {
    if n >= 10 {
      DecimalRoundTrip(n / 10);
      var r := Decimal(n);
      assert r[..|r| - 1] == Decimal(n / 10);
    }
  }

  lemma DecimalInjective(m: nat, n: nat)
    requires Decimal(m) == Decimal(n)
    ensures m == n
  {
    DecimalRoundTrip(m);
    DecimalRoundTrip(n);
  }
}
