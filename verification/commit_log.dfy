/**
 * The per-branch commit log: one text line `parent sha millis message` per
 * commit, newest last, parsed back with `split(" ", 4)` by `global-log` and
 * `find`.
 */
module CommitLog {
  import opened Wrappers

  /** The parent digest text written for a commit without a parent. */
  const ZeroText: string := "0000000000000000000000000000000000000000"
  const NoMatch: string := "Found no commit with that message."
  /** A line with fewer than four fields: `tokens[k]` throws. */
  const MissingField: string := "Index out of bounds"
  /** `Long.parseLong` on text that is not a long. */
  const BadNumber: string := "Number format"

  const LongMin: int := -0x8000_0000_0000_0000
  const LongMax: int := 0x7FFF_FFFF_FFFF_FFFF

  predicate IsDigit(c: char) {
    '0' <= c <= '9'
  }

  predicate AllDigits(s: string) {
    forall i :: 0 <= i < |s| ==> IsDigit(s[i])
  }

  function DigitChar(d: nat): char
    requires d < 10
  {
    "0123456789"[d]
  }

  /** Decimal digits of a natural number, most significant first, without leading zeros. */
  function NatText(n: nat): (r: string)
    ensures |r| >= 1 && AllDigits(r)
    decreases n
  {
    if n < 10 then [DigitChar(n)] else NatText(n / 10) + [DigitChar(n % 10)]
  }

  /** `Long.toString`. */
  function LongText(n: int): (r: string)
    ensures ' ' !in r && '\n' !in r
  {
    if n < 0 then "-" + NatText(-n) else NatText(n)
  }

  /** The value of a string of decimal digits. */
  function DigitsValue(s: string): (v: int)
    requires AllDigits(s)
    ensures v >= 0
  {
    if s == [] then 0
    else
      assert IsDigit(s[|s| - 1]);
      DigitsValue(s[..|s| - 1]) * 10 + (s[|s| - 1] as int - '0' as int)
  }

  /** `Long.parseLong` for ASCII digits: an optional sign, at least one digit, and a value within the long range. */
  function ParseLong(s: string): (r: Option<int>)
    ensures r.Some? ==> LongMin <= r.value <= LongMax
  {
    var negative := |s| > 0 && s[0] == '-';
    var digits := if |s| > 0 && (s[0] == '-' || s[0] == '+') then s[1..] else s;
    if digits == [] || !AllDigits(digits) then None
    else
      var v: int := if negative then -DigitsValue(digits) else DigitsValue(digits);
      if LongMin <= v <= LongMax then Some(v) else None
  }

  /** A digit character reads back as the digit it was written for. */
  lemma DigitCharValue(d: nat)
    requires d < 10
    ensures IsDigit(DigitChar(d)) && DigitChar(d) as int - '0' as int == d
  {
    var ds := "0123456789";
    assert ds[0] == '0' && ds[1] == '1' && ds[2] == '2' && ds[3] == '3' && ds[4] == '4';
    assert ds[5] == '5' && ds[6] == '6' && ds[7] == '7' && ds[8] == '8' && ds[9] == '9';
  }

  lemma {:induction false} NatTextValue(n: nat)
    ensures DigitsValue(NatText(n)) == n
    decreases n
  {
    var t := NatText(n);
    if n < 10 {
      DigitCharValue(n);
      assert t[..0] == [];
    } else {
      NatTextValue(n / 10);
      DigitCharValue(n % 10);
      assert t[..|t| - 1] == NatText(n / 10);
      assert t[|t| - 1] == DigitChar(n % 10);
      assert DigitsValue(t) == DigitsValue(NatText(n / 10)) * 10 + n % 10;
    }
  }

  /** A minus sign followed by the digits of `m` parses to `-m`. */
  lemma ParseNegative(m: nat)
    requires LongMin <= -(m as int)
    ensures ParseLong("-" + NatText(m)) == Some(-(m as int))
  {
    var t := NatText(m);
    NatTextValue(m);
    var s := "-" + t;
    assert s[0] == '-' && s[1..] == t;
  }

  /** The digits of `m` parse to `m`. */
  lemma ParseNonNegative(m: nat)
    requires m <= LongMax
    ensures ParseLong(NatText(m)) == Some(m)
  {
    var t := NatText(m);
    NatTextValue(m);
    assert IsDigit(t[0]);
  }

  /** Every long written by `Long.toString` is read back by `Long.parseLong`. */
  lemma LongRoundTrip(n: int)
    requires LongMin <= n <= LongMax
    ensures ParseLong(LongText(n)) == Some(n)
  {
    if n < 0 {
      ParseNegative(-n);
    } else {
      ParseNonNegative(n);
    }
  }

  /** `String.indexOf(c)`: the first position holding `c`, or -1. */
  function IndexOf(s: string, c: char): (r: int)
    ensures -1 <= r < |s|
    ensures r == -1 <==> c !in s
    ensures r >= 0 ==> s[r] == c && forall j :: 0 <= j < r ==> s[j] != c
  {
    if s == [] then -1
    else if s[0] == c then 0
    else
      var k := IndexOf(s[1..], c);
      if k == -1 then -1 else k + 1
  }

  lemma IndexOfAfter(a: string, c: char, rest: string)
    requires c !in a
    ensures IndexOf(a + [c] + rest, c) == |a|
  {
    var s := a + [c] + rest;
    assert s[..|a|] == a;
    assert s[|a|] == c;
  }

  /** The fields `ts` with `c` between each two. */
  function Join(ts: seq<string>, c: char): string
    requires |ts| >= 1
  {
    if |ts| == 1 then ts[0] else ts[0] + [c] + Join(ts[1..], c)
  }

  /** No field but the last holds `c`, and the last does not either when there are fewer than `n`. */
  predicate Separated(ts: seq<string>, c: char, n: nat) {
    && (forall i :: 0 <= i < |ts| - 1 ==> c !in ts[i])
    && (0 < |ts| < n ==> c !in ts[|ts| - 1])
  }

  /** `String.split(c, n)` for a positive limit: at most `n` fields, the last one holding the rest, empty fields kept. */
  function SplitN(s: string, c: char, n: nat): (r: seq<string>)
    requires n >= 1
    ensures 1 <= |r| <= n
    ensures Join(r, c) == s
    ensures Separated(r, c, n)
    decreases n
  {
    if n == 1 || c !in s then [s]
    else
      var i := IndexOf(s, c);
      var rest := SplitN(s[i + 1..], c, n - 1);
      assert s == s[..i] + [c] + s[i + 1..];
      assert ([s[..i]] + rest)[1..] == rest;
      SeparatedCons(s[..i], rest, c, n);
      [s[..i]] + rest
  }

  /** How many times `c` occurs in `s`. */
  function Count(s: string, c: char): nat {
    if s == [] then 0 else (if s[0] == c then 1 else 0) + Count(s[1..], c)
  }

  lemma {:induction false} CountAbsent(s: string, c: char)
    requires c !in s
    ensures Count(s, c) == 0
  {
    if s != [] {
      assert c !in s[1..];
      CountAbsent(s[1..], c);
    }
  }

  lemma {:induction false} CountAfterFirst(s: string, c: char, i: nat)
    requires i < |s| && s[i] == c && c !in s[..i]
    ensures Count(s, c) == 1 + Count(s[i + 1..], c)
  {
    if i > 0 {
      assert s[0] == s[..i][0];
      assert s[1..][i - 1] == c && s[1..][..i - 1] == s[..i][1..];
      CountAfterFirst(s[1..], c, i - 1);
      assert s[1..][i..] == s[i + 1..];
    }
  }

  /** A limited split yields one field more than there are separators, up to the limit. */
  lemma {:induction false} SplitNLength(s: string, c: char, n: nat)
    requires n >= 1
    ensures |SplitN(s, c, n)| == if Count(s, c) < n then Count(s, c) + 1 else n
    decreases n
  {
    if c !in s {
      CountAbsent(s, c);
    } else if n > 1 {
      var i := IndexOf(s, c);
      CountAfterFirst(s, c, i);
      SplitNLength(s[i + 1..], c, n - 1);
    }
  }

  lemma SeparatedCons(a: string, rest: seq<string>, c: char, n: nat)
    requires c !in a && 1 <= |rest| && n >= 2 && Separated(rest, c, n - 1)
    ensures Separated([a] + rest, c, n)
  {
    forall i | 0 <= i < |[a] + rest| - 1 ensures c !in ([a] + rest)[i] {
      if i > 0 { assert ([a] + rest)[i] == rest[i - 1]; }
    }
  }

  /** Splitting at every `c`. */
  function SplitAll(s: string, c: char): (r: seq<string>)
    ensures |r| >= 1
    ensures Join(r, c) == s
    decreases |s|
  {
    if c !in s then [s]
    else
      var i := IndexOf(s, c);
      var rest := SplitAll(s[i + 1..], c);
      assert s == s[..i] + [c] + s[i + 1..];
      assert ([s[..i]] + rest)[1..] == rest;
      [s[..i]] + rest
  }

  /** Trailing empty fields removed: a prefix of `ts` ending in a non-empty field, with only empty fields cut. */
  function DropTrailingEmpty(ts: seq<string>): (r: seq<string>)
    ensures |r| <= |ts| && r == ts[..|r|]
    ensures r == [] || r[|r| - 1] != ""
    ensures forall i :: |r| <= i < |ts| ==> ts[i] == ""
  {
    if ts != [] && ts[|ts| - 1] == "" then DropTrailingEmpty(ts[..|ts| - 1]) else ts
  }

  /** `String.split(c)` with limit 0: no separator gives the whole text; otherwise trailing empty fields are dropped. */
  function SplitLines(s: string): (r: seq<string>)
    ensures '\n' !in s ==> r == [s]
    ensures '\n' in s ==> var all := SplitAll(s, '\n');
              && |r| <= |all| && r == all[..|r|] && (r == [] || r[|r| - 1] != "")
              && forall i :: |r| <= i < |all| ==> all[i] == ""
  {
    if '\n' !in s then [s]
    else
      var all := SplitAll(s, '\n');
      var r := DropTrailingEmpty(all);
      assert |r| <= |all| && r == all[..|r|];
      r
  }

  datatype Entry = Entry(parent: string, sha: string, millis: int, message: string)

  /** An entry `writeCommitLog` can write and the parser can read back. */
  predicate Writable(e: Entry) {
    && ' ' !in e.parent && '\n' !in e.parent
    && ' ' !in e.sha && '\n' !in e.sha
    && '\n' !in e.message
    && LongMin <= e.millis <= LongMax
  }

  /** The line `writeCommitLog` appends, without its newline. */
  function Line(e: Entry): (r: string)
    ensures r == Join([e.parent, e.sha, LongText(e.millis), e.message], ' ')
  {
    var ts := [e.parent, e.sha, LongText(e.millis), e.message];
    assert ts[1..][1..][1..] == [e.message];
    assert ts[1..][1..] == [LongText(e.millis), e.message];
    assert ts[1..] == [e.sha, LongText(e.millis), e.message];
    assert Join(ts[1..][1..], ' ') == LongText(e.millis) + [' '] + e.message;
    assert Join(ts[1..], ' ') == e.sha + [' '] + (LongText(e.millis) + [' '] + e.message);
    e.parent + [' '] + (e.sha + [' '] + (LongText(e.millis) + [' '] + e.message))
  }

  /** A whole log file: every line followed by a newline. */
  function Render(es: seq<Entry>): (r: string)
    ensures r == Join(Lines(es) + [""], '\n')
  {
    if es == [] then ""
    else
      var rest := Render(es[1..]);
      ConsAppend(Line(es[0]), Lines(es[1..]), [""]);
      assert ([Line(es[0])] + (Lines(es[1..]) + [""]))[1..] == Lines(es[1..]) + [""];
      Line(es[0]) + "\n" + rest
  }

  /** `printLogLineInfo`'s reading of one line: the id and the time are read before the message, so a bad time is reported even on a line of three fields. */
  function Parse(line: string): (r: Result<Entry, string>)
    ensures var t := SplitN(line, ' ', 4);
              r == Err(BadNumber) <==> 3 <= |t| && ParseLong(t[2]).None?
    ensures var t := SplitN(line, ' ', 4);
              r == Err(MissingField) <==> |t| < 3 || (ParseLong(t[2]).Some? && |t| < 4)
    ensures r.Ok? ==> && ' ' !in r.value.parent && ' ' !in r.value.sha
                      && LongMin <= r.value.millis <= LongMax
  {
    var tokens := SplitN(line, ' ', 4);
    if |tokens| < 3 then Err(MissingField)
    else
      match ParseLong(tokens[2])
      case None => Err(BadNumber)
      case Some(v) =>
        if |tokens| < 4 then Err(MissingField)
        else Ok(Entry(tokens[0], tokens[1], v, tokens[3]))
  }

  lemma ParseFields(line: string, p: string, sha: string, t: string, m: string, v: int)
    requires SplitN(line, ' ', 4) == [p, sha, t, m] && ParseLong(t) == Some(v)
    ensures Parse(line) == Ok(Entry(p, sha, v, m))
  {
  }

  /** Two `Separated` field lists that join into the same text are the same list. */
  lemma {:induction false} JoinInjective(xs: seq<string>, ys: seq<string>, c: char, n: nat)
    requires 1 <= |xs| <= n && 1 <= |ys| <= n
    requires Separated(xs, c, n) && Separated(ys, c, n)
    requires Join(xs, c) == Join(ys, c)
    ensures xs == ys
    decreases n
  {
    if |xs| == 1 && |ys| == 1 {
      assert xs == [Join(xs, c)] && ys == [Join(ys, c)];
    } else if |xs| == 1 {
      JoinedHasSeparator(ys, c);
      assert false;
    } else if |ys| == 1 {
      JoinedHasSeparator(xs, c);
      assert false;
    } else {
      var xt, yt := Join(xs[1..], c), Join(ys[1..], c);
      IndexOfAfter(xs[0], c, xt);
      IndexOfAfter(ys[0], c, yt);
      var s := Join(xs, c);
      assert xs[0] == s[..|xs[0]|] && ys[0] == s[..|ys[0]|];
      assert xt == s[|xs[0]| + 1..] && yt == s[|ys[0]| + 1..];
      SeparatedTail(xs, c, n);
      SeparatedTail(ys, c, n);
      JoinInjective(xs[1..], ys[1..], c, n - 1);
      assert xs == [xs[0]] + xs[1..] && ys == [ys[0]] + ys[1..];
    }
  }

  lemma JoinedHasSeparator(ts: seq<string>, c: char)
    requires |ts| > 1
    ensures c in Join(ts, c)
  {
    assert Join(ts, c)[|ts[0]|] == c;
  }

  lemma SeparatedTail(ts: seq<string>, c: char, n: nat)
    requires 1 < |ts| <= n && Separated(ts, c, n)
    ensures c !in ts[0] && Separated(ts[1..], c, n - 1)
  {
    forall i | 0 <= i < |ts[1..]| - 1 ensures c !in ts[1..][i] {
      assert ts[1..][i] == ts[i + 1];
    }
  }

  /** Splitting joined fields gives them back when they are `Separated`: the converse of `SplitN`'s contract. */
  lemma SplitJoin(ts: seq<string>, c: char, n: nat)
    requires 1 <= |ts| <= n && Separated(ts, c, n)
    ensures SplitN(Join(ts, c), c, n) == ts
  {
    JoinInjective(SplitN(Join(ts, c), c, n), ts, c, n);
  }

  /** The four fields of a written line, before any parsing. */
  lemma {:induction false} LineFields(e: Entry)
    requires Writable(e)
    ensures SplitN(Line(e), ' ', 4) == [e.parent, e.sha, LongText(e.millis), e.message]
  {
    var ts := [e.parent, e.sha, LongText(e.millis), e.message];
    assert ' ' !in LongText(e.millis);
    SplitJoin(ts, ' ', 4);
  }

  /** Parsing a written line recovers the digests, the time and the message, spaces in the message included. */
  lemma {:induction false} LineRoundTrip(e: Entry)
    requires Writable(e)
    ensures Parse(Line(e)) == Ok(e)
  {
    LineFields(e);
    LongRoundTrip(e.millis);
    ParseFields(Line(e), e.parent, e.sha, LongText(e.millis), e.message, e.millis);
  }

  function Lines(es: seq<Entry>): seq<string> {
    if es == [] then [] else [Line(es[0])] + Lines(es[1..])
  }

  lemma LineHasNoNewline(e: Entry)
    requires Writable(e)
    ensures '\n' !in Line(e)
  {
    assert '\n' !in LongText(e.millis);
  }

  lemma SplitAllField(a: string, c: char, rest: string)
    requires c !in a
    ensures SplitAll(a + [c] + rest, c) == [a] + SplitAll(rest, c)
  {
    var s := a + [c] + rest;
    IndexOfAfter(a, c, rest);
    assert s[|a|] == c;
    assert s[..|a|] == a;
    assert s[|a| + 1..] == rest;
  }

  lemma {:induction false} SplitRendered(es: seq<Entry>)
    requires forall i :: 0 <= i < |es| ==> Writable(es[i])
    ensures SplitAll(Render(es), '\n') == Lines(es) + [""]
  {
    if es != [] {
      LineHasNoNewline(es[0]);
      SplitRendered(es[1..]);
      SplitRenderedStep(es);
    }
  }

  lemma SplitRenderedStep(es: seq<Entry>)
    requires es != [] && '\n' !in Line(es[0])
    requires SplitAll(Render(es[1..]), '\n') == Lines(es[1..]) + [""]
    ensures SplitAll(Render(es), '\n') == Lines(es) + [""]
  {
    SplitAllField(Line(es[0]), '\n', Render(es[1..]));
    ConsAppend(Line(es[0]), Lines(es[1..]), [""]);
  }

  lemma ConsAppend<T>(a: T, l: seq<T>, b: seq<T>)
    ensures [a] + l + b == [a] + (l + b)
  {
  }

  /** Every rendered line is non-empty. */
  lemma {:induction false} DropAfterLines(es: seq<Entry>)
    ensures DropTrailingEmpty(Lines(es) + [""]) == Lines(es)
  {
    assert (Lines(es) + [""])[..|Lines(es)|] == Lines(es);
    if es != [] {
      LinesLast(es);
    }
  }

  lemma {:induction false} LinesLast(es: seq<Entry>)
    requires es != []
    ensures |Lines(es)| == |es| && Lines(es)[|es| - 1] == Line(es[|es| - 1])
  {
    if |es| > 1 {
      LinesLast(es[1..]);
    }
  }

  /** Reading a written log file line by line gives back exactly the written lines. */
  lemma LogFileRoundTrip(es: seq<Entry>)
    requires es != []
    requires forall i :: 0 <= i < |es| ==> Writable(es[i])
    ensures SplitLines(Render(es)) == Lines(es)
  {
    SplitRendered(es);
    assert '\n' in Render(es) by {
      assert Render(es) == Line(es[0]) + "\n" + Render(es[1..]);
      assert Render(es)[|Line(es[0])|] == '\n';
    }
    DropAfterLines(es);
  }
}
