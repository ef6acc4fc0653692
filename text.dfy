/** The string building the components do: decimal numbers, `toFixed(2)`,
    and `join`/`split` on one separator character. */
module Text {
  import opened Common

  predicate IsDigit(c: char) {
    '0' <= c <= '9'
  }

  function DigitChar(d: nat): (c: char)
    requires d < 10
    ensures IsDigit(c)
  {
    "0123456789"[d]
  }

  function DigitValue(c: char): nat
    requires IsDigit(c)
  {
    (c as int - '0' as int) as nat
  }

  /** `String(n)` for a natural number. */
  function NatText(n: nat): (s: string)
    ensures |s| >= 1
    ensures forall i :: 0 <= i < |s| ==> IsDigit(s[i])
  {
    if n < 10 then [DigitChar(n)] else NatText(n / 10) + [DigitChar(n % 10)]
  }

  /** Reads a string of decimal digits back as a number. */
  function ParseDigits(s: string): nat
    requires forall i :: 0 <= i < |s| ==> IsDigit(s[i])
  {
    if s == [] then 0 else 10 * ParseDigits(s[..|s| - 1]) + DigitValue(s[|s| - 1])
  }

  /** Decimal rendering loses nothing: reading the digits back gives the number. */
  lemma {:induction false} NatTextRoundTrip(n: nat)
    ensures ParseDigits(NatText(n)) == n
  {
    if n >= 10 {
      NatTextRoundTrip(n / 10);
      var s := NatText(n);
      assert s[..|s| - 1] == NatText(n / 10);
    }
  }

  /** `String(i)` for an integer. */
  function IntText(i: int): string {
    if i < 0 then "-" + NatText(-i) else NatText(i)
  }

  /** Two digits with a leading zero, as `'2-digit'` formatting writes them. */
  function TwoDigits(n: nat): (s: string)
    requires n < 100
    ensures |s| == 2 && IsDigit(s[0]) && IsDigit(s[1])
  {
    [DigitChar(n / 10), DigitChar(n % 10)]
  }

  /** `(h / 100).toFixed(2)` for a value held as a whole number of hundredths. */
  function HundredthsText(h: int): (s: string)
    ensures forall i :: 0 <= i < |s| ==> IsDigit(s[i]) || s[i] == '.' || s[i] == '-'
    ensures ',' !in s && '\n' !in s && '"' !in s
  {
    var m: nat := if h < 0 then -h else h;
    (if h < 0 then "-" else "") + NatText(m / 100) + "." + TwoDigits(m % 100)
  }

  /** Two digits read back as the number they show. */
  lemma TwoDigitsRoundTrip(n: nat)
    requires n < 100
    ensures ParseDigits(TwoDigits(n)) == n
  {
    var s := TwoDigits(n);
    assert s[..1][..0] == [];
    assert s[..|s| - 1] == [DigitChar(n / 10)];
  }

  /** Reads the unsigned part of a `toFixed(2)` text back as a whole
      number of hundredths: the digits of the whole part, a point and two
      decimals. */
  function ReadUnsignedHundredths(s: string): Option<nat> {
    if |s| < 4 || s[|s| - 3] != '.' then None
    else
      var whole := s[..|s| - 3];
      var frac := s[|s| - 2..];
      if !(forall i :: 0 <= i < |whole| ==> IsDigit(whole[i])) || !IsDigit(frac[0]) || !IsDigit(frac[1]) then None
      else Some(100 * ParseDigits(whole) + ParseDigits(frac))
  }

  /** Reads a `toFixed(2)` text back, an optional '-' first. */
  function ReadHundredths(s: string): Option<int> {
    if |s| > 0 && s[0] == '-' then
      var v := ReadUnsignedHundredths(s[1..]);
      if v.None? then None else Some(0 - v.value as int)
    else
      var v := ReadUnsignedHundredths(s);
      if v.None? then None else Some(v.value)
  }

  lemma UnsignedHundredthsReadsBack(w: nat, f: nat)
    requires f < 100
    ensures ReadUnsignedHundredths(NatText(w) + "." + TwoDigits(f)) == Some(100 * w + f)
  {
    var body := NatText(w) + "." + TwoDigits(f);
    assert body[|body| - 3] == '.';
    assert body[..|body| - 3] == NatText(w);
    assert body[|body| - 2..] == TwoDigits(f);
    NatTextRoundTrip(w);
    TwoDigitsRoundTrip(f);
  }

  /** A '-' before a digit negates what the unsigned part reads as. */
  lemma ReadHundredthsSign(body: string)
    requires |body| > 0 && IsDigit(body[0]) && ReadUnsignedHundredths(body).Some?
    ensures ReadHundredths(body) == Some(ReadUnsignedHundredths(body).value as int)
    ensures ReadHundredths("-" + body) == Some(0 - ReadUnsignedHundredths(body).value as int)
  {
    assert ("-" + body)[1..] == body;
  }

  /** The text shows the value: it reads back as the same number of
      hundredths, with a leading '-' exactly when the value is negative. */
  lemma {:induction false} HundredthsTextReadsBack(h: int)
    ensures ReadHundredths(HundredthsText(h)) == Some(h)
    ensures var s := HundredthsText(h); s[0] == '-' <==> h < 0
  {
    var m: nat := if h < 0 then -h else h;
    var body := NatText(m / 100) + "." + TwoDigits(m % 100);
    assert HundredthsText(h) == (if h < 0 then "-" + body else body);
    UnsignedHundredthsReadsBack(m / 100, m % 100);
    assert 100 * (m / 100) + m % 100 == m;
    assert IsDigit(body[0]);
    ReadHundredthsSign(body);
  }

  /** `parts.join(sep)`. */
  function Join(parts: seq<string>, sep: char): string {
    if |parts| == 0 then ""
    else if |parts| == 1 then parts[0]
    else parts[0] + [sep] + Join(parts[1..], sep)
  }

  /** `s.split(sep)`: always at least one part. */
  function Split(s: string, sep: char): (r: seq<string>)
    ensures |r| >= 1
  {
    if s == [] then [""]
    else if s[0] == sep then [""] + Split(s[1..], sep)
    else
      var rest := Split(s[1..], sep);
      [[s[0]] + rest[0]] + rest[1..]
  }

  lemma {:induction false} SplitPlain(w: string, sep: char)
    requires sep !in w
    ensures Split(w, sep) == [w]
  {
    if w != [] {
      SplitPlain(w[1..], sep);
      assert [w[0]] + w[1..] == w;
    }
  }

  lemma {:induction false} SplitAfterWord(w: string, sep: char, t: string)
    requires sep !in w
    ensures Split(w + [sep] + t, sep) == [w] + Split(t, sep)
  {
    if w == [] {
      assert w + [sep] + t == [sep] + t;
      assert ([sep] + t)[1..] == t;
    } else {
      var s := w + [sep] + t;
      assert s[0] == w[0];
      assert s[1..] == w[1..] + [sep] + t;
      SplitAfterWord(w[1..], sep, t);
      assert [w[0]] + w[1..] == w;
    }
  }

  /** A first part followed by further parts, none holding the separator,
      splits back into the same parts. */
  lemma SplitJoinAfter(first: string, rest: seq<string>, sep: char)
    requires sep !in first
    requires forall k :: 0 <= k < |rest| ==> sep !in rest[k]
    ensures Split(Join([first] + rest, sep), sep) == [first] + rest
  {
    var all := [first] + rest;
    assert forall i :: 1 <= i < |all| ==> all[i] == rest[i - 1];
    SplitJoin(all, sep);
  }

  /** Splitting undoes joining when no part contains the separator. */
  lemma {:induction false} SplitJoin(parts: seq<string>, sep: char)
    requires |parts| >= 1
    requires forall i :: 0 <= i < |parts| ==> sep !in parts[i]
    ensures Split(Join(parts, sep), sep) == parts
  {
    if |parts| == 1 {
      SplitPlain(parts[0], sep);
    } else {
      SplitJoin(parts[1..], sep);
      SplitAfterWord(parts[0], sep, Join(parts[1..], sep));
      assert [parts[0]] + parts[1..] == parts;
    }
  }

  /** Joining with `sep` and nothing else introduces no other character. */
  lemma {:induction false} JoinChars(parts: seq<string>, sep: char, c: char)
    requires c != sep
    requires forall i :: 0 <= i < |parts| ==> c !in parts[i]
    ensures c !in Join(parts, sep)
  {
    if |parts| > 1 {
      JoinChars(parts[1..], sep, c);
    }
  }
}
