/** The few Python built-ins the GPU resolver leans on, as pure functions:
    str.strip(), str.split(sep), int(text) and sorted(list). */
module Builtins {

  datatype Option<T> = None | Some(value: T)

  /** The characters for which Python's str.isspace() holds; str.strip() trims these. */
  predicate IsSpace(c: char) {
    || c == ' '
    || ('\t' <= c <= '\r')
    || ('\U{1C}' <= c <= '\U{1F}')
    || c == '\U{85}' || c == '\U{A0}' || c == '\U{1680}'
    || ('\U{2000}' <= c <= '\U{200A}')
    || c == '\U{2028}' || c == '\U{2029}' || c == '\U{202F}' || c == '\U{205F}' || c == '\U{3000}'
  }

  predicate AllSpace(s: string) {
    forall i :: 0 <= i < |s| ==> IsSpace(s[i])
  }

  /** Neither starts nor ends with whitespace. */
  predicate Trimmed(s: string) {
    s == [] || (!IsSpace(s[0]) && !IsSpace(s[|s| - 1]))
  }

  /** The suffix of s left after dropping its leading whitespace. */
  function TrimStart(s: string): (r: string)
    ensures |r| <= |s| && r == s[|s| - |r|..]
    ensures r == [] || !IsSpace(r[0])
  {
    if s != [] && IsSpace(s[0]) then TrimStart(s[1..]) else s
  }

  /** The prefix of s left after dropping its trailing whitespace. */
  function TrimEnd(s: string): (r: string)
    ensures |r| <= |s| && r == s[..|r|]
    ensures r == [] || !IsSpace(r[|r| - 1])
  {
    if s != [] && IsSpace(s[|s| - 1]) then TrimEnd(s[..|s| - 1]) else s
  }

  /** str.strip() with no argument. */
  function Strip(s: string): (r: string)
    ensures Trimmed(r)
    ensures |r| <= |s|
  {
    TrimEnd(TrimStart(s))
  }

  lemma {:induction false} TrimStartSkips(a: string, t: string)
    requires AllSpace(a)
    ensures TrimStart(a + t) == TrimStart(t)
  {
    if a != [] {
      assert (a + t)[0] == a[0] && (a + t)[1..] == a[1..] + t;
      assert AllSpace(a[1..]) by {
        assert forall i :: 0 <= i < |a[1..]| ==> a[1..][i] == a[i + 1];
      }
      TrimStartSkips(a[1..], t);
    } else {
      assert a + t == t;
    }
  }

  lemma {:induction false} TrimEndSkips(t: string, b: string)
    requires AllSpace(b)
    ensures TrimEnd(t + b) == TrimEnd(t)
  {
    if b != [] {
      assert (t + b)[|t + b| - 1] == b[|b| - 1] && (t + b)[..|t + b| - 1] == t + b[..|b| - 1];
      assert AllSpace(b[..|b| - 1]) by {
        assert forall i :: 0 <= i < |b| - 1 ==> b[..|b| - 1][i] == b[i];
      }
      TrimEndSkips(t, b[..|b| - 1]);
    } else {
      assert t + b == t;
    }
  }

  /** Strip removes exactly the whitespace padding around a trimmed text, and nothing else. */
  lemma StripPadded(a: string, t: string, b: string)
    requires AllSpace(a) && AllSpace(b) && Trimmed(t)
    ensures Strip(a + t + b) == t
  {
    assert a + t + b == a + (t + b);
    TrimStartSkips(a, t + b);
    if t == [] {
      assert t + b == b + [];
      TrimStartSkips(b, []);
    } else {
      assert (t + b)[0] == t[0];
      TrimEndSkips(t, b);
    }
  }

  /** Strip leaves trimmed text as it is. */
  lemma StripTrimmed(t: string)
    requires Trimmed(t)
    ensures Strip(t) == t
  {
    assert [] + t + [] == t;
    StripPadded([], t, []);
  }

  function Occurrences(s: string, c: char): (n: nat)
    ensures n == 0 <==> c !in s
  {
    if s == [] then 0 else (if s[0] == c then 1 else 0) + Occurrences(s[1..], c)
  }

  /** sep.join(parts): the inverse of Split. */
  function Join(parts: seq<string>, sep: char): string {
    if parts == [] then []
    else if |parts| == 1 then parts[0]
    else parts[0] + [sep] + Join(parts[1..], sep)
  }

  /** str.split(sep) with an explicit one-character separator: the pieces between
      separators, empty pieces included, so there is always one more piece than separators. */
  function Split(s: string, sep: char): (r: seq<string>)
    ensures |r| == Occurrences(s, sep) + 1
    ensures forall p :: p in r ==> sep !in p
    ensures Join(r, sep) == s
  {
    if s == [] then [[]]
    else
      var rest := Split(s[1..], sep);
      if s[0] == sep then
        assert ([[]] + rest)[1..] == rest;
        [[]] + rest
      else
        var r := [[s[0]] + rest[0]] + rest[1..];
        assert r[1..] == rest[1..];
        assert Join(r, sep) == [s[0]] + Join(rest, sep);
        assert s == [s[0]] + s[1..];
        r
  }

  /** A leading separator splits off an empty first piece. */
  lemma SplitAfterSep(sep: char, s: string)
    ensures Split([sep] + s, sep) == [[]] + Split(s, sep)
  {
    assert ([sep] + s)[1..] == s;
  }

  /** Any other leading character joins the first piece. */
  lemma SplitAfterChar(c: char, sep: char, s: string)
    requires c != sep
    ensures Split([c] + s, sep) == [[c] + Split(s, sep)[0]] + Split(s, sep)[1..]
  {
    assert ([c] + s)[1..] == s;
  }

  /** Splitting a join of separator-free pieces gives the pieces back. */
  lemma {:induction false} SplitJoin(parts: seq<string>, sep: char)
    requires |parts| >= 1
    requires forall p :: p in parts ==> sep !in p
    ensures Split(Join(parts, sep), sep) == parts
    decreases |Join(parts, sep)|
  {
    var p0 := parts[0];
    if p0 == [] {
      if |parts| > 1 {
        var tail := parts[1..];
        assert forall p :: p in tail ==> p in parts;
        assert Join(parts, sep) == [sep] + Join(tail, sep);
        SplitJoin(tail, sep);
        SplitAfterSep(sep, Join(tail, sep));
        assert parts == [[]] + tail;
      }
    } else {
      var shorter := [p0[1..]] + parts[1..];
      assert shorter[1..] == parts[1..];
      assert forall p :: p in shorter ==> sep !in p by {
        assert forall p :: p in parts[1..] ==> p in parts;
        assert p0 in parts;
        assert forall i :: 0 <= i < |p0[1..]| ==> p0[1..][i] == p0[i + 1];
      }
      assert p0 == [p0[0]] + p0[1..];
      assert Join(parts, sep) == [p0[0]] + Join(shorter, sep);
      SplitJoin(shorter, sep);
      assert p0 in parts && p0[0] in p0;
      SplitAfterChar(p0[0], sep, Join(shorter, sep));
      assert parts == [p0] + parts[1..];
    }
  }

  /** Two separator-free texts joined by the separator split back into the two. */
  lemma SplitPair(first: string, sep: char, second: string)
    requires sep !in first && sep !in second
    ensures Split(first + [sep] + second, sep) == [first, second]
  {
    var parts := [first, second];
    assert parts[1..] == [second];
    assert Join(parts, sep) == first + [sep] + second;
    SplitJoin(parts, sep);
  }

  /** The first piece of s.split(sep) is the text up to the first separator. */
  lemma FirstPiece(t: string, sep: char, rest: string)
    requires sep !in t
    ensures Split(t + [sep] + rest, sep)[0] == t
  {
    var ps := Split(rest, sep);
    var parts := [t] + ps;
    assert parts[1..] == ps;
    assert forall p :: p in parts ==> sep !in p;
    assert Join(parts, sep) == t + [sep] + rest;
    SplitJoin(parts, sep);
  }

  /** A text with one separator splits into the text before it and the text after it. */
  lemma SplitInTwo(s: string, sep: char)
    requires Occurrences(s, sep) == 1
    ensures |Split(s, sep)| == 2
    ensures s == Split(s, sep)[0] + [sep] + Split(s, sep)[1]
  {
    var fields := Split(s, sep);
    assert |fields| == 2;
    assert fields[1..] == [fields[1]];
    assert Join(fields[1..], sep) == fields[1];
    assert Join(fields, sep) == fields[0] + [sep] + Join(fields[1..], sep);
  }

  predicate IsDigit(c: char) {
    '0' <= c <= '9'
  }

  predicate AllDigits(d: string) {
    forall i :: 0 <= i < |d| ==> IsDigit(d[i])
  }

  /** The value of a string of decimal digits, most significant first. */
  function DigitsValue(d: string): nat
    requires AllDigits(d)
  {
    if d == [] then 0 else DigitsValue(d[..|d| - 1]) * 10 + (d[|d| - 1] as int - '0' as int)
  }

  /** U+001C..U+001F: str.isspace() holds for them, so str.strip() removes them, but
      int() copies them through as ordinary characters and so never skips them. */
  predicate IsSeparatorControl(c: char) {
    '\U{1C}' <= c <= '\U{1F}'
  }

  predicate NoSeparatorControl(s: string) {
    forall i :: 0 <= i < |s| ==> !IsSeparatorControl(s[i])
  }

  /** The whitespace int() skips around a literal. */
  predicate AllIntSpace(s: string) {
    forall i :: 0 <= i < |s| ==> IsSpace(s[i]) && !IsSeparatorControl(s[i])
  }

  /** The most digits int() converts from decimal text: CPython's default for
      sys.get_int_max_str_digits(). Longer literals raise ValueError. */
  const MaxStrDigits: nat := 4300

  /** An optional sign followed by one to MaxStrDigits ASCII digits. */
  predicate IntLiteral(t: string) {
    || (t != [] && AllDigits(t) && |t| <= MaxStrDigits)
    || (|t| > 1 && (t[0] == '-' || t[0] == '+') && AllDigits(t[1..]) && |t| - 1 <= MaxStrDigits)
  }

  /** int() once the whitespace is gone: an optional sign, then one to MaxStrDigits
      ASCII digits; anything else is the ValueError case, None. */
  function ParseStripped(t: string): (r: Option<int>)
    ensures r.Some? <==> IntLiteral(t)
    ensures r.Some? && r.value < 0 ==> t[0] == '-'
  {
    if |t| > 1 && (t[0] == '-' || t[0] == '+') && AllDigits(t[1..]) && |t| - 1 <= MaxStrDigits then
      var v: int := DigitsValue(t[1..]);
      Some(if t[0] == '-' then -v else v)
    else if t != [] && AllDigits(t) && |t| <= MaxStrDigits then Some(DigitsValue(t))
    else None
  }

  /** int(text) on a decimal literal, whitespace around it allowed: it succeeds exactly
      when no U+001C..U+001F occurs and the stripped text is a literal. */
  function ParseInt(text: string): (r: Option<int>)
    ensures r.Some? <==> NoSeparatorControl(text) && IntLiteral(Strip(text))
  {
    if NoSeparatorControl(text) then ParseStripped(Strip(text)) else None
  }

  /** str(n) for a non-negative n: its shortest decimal spelling. */
  function Decimal(n: nat): (d: string)
    ensures d != [] && AllDigits(d)
    ensures |d| > 1 ==> d[0] != '0'
  {
    var last := ['0' + (n % 10) as char];
    if n < 10 then last else Decimal(n / 10) + last
  }

  lemma {:induction false} DecimalValue(n: nat)
    ensures DigitsValue(Decimal(n)) == n
  {
    var d := Decimal(n);
    if n >= 10 {
      assert d[..|d| - 1] == Decimal(n / 10);
      DecimalValue(n / 10);
    }
  }

  /** Digits, and a sign followed by digits, are trimmed text. */
  lemma DigitsTrimmed(m: string)
    requires |m| > 0 && AllDigits(m[1..])
    requires IsDigit(m[0]) || m[0] == '-' || m[0] == '+'
    ensures Trimmed(m)
  {
    if |m| > 1 {
      assert m[|m| - 1] == m[1..][|m| - 2];
      assert IsDigit(m[|m| - 1]);
    }
  }

  /** A literal between whitespace that int() skips holds no U+001C..U+001F. */
  lemma PaddedClean(a: string, m: string, b: string)
    requires AllIntSpace(a) && AllIntSpace(b)
    requires |m| > 0 && AllDigits(m[1..]) && (IsDigit(m[0]) || m[0] == '-' || m[0] == '+')
    ensures NoSeparatorControl(a + m + b)
  {
    var s := a + m + b;
    forall i | 0 <= i < |s| ensures !IsSeparatorControl(s[i]) {
      if i < |a| {
        assert s[i] == a[i];
      } else if i < |a| + |m| {
        assert s[i] == m[i - |a|];
        if i > |a| {
          assert m[i - |a|] == m[1..][i - |a| - 1];
        }
      } else {
        assert s[i] == b[i - |a| - |m|];
      }
    }
  }

  /** int() of digits is their value. */
  lemma ParseOfDigits(d: string)
    requires d != [] && AllDigits(d) && |d| <= MaxStrDigits
    ensures ParseStripped(d) == Some(DigitsValue(d) as int)
  {
    assert IsDigit(d[0]);
  }

  /** int() reads a run of digits as its value, whatever whitespace it skips surrounds it. */
  lemma ParsePaddedDigits(d: string, a: string, b: string)
    requires d != [] && AllDigits(d) && |d| <= MaxStrDigits
    requires AllIntSpace(a) && AllIntSpace(b)
    ensures ParseInt(a + d + b) == Some(DigitsValue(d) as int)
  {
    assert AllDigits(d[1..]) by {
      assert forall i :: 0 <= i < |d[1..]| ==> d[1..][i] == d[i + 1];
    }
    DigitsTrimmed(d);
    PaddedClean(a, d, b);
    StripPadded(a, d, b);
    ParseOfDigits(d);
  }

  /** int() reads back what str() writes, whatever whitespace it skips surrounds it,
      as long as str(n) is within the digit limit. */
  lemma ParseDecimal(n: nat, a: string, b: string)
    requires |Decimal(n)| <= MaxStrDigits
    requires AllIntSpace(a) && AllIntSpace(b)
    ensures ParseInt(a + Decimal(n) + b) == Some(n)
  {
    DecimalValue(n);
    ParsePaddedDigits(Decimal(n), a, b);
  }

  /** int() of a sign and digits is the value of the digits, negated after a minus. */
  lemma ParseOfSigned(m: string)
    requires |m| > 1 && (m[0] == '-' || m[0] == '+') && AllDigits(m[1..]) && |m| - 1 <= MaxStrDigits
    ensures ParseStripped(m) == Some(if m[0] == '-' then -(DigitsValue(m[1..]) as int) else DigitsValue(m[1..]) as int)
  {
  }

  /** int() reads a plus or minus sign and digits as the signed value, whatever
      whitespace it skips surrounds them. */
  lemma ParsePaddedSigned(m: string, a: string, b: string)
    requires |m| > 1 && (m[0] == '-' || m[0] == '+') && AllDigits(m[1..]) && |m| - 1 <= MaxStrDigits
    requires AllIntSpace(a) && AllIntSpace(b)
    ensures ParseInt(a + m + b) == Some(if m[0] == '-' then -(DigitsValue(m[1..]) as int) else DigitsValue(m[1..]) as int)
  {
    DigitsTrimmed(m);
    PaddedClean(a, m, b);
    StripPadded(a, m, b);
    ParseOfSigned(m);
  }

  /** More than MaxStrDigits digits make int() raise ValueError, whatever whitespace
      str.strip() would remove around them. */
  lemma TooManyDigitsRejected(d: string, a: string, b: string)
    requires AllDigits(d) && |d| > MaxStrDigits
    requires AllSpace(a) && AllSpace(b)
    ensures ParseInt(a + d + b) == None
  {
    assert AllDigits(d[1..]) by {
      assert forall i :: 0 <= i < |d[1..]| ==> d[1..][i] == d[i + 1];
    }
    assert IsDigit(d[0]);
    DigitsTrimmed(d);
    StripPadded(a, d, b);
  }

  /** A leading U+001C..U+001F is whitespace to str.strip() but makes int() fail. */
  lemma SeparatorControlRejected(c: char, n: nat)
    requires IsSeparatorControl(c)
    ensures Strip([c] + Decimal(n)) == Decimal(n)
    ensures ParseInt([c] + Decimal(n)) == None
  {
    var d := Decimal(n);
    assert AllDigits(d[1..]) by {
      assert forall i :: 0 <= i < |d[1..]| ==> d[1..][i] == d[i + 1];
    }
    DigitsTrimmed(d);
    assert [c] + d + [] == [c] + d;
    StripPadded([c], d, []);
    assert ([c] + d)[0] == c;
  }

  predicate IsSorted(s: seq<int>) {
    forall i, j :: 0 <= i < j < |s| ==> s[i] <= s[j]
  }

  /** Places x into an ascending sequence. */
  function Insert(s: seq<int>, x: int): (r: seq<int>)
    requires IsSorted(s)
    ensures IsSorted(r)
    ensures multiset(r) == multiset(s) + multiset{x}
  {
    if s == [] || x <= s[0] then [x] + s
    else
      var t := Insert(s[1..], x);
      InsertedAbove(s, x, t);
      assert s == [s[0]] + s[1..];
      [s[0]] + t
  }

  /** What is inserted after the head of a sorted sequence stays at or above that head. */
  lemma InsertedAbove(s: seq<int>, x: int, t: seq<int>)
    requires IsSorted(s) && s != [] && s[0] < x
    requires IsSorted(t) && multiset(t) == multiset(s[1..]) + multiset{x}
    ensures IsSorted([s[0]] + t)
  {
    var r := [s[0]] + t;
    forall i | 0 <= i < |t| ensures s[0] <= t[i] {
      assert t[i] in multiset(t);
      if t[i] != x {
        assert t[i] in multiset(s[1..]);
        var k :| 0 <= k < |s[1..]| && s[1..][k] == t[i];
        assert s[k + 1] == t[i];
      }
    }
    forall i, j | 0 <= i < j < |r| ensures r[i] <= r[j] {
      assert r[j] == t[j - 1];
      if i > 0 {
        assert r[i] == t[i - 1];
      }
    }
  }

  /** sorted(list): the ascending rearrangement of s. */
  function SortAscending(s: seq<int>): (r: seq<int>)
    ensures IsSorted(r)
    ensures multiset(r) == multiset(s)
  {
    if s == [] then []
    else
      assert s == s[..|s| - 1] + [s[|s| - 1]];
      Insert(SortAscending(s[..|s| - 1]), s[|s| - 1])
  }
}
