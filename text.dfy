/** The few Python string operations the analysis code relies on:
    str.isspace, str.strip, the `in` substring test, str.split with a
    separator, int() of a decimal literal, str() of an int, and the way
    readlines() cuts a text into lines. */
module Text {
  import opened Errors

  // ---------------------------------------------------------------------
  // Whitespace and str.strip()
  // ---------------------------------------------------------------------

  /** The characters that str.isspace() accepts, which are the ones
      str.strip() with no argument removes. */
  predicate IsSpace(c: char) {
    || ('\t' <= c <= '\r')
    || ('\U{1C}' <= c <= '\U{1F}')
    || c == ' ' || c == '\U{85}' || c == '\U{A0}' || c == '\U{1680}'
    || ('\U{2000}' <= c <= '\U{200A}')
    || c == '\U{2028}' || c == '\U{2029}' || c == '\U{202F}' || c == '\U{205F}'
    || c == '\U{3000}'
  }

  predicate AllSpace(w: string) {
    forall k | 0 <= k < |w| :: IsSpace(w[k])
  }

  /** s with its leading whitespace removed. */
  function StripLeft(s: string): string
    decreases |s|
  {
    if s != [] && IsSpace(s[0]) then StripLeft(s[1..]) else s
  }

  /** s with its trailing whitespace removed. */
  function StripRight(s: string): string
    decreases |s|
  {
    if s != [] && IsSpace(s[|s| - 1]) then StripRight(s[..|s| - 1]) else s
  }

  /** Python's s.strip(). */
  function Strip(s: string): string {
    StripRight(StripLeft(s))
  }

  /** s[i..j] is what is left of s once the whitespace s[..i] and s[j..]
      around it is cut off, and it neither starts nor ends with whitespace. */
  predicate TrimmedAt(s: string, i: int, j: int) {
    && 0 <= i <= j <= |s|
    && AllSpace(s[..i]) && AllSpace(s[j..])
    && (i == j || (!IsSpace(s[i]) && !IsSpace(s[j - 1])))
  }

  /** StripLeft removes a whitespace prefix and stops at the first other
      character. */
  lemma {:induction false} StripLeftMeaning(s: string)
    ensures var r := StripLeft(s);
            |r| <= |s| && r == s[|s| - |r|..] && AllSpace(s[..|s| - |r|]) && (r == [] || !IsSpace(r[0]))
    decreases |s|
  {
    if s != [] && IsSpace(s[0]) {
      StripLeftMeaning(s[1..]);
      var r := StripLeft(s);
      assert s[..|s| - |r|] == [s[0]] + s[1..][..|s| - 1 - |r|];
    }
  }

  /** StripRight removes a whitespace suffix and stops at the last other
      character. */
  lemma {:induction false} StripRightMeaning(s: string)
    ensures var r := StripRight(s);
            |r| <= |s| && r == s[..|r|] && AllSpace(s[|r|..]) && (r == [] || !IsSpace(r[|r| - 1]))
    decreases |s|
  {
    if s != [] && IsSpace(s[|s| - 1]) {
      StripRightMeaning(s[..|s| - 1]);
      var r := StripRight(s);
      assert s[|r|..] == s[..|s| - 1][|r|..] + [s[|s| - 1]];
    }
  }

  /** strip() returns the slice of s between its leading and its trailing
      whitespace. */
  lemma StripMeaning(s: string)
    ensures exists i, j :: TrimmedAt(s, i, j) && Strip(s) == s[i..j]
  {
    var l := StripLeft(s);
    StripLeftMeaning(s);
    StripRightMeaning(l);
    var r := StripRight(l);
    var i, j := |s| - |l|, |s| - |l| + |r|;
    assert r == s[i..j];
    assert s[j..] == l[|r|..];
    if i < j {
      assert s[i] == l[0] == r[0];
      assert s[j - 1] == r[|r| - 1];
    }
    assert TrimmedAt(s, i, j);
  }

  lemma {:induction false} StripLeftSkips(w: string, x: string)
    requires AllSpace(w)
    requires x == [] || !IsSpace(x[0])
    ensures StripLeft(w + x) == x
    decreases |w|
  {
    if w != [] {
      assert (w + x)[1..] == w[1..] + x;
      StripLeftSkips(w[1..], x);
    } else {
      assert w + x == x;
    }
  }

  lemma {:induction false} StripRightSkips(x: string, w: string)
    requires AllSpace(w)
    requires x == [] || !IsSpace(x[|x| - 1])
    ensures StripRight(x + w) == x
    decreases |w|
  {
    if w != [] {
      assert (x + w)[..|x + w| - 1] == x + w[..|w| - 1];
      StripRightSkips(x, w[..|w| - 1]);
    } else {
      assert x + w == x;
    }
  }

  /** strip() removes exactly the whitespace around a text whose own
      ends are not whitespace: Strip(w1 + t + w2) == t. */
  lemma StripExact(w1: string, t: string, w2: string)
    requires AllSpace(w1) && AllSpace(w2)
    requires t == [] || (!IsSpace(t[0]) && !IsSpace(t[|t| - 1]))
    ensures Strip(w1 + t + w2) == t
  {
    if t == [] {
      assert w1 + t + w2 == (w1 + w2) + [];
      StripLeftSkips(w1 + w2, []);
    } else {
      assert w1 + t + w2 == w1 + (t + w2);
      StripLeftSkips(w1, t + w2);
      StripRightSkips(t, w2);
    }
  }

  // ---------------------------------------------------------------------
  // The `in` substring test
  // ---------------------------------------------------------------------

  /** Python's `sub in s` on two strings. */
  predicate Contains(s: string, sub: string)
    decreases |s|
  {
    |sub| <= |s| && (s[..|sub|] == sub || Contains(s[1..], sub))
  }

  /** sub occurs in s at offset i. */
  predicate OccursAt(s: string, sub: string, i: int) {
    0 <= i <= |s| - |sub| && s[i..i + |sub|] == sub
  }

  /** `sub in s` holds exactly when sub occurs at some offset of s. */
  lemma {:induction false} ContainsIff(s: string, sub: string)
    ensures Contains(s, sub) <==> exists i :: OccursAt(s, sub, i)
    decreases |s|
  {
    if |sub| <= |s| {
      if s[..|sub|] == sub {
        assert OccursAt(s, sub, 0);
      } else {
        ContainsIff(s[1..], sub);
        if Contains(s[1..], sub) {
          var i :| OccursAt(s[1..], sub, i);
          assert s[i + 1..i + 1 + |sub|] == s[1..][i..i + |sub|];
          assert OccursAt(s, sub, i + 1);
        }
        if exists i :: OccursAt(s, sub, i) {
          var i :| OccursAt(s, sub, i);
          assert i != 0;
          assert s[1..][i - 1..i - 1 + |sub|] == s[i..i + |sub|];
          assert OccursAt(s[1..], sub, i - 1);
        }
      }
    } else {
      assert forall i :: !OccursAt(s, sub, i);
    }
  }

  /** A text none of whose characters is the first character of sub does
      not contain sub. */
  lemma {:induction false} NotContainsLead(s: string, sub: string)
    requires sub != []
    requires forall k | 0 <= k < |s| :: s[k] != sub[0]
    ensures !Contains(s, sub)
    decreases |s|
  {
    if |sub| <= |s| {
      assert s[..|sub|][0] == s[0];
      NotContainsLead(s[1..], sub);
    }
  }

  // ---------------------------------------------------------------------
  // str.split(sep)
  // ---------------------------------------------------------------------

  /** Python's s.split(sep) for a non-empty separator: every leftmost,
      non-overlapping occurrence of sep ends a field. */
  function Split(s: string, sep: string): (fields: seq<string>)
    requires sep != []
    ensures |fields| >= 1
    decreases |s|
  {
    if |s| < |sep| then [s]
    else if s[..|sep|] == sep then [""] + Split(s[|sep|..], sep)
    else
      var rest := Split(s[1..], sep);
      [[s[0]] + rest[0]] + rest[1..]
  }

  /** Python's sep.join(fields). */
  function Join(fields: seq<string>, sep: string): string
    requires |fields| >= 1
    decreases |fields|
  {
    if |fields| == 1 then fields[0] else fields[0] + sep + Join(fields[1..], sep)
  }

  /** The first field is where the joined text starts. */
  lemma JoinStartsWithFirst(fields: seq<string>, sep: string)
    requires |fields| >= 1
    ensures |fields[0]| <= |Join(fields, sep)|
    ensures Join(fields, sep)[..|fields[0]|] == fields[0]
  {
  }

  lemma JoinCons(f: string, rest: seq<string>, sep: string)
    requires |rest| >= 1
    ensures Join([f] + rest, sep) == f + sep + Join(rest, sep)
  {
    assert ([f] + rest)[1..] == rest;
  }

  lemma JoinGrowFirst(c: char, rest: seq<string>, sep: string)
    requires |rest| >= 1
    ensures Join([[c] + rest[0]] + rest[1..], sep) == [c] + Join(rest, sep)
  {
    if |rest| > 1 {
      JoinCons([c] + rest[0], rest[1..], sep);
      JoinCons(rest[0], rest[1..], sep);
      assert rest == [rest[0]] + rest[1..];
    }
  }

  /** Joining the fields of a split with the same separator gives back
      the original text. */
  lemma {:induction false} JoinSplit(s: string, sep: string)
    requires sep != []
    ensures Join(Split(s, sep), sep) == s
    decreases |s|
  {
    if |s| < |sep| {
    } else if s[..|sep|] == sep {
      JoinSplit(s[|sep|..], sep);
      JoinCons("", Split(s[|sep|..], sep), sep);
      assert s == sep + s[|sep|..];
    } else {
      JoinSplit(s[1..], sep);
      JoinGrowFirst(s[0], Split(s[1..], sep), sep);
      assert s == [s[0]] + s[1..];
    }
  }

  /** No field of a split contains the separator. */
  lemma {:induction false} SplitFieldsFree(s: string, sep: string)
    requires sep != []
    ensures forall i | 0 <= i < |Split(s, sep)| :: !Contains(Split(s, sep)[i], sep)
    decreases |s|
  {
    if |s| < |sep| {
    } else if s[..|sep|] == sep {
      SplitFieldsFree(s[|sep|..], sep);
      var fields := Split(s, sep);
      forall i | 0 <= i < |fields| ensures !Contains(fields[i], sep) {
        if i > 0 {
          assert fields[i] == Split(s[|sep|..], sep)[i - 1];
        }
      }
    } else {
      var rest := Split(s[1..], sep);
      SplitFieldsFree(s[1..], sep);
      JoinSplit(s[1..], sep);
      JoinStartsWithFirst(rest, sep);
      var first := [s[0]] + rest[0];
      assert first == s[..|first|];
      if |sep| <= |first| {
        assert first[..|sep|] == s[..|sep|];
        assert first[1..] == rest[0];
      }
      var fields := Split(s, sep);
      forall i | 0 <= i < |fields| ensures !Contains(fields[i], sep) {
        if i > 0 {
          assert fields[i] == rest[i];
        }
      }
    }
  }

  /** Splitting a text that does not contain the separator gives one field. */
  lemma {:induction false} SplitOfFree(s: string, sep: string)
    requires sep != [] && !Contains(s, sep)
    ensures Split(s, sep) == [s]
    decreases |s|
  {
    if |s| >= |sep| {
      SplitOfFree(s[1..], sep);
      assert [s[0]] + s[1..] == s;
    }
  }

  /** With a one-character separator, a field free of it is split off first:
      Split(a + sep + t) == [a] + Split(t). */
  lemma {:induction false} SplitAfterFree(a: string, sep: string, t: string)
    requires |sep| == 1 && !Contains(a, sep)
    ensures Split(a + sep + t, sep) == [a] + Split(t, sep)
    decreases |a|
  {
    var s := a + sep + t;
    if a == [] {
      assert s[..|sep|] == sep;
      assert s[|sep|..] == t;
    } else {
      assert a[..1] != sep;
      assert s[..1] == a[..1];
      assert s[1..] == a[1..] + sep + t;
      SplitAfterFree(a[1..], sep, t);
      assert [s[0]] + a[1..] == a;
    }
  }

  // ---------------------------------------------------------------------
  // int() and str() of decimal integers
  // ---------------------------------------------------------------------

  predicate IsDigit(c: char) {
    '0' <= c <= '9'
  }

  predicate AllDigits(s: string) {
    forall k | 0 <= k < |s| :: IsDigit(s[k])
  }

  /** The value of a string of decimal digits. */
  function DigitsValue(s: string): nat
    requires AllDigits(s)
    decreases |s|
  {
    if s == [] then 0 else 10 * DigitsValue(s[..|s| - 1]) + (s[|s| - 1] as int - '0' as int)
  }

  /** The decimal digits of n, without leading zeros. */
  function NatToDigits(n: nat): (s: string)
    ensures s != [] && AllDigits(s)
    ensures |s| > 1 ==> s[0] != '0'
    decreases n
  {
    if n < 10 then [('0' as int + n) as char]
    else NatToDigits(n / 10) + [('0' as int + n % 10) as char]
  }

  /** CPython's default limit on the number of digits int() reads and
      str() writes (sys.int_info.default_max_str_digits); beyond it both
      raise ValueError. */
  const MaxStrDigits := 4300

  /** str(n) succeeds: n has at most MaxStrDigits decimal digits. */
  predicate Printable(n: int) {
    |NatToDigits(if n < 0 then -n else n)| <= MaxStrDigits
  }

  /** The whitespace int() skips around its literal. int() turns every
      non-ASCII character that str.isspace() accepts into a space and then
      skips space, \t, \n, \v, \f and \r; the ASCII separators \x1c to
      \x1f, which str.isspace() also accepts, are not skipped. */
  predicate IsIntSpace(c: char) {
    IsSpace(c) && !('\U{1C}' <= c <= '\U{1F}')
  }

  predicate AllIntSpace(w: string) {
    forall k | 0 <= k < |w| :: IsIntSpace(w[k])
  }

  /** s without the leading whitespace int() skips. */
  function IntTrimLeft(s: string): string
    decreases |s|
  {
    if s != [] && IsIntSpace(s[0]) then IntTrimLeft(s[1..]) else s
  }

  /** s without the trailing whitespace int() skips. */
  function IntTrimRight(s: string): string
    decreases |s|
  {
    if s != [] && IsIntSpace(s[|s| - 1]) then IntTrimRight(s[..|s| - 1]) else s
  }

  lemma {:induction false} IntTrimLeftSkips(w: string, x: string)
    requires AllIntSpace(w)
    requires x == [] || !IsIntSpace(x[0])
    ensures IntTrimLeft(w + x) == x
    decreases |w|
  {
    if w != [] {
      assert (w + x)[1..] == w[1..] + x;
      IntTrimLeftSkips(w[1..], x);
    } else {
      assert w + x == x;
    }
  }

  lemma {:induction false} IntTrimRightSkips(x: string, w: string)
    requires AllIntSpace(w)
    requires x == [] || !IsIntSpace(x[|x| - 1])
    ensures IntTrimRight(x + w) == x
    decreases |w|
  {
    if w != [] {
      assert (x + w)[..|x + w| - 1] == x + w[..|w| - 1];
      IntTrimRightSkips(x, w[..|w| - 1]);
    } else {
      assert x + w == x;
    }
  }

  /** Python's int(s) on a decimal literal: the whitespace of IsIntSpace
      around it is skipped, a sign is optional, and between one and
      MaxStrDigits digits are needed. */
  function ParseInt(s: string): (r: Result<int>)
    ensures r.Failure? ==> r.error == InvalidLiteral
  {
    ParseLiteral(IntTrimRight(IntTrimLeft(s)))
  }

  /** The value of an optionally signed digit string t. */
  function ParseLiteral(t: string): Result<int> {
    if t == [] then Failure(InvalidLiteral)
    else
      var ds := if t[0] == '-' || t[0] == '+' then t[1..] else t;
      if ds == [] || !AllDigits(ds) || |ds| > MaxStrDigits then Failure(InvalidLiteral)
      else
        var v: int := DigitsValue(ds);
        Success(if t[0] == '-' then -v else v)
  }

  /** Python's str(n) for an int, where it succeeds (Printable(n)). */
  function IntToString(n: int): (s: string)
    ensures s != [] && !IsSpace(s[0]) && !IsSpace(s[|s| - 1])
    ensures forall k | 0 <= k < |s| :: IsDigit(s[k]) || s[k] == '-'
  {
    if n < 0 then "-" + NatToDigits(-n) else NatToDigits(n)
  }

  lemma {:induction false} DigitsRoundTrip(n: nat)
    ensures DigitsValue(NatToDigits(n)) == n
    decreases n
  {
    if n >= 10 {
      DigitsRoundTrip(n / 10);
      var s := NatToDigits(n);
      assert s[..|s| - 1] == NatToDigits(n / 10);
    }
  }

  lemma ParseLiteralOfString(n: int)
    requires Printable(n)
    ensures ParseLiteral(IntToString(n)) == Success(n)
  {
    var t := IntToString(n);
    if n < 0 {
      DigitsRoundTrip(-n);
      assert t[1..] == NatToDigits(-n);
    } else {
      DigitsRoundTrip(n);
      assert t[0] != '-';
    }
  }

  /** int() reads back what str() writes, with or without the whitespace
      it skips around the literal. */
  lemma ParseIntRoundTrip(w1: string, n: int, w2: string)
    requires Printable(n) && AllIntSpace(w1) && AllIntSpace(w2)
    ensures ParseInt(w1 + IntToString(n) + w2) == Success(n)
  {
    var t := IntToString(n);
    assert w1 + t + w2 == w1 + (t + w2);
    IntTrimLeftSkips(w1, t + w2);
    IntTrimRightSkips(t, w2);
    ParseLiteralOfString(n);
  }

  /** int(str(n)) == n. */
  lemma ParseIntOfString(n: int)
    requires Printable(n)
    ensures ParseInt(IntToString(n)) == Success(n)
  {
    ParseIntRoundTrip("", n, "");
    assert "" + IntToString(n) + "" == IntToString(n);
  }

  /** str() is injective: a number is determined by its decimal text. */
  lemma IntToStringInjective(x: int, y: int)
    ensures IntToString(x) == IntToString(y) ==> x == y
  {
    if IntToString(x) == IntToString(y) {
      var s := IntToString(x);
      if x < 0 && y < 0 {
        assert s[1..] == NatToDigits(-x) == NatToDigits(-y);
        DigitsRoundTrip(-x);
        DigitsRoundTrip(-y);
      } else if x >= 0 && y >= 0 {
        DigitsRoundTrip(x);
        DigitsRoundTrip(y);
      }
    }
  }

  /** A string that str.strip() and int() treat differently: int() does not
      skip the ASCII separator \x1c, so int("1\x1c") raises ValueError
      although "1\x1c".strip() == "1". */
  lemma SeparatorNotSkipped()
    ensures Strip("1\U{1C}") == "1"
    ensures ParseInt("1\U{1C}") == Failure(InvalidLiteral)
  {
    assert "1\U{1C}" == "" + "1" + "\U{1C}";
    StripExact("", "1", "\U{1C}");
    assert IntTrimLeft("1\U{1C}") == "1\U{1C}";
    assert IntTrimRight("1\U{1C}") == "1\U{1C}";
  }

  /** A literal of more than MaxStrDigits digits makes int() raise
      ValueError. */
  lemma TooManyDigits(ds: string)
    requires |ds| > MaxStrDigits && AllDigits(ds)
    ensures ParseInt(ds) == Failure(InvalidLiteral)
  {
    assert ds == "" + ds + "";
    IntTrimLeftSkips("", ds);
    IntTrimRightSkips(ds, "");
  }

  // ---------------------------------------------------------------------
  // readlines()
  // ---------------------------------------------------------------------

  function Concat(lines: seq<string>): string
    decreases |lines|
  {
    if lines == [] then [] else lines[0] + Concat(lines[1..])
  }

  /** The lines readlines() returns for a text: each keeps its "\n", only
      the last may lack one, and none is empty. */
  function ReadLines(text: string): (lines: seq<string>)
    ensures Concat(lines) == text
    ensures forall k | 0 <= k < |lines| :: lines[k] != []
    ensures forall k | 0 <= k < |lines| - 1 :: lines[k][|lines[k]| - 1] == '\n'
    ensures forall k, j | 0 <= k < |lines| && 0 <= j < |lines[k]| - 1 :: lines[k][j] != '\n'
    decreases |text|
  {
    if text == [] then []
    else
      var rest := ReadLines(text[1..]);
      if text[0] == '\n' || rest == [] then
        assert ([[text[0]]] + rest)[1..] == rest;
        [[text[0]]] + rest
      else
        var lines := [[text[0]] + rest[0]] + rest[1..];
        assert lines[1..] == rest[1..];
        assert Concat(rest) == rest[0] + Concat(rest[1..]);
        assert forall k | 1 <= k < |lines| :: lines[k] == rest[k];
        lines
  }
}
