/** Records of the two file formats and the sentinel-terminated scan that
    all three reading loops of lfr_analysis.py perform: read lines in order,
    stop at the first line the stop test accepts, and turn every earlier
    line into a record, or raise the first line's exception. */
module Records {
  import opened Errors
  import opened Text

  // ---------------------------------------------------------------------
  // One record per line
  // ---------------------------------------------------------------------

  /** Python's `a, b = s.split(sep)`. */
  function SplitPair(s: string, sep: string): Result<(string, string)> {
    if sep == [] then Failure(EmptySeparator)
    else
      var fields := Split(s, sep);
      if |fields| != 2 then Failure(UnpackError) else Success((fields[0], fields[1]))
  }

  /** `a, b = s.split(sep)` raises ValueError for an empty separator and
      for a line without exactly one occurrence of sep; otherwise s is
      a + sep + b, and neither a nor b contains sep. */
  lemma SplitPairMeaning(s: string, sep: string)
    ensures var r := SplitPair(s, sep);
            && (sep == [] ==> r == Failure(EmptySeparator))
            && (sep != [] && r.Failure? ==> r.error == UnpackError)
            && (r.Success? ==> s == r.value.0 + sep + r.value.1)
            && (r.Success? ==> !Contains(r.value.0, sep) && !Contains(r.value.1, sep))
  {
    if sep != [] {
      var fields := Split(s, sep);
      if |fields| == 2 {
        JoinSplit(s, sep);
        SplitFieldsFree(s, sep);
        assert fields[1..] == [fields[1]];
      }
    }
  }

  /** With a one-character separator, two fields that do not contain it
      are read back as they were written. */
  lemma SplitPairComplete(a: string, sep: string, b: string)
    requires |sep| == 1 && !Contains(a, sep) && !Contains(b, sep)
    ensures SplitPair(a + sep + b, sep) == Success((a, b))
  {
    SplitAfterFree(a, sep, b);
    SplitOfFree(b, sep);
  }

  /** Python's `a, b = s.split(sep); a = int(a); b = int(b)`. */
  function IntPair(s: string, sep: string): (r: Result<(int, int)>)
    ensures sep == [] ==> r == Failure(EmptySeparator)
  {
    var p :- SplitPair(s, sep);
    var a :- ParseInt(p.0);
    var b :- ParseInt(p.1);
    Success((a, b))
  }

  /** A one-character separator that int() and str() never put in a number. */
  predicate NumberSeparator(sep: string) {
    |sep| == 1 && !IsDigit(sep[0]) && sep[0] != '-'
  }

  /** A line written as str(a) + sep + str(b) is read back as (a, b). */
  lemma IntPairRoundTrip(a: int, sep: string, b: int)
    requires NumberSeparator(sep) && Printable(a) && Printable(b)
    ensures IntPair(IntToString(a) + sep + IntToString(b), sep) == Success((a, b))
  {
    var sa, sb := IntToString(a), IntToString(b);
    NumberFreeOfSeparator(a, sep);
    NumberFreeOfSeparator(b, sep);
    SplitPairComplete(sa, sep, sb);
    ParseIntOfString(a);
    ParseIntOfString(b);
  }

  lemma NumberFreeOfSeparator(n: int, sep: string)
    requires NumberSeparator(sep)
    ensures !Contains(IntToString(n), sep)
  {
    var s := IntToString(n);
    assert forall k | 0 <= k < |s| :: s[k] != sep[0];
    NotContainsLead(s, sep);
  }

  /** A line that is blank once stripped never holds a pair: it splits
      into one field, and the unpacking raises ValueError. */
  lemma BlankIsNotAPair(sep: string)
    requires sep != []
    ensures SplitPair("", sep) == Failure(UnpackError) && IntPair("", sep) == Failure(UnpackError)
  {
    assert Split("", sep) == [""];
  }

  // ---------------------------------------------------------------------
  // The scan
  // ---------------------------------------------------------------------

  /** The number of lines read before the first line that stops the
      scan: the index of that line, or |lines| when there is none. */
  function StopIndex(lines: seq<string>, stop: string -> bool): (n: nat)
    ensures n <= |lines|
    ensures forall k | 0 <= k < n :: !stop(lines[k])
    ensures n < |lines| ==> stop(lines[n])
    decreases |lines|
  {
    if lines == [] || stop(lines[0]) then 0 else 1 + StopIndex(lines[1..], stop)
  }

  /** The records of the lines before the first stop line, in order; the
      first line that does not parse aborts the scan with its exception. */
  function Scan<C, R>(lines: seq<string>, stop: string -> bool, parse: (C, string) -> Result<R>, ctx: C): Result<seq<R>>
    decreases |lines|
  {
    if lines == [] || stop(lines[0]) then Success([])
    else
      var rec :- parse(ctx, lines[0]);
      var rest :- Scan(lines[1..], stop, parse, ctx);
      Success([rec] + rest)
  }

  /** A successful scan has one record per line before the stop line. */
  lemma {:induction false} ScanLength<C, R>(lines: seq<string>, stop: string -> bool, parse: (C, string) -> Result<R>, ctx: C)
    ensures Scan(lines, stop, parse, ctx).Success? ==> |Scan(lines, stop, parse, ctx).value| == StopIndex(lines, stop)
    decreases |lines|
  {
    if lines != [] && !stop(lines[0]) {
      ScanLength(lines[1..], stop, parse, ctx);
    }
  }

  /** A scan whose lines are known one by one: when none of the first
      |recs| lines stops the scan, line k parses to recs[k], and the next
      line (if any) stops it, the scan returns recs. */
  lemma {:induction false} ScanIs<C, R>(lines: seq<string>, stop: string -> bool, parse: (C, string) -> Result<R>, ctx: C, recs: seq<R>)
    requires |recs| <= |lines|
    requires forall k | 0 <= k < |recs| :: !stop(lines[k]) && parse(ctx, lines[k]) == Success(recs[k])
    requires |recs| == |lines| || stop(lines[|recs|])
    ensures Scan(lines, stop, parse, ctx) == Success(recs)
    ensures StopIndex(lines, stop) == |recs|
    decreases |recs|
  {
    if recs != [] {
      var tail := lines[1..];
      assert forall k | 0 <= k < |recs| - 1 :: tail[k] == lines[k + 1];
      ScanIs(tail, stop, parse, ctx, recs[1..]);
      assert [recs[0]] + recs[1..] == recs;
    }
  }

  /** A scan that reaches a line that does not parse raises its error. */
  lemma {:induction false} ScanFailsAt<C, R>(lines: seq<string>, stop: string -> bool, parse: (C, string) -> Result<R>, ctx: C, n: nat, e: Error)
    requires n < |lines|
    requires forall k | 0 <= k <= n :: !stop(lines[k])
    requires forall k | 0 <= k < n :: parse(ctx, lines[k]).Success?
    requires parse(ctx, lines[n]) == Failure(e)
    ensures Scan(lines, stop, parse, ctx) == Failure(e)
    decreases n
  {
    if n > 0 {
      var tail := lines[1..];
      assert forall k | 0 <= k <= n - 1 :: tail[k] == lines[k + 1];
      ScanFailsAt(tail, stop, parse, ctx, n - 1, e);
    }
  }

  /** What a scan returns: it succeeds exactly when every line before the
      stop line parses, its k-th record is then the k-th line's, and a
      failing scan raises the exception of the first line that fails. */
  lemma {:induction false} ScanMeaning<C, R>(lines: seq<string>, stop: string -> bool, parse: (C, string) -> Result<R>, ctx: C)
    ensures var n := StopIndex(lines, stop);
            var r := Scan(lines, stop, parse, ctx);
            && (r.Success? <==> forall k | 0 <= k < n :: parse(ctx, lines[k]).Success?)
            && (r.Success? ==> |r.value| == n)
            && (r.Success? ==> forall k | 0 <= k < n :: r.value[k] == parse(ctx, lines[k]).value)
            && (r.Failure? ==> exists k | 0 <= k < n :: FirstFailure(lines, parse, ctx, k) && parse(ctx, lines[k]).error == r.error)
    decreases |lines|
  {
    ScanLength(lines, stop, parse, ctx);
    if lines == [] || stop(lines[0]) {
    } else {
      var n := StopIndex(lines, stop);
      var tail := lines[1..];
      ScanMeaning(tail, stop, parse, ctx);
      assert forall k | 1 <= k < n :: lines[k] == tail[k - 1];
      var r := Scan(lines, stop, parse, ctx);
      if parse(ctx, lines[0]).Failure? {
        assert FirstFailure(lines, parse, ctx, 0);
      } else if Scan(tail, stop, parse, ctx).Failure? {
        var k :| 0 <= k < n - 1 && FirstFailure(tail, parse, ctx, k) && parse(ctx, tail[k]).error == Scan(tail, stop, parse, ctx).error;
        assert FirstFailure(lines, parse, ctx, k + 1);
      } else {
        assert r.value == [parse(ctx, lines[0]).value] + Scan(tail, stop, parse, ctx).value;
      }
    }
  }

  /** Line k is the first line whose record does not parse. */
  predicate FirstFailure<C, R>(lines: seq<string>, parse: (C, string) -> Result<R>, ctx: C, k: int) {
    0 <= k < |lines| && parse(ctx, lines[k]).Failure? && forall j | 0 <= j < k :: parse(ctx, lines[j]).Success?
  }

  // ---------------------------------------------------------------------
  // Steps of the scan, for the loops that perform it
  // ---------------------------------------------------------------------

  /** The records `done` already read, in front of what the rest yields. */
  function Prepend<R>(done: seq<R>, r: Result<seq<R>>): Result<seq<R>> {
    match r
    case Success(rest) => Success(done + rest)
    case Failure(e) => Failure(e)
  }

  lemma PrependNothing<R>(r: Result<seq<R>>)
    ensures Prepend([], r) == r
  {
    if r.Success? {
      assert [] + r.value == r.value;
    }
  }

  lemma PrependAll<R>(done: seq<R>)
    ensures Prepend(done, Success([])) == Success(done)
  {
    assert done + [] == done;
  }

  lemma ScanAtEnd<C, R>(lines: seq<string>, k: int, stop: string -> bool, parse: (C, string) -> Result<R>, ctx: C)
    requires 0 <= k <= |lines|
    requires k == |lines| || stop(lines[k])
    ensures Scan(lines[k..], stop, parse, ctx) == Success([])
  {
    if k < |lines| {
      assert lines[k..][0] == lines[k];
    }
  }

  lemma ScanFails<C, R>(lines: seq<string>, k: int, stop: string -> bool, parse: (C, string) -> Result<R>, ctx: C)
    requires 0 <= k < |lines| && !stop(lines[k]) && parse(ctx, lines[k]).Failure?
    ensures Scan(lines[k..], stop, parse, ctx) == Failure(parse(ctx, lines[k]).error)
  {
    assert lines[k..][0] == lines[k];
  }

  lemma ScanStep<C, R>(lines: seq<string>, k: int, stop: string -> bool, parse: (C, string) -> Result<R>, ctx: C, done: seq<R>)
    requires 0 <= k < |lines| && !stop(lines[k]) && parse(ctx, lines[k]).Success?
    ensures Prepend(done, Scan(lines[k..], stop, parse, ctx))
         == Prepend(done + [parse(ctx, lines[k]).value], Scan(lines[k + 1..], stop, parse, ctx))
  {
    assert lines[k..][0] == lines[k];
    assert lines[k..][1..] == lines[k + 1..];
    match Scan(lines[k + 1..], stop, parse, ctx)
    case Success(rest) =>
      assert done + ([parse(ctx, lines[k]).value] + rest) == done + [parse(ctx, lines[k]).value] + rest;
    case Failure(e) =>
  }

  // ---------------------------------------------------------------------
  // Both ends of a list of pairs
  // ---------------------------------------------------------------------

  /** Every first and every second component of ps, as a set. */
  function PairSet<T>(ps: seq<(T, T)>): (s: set<T>)
    ensures |s| <= 2 * |ps|
    decreases |ps|
  {
    if ps == [] then {}
    else
      var rest := PairSet(ps[..|ps| - 1]);
      var last := ps[|ps| - 1];
      UnionBound(rest, {last.0, last.1});
      rest + {last.0, last.1}
  }

  /** x is one of the two components of pair i of ps. */
  predicate EndOf<T(==)>(ps: seq<(T, T)>, i: int, x: T) {
    0 <= i < |ps| && (x == ps[i].0 || x == ps[i].1)
  }

  /** The members of PairSet(ps) are exactly the components of its pairs. */
  lemma {:induction false} PairSetMembers<T>(ps: seq<(T, T)>, x: T)
    ensures x in PairSet(ps) <==> exists i :: EndOf(ps, i, x)
    decreases |ps|
  {
    if ps != [] {
      var init := ps[..|ps| - 1];
      PairSetMembers(init, x);
      if x in PairSet(init) {
        var i :| EndOf(init, i, x);
        assert EndOf(ps, i, x);
      } else if x == ps[|ps| - 1].0 || x == ps[|ps| - 1].1 {
        assert EndOf(ps, |ps| - 1, x);
      } else {
        forall i | EndOf(ps, i, x) ensures false {
          assert EndOf(init, i, x);
        }
      }
    }
  }

  /** The two ends of a parsed pair; none for a line that does not parse. */
  function Ends<T>(r: Result<(T, T)>): set<T> {
    if r.Success? then {r.value.0, r.value.1} else {}
  }

  /** Both ends of every one of the first n lines. */
  ghost function LineEnds<C, T>(lines: seq<string>, n: nat, parse: (C, string) -> Result<(T, T)>, ctx: C): set<T>
    requires n <= |lines|
  {
    set k, x | 0 <= k < n && x in Ends(parse(ctx, lines[k])) :: x
  }

  /** The ends of a scan's records are the ends of the lines it read. */
  lemma ScanEnds<C, T>(lines: seq<string>, stop: string -> bool, parse: (C, string) -> Result<(T, T)>, ctx: C)
    requires Scan(lines, stop, parse, ctx).Success?
    ensures PairSet(Scan(lines, stop, parse, ctx).value) == LineEnds(lines, StopIndex(lines, stop), parse, ctx)
  {
    var recs := Scan(lines, stop, parse, ctx).value;
    var n := StopIndex(lines, stop);
    ScanMeaning(lines, stop, parse, ctx);
    assert |recs| == n;
    forall x | x in PairSet(recs) ensures x in LineEnds(lines, n, parse, ctx) {
      PairSetMembers(recs, x);
      var i :| EndOf(recs, i, x);
      assert recs[i] == parse(ctx, lines[i]).value;
      assert x in Ends(parse(ctx, lines[i]));
    }
    forall x | x in LineEnds(lines, n, parse, ctx) ensures x in PairSet(recs) {
      var k :| 0 <= k < n && x in Ends(parse(ctx, lines[k]));
      assert recs[k] == parse(ctx, lines[k]).value;
      assert EndOf(recs, k, x);
      PairSetMembers(recs, x);
    }
  }

  lemma UnionBound<T>(a: set<T>, b: set<T>)
    ensures |a + b| <= |a| + |b|
  {
    assert |a + b| + |a * b| == |a| + |b|;
  }

  lemma PairSetSnoc<T>(ps: seq<(T, T)>, x: T, y: T)
    ensures PairSet(ps + [(x, y)]) == PairSet(ps) + {x, y}
  {
    assert (ps + [(x, y)])[..|ps|] == ps;
  }
}
