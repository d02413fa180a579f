/** The community file reader: the two loops of lfr_analysis.py that read a
    sentinel-terminated list of node pairs, one counting nodes and edges
    (graph_size_from_file) and one collecting the proposed community
    (the first half of LFR_error_stats). A file is given as the lines
    readlines() returns for it, each with its "\n". */
module CommunityReader {
  import opened Errors
  import opened Text
  import opened Records

  /** The default of graph_size_from_file's `split` parameter. */
  const DefaultSeparator: string := " "

  // ---------------------------------------------------------------------
  // Size mode: graph_size_from_file
  // ---------------------------------------------------------------------

  /** The size reader stops at a line that, once stripped, contains "-1"
      or is empty. */
  predicate SizeStop(line: string) {
    var s := Strip(line);
    Contains(s, "-1") || s == []
  }

  /** A size record: the two node names of a stripped line, kept as text. */
  function SizeRecord(sep: string, line: string): Result<(string, string)> {
    SplitPair(Strip(line), sep)
  }

  /** The (node count, edge count) graph_size_from_file returns, or the
      exception it raises. */
  function GraphSize(lines: seq<string>, sep: string): (r: Result<(int, int)>)
    ensures r.Success? ==> r.value.1 == StopIndex(lines, SizeStop)
    ensures r.Success? ==> 0 <= r.value.0 <= 2 * r.value.1
  {
    ScanLength(lines, SizeStop, SizeRecord, sep);
    var recs :- Scan(lines, SizeStop, SizeRecord, sep);
    Success((|PairSet(recs)|, |recs|))
  }

  /** graph_size_from_file as the loop the source runs. */
  method GraphSizeFromFile(lines: seq<string>, sep: string) returns (r: Result<(int, int)>)
    ensures r == GraphSize(lines, sep)
  {
    var nodes: set<string> := {};
    var edges := 0;
    ghost var done: seq<(string, string)> := [];
    var k := 0;
    assert lines[k..] == lines;
    PrependNothing(Scan(lines, SizeStop, SizeRecord, sep));
    while k < |lines|
      invariant 0 <= k <= |lines|
      invariant nodes == PairSet(done) && edges == |done|
      invariant Scan(lines, SizeStop, SizeRecord, sep) == Prepend(done, Scan(lines[k..], SizeStop, SizeRecord, sep))
    {
      var line := Strip(lines[k]);
      if Contains(line, "-1") || line == [] {
        ScanAtEnd(lines, k, SizeStop, SizeRecord, sep);
        break;
      }
      var pair := SplitPair(line, sep);
      assert SizeRecord(sep, lines[k]) == pair;
      if pair.Failure? {
        ScanFails(lines, k, SizeStop, SizeRecord, sep);
        return Failure(pair.error);
      }
      var a, b := pair.value.0, pair.value.1;
      ScanStep(lines, k, SizeStop, SizeRecord, sep, done);
      PairSetSnoc(done, a, b);
      nodes := nodes + {a};
      nodes := nodes + {b};
      edges := edges + 1;
      done := done + [(a, b)];
      k := k + 1;
    }
    if k == |lines| {
      ScanAtEnd(lines, k, SizeStop, SizeRecord, sep);
    }
    PrependAll(done);
    r := Success((|nodes|, edges));
  }

  /** What graph_size_from_file returns: with n the number of lines before
      the first stop line, it succeeds exactly when each of those n lines
      splits into two fields; it then counts those n lines as edges and
      their distinct field texts as nodes. */
  lemma GraphSizeMeaning(lines: seq<string>, sep: string)
    ensures var n := StopIndex(lines, SizeStop);
            var r := GraphSize(lines, sep);
            && (r.Success? <==> forall k | 0 <= k < n :: SplitPair(Strip(lines[k]), sep).Success?)
            && (r.Success? ==> r.value == (|LineEnds(lines, n, SizeRecord, sep)|, n))
            && (r.Failure? ==> r.error == if sep == [] then EmptySeparator else UnpackError)
  {
    var n := StopIndex(lines, SizeStop);
    ScanMeaning(lines, SizeStop, SizeRecord, sep);
    match Scan(lines, SizeStop, SizeRecord, sep)
    case Success(recs) =>
      ScanEnds(lines, SizeStop, SizeRecord, sep);
    case Failure(e) =>
      var k :| 0 <= k < n && FirstFailure(lines, SizeRecord, sep, k) && SizeRecord(sep, lines[k]).error == e;
      SplitPairMeaning(Strip(lines[k]), sep);
  }

  // ---------------------------------------------------------------------
  // Membership mode: the reading loop of LFR_error_stats
  // ---------------------------------------------------------------------

  /** The membership reader stops at a raw line that contains "-1"; it
      does not strip the line first and has no blank-line test. */
  predicate ProposedStop(line: string) {
    Contains(line, "-1")
  }

  /** The separator the membership reader splits on. */
  const ProposedSeparator: string := " "

  /** A membership record: the stripped line split on sep, both fields
      read with int(). */
  function ProposedRecord(sep: string, line: string): Result<(int, int)> {
    IntPair(Strip(line), sep)
  }

  /** The proposed community LFR_error_stats reads, or the exception raised. */
  function ProposedCommunity(lines: seq<string>): (r: Result<set<int>>)
    ensures r.Success? ==> |r.value| <= 2 * StopIndex(lines, ProposedStop)
  {
    ScanLength(lines, ProposedStop, ProposedRecord, ProposedSeparator);
    var recs :- Scan(lines, ProposedStop, ProposedRecord, ProposedSeparator);
    Success(PairSet(recs))
  }

  /** The reading loop of LFR_error_stats as the source runs it. */
  method ReadProposed(lines: seq<string>) returns (r: Result<set<int>>)
    ensures r == ProposedCommunity(lines)
  {
    var propCom: set<int> := {};
    ghost var done: seq<(int, int)> := [];
    var k := 0;
    assert lines[k..] == lines;
    PrependNothing(Scan(lines, ProposedStop, ProposedRecord, ProposedSeparator));
    while k < |lines|
      invariant 0 <= k <= |lines|
      invariant propCom == PairSet(done)
      invariant Scan(lines, ProposedStop, ProposedRecord, ProposedSeparator) == Prepend(done, Scan(lines[k..], ProposedStop, ProposedRecord, ProposedSeparator))
    {
      if Contains(lines[k], "-1") {
        ScanAtEnd(lines, k, ProposedStop, ProposedRecord, ProposedSeparator);
        break;
      }
      var pair := IntPair(Strip(lines[k]), " ");
      if pair.Failure? {
        ScanFails(lines, k, ProposedStop, ProposedRecord, ProposedSeparator);
        return Failure(pair.error);
      }
      var a, b := pair.value.0, pair.value.1;
      ScanStep(lines, k, ProposedStop, ProposedRecord, ProposedSeparator, done);
      PairSetSnoc(done, a, b);
      propCom := propCom + {a};
      propCom := propCom + {b};
      done := done + [(a, b)];
      k := k + 1;
    }
    if k == |lines| {
      ScanAtEnd(lines, k, ProposedStop, ProposedRecord, ProposedSeparator);
    }
    PrependAll(done);
    r := Success(propCom);
  }

  /** What the membership reader returns: with n the number of lines before
      the first raw line containing "-1", it succeeds exactly when each of
      those lines is a pair of integers, and the community is then the set
      of both endpoints of every one of them; otherwise it raises the
      exception of the first line that is not. */
  lemma ProposedCommunityMeaning(lines: seq<string>)
    ensures var n := StopIndex(lines, ProposedStop);
            var r := ProposedCommunity(lines);
            && (r.Success? <==> forall k | 0 <= k < n :: ProposedRecord(ProposedSeparator, lines[k]).Success?)
            && (r.Success? ==> r.value == LineEnds(lines, n, ProposedRecord, ProposedSeparator))
            && (r.Failure? ==> exists k | 0 <= k < n :: FirstFailure(lines, ProposedRecord, ProposedSeparator, k) && ProposedRecord(ProposedSeparator, lines[k]).error == r.error)
  {
    ScanMeaning(lines, ProposedStop, ProposedRecord, ProposedSeparator);
    if Scan(lines, ProposedStop, ProposedRecord, ProposedSeparator).Success? {
      ScanEnds(lines, ProposedStop, ProposedRecord, ProposedSeparator);
    }
  }

  // ---------------------------------------------------------------------
  // Files written in the benchmark's format
  // ---------------------------------------------------------------------

  /** An edge line as the benchmark writes it: "a b\n". */
  function EdgeLine(e: (int, int)): string {
    IntToString(e.0) + " " + IntToString(e.1) + "\n"
  }

  /** A pair file: one line per edge, then the "-1" sentinel line. */
  function PairFile(edges: seq<(int, int)>): (lines: seq<string>)
    ensures |lines| == |edges| + 1 && lines[|edges|] == "-1\n"
    ensures forall k | 0 <= k < |edges| :: lines[k] == EdgeLine(edges[k])
  {
    seq(|edges|, k requires 0 <= k < |edges| => EdgeLine(edges[k])) + ["-1\n"]
  }

  /** Node numbers as the benchmark writes them: non-negative, and short
      enough for str() to write. */
  predicate BenchmarkIds(edges: seq<(int, int)>) {
    forall k | 0 <= k < |edges| :: BenchmarkId(edges[k].0) && BenchmarkId(edges[k].1)
  }

  predicate BenchmarkId(n: int) {
    n >= 0 && Printable(n)
  }

  /** The node names of each edge, as text. */
  function Names(edges: seq<(int, int)>): (names: seq<(string, string)>)
    ensures |names| == |edges|
    ensures forall k | 0 <= k < |edges| :: names[k] == (IntToString(edges[k].0), IntToString(edges[k].1))
    decreases |edges|
  {
    if edges == [] then []
    else
      var e := edges[|edges| - 1];
      Names(edges[..|edges| - 1]) + [(IntToString(e.0), IntToString(e.1))]
  }

  lemma NoMinus(n: int)
    requires n >= 0
    ensures forall k | 0 <= k < |IntToString(n)| :: IsDigit(IntToString(n)[k])
  {
  }

  /** An edge line of two benchmark node numbers is read back as its edge
      by both readers, and neither reader stops at it. */
  lemma EdgeLineRead(e: (int, int))
    requires BenchmarkId(e.0) && BenchmarkId(e.1)
    ensures !ProposedStop(EdgeLine(e)) && !SizeStop(EdgeLine(e))
    ensures ProposedRecord(ProposedSeparator, EdgeLine(e)) == Success(e)
    ensures SizeRecord(DefaultSeparator, EdgeLine(e)) == Success((IntToString(e.0), IntToString(e.1)))
  {
    var a, b := IntToString(e.0), IntToString(e.1);
    var t := a + " " + b;
    var line := EdgeLine(e);
    NoMinus(e.0);
    NoMinus(e.1);
    assert line == "" + t + "\n";
    StripExact("", t, "\n");
    assert forall k | 0 <= k < |t| :: t[k] != '-' by {
      forall k | 0 <= k < |t| ensures t[k] != '-' {
        if k < |a| { assert t[k] == a[k]; }
        else if k > |a| { assert t[k] == b[k - |a| - 1]; }
      }
    }
    assert forall k | 0 <= k < |line| :: line[k] != '-' by {
      forall k | 0 <= k < |line| ensures line[k] != '-' {
        if k < |t| { assert line[k] == t[k]; }
      }
    }
    NotContainsLead(line, "-1");
    NotContainsLead(t, "-1");
    IntPairRoundTrip(e.0, " ", e.1);
    NumberFreeOfSeparator(e.0, " ");
    NumberFreeOfSeparator(e.1, " ");
    SplitPairComplete(a, " ", b);
  }

  /** Both readers stop at the sentinel line. */
  lemma SentinelStops()
    ensures ProposedStop("-1\n") && SizeStop("-1\n")
  {
    assert "-1\n"[..2] == "-1";
    StripExact("", "-1", "\n");
    assert "" + "-1" + "\n" == "-1\n";
    assert "-1"[..2] == "-1";
  }

  /** The membership reader reads back the endpoints of the edges a pair
      file was written from. */
  lemma ProposedOfPairFile(edges: seq<(int, int)>)
    requires BenchmarkIds(edges)
    ensures ProposedCommunity(PairFile(edges)) == Success(PairSet(edges))
  {
    var lines := PairFile(edges);
    forall k | 0 <= k < |edges|
      ensures !ProposedStop(lines[k]) && ProposedRecord(ProposedSeparator, lines[k]) == Success(edges[k])
    {
      EdgeLineRead(edges[k]);
    }
    SentinelStops();
    ScanIs(lines, ProposedStop, ProposedRecord, ProposedSeparator, edges);
  }

  /** The size reader counts the edges of a pair file and its distinct
      node names. */
  lemma SizeOfPairFile(edges: seq<(int, int)>)
    requires BenchmarkIds(edges)
    ensures GraphSize(PairFile(edges), DefaultSeparator) == Success((|PairSet(edges)|, |edges|))
  {
    var lines := PairFile(edges);
    var names := Names(edges);
    forall k | 0 <= k < |edges|
      ensures !SizeStop(lines[k]) && SizeRecord(DefaultSeparator, lines[k]) == Success(names[k])
    {
      EdgeLineRead(edges[k]);
    }
    SentinelStops();
    ScanIs(lines, SizeStop, SizeRecord, DefaultSeparator, names);
    NamesCount(edges);
  }

  /** Distinct numbers have distinct names, so the edges have as many
      node names as nodes. */
  lemma {:induction false} NamesCount(edges: seq<(int, int)>)
    ensures |PairSet(Names(edges))| == |PairSet(edges)|
    decreases |edges|
  {
    if edges != [] {
      var init := edges[..|edges| - 1];
      var e := edges[|edges| - 1];
      var a, b := IntToString(e.0), IntToString(e.1);
      assert edges == init + [e];
      assert Names(edges) == Names(init) + [(a, b)];
      NamesCount(init);
      var p, n := PairSet(init), PairSet(Names(init));
      PairSetSnoc(init, e.0, e.1);
      PairSetSnoc(Names(init), a, b);
      assert PairSet(edges) == p + {e.0} + {e.1};
      assert PairSet(Names(edges)) == n + {a} + {b};
      IntToStringInjective(e.0, e.1);
      NamesMember(init, e.0);
      NamesMember(init, e.1);
      AddCount(p, e.0);
      AddCount(n, a);
      AddCount(p + {e.0}, e.1);
      AddCount(n + {a}, b);
    }
  }

  /** A number is a node of the edges exactly when its name is a node name. */
  lemma {:induction false} NamesMember(edges: seq<(int, int)>, x: int)
    ensures x in PairSet(edges) <==> IntToString(x) in PairSet(Names(edges))
    decreases |edges|
  {
    if edges != [] {
      var init := edges[..|edges| - 1];
      var e := edges[|edges| - 1];
      LastEdge(edges);
      IntToStringInjective(x, e.0);
      IntToStringInjective(x, e.1);
      NamesMember(init, x);
    }
  }

  /** The nodes and the node names of edges, from those of all but its
      last edge. */
  lemma LastEdge(edges: seq<(int, int)>)
    requires edges != []
    ensures var init, e := edges[..|edges| - 1], edges[|edges| - 1];
            && PairSet(edges) == PairSet(init) + {e.0, e.1}
            && PairSet(Names(edges)) == PairSet(Names(init)) + {IntToString(e.0), IntToString(e.1)}
  {
    var init, e := edges[..|edges| - 1], edges[|edges| - 1];
    var a, b := IntToString(e.0), IntToString(e.1);
    assert edges == init + [(e.0, e.1)];
    PairSetSnoc(init, e.0, e.1);
    assert Names(edges) == Names(init) + [(a, b)];
    PairSetSnoc(Names(init), a, b);
  }

  /** Adding one element grows a set by one exactly when it is new. */
  lemma AddCount<T>(s: set<T>, x: T)
    ensures |s + {x}| == if x in s then |s| else |s| + 1
  {
    if x in s {
      assert s + {x} == s;
    }
  }

}
