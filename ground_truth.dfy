/** The ground-truth reader of lfr_analysis.py: true_community_helper reads
    the benchmark's community file, one "node<TAB>community" line per node,
    into a node-to-community map and a community-to-nodes map, and
    get_true_community looks up the community of one node. */
module GroundTruth {
  import opened Errors
  import opened Text
  import opened Records

  /** The separator of the community file. */
  const TruthSeparator: string := "\t"

  /** The reader leaves the loop only at a raw line that is empty (the
      `if i:` test looks at the line before it is stripped). */
  predicate TruthStop(line: string) {
    line == []
  }

  /** A community record: the stripped line split on sep, node and
      community read with int(). */
  function TruthRecord(sep: string, line: string): Result<(int, int)> {
    IntPair(Strip(line), sep)
  }

  /** The two dictionaries true_community_helper returns. */
  datatype Index = Index(nodeToCom: map<int, int>, comToNodes: map<int, set<int>>)

  const EmptyIndex: Index := Index(map[], map[])

  /** One record (a, b): node a is put in community b. An earlier
      community of a is overwritten in nodeToCom, but a stays in that
      community's set of nodes. */
  function Assign(idx: Index, a: int, b: int): Index {
    var members := if b in idx.comToNodes then idx.comToNodes[b] + {a} else {a};
    Index(idx.nodeToCom[a := b], idx.comToNodes[b := members])
  }

  /** The index the records build, in order. */
  function ApplyAll(rs: seq<(int, int)>): Index
    decreases |rs|
  {
    if rs == [] then EmptyIndex
    else
      var last := rs[|rs| - 1];
      Assign(ApplyAll(rs[..|rs| - 1]), last.0, last.1)
  }

  lemma ApplyAllSnoc(rs: seq<(int, int)>, a: int, b: int)
    ensures ApplyAll(rs + [(a, b)]) == Assign(ApplyAll(rs), a, b)
  {
    assert (rs + [(a, b)])[..|rs|] == rs;
  }

  /** What true_community_helper returns for a file, or the exception it
      raises; every index it returns is consistent. */
  function BuildIndex(lines: seq<string>): (r: Result<Index>)
    ensures r.Success? ==> Consistent(r.value)
  {
    var recs :- Scan(lines, TruthStop, TruthRecord, TruthSeparator);
    ApplyAllConsistent(recs);
    Success(ApplyAll(recs))
  }

  /** true_community_helper as the loop the source runs. */
  method TrueCommunityHelper(lines: seq<string>) returns (r: Result<Index>)
    ensures r == BuildIndex(lines)
  {
    var nodeToCom: map<int, int> := map[];
    var comToNodes: map<int, set<int>> := map[];
    ghost var done: seq<(int, int)> := [];
    var k := 0;
    assert lines[k..] == lines;
    PrependNothing(Scan(lines, TruthStop, TruthRecord, TruthSeparator));
    while k < |lines|
      invariant 0 <= k <= |lines|
      invariant Index(nodeToCom, comToNodes) == ApplyAll(done)
      invariant Scan(lines, TruthStop, TruthRecord, TruthSeparator) == Prepend(done, Scan(lines[k..], TruthStop, TruthRecord, TruthSeparator))
    {
      var line := Strip(lines[k]);
      if lines[k] == [] {
        ScanAtEnd(lines, k, TruthStop, TruthRecord, TruthSeparator);
        break;
      }
      var pair := IntPair(line, "\t");
      if pair.Failure? {
        ScanFails(lines, k, TruthStop, TruthRecord, TruthSeparator);
        BuildIndexFails(lines);
        return Failure(pair.error);
      }
      var a, b := pair.value.0, pair.value.1;
      ScanStep(lines, k, TruthStop, TruthRecord, TruthSeparator, done);
      ApplyAllSnoc(done, a, b);
      nodeToCom := nodeToCom[a := b];
      if b in comToNodes {
        comToNodes := comToNodes[b := comToNodes[b] + {a}];
      } else {
        comToNodes := comToNodes[b := {a}];
      }
      done := done + [(a, b)];
      k := k + 1;
    }
    if k == |lines| {
      ScanAtEnd(lines, k, TruthStop, TruthRecord, TruthSeparator);
    }
    PrependAll(done);
    r := Success(Index(nodeToCom, comToNodes));
  }

  lemma BuildIndexFails(lines: seq<string>)
    requires Scan(lines, TruthStop, TruthRecord, TruthSeparator).Failure?
    ensures BuildIndex(lines) == Failure(Scan(lines, TruthStop, TruthRecord, TruthSeparator).error)
  {
  }

  // ---------------------------------------------------------------------
  // What the index holds
  // ---------------------------------------------------------------------

  /** Every node's community lists it, every listed node is a node, and no
      community is empty. */
  predicate Consistent(idx: Index) {
    && (forall n | n in idx.nodeToCom :: idx.nodeToCom[n] in idx.comToNodes && n in idx.comToNodes[idx.nodeToCom[n]])
    && (forall c | c in idx.comToNodes :: idx.comToNodes[c] != {} && idx.comToNodes[c] <= idx.nodeToCom.Keys)
  }

  /** A node is listed in a community exactly when it is its community. */
  ghost predicate Exact(idx: Index) {
    forall c, n | c in idx.comToNodes :: n in idx.comToNodes[c] <==> n in idx.nodeToCom && idx.nodeToCom[n] == c
  }

  lemma AssignConsistent(idx: Index, a: int, b: int)
    requires Consistent(idx)
    ensures Consistent(Assign(idx, a, b))
  {
  }

  /** Reading records one by one keeps the two maps consistent. */
  lemma {:induction false} ApplyAllConsistent(rs: seq<(int, int)>)
    ensures Consistent(ApplyAll(rs))
    decreases |rs|
  {
    if rs != [] {
      var last := rs[|rs| - 1];
      ApplyAllConsistent(rs[..|rs| - 1]);
      AssignConsistent(ApplyAll(rs[..|rs| - 1]), last.0, last.1);
    }
  }

  /** The nodes named by the records. */
  function Nodes(rs: seq<(int, int)>): set<int> {
    set j | 0 <= j < |rs| :: rs[j].0
  }

  /** The communities named by the records. */
  function Communities(rs: seq<(int, int)>): set<int> {
    set j | 0 <= j < |rs| :: rs[j].1
  }

  /** The nodes some record puts in community c. */
  function Members(rs: seq<(int, int)>, c: int): set<int> {
    set j | 0 <= j < |rs| && rs[j].1 == c :: rs[j].0
  }

  /** Record i is the last record of node n. */
  predicate LastAt(rs: seq<(int, int)>, i: int, n: int) {
    0 <= i < |rs| && rs[i].0 == n && forall j | i < j < |rs| :: rs[j].0 != n
  }

  /** No node has two records. */
  predicate DistinctNodes(rs: seq<(int, int)>) {
    forall i, j | 0 <= i < j < |rs| :: rs[i].0 != rs[j].0
  }

  lemma NodesSnoc(rs: seq<(int, int)>, a: int, b: int)
    ensures Nodes(rs + [(a, b)]) == Nodes(rs) + {a}
    ensures Communities(rs + [(a, b)]) == Communities(rs) + {b}
    ensures forall c :: Members(rs + [(a, b)], c) == if c == b then Members(rs, c) + {a} else Members(rs, c)
  {
    var rs' := rs + [(a, b)];
    assert forall j | 0 <= j < |rs| :: rs'[j] == rs[j];
    assert rs'[|rs|] == (a, b);
    forall c ensures Members(rs', c) == if c == b then Members(rs, c) + {a} else Members(rs, c) {
      if c == b {
        assert a in Members(rs', c);
      }
    }
    assert a in Nodes(rs');
    assert b in Communities(rs');
  }

  /** The maps built from the records: a node is a key of nodeToCom
      exactly when some record names it, a community a key of comToNodes
      exactly when some record names it, and each community lists every
      node some record put in it. */
  lemma {:induction false} ApplyAllMeaning(rs: seq<(int, int)>)
    ensures ApplyAll(rs).nodeToCom.Keys == Nodes(rs)
    ensures ApplyAll(rs).comToNodes.Keys == Communities(rs)
    ensures forall c | c in ApplyAll(rs).comToNodes :: ApplyAll(rs).comToNodes[c] == Members(rs, c)
    decreases |rs|
  {
    if rs != [] {
      var init := rs[..|rs| - 1];
      var last := rs[|rs| - 1];
      assert rs == init + [last];
      ApplyAllMeaning(init);
      NodesSnoc(init, last.0, last.1);
      forall c | c in ApplyAll(init).comToNodes && c != last.1
        ensures ApplyAll(rs).comToNodes[c] == Members(rs, c)
      {
        assert ApplyAll(rs).comToNodes[c] == ApplyAll(init).comToNodes[c];
      }
    }
  }

  /** A node's community is the one of its last record. */
  lemma {:induction false} ApplyAllLast(rs: seq<(int, int)>, i: int, n: int)
    requires LastAt(rs, i, n)
    ensures n in ApplyAll(rs).nodeToCom && ApplyAll(rs).nodeToCom[n] == rs[i].1
    decreases |rs|
  {
    var init := rs[..|rs| - 1];
    var last := rs[|rs| - 1];
    assert rs == init + [last];
    if i < |rs| - 1 {
      assert LastAt(init, i, n);
      ApplyAllLast(init, i, n);
    }
  }

  /** With one record per node, a node is listed in a community exactly
      when that is its community. */
  lemma DistinctExact(rs: seq<(int, int)>)
    requires DistinctNodes(rs)
    ensures Exact(ApplyAll(rs))
  {
    var idx := ApplyAll(rs);
    ApplyAllMeaning(rs);
    forall c, n | c in idx.comToNodes
      ensures n in idx.comToNodes[c] <==> n in idx.nodeToCom && idx.nodeToCom[n] == c
    {
      if n in idx.comToNodes[c] {
        var j :| 0 <= j < |rs| && rs[j].1 == c && rs[j].0 == n;
        assert LastAt(rs, j, n);
        ApplyAllLast(rs, j, n);
      }
      if n in idx.nodeToCom && idx.nodeToCom[n] == c {
        var j :| 0 <= j < |rs| && rs[j].0 == n;
        assert LastAt(rs, j, n);
        ApplyAllLast(rs, j, n);
        assert n in Members(rs, c);
      }
    }
  }

  /** A node with two records stays listed in its first community. */
  lemma RepeatedNode()
    ensures var idx := ApplyAll([(1, 5), (1, 7)]);
            idx.nodeToCom[1] == 7 && 5 in idx.comToNodes && 1 in idx.comToNodes[5] && !Exact(idx)
  {
    var rs := [(1, 5), (1, 7)];
    assert rs[..1] == [(1, 5)];
    assert [(1, 5)][..0] == [];
  }

  // ---------------------------------------------------------------------
  // get_true_community
  // ---------------------------------------------------------------------

  /** get_true_community: the nodes of q's community, or KeyError. */
  function GetTrueCommunity(idx: Index, q: int): (r: Result<set<int>>)
    ensures r.Failure? ==> r.error == KeyError
    ensures q !in idx.nodeToCom ==> r.Failure?
  {
    if q !in idx.nodeToCom then Failure(KeyError)
    else
      var com := idx.nodeToCom[q];
      if com !in idx.comToNodes then Failure(KeyError) else Success(idx.comToNodes[com])
  }

  /** On a consistent index the lookup fails exactly for a node that is not
      in the file; it then gives a set of nodes that holds q, and, on an
      exact index, exactly the nodes that share q's community. */
  lemma TrueCommunityMeaning(idx: Index, q: int)
    requires Consistent(idx)
    ensures var r := GetTrueCommunity(idx, q);
            && (r.Success? <==> q in idx.nodeToCom)
            && (r.Success? ==> q in r.value && r.value <= idx.nodeToCom.Keys)
            && (r.Success? && Exact(idx) ==> r.value == set n | n in idx.nodeToCom && idx.nodeToCom[n] == idx.nodeToCom[q])
  {
    if q in idx.nodeToCom && Exact(idx) {
      var c := idx.nodeToCom[q];
      var same := set n | n in idx.nodeToCom && idx.nodeToCom[n] == c;
      forall n ensures n in idx.comToNodes[c] <==> n in same {
        assert n in idx.comToNodes[c] <==> n in idx.nodeToCom && idx.nodeToCom[n] == c;
      }
    }
  }

  /** Looked up in the index of a list of records, q's community holds
      every node some record puts in the community of q's last record. */
  lemma TrueCommunityOfRecords(rs: seq<(int, int)>, i: int, q: int)
    requires LastAt(rs, i, q)
    ensures GetTrueCommunity(ApplyAll(rs), q) == Success(Members(rs, rs[i].1))
  {
    ApplyAllLast(rs, i, q);
    ApplyAllMeaning(rs);
    assert rs[i].1 in Communities(rs);
  }

  // ---------------------------------------------------------------------
  // Files
  // ---------------------------------------------------------------------

  /** A community line as the benchmark writes it: "node\tcommunity\n". */
  function TruthLine(rec: (int, int)): string {
    IntToString(rec.0) + "\t" + IntToString(rec.1) + "\n"
  }

  function TruthFile(rs: seq<(int, int)>): (lines: seq<string>)
    ensures |lines| == |rs| && forall k | 0 <= k < |rs| :: lines[k] == TruthLine(rs[k])
  {
    seq(|rs|, k requires 0 <= k < |rs| => TruthLine(rs[k]))
  }

  /** Records whose numbers str() can write. */
  predicate PrintableRecords(rs: seq<(int, int)>) {
    forall k | 0 <= k < |rs| :: Printable(rs[k].0) && Printable(rs[k].1)
  }

  lemma TruthLineRead(rec: (int, int))
    requires Printable(rec.0) && Printable(rec.1)
    ensures !TruthStop(TruthLine(rec)) && TruthRecord(TruthSeparator, TruthLine(rec)) == Success(rec)
    ensures Strip(TruthLine(rec)) != []
  {
    var t := IntToString(rec.0) + "\t" + IntToString(rec.1);
    assert TruthLine(rec) == "" + t + "\n";
    StripExact("", t, "\n");
    IntPairRoundTrip(rec.0, "\t", rec.1);
  }

  /** true_community_helper reads back the index of the records a file was
      written from. */
  lemma BuildIndexOfFile(rs: seq<(int, int)>)
    requires PrintableRecords(rs)
    ensures BuildIndex(TruthFile(rs)) == Success(ApplyAll(rs))
  {
    var lines := TruthFile(rs);
    forall k | 0 <= k < |rs|
      ensures !TruthStop(lines[k]) && TruthRecord(TruthSeparator, lines[k]) == Success(rs[k])
    {
      TruthLineRead(rs[k]);
    }
    ScanIs(lines, TruthStop, TruthRecord, TruthSeparator, rs);
  }

  /** A blank line at the end of the file is not a stop: it reaches the
      split, which yields one field, and the unpacking raises ValueError. */
  lemma TrailingBlankLine(rs: seq<(int, int)>)
    requires PrintableRecords(rs)
    ensures BuildIndex(TruthFile(rs) + ["\n"]) == Failure(UnpackError)
  {
    var lines := TruthFile(rs) + ["\n"];
    var n := |rs|;
    forall k | 0 <= k < n
      ensures !TruthStop(lines[k]) && TruthRecord(TruthSeparator, lines[k]) == Success(rs[k])
    {
      TruthLineRead(rs[k]);
    }
    StripExact("\n", "", "");
    assert "\n" + "" + "" == "\n";
    BlankIsNotAPair(TruthSeparator);
    ScanFailsAt(lines, TruthStop, TruthRecord, TruthSeparator, n, UnpackError);
  }

  /** The stop the blank-line test evidently intends: a line that is
      blank once stripped. */
  predicate BlankTruthStop(line: string) {
    Strip(line) == []
  }

  /** true_community_helper with the blank-line test applied to the
      stripped line, so that reading ends at the first blank line. */
  function BuildIndexToBlank(lines: seq<string>): (r: Result<Index>)
    ensures r.Success? ==> Consistent(r.value)
  {
    var recs :- Scan(lines, BlankTruthStop, TruthRecord, TruthSeparator);
    ApplyAllConsistent(recs);
    Success(ApplyAll(recs))
  }

  /** With the intended test, a file of records reads back as their index
      whether it ends at the end of the text or at a blank line followed
      by anything at all. */
  lemma BlankLineEndsRead(rs: seq<(int, int)>, rest: seq<string>)
    requires PrintableRecords(rs)
    ensures BuildIndexToBlank(TruthFile(rs)) == Success(ApplyAll(rs))
    ensures BuildIndexToBlank(TruthFile(rs) + ["\n"] + rest) == Success(ApplyAll(rs))
  {
    var file := TruthFile(rs);
    var lines := file + ["\n"] + rest;
    forall k | 0 <= k < |rs|
      ensures !BlankTruthStop(file[k]) && TruthRecord(TruthSeparator, file[k]) == Success(rs[k])
      ensures lines[k] == file[k]
    {
      TruthLineRead(rs[k]);
    }
    ScanIs(file, BlankTruthStop, TruthRecord, TruthSeparator, rs);
    StripExact("\n", "", "");
    assert "\n" + "" + "" == "\n";
    assert lines[|rs|] == "\n";
    ScanIs(lines, BlankTruthStop, TruthRecord, TruthSeparator, rs);
  }

  /** readlines() never yields an empty line, so the reader reads every
      line of a text: its `break` is never taken. */
  lemma ReadsEveryLine(text: string)
    ensures StopIndex(ReadLines(text), TruthStop) == |ReadLines(text)|
  {
    var lines := ReadLines(text);
    var n := StopIndex(lines, TruthStop);
    if n < |lines| {
      assert lines[n] != [];
    }
  }
}
