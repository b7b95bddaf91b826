/**
 * The driver of bash_ts_grammar.py: builds the graph from the grammar's
 * node-type entries with the direct-subtype rule, runs the cycle detector
 * and renders the report and the edge-list dump.
 */
module GrammarMain {
  import opened Wrappers
  import opened GrammarGraph

  /** One node-type entry of the grammar: its "type" and, when the
      "subtypes" key is present, the "type" of each of its elements. */
  datatype Entry = Entry(typeName: string, subtypes: Option<seq<string>>)

  /** The graph after `add_edge(typeName, s)` for each `s` of `subtypes`, in order. */
  function AddEdges(g: Registry, typeName: string, subtypes: seq<string>): Registry {
    if subtypes == [] then g
    else WithEdge(AddEdges(g, typeName, subtypes[..|subtypes| - 1]), typeName, subtypes[|subtypes| - 1])
  }

  /** The graph after one entry: nothing happens without a "subtypes" key. */
  function AddEntry(g: Registry, entry: Entry): Registry {
    match entry.subtypes
    case None => g
    case Some(subtypes) => AddEdges(g, entry.typeName, subtypes)
  }

  /** The graph `main` builds from the entries, in entry order. */
  function Build(entries: seq<Entry>): Registry {
    if entries == [] then EmptyRegistry
    else AddEntry(Build(entries[..|entries| - 1]), entries[|entries| - 1])
  }

  /** The edges `typeName` gets for its subtypes: one per subtype, in order. */
  function SubtypeEdges(typeName: string, subtypes: seq<string>): seq<Edge> {
    seq(|subtypes|, i requires 0 <= i < |subtypes| => Edge(typeName, subtypes[i]))
  }

  /** The edges one entry contributes; none without a "subtypes" key. */
  function EntryEdges(entry: Entry): seq<Edge> {
    match entry.subtypes
    case None => []
    case Some(subtypes) => SubtypeEdges(entry.typeName, subtypes)
  }

  /** The edges of all entries, in entry order then subtype order. */
  function AllEdges(entries: seq<Entry>): seq<Edge> {
    if entries == [] then [] else EntryEdges(entries[0]) + AllEdges(entries[1..])
  }

  /** Every type name that is an endpoint of some edge. */
  function Endpoints(edges: seq<Edge>): set<string> {
    if edges == [] then {}
    else Endpoints(edges[..|edges| - 1]) + {edges[|edges| - 1].source, edges[|edges| - 1].target}
  }

  lemma SubtypeEdgesSnoc(typeName: string, subtypes: seq<string>)
    requires subtypes != []
    ensures SubtypeEdges(typeName, subtypes)
            == SubtypeEdges(typeName, subtypes[..|subtypes| - 1]) + [Edge(typeName, subtypes[|subtypes| - 1])]
  {
  }

  lemma {:induction false} AddEdgesWellFormed(g: Registry, typeName: string, subtypes: seq<string>)
    requires WellFormed(g)
    ensures WellFormed(AddEdges(g, typeName, subtypes))
  {
    if subtypes != [] {
      var prefix := subtypes[..|subtypes| - 1];
      AddEdgesWellFormed(g, typeName, prefix);
      AddEdgePreservesWellFormed(AddEdges(g, typeName, prefix), typeName, subtypes[|subtypes| - 1]);
    }
  }

  /** The subtype loop adds one edge per subtype, in subtype order, and
      registers exactly the endpoints of those edges. */
  lemma {:induction false} AddEdgesEffect(g: Registry, typeName: string, subtypes: seq<string>)
    ensures AddEdges(g, typeName, subtypes).edges == g.edges + SubtypeEdges(typeName, subtypes)
    ensures AddEdges(g, typeName, subtypes).nodes.Keys == g.nodes.Keys + Endpoints(SubtypeEdges(typeName, subtypes))
  {
    if subtypes == [] {
      assert g.edges + [] == g.edges;
    } else {
      var prefix, last := subtypes[..|subtypes| - 1], subtypes[|subtypes| - 1];
      var h := AddEdges(g, typeName, prefix);
      AddEdgesEffect(g, typeName, prefix);
      AddEdgeEffect(h, typeName, last);
      SubtypeEdgesSnoc(typeName, subtypes);
      var es := SubtypeEdges(typeName, subtypes);
      assert es[..|es| - 1] == SubtypeEdges(typeName, prefix);
      assert (g.edges + SubtypeEdges(typeName, prefix)) + [Edge(typeName, last)] == g.edges + es;
    }
  }

  lemma {:induction false} AllEdgesAppend(entries: seq<Entry>, entry: Entry)
    ensures AllEdges(entries + [entry]) == AllEdges(entries) + EntryEdges(entry)
  {
    if entries == [] {
      assert AllEdges([entry]) == EntryEdges(entry) + AllEdges([]);
    } else {
      assert (entries + [entry])[1..] == entries[1..] + [entry];
      AllEdgesAppend(entries[1..], entry);
    }
  }

  lemma {:induction false} EndpointsConcat(a: seq<Edge>, b: seq<Edge>)
    ensures Endpoints(a + b) == Endpoints(a) + Endpoints(b)
    decreases |b|
  {
    if b == [] {
      assert a + b == a;
    } else {
      EndpointsConcat(a, b[..|b| - 1]);
      assert (a + b)[..|a + b| - 1] == a + b[..|b| - 1];
    }
  }

  /** Graph construction: the built registry is well formed, its edges are
      one per subtype in entry order then subtype order, and its nodes are
      exactly the endpoints of those edges. */
  lemma {:induction false} BuildEdges(entries: seq<Entry>)
    ensures WellFormed(Build(entries))
    ensures Build(entries).edges == AllEdges(entries)
    ensures Build(entries).nodes.Keys == Endpoints(AllEdges(entries))
  {
    if entries != [] {
      var prefix, last := entries[..|entries| - 1], entries[|entries| - 1];
      BuildEdges(prefix);
      assert entries == prefix + [last];
      AllEdgesAppend(prefix, last);
      EndpointsConcat(AllEdges(prefix), EntryEdges(last));
      match last.subtypes
      case None =>
        assert EntryEdges(last) == [];
        assert AllEdges(entries) == AllEdges(prefix);
      case Some(subtypes) =>
        AddEdgesWellFormed(Build(prefix), last.typeName, subtypes);
        AddEdgesEffect(Build(prefix), last.typeName, subtypes);
    }
  }

  /** An entry without a "subtypes" key adds no node and no edge. */
  lemma EntryWithoutSubtypes(entries: seq<Entry>, typeName: string)
    ensures Build(entries + [Entry(typeName, None)]) == Build(entries)
  {
    assert (entries + [Entry(typeName, None)])[..|entries|] == entries;
  }

  /** Entries that declare no subtypes give the empty graph. */
  lemma {:induction false} NoSubtypesEmptyGraph(entries: seq<Entry>)
    requires forall k :: 0 <= k < |entries| ==> entries[k].subtypes.None? || entries[k].subtypes == Some([])
    ensures Build(entries) == EmptyRegistry
    ensures Acyclic(Build(entries).nodes) && DumpText(Build(entries).edges) == ""
  {
    if entries != [] {
      NoSubtypesEmptyGraph(entries[..|entries| - 1]);
    }
  }

  /** The registry the X/Y entries build: X is registered first. */
  lemma MutualPairRegistry()
    ensures Build([Entry("X", Some(["Y"])), Entry("Y", Some(["X"]))])
            == Registry(map["X" := ["Y"], "Y" := ["X"]], ["X", "Y"], [Edge("X", "Y"), Edge("Y", "X")])
  {
    var entries := [Entry("X", Some(["Y"])), Entry("Y", Some(["X"]))];
    var first := AddEdges(EmptyRegistry, "X", ["Y"]);
    assert ["Y"][..0] == [] && ["X"][..0] == [];
    assert first == WithEdge(EmptyRegistry, "X", "Y");
    var h := WithNode(WithNode(EmptyRegistry, "X"), "Y");
    assert h == Registry(map["X" := [], "Y" := []], ["X", "Y"], []);
    assert [] + ["Y"] == ["Y"] && [] + [Edge("X", "Y")] == [Edge("X", "Y")];
    assert h.nodes["X" := [] + ["Y"]] == map["X" := ["Y"], "Y" := []];
    assert first == Registry(map["X" := ["Y"], "Y" := []], ["X", "Y"], [Edge("X", "Y")]);
    assert ["X"] == [] + ["X"];
    assert first.nodes["Y" := [] + ["X"]] == map["X" := ["Y"], "Y" := ["X"]];
    assert WithNode(WithNode(first, "Y"), "X") == first;
    assert entries[..1] == [entries[0]] && entries[..1][..0] == [];
    assert Build(entries) == WithEdge(first, "Y", "X");
  }

  /** On X <-> Y, the search from X records X -> Y -> X; the later visit of
      Y hits the stale stack entry and its fragment is dropped. */
  lemma MutualPairSearch()
    ensures Closed(map["X" := ["Y"], "Y" := ["X"]])
    ensures SearchAll(map["X" := ["Y"], "Y" := ["X"]], ["X", "Y"]).cycles == [["X", "Y", "X"]]
  {
    var adj := map["X" := ["Y"], "Y" := ["X"]];
    assert adj["X"] == ["Y"] && adj["Y"] == ["X"];
    var s1 := Search({"X"}, {"X"}, []);
    var s2 := Search({"X", "Y"}, {"X", "Y"}, []);
    var done := Search({"X", "Y"}, {"X", "Y"}, [["X", "Y", "X"]]);
    assert {"X"} + {"Y"} == {"X", "Y"} && {} + {"X"} == {"X"};
    assert VisitFrom(adj, "X", s2) == (["X"], s2);
    assert ["X"] + ["Y"] == ["X", "Y"];
    assert ExploreFrom(adj, "Y", 0, s2) == (["X", "Y"], s2);
    assert VisitFrom(adj, "Y", s1) == ExploreFrom(adj, "Y", 0, s2);
    assert ["X", "Y"] + ["X"] == ["X", "Y", "X"] && [] + [["X", "Y", "X"]] == [["X", "Y", "X"]];
    assert ExploreFrom(adj, "X", 0, s1) == ([], done);
    assert VisitFrom(adj, "X", Search({}, {}, [])) == ExploreFrom(adj, "X", 0, s1);
    assert SearchAll(adj, ["X"]) == done by {
      assert ["X"][..0] == [];
    }
    assert VisitFrom(adj, "Y", done) == (["Y"], done);
    assert ["X", "Y"][..1] == ["X"];
  }

  /** Two types that list each other: two edges, in entry order, and a
      two-line dump. */
  lemma MutualPairScenario()
    ensures AllEdges([Entry("X", Some(["Y"])), Entry("Y", Some(["X"]))]) == [Edge("X", "Y"), Edge("Y", "X")]
    ensures DumpText([Edge("X", "Y"), Edge("Y", "X")]) == "X -> Y\nY -> X\n"
  {
    var entries := [Entry("X", Some(["Y"])), Entry("Y", Some(["X"]))];
    assert EntryEdges(entries[0]) == [Edge("X", "Y")];
    assert AllEdges(entries[1..]) == [Edge("Y", "X")] + AllEdges([]);
    var edges := [Edge("X", "Y"), Edge("Y", "X")];
    assert edges[..1] == [Edge("X", "Y")] && edges[..1][..0] == [];
    assert DumpText(edges[..1]) == EdgeLine(Edge("X", "Y"));
    assert DumpText(edges) == EdgeLine(Edge("X", "Y")) + EdgeLine(Edge("Y", "X"));
  }

  // ---------------------------------------------------------------------
  // Report

  const NoCyclesLine := "No cycles detected."
  const CyclesHeader := "Cycles detected:"

  /** `sep.join(names)` */
  function Join(names: seq<string>, sep: string): string {
    if names == [] then ""
    else if |names| == 1 then names[0]
    else Join(names[..|names| - 1], sep) + sep + names[|names| - 1]
  }

  /** The log lines `main` writes about the detected cycles. */
  function Report(cycles: seq<seq<string>>): seq<string> {
    if cycles == [] then [NoCyclesLine]
    else [CyclesHeader] + seq(|cycles|, i requires 0 <= i < |cycles| => Join(cycles[i], " -> "))
  }

  /** The report opens with "No cycles detected." exactly when no cycle was
      recorded, and otherwise lists one line per cycle after its header. */
  lemma ReportShape(cycles: seq<seq<string>>)
    ensures |Report(cycles)| >= 1
    ensures Report(cycles)[0] == NoCyclesLine <==> cycles == []
    ensures cycles != [] ==> Report(cycles)[0] == CyclesHeader && |Report(cycles)| == |cycles| + 1
    ensures cycles != [] ==> forall i :: 0 <= i < |cycles| ==> Report(cycles)[i + 1] == Join(cycles[i], " -> ")
  {
  }

  /** A self-loop on `a` is reported as the line "a -> a". */
  lemma SelfLoopLine(a: string)
    ensures Report([[a, a]]) == [CyclesHeader, a + " -> " + a]
  {
    assert [a, a][..1] == [a];
    assert Join([a, a], " -> ") == a + " -> " + a;
  }

  /** For the X/Y entries, main reports the one cycle "X -> Y -> X". */
  lemma MutualPairCycles()
    ensures WellFormed(Build([Entry("X", Some(["Y"])), Entry("Y", Some(["X"]))]))
    ensures Detected(Build([Entry("X", Some(["Y"])), Entry("Y", Some(["X"]))])) == [["X", "Y", "X"]]
    ensures Report(Detected(Build([Entry("X", Some(["Y"])), Entry("Y", Some(["X"]))])))
            == [CyclesHeader, "X -> Y -> X"]
  {
    var entries := [Entry("X", Some(["Y"])), Entry("Y", Some(["X"]))];
    BuildEdges(entries);
    MutualPairRegistry();
    MutualPairSearch();
    var g := Build(entries);
    assert Detected(g) == SearchAll(g.nodes, g.order).cycles;
    PairLine();
  }

  lemma PairLine()
    ensures Report([["X", "Y", "X"]]) == [CyclesHeader, "X -> Y -> X"]
  {
    var c := ["X", "Y", "X"];
    assert c[..2] == ["X", "Y"] && c[..2][..1] == ["X"];
    assert Join(c, " -> ") == "X" + " -> " + "Y" + " -> " + "X";
    assert "X" + " -> " + "Y" + " -> " + "X" == "X -> Y -> X";
    assert Report([c]) == [CyclesHeader] + [Join(c, " -> ")];
  }

  // ---------------------------------------------------------------------
  // Driver

  /** The edge-building loop of main. */
  method BuildGraph(entries: seq<Entry>) returns (g: Graph)
    ensures fresh(g) && g.Valid()
    ensures g.Model() == Build(entries)
  {
    g := new Graph();
    for k := 0 to |entries|
      invariant fresh(g) && g.Valid()
      invariant g.Model() == Build(entries[..k])
    {
      var entry := entries[k];
      ghost var before := g.Model();
      match entry.subtypes {
        case None =>
        case Some(subtypes) =>
          for j := 0 to |subtypes|
            invariant g.Valid()
            invariant g.Model() == AddEdges(before, entry.typeName, subtypes[..j])
          {
            assert subtypes[..j + 1][..j] == subtypes[..j];
            g.AddEdge(entry.typeName, subtypes[j]);
          }
          assert subtypes[..|subtypes|] == subtypes;
      }
      assert g.Model() == AddEntry(before, entry);
      assert entries[..k + 1][..k] == entries[..k];
      assert Build(entries[..k + 1]) == AddEntry(Build(entries[..k]), entry);
    }
    assert entries[..|entries|] == entries;
  }

  /** main without its file I/O: the report lines and the dump text for the
      given entries. */
  method Analyze(entries: seq<Entry>) returns (report: seq<string>, dump: string)
    ensures WellFormed(Build(entries)) && report == Report(Detected(Build(entries)))
    ensures dump == DumpText(AllEdges(entries))
    ensures Acyclic(Build(entries).nodes) ==> report == [NoCyclesLine]
    ensures !Acyclic(Build(entries).nodes) ==> |report| >= 2 && report[0] == CyclesHeader
    ensures forall i :: 1 <= i < |report| ==>
              exists c :: IsRecordedCycle(Build(entries).nodes, c) && report[i] == Join(c, " -> ")
  {
    var g := BuildGraph(entries);
    var cycles;
    ghost var expanded;
    cycles, expanded := g.DetectCycles();
    report := Report(cycles);
    ReportShape(cycles);
    dump := g.DumpGraph();
    BuildEdges(entries);
    forall i | 1 <= i < |report|
      ensures exists c :: IsRecordedCycle(Build(entries).nodes, c) && report[i] == Join(c, " -> ")
    {
      assert cycles[i - 1] in cycles;
    }
  }
}
