/** Descriptions over a history of runs, while the contract changes between them. */
module RunHistory {
  import opened Wrappers
  import opened JsonTree
  import opened JsonLayout
  import opened JsonFidelity
  import opened Contract
  import opened ContractReading
  import opened Requests
  import opened Merging
  import opened MergeFrame
  import opened Settled
  import opened Regenerate

  /** The descriptions of the requests for one RPC, in the order of the folder. */
  function Descriptions(items: seq<Node>, p: string): seq<string> {
    if items == [] then []
    else
      var last := items[|items| - 1];
      Descriptions(items[..|items| - 1], p) + if ProcedureOf(last) == p then [Description(RequestMembers(last))] else []
  }

  /** An RPC without a request starts from one that says nothing. */
  function Started(ds: seq<string>): (r: seq<string>)
    ensures r != []
  {
    if ds == [] then [""] else ds
  }

  function Merges(ds: seq<string>, m: Method): seq<string> {
    if ds == [] then [] else Merges(ds[..|ds| - 1], m) + [MergeDescription(ds[|ds| - 1], m)]
  }

  // ---- one merge ----------------------------------------------------------

  lemma {:induction false} DescriptionsOfSelected(items: seq<Node>, p: string)
    ensures Descriptions(Select(items, Callers(p)), p) == Descriptions(items, p)
  {
    hide ProcedureOf, Description, RequestMembers;
    if items != [] {
      var n := |items| - 1;
      DescriptionsOfSelected(items[..n], p);
      if ProcedureOf(items[n]) == p {
        assert Select(items, Callers(p))[..|Select(items[..n], Callers(p))|] == Select(items[..n], Callers(p));
      } else {
        assert Select(items[..n], Callers(p)) + [] == Select(items[..n], Callers(p));
      }
    }
  }

  lemma {:induction false} NoneDescribed(items: seq<Node>, p: string)
    requires p != ""
    ensures Descriptions(items, p) == [] <==> p !in Called(items)
  {
    hide ProcedureOf, Description, RequestMembers;
    if items != [] {
      var n := |items| - 1;
      NoneDescribed(items[..n], p);
      assert items == items[..n] + [items[n]];
    }
  }

  /** Requests for a declared RPC are never stale. */
  lemma {:induction false} DescribedAreKept(items: seq<Node>, methods: seq<Method>, m: Method)
    requires m in methods
    ensures Descriptions(Pruned(items, methods), m.Procedure()) == Descriptions(items, m.Procedure())
  {
    hide ProcedureOf, Description, RequestMembers, LookUp;
    if items != [] {
      var n := |items| - 1;
      var last := items[n];
      DescribedAreKept(items[..n], methods, m);
      assert items[..n + 1] == items;
      PruneStep(items, n, methods);
      var kept := Pruned(items[..n], methods);
      if !Stale(last, methods) {
        assert (kept + [last])[..|kept|] == kept;
      } else {
        assert ProcedureOf(last) != m.Procedure();
      }
    }
  }

  /** Bringing items up to date merges the description of each request. */
  lemma {:induction false} UpdatedDescriptions(items: seq<Node>, methods: seq<Method>, m: Method)
    requires WorkableAll(items, methods) && DistinctProcedures(methods) && m in methods && m.Procedure() != ""
    ensures Descriptions(UpdatedAll(items, methods), m.Procedure()) == Merges(Descriptions(items, m.Procedure()), m)
  {
    hide ProcedureOf, Description, RequestMembers, Workable, Updated, MergeDescription;
    if items != [] {
      var n := |items| - 1;
      UpdatedDescriptions(items[..n], methods, m);
      var updated := UpdatedAll(items, methods);
      assert updated[..n] == UpdatedAll(items[..n], methods);
      assert items[n] in items;
      UpdatedKeepsTheCall(items[n], methods);
      var before := Descriptions(items[..n], m.Procedure());
      if ProcedureOf(items[n]) == m.Procedure() {
        UpdatedDescription(items[n], methods, m);
        var d := Description(RequestMembers(items[n]));
        assert (before + [d])[..|before|] == before;
        assert Descriptions(items, m.Procedure()) == before + [d];
        assert Merges(before + [d], m) == Merges(before, m) + [MergeDescription(d, m)];
      } else {
        assert before + [] == before;
        assert Merges(before, m) + [] == Merges(before, m);
      }
    }
  }

  lemma {:induction false} UpdatedDescription(t: Node, methods: seq<Method>, m: Method)
    requires Workable(t, methods) && DistinctProcedures(methods) && m in methods
    requires ProcedureOf(t) == m.Procedure() != ""
    ensures Description(RequestMembers(Updated(t, methods))) == MergeDescription(Description(RequestMembers(t)), m)
  {
    hide ProcedureOf, Refreshed, MergeDescription, UrlNode, Flat, Comparable, LookUp;
    LookUpDistinct(methods, m);
    RefreshedFacts(t, m);
    RefreshFrame(t, m, "request");
  }

  lemma {:induction false} NewDescription(m: Method)
    requires OfThisSystem(m)
    ensures Descriptions([NewRequest(m)], m.Procedure()) == [MergeDescription("", m)]
  {
    hide ProcedureOf, NewRequest, MergeDescription, UrlNode, Get;
    NewRequestCallsItsMethod(m);
    NewRequestFields(m);
    assert [NewRequest(m)][..0] == [];
  }

  /** One merge merges every description of a declared RPC once, or starts it. */
  lemma {:induction false} OneMerge(items: seq<Node>, methods: seq<Method>, m: Method)
    requires WorkableAll(items, methods) && ContractOk(methods) && DistinctProcedures(methods) && m in methods
    ensures Descriptions(MergedItems(items, methods), m.Procedure())
         == Merges(Started(Descriptions(items, m.Procedure())), m)
  {
    hide ProcedureOf, NewRequest, Updated, Workable, LookUp, Stale, MergedItems, UpdatedAll, Called, MergeDescription,
        Pruned, Descriptions;
    var p, kept := m.Procedure(), Pruned(items, methods);
    RequestsForOneProcedure(items, methods, m);
    DescriptionsOfSelected(MergedItems(items, methods), p);
    DescribedAreKept(items, methods, m);
    KeptAreWorkable(items, methods);
    UpdatedDescriptions(kept, methods, m);
    DescriptionsOfSelected(UpdatedAll(kept, methods), p);
    NoneDescribed(kept, p);
    NewDescription(m);
    assert [""][..0] == [];
    assert [] + [MergeDescription("", m)] == [MergeDescription("", m)];
  }

  lemma {:induction false} DescriptionsIgnoreLayout(items: seq<Node>, p: string)
    ensures Descriptions(FlattenItems(items), p) == Descriptions(items, p)
  {
    hide ProcedureOf, Description, RequestMembers, Flatten;
    if items != [] {
      var n := |items| - 1;
      FlattenItemsAt(items);
      FlattenItemsAt(items[..n]);
      assert FlattenItems(items)[..n] == FlattenItems(items[..n]);
      DescriptionsIgnoreLayout(items[..n], p);
      FlattenCall(items[n]);
      FlattenFacts(items[n], Method("", "", "", "", "", "", ""));
    }
  }

  // ---- one run ------------------------------------------------------------

  function Items(file: string): seq<Node>
    requires ReadDocument(file).Some? && FolderItems(Tree(file)).Some?
  {
    FolderItems(Tree(file)).value
  }

  lemma UsableHasItems(file: string, methods: seq<Method>)
    requires Usable(file, methods)
    ensures ReadDocument(file).Some? && FolderItems(Tree(file)).Some?
  {
  }

  /** What one run does to the descriptions in the file. */
  lemma {:induction false} OneRun(file: string, methods: seq<Method>, m: Method)
    requires Usable(file, methods) && Declared(methods) && m in methods
    ensures Usable(Rewritten(file, methods), methods)
    ensures Descriptions(Items(Rewritten(file, methods)), m.Procedure())
         == Merges(Started(Descriptions(Items(file), m.Procedure())), m)
  {
    hide ReadValue, Mergeable, Merged, Flatten, WriteDocument, CheckValue, FolderItems, MergedItems, Descriptions, Called;
    var root := Tree(file);
    RewrittenReadsBack(file, methods);
    var after := Tree(Rewritten(file, methods));
    MergedFolder(root, methods);
    FolderIsWorkable(root, methods);
    FolderIsWorkable(after, methods);
    MergedIsMergeable(root, methods);
    MergeIgnoresLayout(after, Merged(root, methods), methods);
    DescriptionsIgnoreLayout(FolderItems(after).value, m.Procedure());
    DescriptionsIgnoreLayout(MergedItems(FolderItems(root).value, methods), m.Procedure());
    OneMerge(FolderItems(root).value, methods, m);
  }

  lemma {:induction false} MergesStateTheFacts(ds: seq<string>, m: Method)
    requires Quotable(m)
    ensures |Merges(ds, m)| == |ds| && forall j :: 0 <= j < |ds| ==> StatesFacts(Merges(ds, m)[j], FactsOf(m))
  {
    hide StatesFacts, MergeDescription, FactsOf, Quotable;
    if ds != [] {
      MergesStateTheFacts(ds[..|ds| - 1], m);
      MergedStatesTheFacts(ds[|ds| - 1], m);
    }
  }

  /** After a run every request for a declared RPC says what the contract says: RPC, file, scope and binding. */
  lemma {:induction false} RunStatesTheFacts(file: string, methods: seq<Method>, m: Method)
    requires Usable(file, methods) && Declared(methods) && m in methods && Quotable(m)
    ensures Usable(Rewritten(file, methods), methods)
    ensures var ds := Descriptions(Items(Rewritten(file, methods)), m.Procedure());
            ds != [] && forall j :: 0 <= j < |ds| ==> StatesFacts(ds[j], FactsOf(m))
  {
    hide ReadValue, Mergeable, Rewritten, FolderItems, Declared, Descriptions, Merges, StatesFacts, FactsOf, Quotable;
    OneRun(file, methods, m);
    UsableHasItems(file, methods);
    MergesStateTheFacts(Started(Descriptions(Items(file), m.Procedure())), m);
  }

  /** A request that a merge kept can be merged with any contract. */
  lemma WorkableForAny(t: Node, methods: seq<Method>, other: seq<Method>)
    requires Workable(t, methods) && !Stale(t, methods)
    ensures Workable(t, other)
  {
    hide ProcedureOf, Navigable, LookUp, Comparable, Field;
  }

  /** What a run wrote can be merged with any other contract. */
  lemma {:induction false} WrittenIsUsable(file: string, methods: seq<Method>, other: seq<Method>)
    requires Usable(file, methods) && ContractOk(methods) && other != []
    ensures Usable(Rewritten(file, methods), other)
  {
    hide ReadValue, Mergeable, Merged, Flatten, WriteDocument, CheckValue, FolderItems, MergedItems, Called, Workable,
        Stale;
    var root := Tree(file);
    var merged := Merged(root, methods);
    RewrittenReadsBack(file, methods);
    MergedFolder(root, methods);
    FolderIsWorkable(root, methods);
    var items := FolderItems(root).value;
    MergedItemsAreWorkable(items, methods);
    CoverageIsExact(items, methods);
    CoveredIsNotStale(MergedItems(items, methods), methods);
    forall t | t in MergedItems(items, methods) ensures Workable(t, other) { WorkableForAny(t, methods, other); }
    MergeableByItems(merged, other);
    MergeIgnoresLayout(Tree(Rewritten(file, methods)), merged, other);
  }

  // ---- a history of runs --------------------------------------------------

  /** The file after regenerating it with one contract after another. */
  function RunAll(file: string, contracts: seq<seq<Method>>): Option<string> {
    if contracts == [] then Some(file)
    else
      var before :- RunAll(file, contracts[..|contracts| - 1]);
      var outcome := Run(before, contracts[|contracts| - 1], false);
      if outcome.Finished? then Some(outcome.file) else None
  }

  /** The methods one RPC had, contract by contract. */
  ghost predicate Versions(contracts: seq<seq<Method>>, versions: seq<Method>, p: string) {
    && |versions| == |contracts|
    && forall i :: 0 <= i < |contracts| ==>
         Declared(contracts[i]) && versions[i] in contracts[i] && versions[i].Procedure() == p
  }

  function Histories(ds: seq<string>, versions: seq<Method>): seq<string> {
    if ds == [] then [] else Histories(ds[..|ds| - 1], versions) + [MergeHistory(ds[|ds| - 1], versions)]
  }

  lemma {:induction false} HistoriesAt(ds: seq<string>, versions: seq<Method>)
    ensures |Histories(ds, versions)| == |ds|
    ensures forall j :: 0 <= j < |ds| ==> Histories(ds, versions)[j] == MergeHistory(ds[j], versions)
  {
    hide MergeHistory;
    if ds != [] { HistoriesAt(ds[..|ds| - 1], versions); }
  }

  lemma {:induction false} NoVersions(ds: seq<string>)
    ensures Histories(ds, []) == ds
  {
    if ds != [] { NoVersions(ds[..|ds| - 1]); }
  }

  lemma {:induction false} OneMoreMerge(ds: seq<string>, versions: seq<Method>)
    requires versions != []
    ensures Histories(ds, versions) == Merges(Histories(ds, versions[..|versions| - 1]), versions[|versions| - 1])
  {
    hide MergeDescription, MergeHistory;
    if ds != [] {
      var n := |ds| - 1;
      OneMoreMerge(ds[..n], versions);
      OneMoreVersion(ds[n], versions);
      var init := versions[..|versions| - 1];
      assert Histories(ds, init)[..|Histories(ds[..n], init)|] == Histories(ds[..n], init);
    }
  }

  lemma StartedOnce(ds: seq<string>, versions: seq<Method>)
    ensures Started(Histories(Started(ds), versions)) == Histories(Started(ds), versions)
  {
    HistoriesAt(Started(ds), versions);
  }

  /**
   * Over any history of contracts that all declare an RPC, every run goes
   * through, and each description of that RPC ends as the merge of its text
   * with the RPC's versions one after another.
   */
  lemma {:induction false} RunsFollowTheVersions(file: string, contracts: seq<seq<Method>>, versions: seq<Method>,
      p: string, other: seq<Method>)
    requires contracts != [] && Usable(file, contracts[0]) && Versions(contracts, versions, p) && other != []
    ensures RunAll(file, contracts).Some? && Usable(RunAll(file, contracts).value, other)
    ensures Descriptions(Items(RunAll(file, contracts).value), p)
         == Histories(Started(Descriptions(Items(file), p)), versions)
  {
    hide ReadValue, Mergeable, Merged, WriteDocument, FolderItems, Descriptions, Histories, Declared, Changes;
    var n := |contracts| - 1;
    var last, m := contracts[n], versions[n];
    UsableHasItems(file, contracts[0]);
    var start := Descriptions(Items(file), p);
    assert last != [];
    OneMoreMerge(Started(start), versions);
    if n == 0 {
      assert versions[..0] == [] && contracts[..0] == [];
      NoVersions(Started(start));
      OneRun(file, last, m);
      DeclaredIsOk(last);
      WrittenIsUsable(file, last, other);
    } else {
      RunsFollowTheVersions(file, contracts[..n], versions[..n], p, last);
      var before := RunAll(file, contracts[..n]).value;
      StartedOnce(start, versions[..n]);
      OneRun(before, last, m);
      DeclaredIsOk(last);
      WrittenIsUsable(before, last, other);
    }
  }

  lemma DeclaredIsOk(methods: seq<Method>)
    requires Declared(methods)
    ensures ContractOk(methods) && CommentsStripped(methods)
  {
  }

  /**
   * A request that is there, or is built by the first run, keeps through every
   * later contract the prose the first run left it, above the block of the
   * last contract alone.
   */
  lemma {:induction false} ProseSurvivesEveryRun(file: string, contracts: seq<seq<Method>>, versions: seq<Method>,
      p: string)
    requires |contracts| >= 2 && Usable(file, contracts[0]) && Versions(contracts, versions, p)
    ensures RunAll(file, contracts).Some? && Usable(RunAll(file, contracts).value, contracts[0])
    ensures var start := Started(Descriptions(Items(file), p));
            var end := Descriptions(Items(RunAll(file, contracts).value), p);
            |end| == |start| && forall j :: 0 <= j < |end| ==>
              end[j] == KeptProse(start[j], versions[0]) + "\n\n" + ContractBlock(versions[|versions| - 1])
  {
    hide ReadValue, Mergeable, RunAll, FolderItems, Descriptions, Histories, Declared, KeptProse, ContractBlock;
    RunsFollowTheVersions(file, contracts, versions, p, contracts[0]);
    UsableHasItems(file, contracts[0]);
    var start := Started(Descriptions(Items(file), p));
    HistoriesAt(start, versions);
    DeclaredIsOk(contracts[0]);
    forall j | 0 <= j < |start|
      ensures MergeHistory(start[j], versions)
           == KeptProse(start[j], versions[0]) + "\n\n" + ContractBlock(versions[|versions| - 1])
    {
      HistoryKeepsTheFirstProse(start[j], versions);
    }
  }
}
