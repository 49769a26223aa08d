/** A run of the script: read, merge, print, and compare with what was there. */
module Regenerate {
  import opened Wrappers
  import opened JsonTree
  import opened JsonReader
  import opened JsonLayout
  import opened JsonFidelity
  import opened Contract
  import opened Requests
  import opened Merging
  import opened MergeFrame
  import opened Settled

  /** How a run ends: with a message and no writing, or with a code, the file as it then is, and the report. */
  datatype Outcome = Refused | Finished(code: int, file: string, report: seq<Change>)

  /** The text and the methods can be merged at all. */
  predicate Usable(file: string, methods: seq<Method>) {
    methods != [] && ReadDocument(file).Some? && Mergeable(ReadDocument(file).value, methods)
  }

  function Tree(file: string): Node
    requires ReadDocument(file).Some?
  {
    ReadDocument(file).value
  }

  function Rewritten(file: string, methods: seq<Method>): string
    requires Usable(file, methods)
  {
    WriteDocument(Merged(Tree(file), methods))
  }

  function Run(file: string, methods: seq<Method>, check: bool): Outcome {
    if !Usable(file, methods) then Refused
    else if Rewritten(file, methods) == file then Finished(0, file, [])
    else if check then Finished(1, file, Changes(Tree(file), methods))
    else Finished(0, Rewritten(file, methods), Changes(Tree(file), methods))
  }

  method RunScript(original: string, methods: seq<Method>, check: bool) returns (outcome: Outcome)
    ensures outcome == Run(original, methods, check)
  {
    hide ReadValue, Mergeable, Merged, Changes, WriteDocument;
    if methods == [] { return Refused; }
    var parser := new Parser(original);
    assert original[0..] == original;
    var root := parser.Parse();
    if root.None? { return Refused; }
    var collection := new Collection(root.value);
    var changes := collection.Merge(methods);
    if changes.None? { return Refused; }
    var updated := WriteDocument(collection.root);
    if updated == original { return Finished(0, original, []); }
    if check { return Finished(1, original, changes.value); }
    return Finished(0, updated, changes.value);
  }

  /** A run stops before writing exactly without a contract, on a text that is not read, or on a tree it cannot merge. */
  lemma RefusedExactly(file: string, methods: seq<Method>, check: bool)
    ensures Run(file, methods, check).Refused? <==>
      methods == [] || ReadDocument(file).None? || !Mergeable(ReadDocument(file).value, methods)
  {
    hide ReadValue, Mergeable, Merged, Changes, WriteDocument;
  }

  // ---- the merged tree is a tree ------------------------------------------

  predicate AllWellFormed(items: seq<Node>) {
    forall i :: 0 <= i < |items| ==> WellFormed(items[i])
  }

  predicate MembersWellFormed(ms: seq<Member>) {
    DistinctKeys(ms) && forall i :: 0 <= i < |ms| ==> WellFormed(ms[i].value)
  }

  lemma PutKeepsForm(ms: seq<Member>, key: string, value: Node)
    requires MembersWellFormed(ms) && WellFormed(value)
    ensures MembersWellFormed(Put(ms, key, value))
  {
    hide WellFormed, Put;
    PutWellFormed(ms, key, value);
    PutKeepsKeysDistinct(ms, key, value);
  }

  lemma {:induction false} GetIsWellFormed(ms: seq<Member>, key: string)
    requires forall i :: 0 <= i < |ms| ==> WellFormed(ms[i].value)
    ensures Get(ms, key).Some? ==> WellFormed(Get(ms, key).value)
  {
    hide WellFormed;
    if ms != [] && ms[0].key != key { GetIsWellFormed(ms[1..], key); }
  }

  lemma ObjectForm(ms: seq<Member>, layout: Layout)
    requires MembersWellFormed(ms)
    ensures WellFormed(Object(ms, layout))
  {
  }

  lemma BuiltHeaders(m: Method)
    ensures AllWellFormed(Headers(m))
  {
    forall i | 0 <= i < |Headers(m)| ensures WellFormed(Headers(m)[i]) {
      assert WellFormed(Headers(m)[i].members[0].value) && WellFormed(Headers(m)[i].members[1].value);
    }
  }

  lemma BuiltUrl(m: Method, host: string)
    ensures WellFormed(UrlNode(m, host))
  {
    ObjectForm(UrlNode(m, host).members, Broken);
  }

  lemma {:induction false} BuiltRequest(m: Method)
    ensures WellFormed(NewRequest(m).members[1].value)
  {
    hide UrlNode, Headers, MergeDescription;
    var ms := NewRequest(m).members[1].value.members;
    BuiltHeaders(m);
    BuiltUrl(m, DEFAULT_HOST);
    assert WellFormed(ms[1].value) && WellFormed(ms[3].value);
    ObjectForm(ms[2].value.members, ByWidth);
    ObjectForm(ms, ByWidth);
  }

  lemma {:induction false} BuiltIsWellFormed(m: Method)
    ensures WellFormed(NewRequest(m))
  {
    var ms := NewRequest(m).members;
    BuiltRequest(m);
    hide WellFormed;
    assert WellFormed(ms[0].value) by { NewStringForm(m.name + " (" + m.service + ")"); }
    ObjectForm(ms, ByWidth);
  }

  lemma NewStringForm(value: string)
    ensures WellFormed(NewString(value))
  {
  }

  lemma HasRequest(t: Node)
    requires ProcedureOf(t) != ""
    ensures Field(t, "request").Some?
  {
  }

  lemma {:induction false} RefreshedIsWellFormed(t: Node, m: Method)
    requires WellFormed(t) && Navigable(t) && ProcedureOf(t) != ""
    ensures WellFormed(Refreshed(t, m))
  {
    hide MergeDescription, UrlNode, Flat, Put, Get, HostOf, ProcedureOf;
    HasRequest(t);
    var request := Field(t, "request").value;
    GetIsWellFormed(t.members, "request");
    var r := RequestMembers(t);
    var wanted := UrlNode(m, HostOf(t));
    BuiltUrl(m, HostOf(t));
    PutKeepsForm(r, "method", NewString("POST"));
    PutKeepsForm(WithMethod(r), "url", wanted);
    var r2 := WithUrl(WithMethod(r), wanted);
    PutKeepsForm(r2, "description", NewString(MergeDescription(Description(r2), m)));
    PutKeepsForm(t.members, "request", request.(members := RefreshedMembers(t, m)));
  }

  lemma MergedItemsAreWellFormed(items: seq<Node>, methods: seq<Method>)
    requires AllWellFormed(items)
    ensures AllWellFormed(MergedItems(items, methods))
  {
    hide WellFormed, ProcedureOf, NewRequest, Extended, LookUp, Navigable, Refreshed, Stale;
    var kept := Pruned(items, methods);
    var updated := UpdatedAll(kept, methods);
    forall t | t in updated ensures WellFormed(t) {
      var i :| 0 <= i < |updated| && updated[i] == t;
      assert kept[i] in items;
      var m := LookUp(methods, ProcedureOf(kept[i]));
      if t != kept[i] { RefreshedIsWellFormed(kept[i], m.value); }
    }
    ExtendedIsFrom(updated, methods, Called(kept));
    forall t | t in MergedItems(items, methods) ensures WellFormed(t) {
      if t !in updated {
        var m :| m in methods && t == NewRequest(m);
        BuiltIsWellFormed(m);
      }
    }
  }

  lemma WithEntriesIsWellFormed(t: Node, items: seq<Node>)
    requires WellFormed(t) && Entries(t).Some? && AllWellFormed(items)
    ensures WellFormed(WithEntries(t, items))
  {
    hide Put, Get;
    PutKeepsForm(t.members, "item", Field(t, "item").value.(items := items));
  }

  lemma EntriesAreWellFormed(t: Node)
    requires WellFormed(t) && Entries(t).Some?
    ensures AllWellFormed(Entries(t).value)
  {
    GetIsWellFormed(t.members, "item");
  }

  lemma MergedIsWellFormed(root: Node, methods: seq<Method>)
    requires WellFormed(root) && Mergeable(root, methods)
    ensures WellFormed(Merged(root, methods))
  {
    hide WellFormed, Entries, WithEntries, MergedItems, Workable;
    var k, entries := FolderIndex(root).value, Entries(root).value;
    EntriesAreWellFormed(root);
    EntriesAreWellFormed(entries[k]);
    var items := MergedItems(FolderItems(root).value, methods);
    MergedItemsAreWellFormed(FolderItems(root).value, methods);
    WithEntriesIsWellFormed(entries[k], items);
    WithEntriesIsWellFormed(root, entries[k := WithEntries(entries[k], items)]);
  }

  // ---- merging again ------------------------------------------------------

  /** A proto contract: packages of this system, no RPC twice, comments as they are read. */
  predicate Declared(methods: seq<Method>) {
    ContractOk(methods) && DistinctProcedures(methods) && CommentsStripped(methods)
  }

  lemma {:induction false} ExtendedIsWorkable(items: seq<Node>, methods: seq<Method>, all: seq<Method>, seen: set<string>)
    requires WorkableAll(items, all) && ContractOk(methods)
    ensures WorkableAll(Extended(items, methods, seen), all)
  {
    hide Workable, NewRequest, Extended;
    ExtendedIsFrom(items, methods, seen);
    forall m | m in methods ensures Workable(NewRequest(m), all) { NewIsWorkable(m, all); }
  }

  lemma {:induction false} NewIsWorkable(m: Method, all: seq<Method>)
    requires OfThisSystem(m)
    ensures Workable(NewRequest(m), all)
  {
    hide ProcedureOf, NewRequest, LookUp, Navigable, Comparable;
    NewRequestCallsItsMethod(m);
  }

  lemma {:induction false} MergedItemsAreWorkable(items: seq<Node>, methods: seq<Method>)
    requires WorkableAll(items, methods) && ContractOk(methods)
    ensures WorkableAll(MergedItems(items, methods), methods)
  {
    hide Workable, Updated, ProcedureOf, Extended;
    var kept := Pruned(items, methods);
    KeptAreWorkable(items, methods);
    var updated := UpdatedAll(kept, methods);
    forall t | t in updated ensures Workable(t, methods) {
      var i :| 0 <= i < |updated| && updated[i] == t;
      assert kept[i] in kept;
      UpdatedKeepsTheCall(kept[i], methods);
    }
    ExtendedIsWorkable(updated, methods, methods, Called(kept));
  }

  lemma MergedFolder(root: Node, methods: seq<Method>)
    requires Mergeable(root, methods)
    ensures FolderIndex(Merged(root, methods)) == FolderIndex(root)
    ensures FolderItems(Merged(root, methods)) == Some(MergedItems(FolderItems(root).value, methods))
  {
    hide Workable, MergedItems;
    NothingOutsideTheFolderMoves(root, methods, "name");
    var r, k := Merged(root, methods), FolderIndex(root).value;
    var before, after := Entries(root).value, Entries(r).value;
    OwnFoldersAgree(after, before);
    assert Inspectable(after[k]) && Inspectable(before[k]);
    hide Inspectable;
    InspectableAgree(after, before);
  }

  lemma MergedIsMergeable(root: Node, methods: seq<Method>)
    requires Mergeable(root, methods) && ContractOk(methods)
    ensures Mergeable(Merged(root, methods), methods)
  {
    hide Workable, MergedItems, FolderItems, Merged;
    MergedFolder(root, methods);
    MergedItemsAreWorkable(FolderItems(root).value, methods);
  }

  lemma {:induction false} WithSameEntries(t: Node)
    requires Entries(t).Some?
    ensures WithEntries(t, Entries(t).value) == t
  {
    PutSame(t.members, "item");
  }

  lemma SettledTreeIsUntouched(root: Node, methods: seq<Method>)
    requires Mergeable(root, methods) && Changes(root, methods) == []
    ensures Merged(root, methods) == root
  {
    hide Workable, MergedItems, ItemChanges, WithEntries, Entries, FolderIndex;
    var k, entries := FolderIndex(root).value, Entries(root).value;
    NoChangesIffSettled(FolderItems(root).value, methods);
    WithSameEntries(entries[k]);
    assert entries[k := entries[k]] == entries;
    WithSameEntries(root);
  }

  /** What a run wrote reads back as a tidy tree that differs from the merged one only in layout. */
  lemma {:induction false} RewrittenReadsBack(file: string, methods: seq<Method>)
    requires Usable(file, methods) && ContractOk(methods)
    ensures var after := Rewritten(file, methods);
            && Tidy(after) && Usable(after, methods)
            && Flatten(Tree(after)) == Flatten(Merged(Tree(file), methods))
  {
    hide ReadValue, Mergeable, Merged, Flatten, WriteDocument, CheckValue, WellFormed;
    var root := Tree(file);
    var merged := Merged(root, methods);
    ReadIsWellFormed(file);
    MergedIsWellFormed(root, methods);
    PrintThenRead(merged);
    FaithfulExactlyOnTidyText(WriteDocument(merged));
    MergedIsMergeable(root, methods);
    MergeIgnoresLayout(Reread(merged, 0, 0), merged, methods);
  }

  /** The descriptions a run on this file writes can all be found again by the next. */
  ghost predicate Anchors(file: string, methods: seq<Method>)
    requires Usable(file, methods)
  {
    AllAnchored(FolderItems(Tree(file)).value, methods)
  }

  lemma {:induction false} ChangesBySettled(root: Node, methods: seq<Method>)
    requires Mergeable(root, methods)
    ensures Changes(root, methods) == [] <==> SettledItems(FolderItems(root).value, methods)
  {
    hide Workable, ItemChanges, SettledItems, FolderItems;
    NoChangesIffSettled(FolderItems(root).value, methods);
  }

  /**
   * Merging what a run wrote with the same contract reports no change exactly
   * when every description the run wrote is anchored.
   */
  lemma {:induction false} SecondMergeIsEmpty(file: string, methods: seq<Method>)
    requires Usable(file, methods) && Declared(methods)
    ensures var after := Rewritten(file, methods);
            Usable(after, methods) && (Changes(Tree(after), methods) == [] <==> Anchors(file, methods))
  {
    hide ReadValue, Mergeable, Merged, Flatten, WriteDocument, CheckValue, AllAnchored, SettledItems, Changes,
        FolderItems, MergedItems;
    var root := Tree(file);
    RewrittenReadsBack(file, methods);
    var after := Tree(Rewritten(file, methods));
    MergedFolder(root, methods);
    MergedIsMergeable(root, methods);
    MergeIgnoresLayout(after, Merged(root, methods), methods);
    FolderIsWorkable(root, methods);
    MergeSettles(FolderItems(root).value, methods);
    ChangesBySettled(after, methods);
  }

  lemma FolderIsWorkable(root: Node, methods: seq<Method>)
    ensures Mergeable(root, methods) ==> FolderItems(root).Some? && WorkableAll(FolderItems(root).value, methods)
  {
  }

  // ---- what the check means -----------------------------------------------

  lemma {:induction false} UnchangedIsCurrent(t: Node, methods: seq<Method>)
    requires Workable(t, methods) && !Stale(t, methods)
    requires Flatten(Updated(t, methods)) == Flatten(t)
    ensures SettledItem(t, methods)
  {
    hide Flatten, MergeDescription, UrlNode, Flat, Get, Put, RequestMembers, HostOf, ProcedureOf, RefreshedMembers;
    if ProcedureOf(t) != "" {
      var m := LookUp(methods, ProcedureOf(t)).value;
      var u := Refreshed(t, m);
      RefreshedFacts(t, m);
      RefreshFrame(t, m, "request");
      RefreshKeepsTheCall(t, m);
      FlattenFacts(t, m);
      FlattenFacts(u, m);
      SameFacts(t, u, m);
    }
  }

  /** Requests equal up to layout agree on the contract facts. */
  lemma SameFacts(a: Node, b: Node, m: Method)
    requires Flatten(a) == Flatten(b)
    ensures IsPost(RequestMembers(a)) == IsPost(RequestMembers(b))
    ensures Description(RequestMembers(a)) == Description(RequestMembers(b))
    ensures HostOf(a) == HostOf(b)
    ensures UrlIs(RequestMembers(a), UrlNode(m, HostOf(a))) == UrlIs(RequestMembers(b), UrlNode(m, HostOf(b)))
  {
    hide Flatten, MergeDescription, UrlNode, Flat, Get, RequestMembers, HostOf;
    FlattenCall(a);
    FlattenCall(b);
    FlattenFacts(a, m);
    FlattenFacts(b, m);
    FlattenRequest(a, "url");
    FlattenRequest(b, "url");
    var ua, ub := Get(RequestMembers(a), "url"), Get(RequestMembers(b), "url");
    if ua.Some? && ub.Some? {
      FlatOfFlatten(ua.value);
      FlatOfFlatten(ub.value);
    }
  }

  /** Equal up to layout and calling only RPCs of the contract: nothing is stale. */
  lemma CoveredIsNotStale(items: seq<Node>, methods: seq<Method>)
    requires Called(items) == Procedures(methods)
    ensures forall t :: t in items ==> !Stale(t, methods)
  {
    hide ProcedureOf;
    forall t | t in items ensures !Stale(t, methods) {
      if ProcedureOf(t) != "" {
        assert ProcedureOf(t) in Called(items);
        var m :| m in methods && m.Procedure() == ProcedureOf(t);
      }
    }
  }

  /** If the merge changes at most layout, it reports nothing. */
  lemma {:induction false} SameUpToLayoutIsSettled(items: seq<Node>, methods: seq<Method>)
    requires WorkableAll(items, methods) && ContractOk(methods)
    requires FlattenItems(MergedItems(items, methods)) == FlattenItems(items)
    ensures SettledItems(items, methods)
  {
    hide Flatten, ProcedureOf, Workable, LookUp, Updated, Stale, SettledItem, Extended, Called, Pruned;
    var final := MergedItems(items, methods);
    FlattenSettled(items, methods);
    FlattenSettled(final, methods);
    CoverageIsExact(items, methods);
    CoveredIsNotStale(items, methods);
    PrunedSettled(items, methods);
    ExtendedSettled(UpdatedAll(items, methods), methods, Called(items));
    FlattenItemsAt(items);
    FlattenItemsAt(final);
    forall t | t in items ensures SettledItem(t, methods) {
      var i :| 0 <= i < |items| && items[i] == t;
      assert Flatten(final[i]) == FlattenItems(final)[i] == FlattenItems(items)[i] == Flatten(t);
      UnchangedIsCurrent(t, methods);
    }
  }

  /** `--check` passes exactly when the file is tidy and the merge has nothing to report. */
  lemma {:induction false} CheckPassesExactlyWhenCurrent(file: string, methods: seq<Method>)
    requires Usable(file, methods) && ContractOk(methods)
    ensures Run(file, methods, true).code == 0 <==> Tidy(file) && Changes(Tree(file), methods) == []
  {
    hide ReadValue, Mergeable, Merged, Flatten, WriteDocument, CheckValue, SettledItems, Changes, FolderItems, MergedItems;
    var root := Tree(file);
    FaithfulExactlyOnTidyText(file);
    if Tidy(file) && Changes(root, methods) == [] {
      SettledTreeIsUntouched(root, methods);
    }
    if Rewritten(file, methods) == file {
      RewrittenReadsBack(file, methods);
      MergedFolder(root, methods);
      MergedIsMergeable(root, methods);
      MergeIgnoresLayout(root, Merged(root, methods), methods);
      FolderIsWorkable(root, methods);
      SameUpToLayoutIsSettled(FolderItems(root).value, methods);
      ChangesBySettled(root, methods);
    }
  }

  /**
   * Regenerating and then checking with the same contract is clean exactly
   * when every description is anchored. Either way the text written is tidy.
   */
  lemma {:induction false} RegenerateThenCheck(file: string, methods: seq<Method>)
    requires Usable(file, methods) && Declared(methods)
    ensures var first := Run(file, methods, false);
            && first.Finished? && first.code == 0 && Tidy(first.file)
            && Run(first.file, methods, true).Finished?
            && (Run(first.file, methods, true).code == 0 <==> Anchors(file, methods))
  {
    hide ReadValue, Mergeable, Merged, Flatten, WriteDocument, CheckValue, AllAnchored, Changes, FolderItems;
    var after := Rewritten(file, methods);
    assert Run(file, methods, false).file == after;
    RewrittenReadsBack(file, methods);
    SecondMergeIsEmpty(file, methods);
    CheckPassesExactlyWhenCurrent(after, methods);
  }

  /** A run never leaves a file it would lay out differently: the text is a fixed point of reading and printing. */
  lemma {:induction false} WrittenTextIsFaithful(file: string, methods: seq<Method>)
    requires Usable(file, methods) && ContractOk(methods)
    ensures var after := Rewritten(file, methods);
            ReadDocument(after).Some? && WriteDocument(Tree(after)) == after
  {
    hide ReadValue, Mergeable, Merged, Flatten, WriteDocument, CheckValue;
    RewrittenReadsBack(file, methods);
    FaithfulExactlyOnTidyText(Rewritten(file, methods));
  }

  // ---- two runs settle ----------------------------------------------------

  lemma {:induction false} HasProseIgnoresLayout(a: seq<Node>, b: seq<Node>)
    requires FlattenItems(a) == FlattenItems(b) && forall t :: t in a ==> HasProse(t)
    ensures forall t :: t in b ==> HasProse(t)
  {
    hide Flatten, ProcedureOf, Prose, Description, RequestMembers;
    FlattenItemsAt(a);
    FlattenItemsAt(b);
    forall t | t in b ensures HasProse(t) {
      var i :| 0 <= i < |b| && b[i] == t;
      assert Flatten(a[i]) == FlattenItems(a)[i] == FlattenItems(b)[i] == Flatten(t);
      assert a[i] in a;
      FlattenProse(a[i]);
      FlattenProse(t);
    }
  }

  lemma FlattenProse(t: Node)
    ensures HasProse(Flatten(t)) == HasProse(t)
  {
    hide Flatten, ProcedureOf, Prose, Description, RequestMembers;
    FlattenCall(t);
    FlattenFacts(t, Method("", "", "", "", "", "", ""));
  }

  /** Whatever a file held, the descriptions of the file a run wrote are anchored. */
  lemma {:induction false} WrittenFileIsAnchored(file: string, methods: seq<Method>)
    requires Usable(file, methods) && Declared(methods)
    ensures Usable(Rewritten(file, methods), methods) && Anchors(Rewritten(file, methods), methods)
  {
    hide ReadValue, Mergeable, Merged, Flatten, WriteDocument, CheckValue, AllAnchored, FolderItems, MergedItems,
        HasProse, Stale, Called;
    var root := Tree(file);
    RewrittenReadsBack(file, methods);
    var after := Tree(Rewritten(file, methods));
    MergedFolder(root, methods);
    MergedIsMergeable(root, methods);
    MergeIgnoresLayout(after, Merged(root, methods), methods);
    FolderIsWorkable(root, methods);
    FolderIsWorkable(after, methods);
    var items, final := FolderItems(root).value, FolderItems(after).value;
    MergedHaveProse(items, methods);
    HasProseIgnoresLayout(MergedItems(items, methods), final);
    CoverageIsExact(items, methods);
    CoveredIsNotStale(final, methods);
    ProseAnchors(final, methods);
  }

  /** For every file and contract: regenerate, regenerate, and the check is clean. */
  lemma {:induction false} TwoRunsSettle(file: string, methods: seq<Method>)
    requires Usable(file, methods) && Declared(methods)
    ensures var first := Run(file, methods, false);
            first.Finished?
            && var second := Run(first.file, methods, false);
               second.Finished? && Run(second.file, methods, true) == Finished(0, second.file, [])
  {
    hide ReadValue, Mergeable, Merged, Flatten, WriteDocument, CheckValue, Anchors, Changes, FolderItems;
    var after := Rewritten(file, methods);
    assert Run(file, methods, false).file == after;
    WrittenFileIsAnchored(file, methods);
    RegenerateThenCheck(after, methods);
  }

  // ---- the check on layout alone ------------------------------------------

  /** Dropping the line break at the end of a file that passes makes the check fail, with nothing to report. */
  lemma {:induction false} LayoutAloneFailsTheCheck(file: string, methods: seq<Method>)
    requires Usable(file, methods) && ContractOk(methods) && Run(file, methods, true).code == 0
    ensures file != ""
    ensures var cut := file[..|file| - 1]; Run(cut, methods, true) == Finished(1, cut, [])
  {
    hide ReadValue, Mergeable, Merged, Flatten, WriteDocument, CheckValue, Changes;
    CheckPassesExactlyWhenCurrent(file, methods);
    LastLineBreakIsNotRead(file);
  }

  // ---- a file on which the check fails ------------------------------------

  function EmptyFolder(): Node {
    Object([Member("name", NewString(FOLDER)), Member("item", Array([], OneLine))], Broken)
  }

  /** A collection with nothing in it but the empty folder. */
  function EmptyCollection(): Node {
    Object([Member("item", Array([EmptyFolder()], Broken))], Broken)
  }

  lemma EmptyFolderIsOwn()
    ensures WellFormed(EmptyFolder()) && IsOwnFolder(EmptyFolder()) && Entries(EmptyFolder()) == Some([])
  {
    var ms := EmptyFolder().members;
    GetAt(ms, 0);
    GetAt(ms, 1);
  }

  lemma EmptyCollectionIsMergeable()
    ensures WellFormed(EmptyCollection()) && FolderItems(EmptyCollection()) == Some([])
    ensures Mergeable(EmptyCollection(), [Undocumented()])
  {
    hide IsOwnFolder, Get;
    var t := EmptyCollection();
    EmptyFolderIsOwn();
    GetAt(t.members, 0);
    assert Entries(t) == Some([EmptyFolder()]);
    assert [EmptyFolder()][..0] == [];
    assert OwnFolders([EmptyFolder()]) == [0];
  }

  lemma UndocumentedIsDeclared()
    ensures Declared([Undocumented()])
  {
    var m := Undocumented();
    assert OfThisSystem(m);
  }

  lemma NothingIsNoAnchor()
    ensures Prose("") == ""
  {
  }

  /** Regenerating an empty folder from a contract with one undocumented RPC writes a file that fails the check. */
  lemma UndocumentedFailsTheCheck()
    ensures var file, methods := WriteDocument(EmptyCollection()), [Undocumented()];
            && Usable(file, methods) && Declared(methods) && !Anchors(file, methods)
            && Run(file, methods, false).Finished?
            && Run(Run(file, methods, false).file, methods, true).Finished?
            && Run(Run(file, methods, false).file, methods, true).code == 1
  {
    hide ReadValue, Mergeable, Flatten, WriteDocument, FolderItems, Declared, EmptyCollection, ProcedureOf, Prose, Merged;
    var t, methods := EmptyCollection(), [Undocumented()];
    var file := WriteDocument(t);
    EmptyCollectionIsMergeable();
    UndocumentedIsDeclared();
    PrintThenRead(t);
    MergeIgnoresLayout(Tree(file), t, methods);
    FolderIsWorkable(Tree(file), methods);
    NothingIsNoAnchor();
    assert !Anchored("", Undocumented());
    assert FlattenItems([]) == [];
    assert FolderItems(Tree(file)).value == [];
    assert !Anchors(file, methods);
    RegenerateThenCheck(file, methods);
  }
}
