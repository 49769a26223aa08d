/** When the merge has nothing to do, and that layout has no part in it. */
module Settled {
  import opened Wrappers
  import opened Text
  import opened JsonTree
  import opened JsonLayout
  import opened Contract
  import opened Requests
  import opened Merging
  import opened MergeFrame

  predicate SettledItem(t: Node, methods: seq<Method>) {
    ProcedureOf(t) == "" ||
    (LookUp(methods, ProcedureOf(t)).Some? && Current(t, LookUp(methods, ProcedureOf(t)).value))
  }

  /** Every request is for an RPC of the contract and states its facts, and no RPC is missing. */
  predicate SettledItems(items: seq<Node>, methods: seq<Method>) {
    (forall t :: t in items ==> SettledItem(t, methods)) && Procedures(methods) <= Called(items)
  }

  // ---- nothing to do, nothing done ----------------------------------------

  lemma {:induction false} PutSame(ms: seq<Member>, key: string)
    requires Get(ms, key).Some?
    ensures Put(ms, key, Get(ms, key).value) == ms
  {
    if ms[0].key != key { PutSame(ms[1..], key); }
  }

  lemma {:induction false} CurrentIsUntouched(t: Node, m: Method)
    requires Navigable(t) && ProcedureOf(t) != ""
    ensures RefreshChanges(t, m) == [] <==> Current(t, m)
    ensures Current(t, m) ==> Refreshed(t, m) == t
  {
    hide MergeDescription, UrlNode, Flat, Put, Get;
    PutSame(t.members, "request");
    assert Field(t, "request").value.(members := RequestMembers(t)) == Field(t, "request").value;
  }

  lemma {:induction false} PrunedSettled(items: seq<Node>, methods: seq<Method>)
    ensures PruneChanges(items, methods) == [] <==> forall t :: t in items ==> !Stale(t, methods)
    ensures PruneChanges(items, methods) == [] ==> Pruned(items, methods) == items
  {
    hide Stale;
    if items != [] {
      var init, last := items[..|items| - 1], items[|items| - 1];
      assert items == init + [last];
      PrunedSettled(init, methods);
    }
  }

  lemma {:induction false} UpdatedSettled(items: seq<Node>, methods: seq<Method>)
    requires WorkableAll(items, methods) && forall t :: t in items ==> !Stale(t, methods)
    ensures UpdateChanges(items, methods) == [] <==> forall t :: t in items ==> SettledItem(t, methods)
    ensures UpdateChanges(items, methods) == [] ==> UpdatedAll(items, methods) == items
  {
    hide ProcedureOf, RefreshChanges, Current, Refreshed, LookUp, Navigable, Comparable;
    if items != [] {
      var init, last := items[..|items| - 1], items[|items| - 1];
      assert items == init + [last];
      assert Workable(last, methods) && !Stale(last, methods);
      UpdatedSettled(init, methods);
      if ProcedureOf(last) != "" {
        CurrentIsUntouched(last, LookUp(methods, ProcedureOf(last)).value);
      }
    }
  }

  lemma {:induction false} ExtendedSettled(items: seq<Node>, methods: seq<Method>, seen: set<string>)
    ensures ExtendChanges(methods, seen) == [] <==> Procedures(methods) <= seen
    ensures ExtendChanges(methods, seen) == [] ==> Extended(items, methods, seen) == items
  {
    hide Inserted;
    if methods != [] {
      var earlier, m := methods[..|methods| - 1], methods[|methods| - 1];
      assert methods == earlier + [m];
      assert Procedures(methods) == Procedures(earlier) + {m.Procedure()};
      ExtendedSettled(items, earlier, seen);
    }
  }

  /** The merge reports nothing exactly when the folder is settled, and then it moves nothing. */
  lemma NoChangesIffSettled(items: seq<Node>, methods: seq<Method>)
    requires WorkableAll(items, methods)
    ensures ItemChanges(items, methods) == [] <==> SettledItems(items, methods)
    ensures ItemChanges(items, methods) == [] ==> MergedItems(items, methods) == items
  {
    hide ProcedureOf, Workable, Current, LookUp, Extended, UpdatedAll, UpdateChanges, PruneChanges, ExtendChanges;
    PrunedSettled(items, methods);
    var kept := Pruned(items, methods);
    ExtendedSettled(UpdatedAll(kept, methods), methods, Called(kept));
    if kept == items && forall t :: t in items ==> !Stale(t, methods) {
      UpdatedSettled(items, methods);
    }
    if SettledItems(items, methods) {
      forall t | t in items ensures !Stale(t, methods) { assert SettledItem(t, methods); }
    }
  }

  // ---- what one merge leaves ----------------------------------------------

  predicate CommentsStripped(methods: seq<Method>) {
    forall m :: m in methods ==> Stripped(m.comment)
  }

  /** Every description the merge writes can be found again: prose above it, or a comment without the separator. */
  ghost predicate AllAnchored(items: seq<Node>, methods: seq<Method>) {
    var kept := Pruned(items, methods);
    && (forall t :: t in kept && ProcedureOf(t) != "" && LookUp(methods, ProcedureOf(t)).Some? ==>
          Anchored(Description(RequestMembers(t)), LookUp(methods, ProcedureOf(t)).value))
    && (forall m :: m in methods && m.Procedure() !in Called(kept) ==> Anchored("", m))
  }

  lemma {:induction false} RefreshedIsCurrent(t: Node, m: Method)
    requires Navigable(t) && ProcedureOf(t) == m.Procedure() != "" && Stripped(m.comment)
    ensures Current(Refreshed(t, m), m) <==> Anchored(Description(RequestMembers(t)), m)
  {
    hide MergeDescription, UrlNode, Flat, Put, Get, Anchored;
    RefreshKeepsTheCall(t, m);
    RefreshFrame(t, m, "request");
    RefreshedFacts(t, m);
    MergeDescriptionIsIdempotent(Description(RequestMembers(t)), m);
  }

  lemma {:induction false} NewRequestIsCurrent(m: Method)
    requires OfThisSystem(m) && Stripped(m.comment)
    ensures Current(NewRequest(m), m) <==> Anchored("", m)
  {
    hide MergeDescription, UrlNode, Flat, Get, Anchored, NewRequest;
    NewRequestFields(m);
    NewRequestCallsItsMethod(m);
    MergeDescriptionIsIdempotent("", m);
  }

  lemma LookUpDistinct(methods: seq<Method>, m: Method)
    requires DistinctProcedures(methods) && m in methods
    ensures LookUp(methods, m.Procedure()) == Some(m)
  {
    var found := LookUp(methods, m.Procedure()).value;
    var i :| 0 <= i < |methods| && methods[i] == m;
    var j :| 0 <= j < |methods| && methods[j] == found;
    if i < j { assert methods[i].Procedure() != methods[j].Procedure(); }
    if j < i { assert methods[j].Procedure() != methods[i].Procedure(); }
  }

  lemma {:induction false} SettledUpdate(t: Node, methods: seq<Method>)
    requires Workable(t, methods) && !Stale(t, methods) && CommentsStripped(methods)
    ensures SettledItem(Updated(t, methods), methods) <==>
      (ProcedureOf(t) != "" && LookUp(methods, ProcedureOf(t)).Some? ==>
         Anchored(Description(RequestMembers(t)), LookUp(methods, ProcedureOf(t)).value))
  {
    hide ProcedureOf, Current, Refreshed, Anchored, Comparable;
    UpdatedKeepsTheCall(t, methods);
    if ProcedureOf(t) != "" {
      RefreshedIsCurrent(t, LookUp(methods, ProcedureOf(t)).value);
    }
  }

  lemma {:induction false} SettledNew(m: Method, methods: seq<Method>)
    requires OfThisSystem(m) && m in methods && DistinctProcedures(methods) && CommentsStripped(methods)
    ensures SettledItem(NewRequest(m), methods) <==> Anchored("", m)
  {
    hide ProcedureOf, Current, NewRequest, Anchored, LookUp;
    NewRequestCallsItsMethod(m);
    NewRequestIsCurrent(m);
    LookUpDistinct(methods, m);
    ProcedureIsOfThisSystem(m);
  }

  /** One merge settles the folder exactly when every description it writes is anchored. */
  lemma {:induction false} MergeSettles(items: seq<Node>, methods: seq<Method>)
    requires WorkableAll(items, methods) && ContractOk(methods)
    requires DistinctProcedures(methods) && CommentsStripped(methods)
    ensures SettledItems(MergedItems(items, methods), methods) <==> AllAnchored(items, methods)
  {
    hide ProcedureOf, NewRequest, Extended, Updated, Workable, SettledItem, Anchored, LookUp, Stale;
    var kept := Pruned(items, methods);
    KeptAreWorkable(items, methods);
    var updated, final := UpdatedAll(kept, methods), MergedItems(items, methods);
    CoverageIsExact(items, methods);
    ExtendedIsFrom(updated, methods, Called(kept));
    forall t | t in kept
      ensures SettledItem(Updated(t, methods), methods) <==>
        (ProcedureOf(t) != "" && LookUp(methods, ProcedureOf(t)).Some? ==>
           Anchored(Description(RequestMembers(t)), LookUp(methods, ProcedureOf(t)).value))
      ensures Updated(t, methods) in final
    {
      SettledUpdate(t, methods);
      var i :| 0 <= i < |kept| && kept[i] == t;
      assert updated[i] in final;
    }
    forall m | m in methods ensures SettledItem(NewRequest(m), methods) <==> Anchored("", m) {
      SettledNew(m, methods);
    }
    forall t | t in final
      ensures (exists x :: x in kept && t == Updated(x, methods))
           || (exists m :: m in methods && m.Procedure() !in Called(kept) && t == NewRequest(m))
    {
      if t in updated {
        var i :| 0 <= i < |updated| && updated[i] == t;
        assert kept[i] in kept && t == Updated(kept[i], methods);
      }
    }
  }

  // ---- what a second merge finds ------------------------------------------

  /** A request for an RPC has prose for the merge to find. */
  predicate HasProse(t: Node) {
    ProcedureOf(t) != "" ==> Prose(Description(RequestMembers(t))) != ""
  }

  lemma {:induction false} UpdatedHasProse(t: Node, methods: seq<Method>)
    requires Workable(t, methods) && !Stale(t, methods) && CommentsStripped(methods)
    ensures HasProse(Updated(t, methods))
  {
    hide ProcedureOf, Refreshed, Comparable, Prose, MergeDescription, KeptProse, UrlNode, Flat;
    UpdatedKeepsTheCall(t, methods);
    if ProcedureOf(t) != "" {
      var m := LookUp(methods, ProcedureOf(t)).value;
      RefreshedFacts(t, m);
      RefreshFrame(t, m, "request");
      KeptProseIsRead(Description(RequestMembers(t)), m);
    }
  }

  lemma NewHasProse(m: Method)
    requires Stripped(m.comment)
    ensures HasProse(NewRequest(m))
  {
    hide ProcedureOf, NewRequest, Prose, MergeDescription, KeptProse, UrlNode, Get;
    NewRequestFields(m);
    KeptProseIsRead("", m);
  }

  /** Every request a merge leaves has prose: a person's, the comment's, or the bare block itself. */
  lemma {:induction false} MergedHaveProse(items: seq<Node>, methods: seq<Method>)
    requires WorkableAll(items, methods) && CommentsStripped(methods)
    ensures forall t :: t in MergedItems(items, methods) ==> HasProse(t)
  {
    hide NewRequest, Extended, Updated, Workable, HasProse, Stale, Called;
    var kept := Pruned(items, methods);
    KeptAreWorkable(items, methods);
    var updated, final := UpdatedAll(kept, methods), MergedItems(items, methods);
    ExtendedIsFrom(updated, methods, Called(kept));
    forall t | t in final ensures HasProse(t) {
      if t in updated {
        var i :| 0 <= i < |updated| && updated[i] == t;
        assert kept[i] in kept;
        UpdatedHasProse(kept[i], methods);
      } else {
        var m :| m in methods && t == NewRequest(m);
        NewHasProse(m);
      }
    }
  }

  /** Where every request has prose and every RPC has a request, the merge writes only anchored descriptions. */
  lemma ProseAnchors(items: seq<Node>, methods: seq<Method>)
    requires forall t :: t in items ==> HasProse(t) && !Stale(t, methods)
    requires Procedures(methods) <= Called(items)
    ensures AllAnchored(items, methods)
  {
    hide ProcedureOf, Stale, Prose, Called, LookUp;
    PrunedSettled(items, methods);
    assert forall m :: m in methods ==> m.Procedure() in Procedures(methods);
  }

  // ---- layout has no part in it -------------------------------------------

  function FlattenOption(t: Option<Node>): Option<Node> {
    if t.Some? then Some(Flatten(t.value)) else None
  }

  lemma {:induction false} FlattenGet(ms: seq<Member>, key: string)
    ensures Get(FlattenMembers(ms), key) == FlattenOption(Get(ms, key))
  {
    hide Flatten;
    if ms != [] { FlattenGet(ms[1..], key); }
  }

  lemma FlattenField(t: Node, key: string)
    ensures Field(Flatten(t), key) == FlattenOption(Field(t, key))
  {
    if t.Object? { FlattenGet(t.members, key); }
  }

  lemma FlattenShape(t: Node)
    ensures Flatten(t).Object? == t.Object? && Flatten(t).Array? == t.Array? && Flatten(t).String? == t.String?
    ensures t.String? ==> Flatten(t).value == t.value
    ensures t.Object? ==> Flatten(t).members == FlattenMembers(t.members)
    ensures t.Array? ==> Flatten(t).items == FlattenItems(t.items)
  {
  }

  lemma {:induction false} FlatOfFlatten(t: Node)
    ensures Flat(Flatten(t)) == Flat(t)
  {
    match t
    case Object(ms, _) => FlatOfFlattenMembers(ms);
    case Array(items, _) => FlatOfFlattenItems(items);
    case _ =>
  }

  lemma {:induction false} FlatOfFlattenMembers(ms: seq<Member>)
    ensures ms != [] ==> FlatMembers(FlattenMembers(ms)) == FlatMembers(ms)
  {
    if ms != [] {
      FlatOfFlatten(ms[0].value);
      FlatOfFlattenMembers(ms[1..]);
      assert FlattenMembers(ms)[1..] == FlattenMembers(ms[1..]);
    }
  }

  lemma {:induction false} FlatOfFlattenItems(items: seq<Node>)
    ensures items != [] ==> FlatItems(FlattenItems(items)) == FlatItems(items)
  {
    if items != [] {
      FlatOfFlatten(items[0]);
      FlatOfFlattenItems(items[1..]);
      assert FlattenItems(items)[1..] == FlattenItems(items[1..]);
    }
  }

  lemma {:induction false} FlattenItemsAt(items: seq<Node>)
    ensures forall i :: 0 <= i < |items| ==> FlattenItems(items)[i] == Flatten(items[i])
  {
    hide Flatten;
    if items != [] { FlattenItemsAt(items[1..]); }
  }

  lemma FlattenCall(t: Node)
    ensures RawUrl(Flatten(t)) == RawUrl(t)
    ensures ProcedureOf(Flatten(t)) == ProcedureOf(t) && HostOf(Flatten(t)) == HostOf(t)
    ensures Navigable(Flatten(t)) == Navigable(t)
  {
    hide Flatten, Get, Field;
    FlattenField(t, "request");
    FlattenShape(t);
    var request := Field(t, "request");
    if request.Some? {
      FlattenShape(request.value);
      FlattenField(request.value, "url");
      var url := Field(request.value, "url");
      if url.Some? {
        FlattenShape(url.value);
        FlattenField(url.value, "raw");
        var raw := Field(url.value, "raw");
        if raw.Some? { FlattenShape(raw.value); }
      }
    }
  }

  lemma FlattenRequest(t: Node, key: string)
    ensures Get(RequestMembers(Flatten(t)), key) == FlattenOption(Get(RequestMembers(t), key))
  {
    hide Flatten;
    FlattenField(t, "request");
    var request := Field(t, "request");
    if request.Some? {
      FlattenShape(request.value);
      if request.value.Object? { FlattenGet(request.value.members, key); }
    }
  }

  lemma FlattenFacts(t: Node, m: Method)
    ensures IsPost(RequestMembers(Flatten(t))) == IsPost(RequestMembers(t))
    ensures Description(RequestMembers(Flatten(t))) == Description(RequestMembers(t))
    ensures Current(Flatten(t), m) == Current(t, m)
  {
    hide Flatten, MergeDescription, UrlNode, Flat, Get, RequestMembers, HostOf, ProcedureOf;
    var r := RequestMembers(t);
    FlattenCall(t);
    FlattenRequest(t, "method");
    FlattenRequest(t, "url");
    FlattenRequest(t, "description");
    if Get(r, "method").Some? { FlattenShape(Get(r, "method").value); }
    if Get(r, "description").Some? { FlattenShape(Get(r, "description").value); }
    if Get(r, "url").Some? { FlatOfFlatten(Get(r, "url").value); }
  }

  lemma FlattenWorkable(t: Node, methods: seq<Method>)
    ensures Workable(Flatten(t), methods) == Workable(t, methods)
  {
    hide Flatten, Get, Field, HostOf, ProcedureOf, Navigable, LookUp;
    FlattenCall(t);
    FlattenField(t, "name");
    FlattenField(t, "request");
    var request := Field(t, "request");
    if request.Some? {
      FlattenField(request.value, "method");
      FlattenField(request.value, "description");
      var d := Field(request.value, "description");
      if d.Some? { FlattenShape(d.value); }
    }
  }

  lemma {:induction false} FlattenSettled(items: seq<Node>, methods: seq<Method>)
    ensures SettledItems(FlattenItems(items), methods) == SettledItems(items, methods)
    ensures WorkableAll(FlattenItems(items), methods) == WorkableAll(items, methods)
    ensures Called(FlattenItems(items)) == Called(items)
  {
    hide Flatten, ProcedureOf, Current, Workable, LookUp;
    FlattenItemsAt(items);
    forall i | 0 <= i < |items|
      ensures SettledItem(FlattenItems(items)[i], methods) == SettledItem(items[i], methods)
      ensures Workable(FlattenItems(items)[i], methods) == Workable(items[i], methods)
      ensures ProcedureOf(FlattenItems(items)[i]) == ProcedureOf(items[i])
    {
      FlattenCall(items[i]);
      FlattenWorkable(items[i], methods);
      var m := LookUp(methods, ProcedureOf(items[i]));
      if m.Some? { FlattenFacts(items[i], m.value); }
    }
    SamePointwise(FlattenItems(items), items, methods);
  }

  /** Lists that agree item by item on these questions agree on them as lists. */
  lemma SamePointwise(a: seq<Node>, b: seq<Node>, methods: seq<Method>)
    requires |a| == |b|
    requires forall i :: 0 <= i < |a| ==> SettledItem(a[i], methods) == SettledItem(b[i], methods)
    requires forall i :: 0 <= i < |a| ==> Workable(a[i], methods) == Workable(b[i], methods)
    requires forall i :: 0 <= i < |a| ==> ProcedureOf(a[i]) == ProcedureOf(b[i])
    ensures SettledItems(a, methods) == SettledItems(b, methods)
    ensures WorkableAll(a, methods) == WorkableAll(b, methods)
    ensures Called(a) == Called(b)
  {
    hide ProcedureOf, Workable, SettledItem;
    forall p | p in Called(a) ensures p in Called(b) {
      var i :| 0 <= i < |a| && ProcedureOf(a[i]) == p;
      assert b[i] in b;
    }
    forall p | p in Called(b) ensures p in Called(a) {
      var i :| 0 <= i < |b| && ProcedureOf(b[i]) == p;
      assert a[i] in a;
    }
  }

  // ---- the folder of a flattened tree -------------------------------------

  lemma {:induction false} OwnFoldersAgree(a: seq<Node>, b: seq<Node>)
    requires |a| == |b| && forall i :: 0 <= i < |a| ==> IsOwnFolder(a[i]) == IsOwnFolder(b[i])
    ensures OwnFolders(a) == OwnFolders(b)
  {
    hide IsOwnFolder;
    if a != [] { OwnFoldersAgree(a[..|a| - 1], b[..|b| - 1]); }
  }

  lemma FlattenEntries(t: Node)
    ensures Entries(Flatten(t)) == if Entries(t).Some? then Some(FlattenItems(Entries(t).value)) else None
  {
    hide Flatten;
    FlattenField(t, "item");
    var list := Field(t, "item");
    if list.Some? { FlattenShape(list.value); }
  }

  lemma FlattenOwnFolder(t: Node)
    ensures IsOwnFolder(Flatten(t)) == IsOwnFolder(t)
  {
    hide Flatten;
    FlattenField(t, "name");
    var name := Field(t, "name");
    if name.Some? { FlattenShape(name.value); }
  }

  lemma FlattenFolder(root: Node)
    ensures FolderIndex(Flatten(root)) == FolderIndex(root)
    ensures FolderItems(Flatten(root))
         == if FolderItems(root).Some? then Some(FlattenItems(FolderItems(root).value)) else None
  {
    hide Flatten, Entries, IsOwnFolder, OwnFolders;
    FlattenEntries(root);
    if Entries(root).Some? {
      var entries := Entries(root).value;
      FlattenItemsAt(entries);
      forall i | 0 <= i < |entries|
        ensures IsOwnFolder(FlattenItems(entries)[i]) == IsOwnFolder(entries[i])
        ensures Inspectable(FlattenItems(entries)[i]) == Inspectable(entries[i])
      {
        FlattenOwnFolder(entries[i]);
        FlattenShape(entries[i]);
      }
      OwnFoldersAgree(FlattenItems(entries), entries);
      InspectableAgree(FlattenItems(entries), entries);
      if FolderIndex(root).Some? {
        FlattenEntries(entries[FolderIndex(root).value]);
      }
    }
  }

  lemma InspectableAgree(a: seq<Node>, b: seq<Node>)
    requires |a| == |b| && forall i :: 0 <= i < |a| ==> Inspectable(a[i]) == Inspectable(b[i])
    ensures (exists t :: t in a && !Inspectable(t)) <==> (exists t :: t in b && !Inspectable(t))
  {
    hide Inspectable;
    if t :| t in a && !Inspectable(t) {
      var i :| 0 <= i < |a| && a[i] == t;
      assert b[i] in b;
    }
    if t :| t in b && !Inspectable(t) {
      var i :| 0 <= i < |b| && b[i] == t;
      assert a[i] in a;
    }
  }

  /** Whether the merge goes through, and whether it changes anything, does not depend on layout. */
  lemma MergeIgnoresLayout(a: Node, b: Node, methods: seq<Method>)
    requires Flatten(a) == Flatten(b)
    ensures Mergeable(a, methods) <==> Mergeable(b, methods)
    ensures Mergeable(a, methods) ==>
      && FlattenItems(FolderItems(a).value) == FlattenItems(FolderItems(b).value)
      && Called(FolderItems(a).value) == Called(FolderItems(b).value)
      && (SettledItems(FolderItems(a).value, methods) <==> SettledItems(FolderItems(b).value, methods))
  {
    hide Flatten, FolderItems, Workable, SettledItems, Called;
    FlattenFolder(a);
    FlattenFolder(b);
    if FolderItems(a).Some? {
      FlattenSettled(FolderItems(a).value, methods);
      FlattenSettled(FolderItems(b).value, methods);
    }
  }
}
