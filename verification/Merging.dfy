/** The merge: stale requests go, existing ones are refreshed, missing ones are added. */
module Merging {
  import opened Wrappers
  import opened Text
  import opened JsonTree
  import opened Contract
  import opened Requests

  const FOLDER := "Core API v1"

  // ---- what the folder becomes --------------------------------------------

  predicate Stale(item: Node, methods: seq<Method>) {
    ProcedureOf(item) != "" && LookUp(methods, ProcedureOf(item)).None?
  }

  function Pruned(items: seq<Node>, methods: seq<Method>): (r: seq<Node>)
    ensures forall t :: t in r ==> t in items && !Stale(t, methods)
  {
    if items == [] then []
    else
      var last := items[|items| - 1];
      Pruned(items[..|items| - 1], methods) + if Stale(last, methods) then [] else [last]
  }

  function PruneChanges(items: seq<Node>, methods: seq<Method>): seq<Change> {
    if items == [] then []
    else
      var last := items[|items| - 1];
      PruneChanges(items[..|items| - 1], methods)
      + if Stale(last, methods) then [Removed(NameOf(last), ProcedureOf(last))] else []
  }

  /** An item after its contract facts are brought up to date. */
  function Updated(item: Node, methods: seq<Method>): Node {
    var m := LookUp(methods, ProcedureOf(item));
    if Navigable(item) && ProcedureOf(item) != "" && m.Some? then Refreshed(item, m.value) else item
  }

  function UpdatedAll(items: seq<Node>, methods: seq<Method>): (r: seq<Node>)
    ensures |r| == |items| && forall i :: 0 <= i < |items| ==> r[i] == Updated(items[i], methods)
  {
    if items == [] then []
    else UpdatedAll(items[..|items| - 1], methods) + [Updated(items[|items| - 1], methods)]
  }

  function UpdateChanges(items: seq<Node>, methods: seq<Method>): seq<Change> {
    if items == [] then []
    else
      var last := items[|items| - 1];
      var m := LookUp(methods, ProcedureOf(last));
      UpdateChanges(items[..|items| - 1], methods)
      + if ProcedureOf(last) != "" && m.Some? then RefreshChanges(last, m.value) else []
  }

  /** The RPCs some request calls. */
  function Called(items: seq<Node>): set<string> {
    set t | t in items && ProcedureOf(t) != "" :: ProcedureOf(t)
  }

  predicate Calls(item: Node, prefix: string) { prefix <= ProcedureOf(item) }

  /** The last request whose RPC starts with `prefix`. */
  function LastCaller(items: seq<Node>, prefix: string): (r: Option<nat>)
    ensures r.Some? ==> r.value < |items|
  {
    if items == [] then None
    else if Calls(items[|items| - 1], prefix) then Some(|items| - 1)
    else LastCaller(items[..|items| - 1], prefix)
  }

  lemma {:induction false} LastCallerIsLast(items: seq<Node>, prefix: string)
    ensures var r := LastCaller(items, prefix);
            && (r.Some? ==> Calls(items[r.value], prefix) && forall i :: r.value < i < |items| ==> !Calls(items[i], prefix))
            && (r.None? ==> forall i :: 0 <= i < |items| ==> !Calls(items[i], prefix))
  {
    hide Calls;
    if items != [] && !Calls(items[|items| - 1], prefix) {
      LastCallerIsLast(items[..|items| - 1], prefix);
    }
  }

  function ServicePrefix(m: Method): string { m.ServicePath() + "/" }

  /** Where a new request of the service goes: after its last sibling, or at the end. */
  function InsertAt(items: seq<Node>, prefix: string): (at: nat)
    ensures at <= |items|
  {
    var last := LastCaller(items, prefix);
    if last.Some? then last.value + 1 else |items|
  }

  function Inserted(items: seq<Node>, m: Method): seq<Node> {
    var at := InsertAt(items, ServicePrefix(m));
    items[..at] + [NewRequest(m)] + items[at..]
  }

  function Extended(items: seq<Node>, methods: seq<Method>, seen: set<string>): seq<Node> {
    if methods == [] then items
    else
      var before, m := Extended(items, methods[..|methods| - 1], seen), methods[|methods| - 1];
      if m.Procedure() in seen then before else Inserted(before, m)
  }

  function ExtendChanges(methods: seq<Method>, seen: set<string>): seq<Change> {
    if methods == [] then []
    else
      var m := methods[|methods| - 1];
      ExtendChanges(methods[..|methods| - 1], seen) + if m.Procedure() in seen then [] else [Added(m.Procedure())]
  }

  function MergedItems(items: seq<Node>, methods: seq<Method>): seq<Node> {
    var kept := Pruned(items, methods);
    Extended(UpdatedAll(kept, methods), methods, Called(kept))
  }

  function ItemChanges(items: seq<Node>, methods: seq<Method>): seq<Change> {
    var kept := Pruned(items, methods);
    PruneChanges(items, methods) + UpdateChanges(kept, methods) + ExtendChanges(methods, Called(kept))
  }

  // ---- the folder in place ------------------------------------------------

  class Folder {
    var items: seq<Node>
    var changes: seq<Change>

    constructor (items: seq<Node>)
      ensures this.items == items && changes == []
    {
      this.items := items;
      changes := [];
    }

    /** Drops requests naming an RPC the contract does not declare; false where the source raises. */
    method RemoveStale(methods: seq<Method>) returns (ok: bool)
      modifies this
      ensures ok <==> forall t :: t in old(items) ==> Removable(t, methods)
      ensures ok ==> items == Pruned(old(items), methods)
      ensures ok ==> changes == old(changes) + PruneChanges(old(items), methods)
    {
      hide Removable, Stale, Pruned, PruneChanges, ProcedureOf;
      NothingPruned(methods);
      var kept: seq<Node> := [];
      var reports: seq<Change> := [];
      for n := 0 to |items|
        invariant items == old(items) && changes == old(changes)
        invariant forall i :: 0 <= i < n ==> Removable(items[i], methods)
        invariant kept == Pruned(items[..n], methods)
        invariant reports == PruneChanges(items[..n], methods)
      {
        var item := items[n];
        PruneStep(items, n, methods);
        RemovableIs(item, methods);
        if !Navigable(item) { return false; }
        var procedure := ProcedureOf(item);
        if procedure != "" && LookUp(methods, procedure).None? {
          if Field(item, "name").None? { return false; }
          reports := reports + [Removed(NameOf(item), procedure)];
          continue;
        }
        kept := kept + [item];
      }
      assert items[..|items|] == items;
      items := kept;
      changes := changes + reports;
      return true;
    }

    /** Brings the facts of every request up to date, and collects the RPCs called. */
    method Refresh(methods: seq<Method>) returns (ok: bool, seen: set<string>)
      requires forall t :: t in items ==> Navigable(t) && !Stale(t, methods)
      modifies this
      ensures ok <==> forall t :: t in old(items) ==> Refreshable(t)
      ensures ok ==> items == UpdatedAll(old(items), methods)
      ensures ok ==> seen == Called(old(items))
      ensures ok ==> changes == old(changes) + UpdateChanges(old(items), methods)
    {
      hide Refreshable, Stale, ProcedureOf, Navigable, LookUp, Field, Comparable, Refreshed, RefreshChanges, Called,
          UpdatedAll, UpdateChanges;
      CalledOfNothing();
      NothingUpdated(methods);
      seen := {};
      ghost var was := items;
      var reports: seq<Change> := [];
      for n := 0 to |items|
        invariant |items| == |was| && changes == old(changes)
        invariant items[..n] == UpdatedAll(was[..n], methods) && items[n..] == was[n..]
        invariant forall i :: 0 <= i < n ==> Refreshable(was[i])
        invariant seen == Called(was[..n])
        invariant reports == UpdateChanges(was[..n], methods)
      {
        var item := items[n];
        assert item == items[n..][0] == was[n] && was[n] in was;
        CalledGrows(was, n);
        UpdateStep(items, was, n, methods);
        RefreshableIs(item, methods);
        var procedure := ProcedureOf(item);
        if procedure == "" { continue; }
        seen := seen + {procedure};
        if Field(item, "name").None? || !Comparable(item) { return false, seen; }
        var updated, facts := RefreshItem(item, LookUp(methods, procedure).value);
        items := items[n := updated];
        reports := reports + facts;
      }
      assert was[..|was|] == was && items[..|items|] == items;
      changes := changes + reports;
      return true, seen;
    }

    /** Adds a request for every RPC that has none, after the last of its service. */
    method AddMissing(methods: seq<Method>, seen: set<string>)
      modifies this
      ensures items == Extended(old(items), methods, seen)
      ensures changes == old(changes) + ExtendChanges(methods, seen)
    {
      hide Calls, NewRequest;
      ghost var was := items;
      for n := 0 to |methods|
        invariant items == Extended(was, methods[..n], seen)
        invariant changes == old(changes) + ExtendChanges(methods[..n], seen)
      {
        var m := methods[n];
        assert methods[..n + 1][..n] == methods[..n];
        if m.Procedure() in seen { continue; }
        var prefix := m.ServicePath() + "/";
        var insertAt := |items|;
        for index := 0 to |items|
          invariant insertAt == if LastCaller(items[..index], prefix).Some?
                                then LastCaller(items[..index], prefix).value + 1 else |items|
        {
          assert items[..index + 1][..index] == items[..index];
          if Calls(items[index], prefix) {
            insertAt := index + 1;
          }
        }
        assert items[..|items|] == items;
        items := items[..insertAt] + [NewRequest(m)] + items[insertAt..];
        changes := changes + [Added(m.Procedure())];
      }
      assert methods[..|methods|] == methods;
    }
  }

  /** The first pass gets over the item. */
  predicate Removable(t: Node, methods: seq<Method>) {
    Navigable(t) && (Stale(t, methods) ==> Field(t, "name").Some?)
  }

  /** The second pass gets over the item. */
  predicate Refreshable(t: Node) {
    ProcedureOf(t) != "" ==> Field(t, "name").Some? && Comparable(t)
  }

  lemma RemovableIs(t: Node, methods: seq<Method>)
    ensures Removable(t, methods) <==> Navigable(t) && (Stale(t, methods) ==> Field(t, "name").Some?)
    ensures Stale(t, methods) <==> ProcedureOf(t) != "" && LookUp(methods, ProcedureOf(t)).None?
  {
  }

  lemma RefreshableIs(t: Node, methods: seq<Method>)
    ensures Refreshable(t) <==> (ProcedureOf(t) != "" ==> Field(t, "name").Some? && Comparable(t))
    ensures !Stale(t, methods) && ProcedureOf(t) != "" ==> LookUp(methods, ProcedureOf(t)).Some?
  {
  }

  lemma NothingPruned(methods: seq<Method>)
    ensures Pruned([], methods) == [] && PruneChanges([], methods) == []
  {
  }

  lemma {:induction false} PruneStep(items: seq<Node>, n: nat, methods: seq<Method>)
    requires n < |items|
    ensures Pruned(items[..n + 1], methods)
         == Pruned(items[..n], methods) + (if Stale(items[n], methods) then [] else [items[n]])
    ensures PruneChanges(items[..n + 1], methods)
         == PruneChanges(items[..n], methods)
            + (if Stale(items[n], methods) then [Removed(NameOf(items[n]), ProcedureOf(items[n]))] else [])
    ensures Pruned(items[..n], methods) + [] == Pruned(items[..n], methods)
    ensures PruneChanges(items[..n], methods) + [] == PruneChanges(items[..n], methods)
  {
    hide Stale;
    assert items[..n + 1][..n] == items[..n];
  }

  lemma NothingUpdated(methods: seq<Method>)
    ensures UpdatedAll([], methods) == [] && UpdateChanges([], methods) == []
  {
  }

  lemma {:induction false} UpdateStep(items: seq<Node>, was: seq<Node>, n: nat, methods: seq<Method>)
    requires n < |items| == |was| && items[..n] == UpdatedAll(was[..n], methods) && items[n..] == was[n..]
    ensures var m := LookUp(methods, ProcedureOf(was[n]));
            var next := items[n := Updated(was[n], methods)];
            && next[..n + 1] == UpdatedAll(was[..n + 1], methods) && next[n + 1..] == was[n + 1..]
            && UpdateChanges(was[..n + 1], methods)
              == UpdateChanges(was[..n], methods)
                 + (if ProcedureOf(was[n]) != "" && m.Some? then RefreshChanges(was[n], m.value) else [])
            && (ProcedureOf(was[n]) == "" ==>
                  next == items && UpdateChanges(was[..n + 1], methods) == UpdateChanges(was[..n], methods))
            && (!Stale(was[n], methods) && Navigable(was[n]) && ProcedureOf(was[n]) != "" ==>
                  Updated(was[n], methods) == Refreshed(was[n], m.value))
  {
    hide ProcedureOf, Navigable, Refreshed, RefreshChanges, LookUp;
    var next := items[n := Updated(was[n], methods)];
    assert was[..n + 1][..n] == was[..n];
    assert items[n] == items[n..][0] == was[n];
    assert next[..n + 1] == items[..n] + [Updated(was[n], methods)];
    assert next[n + 1..] == items[n..][1..] == was[n..][1..] == was[n + 1..];
  }

  lemma CalledOfNothing()
    ensures Called([]) == {}
  {
  }

  lemma CalledGrows(items: seq<Node>, n: nat)
    requires n < |items|
    ensures Called(items[..n + 1])
         == Called(items[..n]) + if ProcedureOf(items[n]) == "" then {} else {ProcedureOf(items[n])}
  {
    assert items[..n + 1] == items[..n] + [items[n]];
  }

  // ---- the folder in the collection ---------------------------------------

  predicate IsOwnFolder(t: Node) {
    var name := Field(t, "name");
    name.Some? && name.value.String? && name.value.value == FOLDER
  }

  function OwnFolders(entries: seq<Node>): seq<nat> {
    if entries == [] then []
    else
      OwnFolders(entries[..|entries| - 1])
      + if IsOwnFolder(entries[|entries| - 1]) then [|entries| - 1] else []
  }

  lemma {:induction false} OwnFoldersAreFolders(entries: seq<Node>)
    ensures forall k :: k in OwnFolders(entries) ==> k < |entries| && IsOwnFolder(entries[k])
  {
    hide IsOwnFolder;
    if entries != [] {
      OwnFoldersAreFolders(entries[..|entries| - 1]);
    }
  }

  function Entries(root: Node): Option<seq<Node>> {
    var t :- Field(root, "item");
    if t.Array? then Some(t.items) else None
  }

  /** Looking for a name goes through: in an object, in a list, and in a text that does not contain that word. */
  predicate Inspectable(t: Node) {
    t.Object? || t.Array? || (t.String? && IndexOf(t.value, "name").None?)
  }

  /** Which entry is the folder this script owns; nothing unless there is exactly one. */
  function FolderIndex(root: Node): (k: Option<nat>)
    ensures k.Some? ==> Entries(root).Some? && k.value < |Entries(root).value| && IsOwnFolder(Entries(root).value[k.value])
  {
    var entries :- Entries(root);
    OwnFoldersAreFolders(entries);
    var own := OwnFolders(entries);
    if (exists t :: t in entries && !Inspectable(t)) || |own| != 1 then None
    else
      assert own[0] in own;
      Some(own[0])
  }

  function FolderItems(root: Node): Option<seq<Node>> {
    var k :- FolderIndex(root);
    Entries(Entries(root).value[k])
  }

  /** The merge goes through: the folder is there, and nothing it looks at has another shape. */
  predicate Mergeable(root: Node, methods: seq<Method>) {
    FolderItems(root).Some? && forall t :: t in FolderItems(root).value ==> Workable(t, methods)
  }

  function WithEntries(t: Node, items: seq<Node>): Node
    requires Entries(t).Some?
  {
    t.(members := Put(t.members, "item", Field(t, "item").value.(items := items)))
  }

  /** The tree with the items of its own folder replaced. */
  function WithFolderItems(root: Node, items: seq<Node>): Node
    requires FolderItems(root).Some?
  {
    var k := FolderIndex(root).value;
    var entries := Entries(root).value;
    WithEntries(root, entries[k := WithEntries(entries[k], items)])
  }

  function Merged(root: Node, methods: seq<Method>): Node
    requires Mergeable(root, methods)
  {
    WithFolderItems(root, MergedItems(FolderItems(root).value, methods))
  }

  function Changes(root: Node, methods: seq<Method>): seq<Change>
    requires Mergeable(root, methods)
  {
    ItemChanges(FolderItems(root).value, methods)
  }

  class Collection {
    var root: Node

    constructor (root: Node)
      ensures this.root == root
    {
      this.root := root;
    }

    /** Rewrites the folder; nothing comes back where the source raises or exits. */
    method Merge(methods: seq<Method>) returns (r: Option<seq<Change>>)
      modifies this
      ensures r.None? <==> !Mergeable(old(root), methods)
      ensures r.Some? ==> root == Merged(old(root), methods) && r.value == Changes(old(root), methods)
    {
      hide FolderItems, WithFolderItems, Merged, Changes, MergedItems, ItemChanges, Workable, ProcedureOf, Navigable,
          LookUp, Field, Comparable, Stale;
      if FolderItems(root).None? { return None; }
      ghost var before := FolderItems(root).value;
      MergeableByItems(root, methods);
      hide Mergeable;
      var folder := new Folder(FolderItems(root).value);
      WorkableInTwoPasses(before, methods);
      RemovableAreNavigable(before, methods);
      hide Removable, Refreshable, Pruned;
      var ok := folder.RemoveStale(methods);
      if !ok { return None; }
      var seen;
      ok, seen := folder.Refresh(methods);
      if !ok { return None; }
      folder.AddMissing(methods, seen);
      assert folder.items == MergedItems(before, methods) && folder.changes == ItemChanges(before, methods) by {
        MergedInThreePasses(before, methods);
      }
      MergedIs(root, methods);
      root := WithFolderItems(root, folder.items);
      return Some(folder.changes);
    }
  }

  lemma MergedInThreePasses(items: seq<Node>, methods: seq<Method>)
    ensures var kept := Pruned(items, methods);
            && MergedItems(items, methods) == Extended(UpdatedAll(kept, methods), methods, Called(kept))
            && ItemChanges(items, methods)
              == [] + PruneChanges(items, methods) + UpdateChanges(kept, methods) + ExtendChanges(methods, Called(kept))
  {
    assert [] + PruneChanges(items, methods) == PruneChanges(items, methods);
  }

  lemma MergedIs(root: Node, methods: seq<Method>)
    requires Mergeable(root, methods)
    ensures FolderItems(root).Some?
    ensures Merged(root, methods) == WithFolderItems(root, MergedItems(FolderItems(root).value, methods))
    ensures Changes(root, methods) == ItemChanges(FolderItems(root).value, methods)
  {
  }

  lemma MergeableByItems(root: Node, methods: seq<Method>)
    requires FolderItems(root).Some?
    ensures Mergeable(root, methods) <==> forall t :: t in FolderItems(root).value ==> Workable(t, methods)
  {
  }

  lemma RemovableAreNavigable(items: seq<Node>, methods: seq<Method>)
    ensures (forall t :: t in items ==> Removable(t, methods)) ==>
      forall t :: t in Pruned(items, methods) ==> Navigable(t) && !Stale(t, methods)
  {
  }

  lemma WorkableByPasses(t: Node, methods: seq<Method>)
    ensures Workable(t, methods) <==> Removable(t, methods) && (!Stale(t, methods) ==> Refreshable(t))
  {
    hide ProcedureOf, Navigable, Comparable, LookUp, Field;
  }

  /** The shapes the two passes ask for are together the ones the merge asks for. */
  lemma {:induction false} WorkableInTwoPasses(items: seq<Node>, methods: seq<Method>)
    ensures (forall t :: t in items ==> Workable(t, methods)) <==>
      && (forall t :: t in items ==> Removable(t, methods))
      && (forall t :: t in Pruned(items, methods) ==> Refreshable(t))
  {
    hide Workable, Removable, Refreshable, Stale;
    forall t | t in items
      ensures Workable(t, methods) <==> Removable(t, methods) && (!Stale(t, methods) ==> Refreshable(t))
      ensures !Stale(t, methods) ==> t in Pruned(items, methods)
    {
      WorkableByPasses(t, methods);
      if !Stale(t, methods) { PrunedKeeps(items, methods, t); }
    }
  }

  lemma {:induction false} PrunedKeeps(items: seq<Node>, methods: seq<Method>, t: Node)
    requires t in items && !Stale(t, methods)
    ensures t in Pruned(items, methods)
  {
    if t != items[|items| - 1] {
      PrunedKeeps(items[..|items| - 1], methods, t);
    }
  }
}
