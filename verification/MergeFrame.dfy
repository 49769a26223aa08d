/** What the merge keeps, what it covers, and where new requests go. */
module MergeFrame {
  import opened Wrappers
  import opened JsonTree
  import opened Contract
  import opened Requests
  import opened Merging

  /** A method of this system's contract: a proto identifier has no slash in it. */
  predicate OfThisSystem(m: Method) {
    SYSTEM <= m.package && NoSlash(m.ServicePath())
  }

  predicate NoSlash(s: string) { forall i :: 0 <= i < |s| ==> s[i] != '/' }

  predicate ContractOk(methods: seq<Method>) { forall m :: m in methods ==> OfThisSystem(m) }

  predicate DistinctProcedures(methods: seq<Method>) {
    forall i, j :: 0 <= i < j < |methods| ==> methods[i].Procedure() != methods[j].Procedure()
  }

  /** The items whose RPC passes a test, in order. */
  function Select(items: seq<Node>, q: string -> bool): seq<Node> {
    if items == [] then []
    else
      Select(items[..|items| - 1], q) + if q(ProcedureOf(items[|items| - 1])) then [items[|items| - 1]] else []
  }

  lemma {:induction false} SelectConcat(a: seq<Node>, b: seq<Node>, q: string -> bool)
    ensures Select(a + b, q) == Select(a, q) + Select(b, q)
  {
    hide ProcedureOf;
    if b == [] {
      assert a + b == a;
    } else {
      var init, last := b[..|b| - 1], b[|b| - 1];
      assert (a + b)[..|a + b| - 1] == a + init && (a + b)[|a + b| - 1] == last;
      SelectConcat(a, init, q);
    }
  }

  lemma {:induction false} SelectNone(items: seq<Node>, q: string -> bool)
    requires forall i :: 0 <= i < |items| ==> !q(ProcedureOf(items[i]))
    ensures Select(items, q) == []
  {
    hide ProcedureOf;
    if items != [] {
      SelectNone(items[..|items| - 1], q);
    }
  }

  lemma {:induction false} SelectAll(items: seq<Node>, q: string -> bool)
    requires forall i :: 0 <= i < |items| ==> q(ProcedureOf(items[i]))
    ensures Select(items, q) == items
  {
    hide ProcedureOf;
    if items != [] {
      SelectAll(items[..|items| - 1], q);
    }
  }

  /** The requests made for the contract's missing methods that pass a test, in contract order. */
  function Built(methods: seq<Method>, seen: set<string>, q: string -> bool): seq<Node> {
    if methods == [] then []
    else
      var m := methods[|methods| - 1];
      Built(methods[..|methods| - 1], seen, q)
      + if m.Procedure() !in seen && q(m.Procedure()) then [NewRequest(m)] else []
  }

  /** A test that, if it passes a method, passes only RPCs of that method's service. */
  ghost predicate WithinService(q: string -> bool, m: Method) {
    q(m.Procedure()) ==> forall p :: q(p) ==> ServicePrefix(m) <= p
  }

  lemma SelectOne(t: Node, q: string -> bool)
    ensures Select([t], q) == if q(ProcedureOf(t)) then [t] else []
  {
    hide ProcedureOf;
    assert [t][..0] == [];
  }

  lemma SelectAround(a: seq<Node>, t: Node, b: seq<Node>, q: string -> bool)
    requires q(ProcedureOf(t)) ==> forall i :: 0 <= i < |b| ==> !q(ProcedureOf(b[i]))
    ensures Select(a + [t] + b, q) == Select(a + b, q) + if q(ProcedureOf(t)) then [t] else []
  {
    hide ProcedureOf, Select;
    SelectConcat(a, b, q);
    SelectConcat(a + [t], b, q);
    SelectConcat(a, [t], q);
    SelectOne(t, q);
    if q(ProcedureOf(t)) { SelectNone(b, q); }
  }

  /** After the place a new request goes, no request is for its service. */
  lemma NoSiblingsAfter(items: seq<Node>, m: Method)
    ensures var at := InsertAt(items, ServicePrefix(m));
            forall i :: at <= i < |items| ==> !Calls(items[i], ServicePrefix(m))
  {
    hide Calls, LastCaller;
    LastCallerIsLast(items, ServicePrefix(m));
  }

  lemma InsertedSelect(items: seq<Node>, m: Method, q: string -> bool)
    requires OfThisSystem(m) && WithinService(q, m)
    ensures Select(Inserted(items, m), q) == Select(items, q) + if q(m.Procedure()) then [NewRequest(m)] else []
  {
    hide ProcedureOf, NewRequest, Select, InsertAt;
    var prefix := ServicePrefix(m);
    var at := InsertAt(items, prefix);
    NewRequestCallsItsMethod(m);
    NoSiblingsAfter(items, m);
    forall i | 0 <= i < |items[at..]| && q(m.Procedure()) ensures !q(ProcedureOf(items[at..][i])) {
      assert !Calls(items[at + i], prefix);
    }
    SelectAround(items[..at], NewRequest(m), items[at..], q);
    assert items[..at] + items[at..] == items;
  }

  lemma {:induction false} ExtendedSelect(items: seq<Node>, methods: seq<Method>, seen: set<string>, q: string -> bool)
    requires ContractOk(methods)
    requires forall m :: m in methods && m.Procedure() !in seen ==> WithinService(q, m)
    ensures Select(Extended(items, methods, seen), q) == Select(items, q) + Built(methods, seen, q)
  {
    hide ProcedureOf, NewRequest, Inserted, WithinService;
    if methods != [] {
      var earlier, m := methods[..|methods| - 1], methods[|methods| - 1];
      ExtendedSelect(items, earlier, seen, q);
      if m.Procedure() !in seen {
        InsertedSelect(Extended(items, earlier, seen), m, q);
      }
    }
  }

  // ---- survivors ----------------------------------------------------------

  predicate WorkableAll(items: seq<Node>, methods: seq<Method>) {
    forall t :: t in items ==> Workable(t, methods)
  }

  lemma {:induction false} UpdatedKeepsTheCall(item: Node, methods: seq<Method>)
    requires Workable(item, methods)
    ensures RawUrl(Updated(item, methods)) == RawUrl(item)
    ensures ProcedureOf(Updated(item, methods)) == ProcedureOf(item)
    ensures HostOf(Updated(item, methods)) == HostOf(item)
    ensures Workable(Updated(item, methods), methods)
  {
    hide RawUrl, Refreshed, RefreshedMembers;
    var m := LookUp(methods, ProcedureOf(item));
    if ProcedureOf(item) != "" && m.Some? {
      RefreshKeepsTheCall(item, m.value);
      RefreshFrame(item, m.value, "name");
    }
  }

  lemma KeptAreWorkable(items: seq<Node>, methods: seq<Method>)
    requires WorkableAll(items, methods)
    ensures WorkableAll(Pruned(items, methods), methods)
  {
  }

  /** The request an existing item would match on: none, or one some kept item calls. */
  function Surviving(seen: set<string>): string -> bool {
    p => p == "" || p in seen
  }

  /**
   * Leaving out the requests the merge built, what remains is the kept items,
   * updated one by one, in their old order and number.
   */
  lemma {:induction false} SurvivorsKeepTheirPlaces(items: seq<Node>, methods: seq<Method>)
    requires WorkableAll(items, methods) && ContractOk(methods)
    ensures var kept := Pruned(items, methods);
            Select(MergedItems(items, methods), Surviving(Called(kept))) == UpdatedAll(kept, methods)
  {
    hide ProcedureOf, NewRequest, Extended, Updated, Workable;
    var kept := Pruned(items, methods);
    var seen := Called(kept);
    var q := Surviving(seen);
    KeptAreWorkable(items, methods);
    var updated := UpdatedAll(kept, methods);
    forall i | 0 <= i < |updated| ensures q(ProcedureOf(updated[i])) {
      assert kept[i] in kept;
      UpdatedKeepsTheCall(kept[i], methods);
    }
    SelectAll(updated, q);
    forall m | m in methods && m.Procedure() !in seen ensures WithinService(q, m) {
      assert m.Procedure() != "";
    }
    ExtendedSelect(updated, methods, seen, q);
    NothingBuilt(methods, seen, q);
  }

  lemma {:induction false} NothingBuilt(methods: seq<Method>, seen: set<string>, q: string -> bool)
    requires forall m :: m in methods && m.Procedure() !in seen ==> !q(m.Procedure())
    ensures Built(methods, seen, q) == []
  {
    if methods != [] {
      NothingBuilt(methods[..|methods| - 1], seen, q);
    }
  }

  // ---- coverage -----------------------------------------------------------

  function Procedures(methods: seq<Method>): set<string> {
    set m | m in methods :: m.Procedure()
  }

  function Callers(procedure: string): string -> bool {
    p => p == procedure
  }

  /** The requests for one RPC: those that were kept, or one new one. */
  lemma {:induction false} RequestsForOneProcedure(items: seq<Node>, methods: seq<Method>, m: Method)
    requires WorkableAll(items, methods) && ContractOk(methods) && DistinctProcedures(methods) && m in methods
    ensures var kept := Pruned(items, methods);
            Select(MergedItems(items, methods), Callers(m.Procedure()))
              == if m.Procedure() in Called(kept)
            then Select(UpdatedAll(kept, methods), Callers(m.Procedure()))
            else [NewRequest(m)]
  {
    hide ProcedureOf, NewRequest, Extended, Updated, Workable;
    var kept := Pruned(items, methods);
    var seen := Called(kept);
    var q := Callers(m.Procedure());
    KeptAreWorkable(items, methods);
    var updated := UpdatedAll(kept, methods);
    forall x | x in methods && x.Procedure() !in seen ensures WithinService(q, x) {
      PrefixOfProcedure(x);
    }
    ExtendedSelect(updated, methods, seen, q);
    if m.Procedure() in seen {
      NothingBuilt(methods, seen, q);
    } else {
      forall i | 0 <= i < |updated| ensures !q(ProcedureOf(updated[i])) {
        assert kept[i] in kept;
        UpdatedKeepsTheCall(kept[i], methods);
      }
      SelectNone(updated, q);
      OneBuilt(methods, seen, m);
    }
  }

  lemma PrefixOfProcedure(m: Method)
    ensures ServicePrefix(m) <= m.Procedure()
  {
  }

  lemma {:induction false} OneBuilt(methods: seq<Method>, seen: set<string>, m: Method)
    requires DistinctProcedures(methods) && m in methods && m.Procedure() !in seen
    ensures Built(methods, seen, Callers(m.Procedure())) == [NewRequest(m)]
  {
    hide NewRequest;
    var earlier, last := methods[..|methods| - 1], methods[|methods| - 1];
    if last == m {
      forall x | x in earlier ensures x.Procedure() != m.Procedure() {
        var i :| 0 <= i < |earlier| && earlier[i] == x;
        assert methods[i] == x;
      }
      NothingBuilt(earlier, seen, Callers(m.Procedure()));
    } else {
      assert methods == earlier + [last];
      var i :| 0 <= i < |earlier| && earlier[i] == m;
      assert methods[i].Procedure() != last.Procedure();
      OneBuilt(earlier, seen, m);
    }
  }

  lemma {:induction false} ExtendedIsFrom(items: seq<Node>, methods: seq<Method>, seen: set<string>)
    ensures forall t :: t in Extended(items, methods, seen) ==>
      t in items || exists m :: m in methods && m.Procedure() !in seen && t == NewRequest(m)
    ensures forall t :: t in items ==> t in Extended(items, methods, seen)
    ensures forall m :: m in methods && m.Procedure() !in seen ==> NewRequest(m) in Extended(items, methods, seen)
  {
    hide NewRequest, InsertAt;
    if methods != [] {
      var earlier, m := methods[..|methods| - 1], methods[|methods| - 1];
      ExtendedIsFrom(items, earlier, seen);
      var before := Extended(items, earlier, seen);
      var at := InsertAt(before, ServicePrefix(m));
      assert before == before[..at] + before[at..];
    }
  }

  /** After the merge the folder calls exactly the RPCs of the contract. */
  lemma {:induction false} CoverageIsExact(items: seq<Node>, methods: seq<Method>)
    requires WorkableAll(items, methods) && ContractOk(methods)
    ensures Called(MergedItems(items, methods)) == Procedures(methods)
  {
    hide ProcedureOf, NewRequest, Extended, Updated, Workable;
    var kept := Pruned(items, methods);
    KeptAreWorkable(items, methods);
    var updated, final := UpdatedAll(kept, methods), MergedItems(items, methods);
    ExtendedIsFrom(updated, methods, Called(kept));
    forall t | t in final && ProcedureOf(t) != "" ensures ProcedureOf(t) in Procedures(methods) {
      if t in updated {
        var i :| 0 <= i < |updated| && updated[i] == t;
        assert kept[i] in kept;
        UpdatedKeepsTheCall(kept[i], methods);
        assert LookUp(methods, ProcedureOf(kept[i])).value in methods;
      } else {
        var m :| m in methods && t == NewRequest(m);
        NewRequestCallsItsMethod(m);
      }
    }
    forall m | m in methods ensures m.Procedure() in Called(final) {
      if m.Procedure() in Called(kept) {
        var t :| t in kept && ProcedureOf(t) == m.Procedure();
        var i :| 0 <= i < |kept| && kept[i] == t;
        UpdatedKeepsTheCall(t, methods);
        assert updated[i] in final;
      } else {
        NewRequestCallsItsMethod(m);
        assert NewRequest(m) in final && m.Procedure() != "";
      }
    }
  }

  // ---- services stay together ---------------------------------------------

  /** The requests of a service form one run. */
  ghost predicate Grouped(items: seq<Node>, prefix: string) {
    forall i, j, k ::
      0 <= i < j < k < |items| && Calls(items[i], prefix) && Calls(items[k], prefix) ==> Calls(items[j], prefix)
  }

  /** Two services never claim one RPC. */
  lemma OneServiceEach(a: string, b: string, p: string)
    requires NoSlash(a) && NoSlash(b) && a + "/" <= p && b + "/" <= p
    ensures a == b
  {
    FirstSlash(a, p);
    FirstSlash(b, p);
    assert |a| == |b|;
    assert a == p[..|a|] && b == p[..|b|];
  }

  lemma FirstSlash(a: string, p: string)
    requires NoSlash(a) && a + "/" <= p
    ensures |a| < |p| && p[|a|] == '/' && p[..|a|] == a && forall i :: 0 <= i < |a| ==> p[i] != '/'
  {
    assert p[..|a| + 1] == a + "/";
    assert p[|a|] == p[..|a| + 1][|a|];
    forall i | 0 <= i < |a| ensures p[i] != '/' { assert p[i] == p[..|a| + 1][i] == a[i]; }
  }

  lemma {:induction false} InsertedStaysGrouped(items: seq<Node>, m: Method, path: string)
    requires OfThisSystem(m) && NoSlash(path) && Grouped(items, path + "/")
    ensures Grouped(Inserted(items, m), path + "/")
  {
    hide ProcedureOf, NewRequest;
    var prefix, own := path + "/", ServicePrefix(m);
    var at, r := InsertAt(items, own), Inserted(items, m);
    LastCallerIsLast(items, own);
    NewRequestCallsItsMethod(m);
    PrefixOfProcedure(m);
    assert r[at] == NewRequest(m) && Calls(r[at], own);
    assert forall i :: 0 <= i < at ==> r[i] == items[i];
    assert forall i :: at < i < |r| ==> r[i] == items[i - 1];
    forall i, j, k | 0 <= i < j < k < |r| && Calls(r[i], prefix) && Calls(r[k], prefix)
      ensures Calls(r[j], prefix)
    {
      if path == m.ServicePath() {
        assert k <= at;
        if k == at {
          var last := LastCaller(items, own);
          assert last.Some? && last.value == at - 1 by { assert Calls(items[i], own); }
        }
      } else {
        if Calls(r[at], prefix) { OneServiceEach(path, m.ServicePath(), m.Procedure()); }
        if i < at < k {
          assert Calls(items[at - 1], own);
          if i == at - 1 {
            OneServiceEach(path, m.ServicePath(), ProcedureOf(items[i]));
          } else {
            assert Calls(items[at - 1], prefix) by { assert i < at - 1 < k - 1; }
            OneServiceEach(path, m.ServicePath(), ProcedureOf(items[at - 1]));
          }
        }
      }
    }
  }

  lemma {:induction false} ExtendedStaysGrouped(items: seq<Node>, methods: seq<Method>, seen: set<string>, path: string)
    requires ContractOk(methods) && NoSlash(path) && Grouped(items, path + "/")
    ensures Grouped(Extended(items, methods, seen), path + "/")
  {
    hide Grouped, Inserted, OfThisSystem;
    if methods != [] {
      var earlier, m := methods[..|methods| - 1], methods[|methods| - 1];
      ExtendedStaysGrouped(items, earlier, seen, path);
      InsertedStaysGrouped(Extended(items, earlier, seen), m, path);
    }
  }

  function InService(path: string): string -> bool {
    p => path + "/" <= p
  }

  /** A service's requests: the kept ones in their order, then the new ones in contract order. */
  lemma {:induction false} NewRequestsFollowTheirService(items: seq<Node>, methods: seq<Method>, path: string)
    requires WorkableAll(items, methods) && ContractOk(methods) && NoSlash(path)
    ensures var kept := Pruned(items, methods);
            Select(MergedItems(items, methods), InService(path))
              == Select(UpdatedAll(kept, methods), InService(path)) + Built(methods, Called(kept), InService(path))
  {
    hide ProcedureOf, NewRequest, Extended, Updated, Workable;
    var kept := Pruned(items, methods);
    forall m | m in methods && m.Procedure() !in Called(kept) ensures WithinService(InService(path), m) {
      if InService(path)(m.Procedure()) {
        PrefixOfProcedure(m);
        OneServiceEach(path, m.ServicePath(), m.Procedure());
      }
    }
    ExtendedSelect(UpdatedAll(kept, methods), methods, Called(kept), InService(path));
  }

  /** If a service's requests are one run in the kept items, they are one run after the merge. */
  lemma {:induction false} ServicesStayTogether(items: seq<Node>, methods: seq<Method>, path: string)
    requires WorkableAll(items, methods) && ContractOk(methods) && NoSlash(path)
    requires Grouped(items, path + "/")
    ensures Grouped(MergedItems(items, methods), path + "/")
  {
    hide ProcedureOf, NewRequest, Extended, Updated, Workable, Grouped;
    var kept := Pruned(items, methods);
    KeptAreWorkable(items, methods);
    PrunedStaysGrouped(items, methods, path + "/");
    UpdatedStaysGrouped(kept, methods, path + "/");
    ExtendedStaysGrouped(UpdatedAll(kept, methods), methods, Called(kept), path);
  }

  /** The place in the old list each kept item comes from. */
  function Places(items: seq<Node>, methods: seq<Method>): (places: seq<nat>)
    ensures |places| == |Pruned(items, methods)|
    ensures forall i :: 0 <= i < |places| ==> places[i] < |items|
  {
    if items == [] then []
    else
      Places(items[..|items| - 1], methods) + if Stale(items[|items| - 1], methods) then [] else [|items| - 1]
  }

  lemma {:induction false} PlacesAscend(items: seq<Node>, methods: seq<Method>)
    ensures var places := Places(items, methods); forall i, j :: 0 <= i < j < |places| ==> places[i] < places[j]
  {
    hide Stale;
    if items != [] {
      var init := items[..|items| - 1];
      PlacesAscend(init, methods);
      assert forall i :: 0 <= i < |Places(init, methods)| ==> Places(init, methods)[i] < |init|;
    }
  }

  lemma {:induction false} PlacesHoldTheKept(items: seq<Node>, methods: seq<Method>)
    ensures var places := Places(items, methods);
            forall i :: 0 <= i < |places| ==> items[places[i]] == Pruned(items, methods)[i]
  {
    hide Stale;
    if items != [] {
      PlacesHoldTheKept(items[..|items| - 1], methods);
    }
  }

  lemma {:induction false} PrunedStaysGrouped(items: seq<Node>, methods: seq<Method>, prefix: string)
    requires Grouped(items, prefix)
    ensures Grouped(Pruned(items, methods), prefix)
  {
    hide Calls, Pruned, Places;
    var kept, places := Pruned(items, methods), Places(items, methods);
    PlacesAscend(items, methods);
    PlacesHoldTheKept(items, methods);
    forall i, j, k | 0 <= i < j < k < |kept| && Calls(kept[i], prefix) && Calls(kept[k], prefix)
      ensures Calls(kept[j], prefix)
    {
      assert places[i] < places[j] < places[k];
    }
  }

  lemma {:induction false} UpdatedStaysGrouped(items: seq<Node>, methods: seq<Method>, prefix: string)
    requires WorkableAll(items, methods) && Grouped(items, prefix)
    ensures Grouped(UpdatedAll(items, methods), prefix)
  {
    hide ProcedureOf, Updated, Workable;
    var r := UpdatedAll(items, methods);
    forall i | 0 <= i < |r| ensures Calls(r[i], prefix) == Calls(items[i], prefix) {
      assert items[i] in items;
      UpdatedKeepsTheCall(items[i], methods);
    }
  }

  // ---- outside the folder -------------------------------------------------

  /** Every entry but the folder, and every member but its items, is as it was. */
  lemma {:induction false} NothingOutsideTheFolderMoves(root: Node, methods: seq<Method>, key: string)
    requires Mergeable(root, methods)
    ensures var r, k := Merged(root, methods), FolderIndex(root).value;
            && (key != "item" ==> Field(r, key) == Field(root, key))
            && Entries(r).Some? && |Entries(r).value| == |Entries(root).value|
            && (forall j :: 0 <= j < |Entries(root).value| && j != k ==> Entries(r).value[j] == Entries(root).value[j])
            && (key != "item" ==> Field(Entries(r).value[k], key) == Field(Entries(root).value[k], key))
            && Entries(Entries(r).value[k]) == Some(MergedItems(FolderItems(root).value, methods))
            && Keys(r.members) == Keys(root.members)
  {
    hide MergedItems, Put, Get;
    var k, entries := FolderIndex(root).value, Entries(root).value;
    var items := MergedItems(FolderItems(root).value, methods);
    WithEntriesFrame(entries[k], items, key);
    WithEntriesFrame(root, entries[k := WithEntries(entries[k], items)], key);
  }

  lemma WithEntriesFrame(t: Node, items: seq<Node>, key: string)
    requires Entries(t).Some?
    ensures Entries(WithEntries(t, items)) == Some(items)
    ensures key != "item" ==> Field(WithEntries(t, items), key) == Field(t, key)
    ensures Keys(WithEntries(t, items).members) == Keys(t.members)
  {
    hide Put, Get;
    var value := Field(t, "item").value.(items := items);
    GetPut(t.members, "item", value, "item");
    GetPut(t.members, "item", value, key);
    PutKeys(t.members, "item", value);
    GetIsMembership(t.members, "item");
  }
}
