/** What a merge reports: a line for every fact that has to change, and none besides. */
module Report {
  import opened Wrappers
  import opened JsonTree
  import opened Contract
  import opened Requests
  import opened Merging
  import opened MergeFrame
  import opened Settled
  import opened RequestFacts

  /** The name a line of the report gives: the value of the item's `name`. */
  ghost predicate Named(t: Node, name: Node) {
    t.Object? && Get(t.members, "name") == Some(name)
  }

  /** What stands in a request's description, "" if nothing does. */
  ghost predicate Describes(t: Node, d: string) {
    var request := RequestMembers(t);
    if Get(request, "description").None? then d == "" else TextIn(Get(request, "description")) == Some(d)
  }

  /** The item calls this RPC. */
  ghost predicate CallsOf(items: seq<Node>, t: Node, m: Method, methods: seq<Method>, name: Node) {
    t in items && Named(t, name) && m in methods && ProcedureOf(t) == m.Procedure()
  }

  /** Why a line is in the report. */
  ghost predicate Reason(items: seq<Node>, methods: seq<Method>, c: Change) {
    match c
    case Removed(name, p) =>
      p != "" && (forall m :: m in methods ==> m.Procedure() != p)
      && exists t :: t in items && Named(t, name) && ProcedureOf(t) == p
    case MethodSet(name) =>
      exists t, m :: CallsOf(items, t, m, methods, name) && TextIn(Get(RequestMembers(t), "method")) != Some("POST")
    case UrlSet(name, url) =>
      exists t, m :: CallsOf(items, t, m, methods, name) && !UrlIs(RequestMembers(t), UrlNode(m, HostOf(t)))
                     && url == HostOf(t) + "/" + (m.package + "." + m.service + "/" + m.name)
    case DescriptionSet(name) =>
      exists t, m, d :: CallsOf(items, t, m, methods, name) && Describes(t, d) && MergeDescription(d, m) != d
    case Added(p) =>
      (exists m :: m in methods && m.Procedure() == p) && forall t :: t in items ==> ProcedureOf(t) != p
  }

  // ---- list by list -------------------------------------------------------

  lemma {:induction false} PruneReported(items: seq<Node>, methods: seq<Method>, c: Change)
    ensures c in PruneChanges(items, methods) <==>
      exists t :: t in items && Stale(t, methods) && c == Removed(NameOf(t), ProcedureOf(t))
  {
    hide Stale, ProcedureOf, NameOf;
    if items != [] {
      var n := |items| - 1;
      PruneReported(items[..n], methods, c);
      assert items == items[..n] + [items[n]];
    }
  }

  lemma {:induction false} UpdateReported(items: seq<Node>, methods: seq<Method>, c: Change)
    ensures c in UpdateChanges(items, methods) <==>
      exists t :: t in items && ProcedureOf(t) != "" && LookUp(methods, ProcedureOf(t)).Some?
                  && c in RefreshChanges(t, LookUp(methods, ProcedureOf(t)).value)
  {
    hide LookUp, ProcedureOf, RefreshChanges;
    if items != [] {
      var n := |items| - 1;
      UpdateReported(items[..n], methods, c);
      assert items == items[..n] + [items[n]];
    }
  }

  lemma {:induction false} ExtendReported(methods: seq<Method>, seen: set<string>, c: Change)
    ensures c in ExtendChanges(methods, seen) <==>
      exists m :: m in methods && m.Procedure() !in seen && c == Added(m.Procedure())
  {
    if methods != [] {
      var n := |methods| - 1;
      ExtendReported(methods[..n], seen, c);
      assert methods == methods[..n] + [methods[n]];
    }
  }

  lemma UrlDoesNotReadMethod(request: seq<Member>, wanted: Node)
    ensures UrlIs(WithMethod(request), wanted) == UrlIs(request, wanted)
    ensures Description(WithUrl(WithMethod(request), wanted)) == Description(request)
  {
    hide Flat, Put, Get;
    ThreeKeys(request, "method", NewString("POST"));
    ThreeKeys(WithMethod(request), "url", wanted);
  }

  lemma RefreshReported(t: Node, m: Method, c: Change)
    ensures c in RefreshChanges(t, m) <==>
      || (c == MethodSet(NameOf(t)) && TextIn(Get(RequestMembers(t), "method")) != Some("POST"))
      || (c == UrlSet(NameOf(t), HostOf(t) + "/" + m.Procedure()) && !UrlIs(RequestMembers(t), UrlNode(m, HostOf(t))))
      || (c == DescriptionSet(NameOf(t))
          && MergeDescription(Description(RequestMembers(t)), m) != Description(RequestMembers(t)))
  {
    hide UrlIs, UrlNode, HostOf, NameOf, Get, MergeDescription, WithUrl, WithMethod, Description, RequestMembers;
    UrlDoesNotReadMethod(RequestMembers(t), UrlNode(m, HostOf(t)));
    PostIsText(RequestMembers(t));
  }

  lemma PostIsText(request: seq<Member>)
    ensures IsPost(request) <==> TextIn(Get(request, "method")) == Some("POST")
  {
  }

  // ---- the whole report ---------------------------------------------------

  lemma WorkableIsNamed(t: Node, methods: seq<Method>)
    requires Workable(t, methods) && ProcedureOf(t) != ""
    ensures forall name :: Named(t, name) <==> name == NameOf(t)
  {
    hide ProcedureOf;
  }

  lemma WorkableIsDescribed(t: Node, methods: seq<Method>, m: Method)
    requires Workable(t, methods) && m in methods && ProcedureOf(t) == m.Procedure() != ""
    ensures forall d :: Describes(t, d) <==> d == Description(RequestMembers(t))
  {
    hide ProcedureOf, Get;
  }

  lemma {:induction false} KeptCallers(items: seq<Node>, methods: seq<Method>, t: Node)
    ensures t in Pruned(items, methods) <==> t in items && !Stale(t, methods)
  {
    if t in items && !Stale(t, methods) { PrunedKeeps(items, methods, t); }
  }

  lemma StaleExactly(t: Node, methods: seq<Method>)
    ensures Stale(t, methods) <==> ProcedureOf(t) != "" && forall m :: m in methods ==> m.Procedure() != ProcedureOf(t)
  {
    hide ProcedureOf;
  }

  /** A line is in the report exactly when there is a reason for it in the folder and the contract. */
  lemma {:induction false} ReportsExactly(items: seq<Node>, methods: seq<Method>, c: Change)
    requires WorkableAll(items, methods) && ContractOk(methods) && DistinctProcedures(methods)
    ensures c in ItemChanges(items, methods) <==> Reason(items, methods, c)
  {
    hide ProcedureOf, Workable, RefreshChanges, Stale, Pruned, Called, UrlIs, UrlNode, HostOf, NameOf, MergeDescription,
        Named, Describes, LookUp, Description, RequestMembers, TextIn, Get;
    var kept := Pruned(items, methods);
    MergedInThreePasses(items, methods);
    PruneReported(items, methods, c);
    UpdateReported(kept, methods, c);
    ExtendReported(methods, Called(kept), c);
    match c
    case Removed(name, p) => RemovedReason(items, methods, name, p);
    case Added(p) => AddedReason(items, methods, p);
    case _ => ChangedReason(items, methods, c);
  }

  lemma {:induction false} NotRefreshed(kept: seq<Node>, methods: seq<Method>, c: Change)
    requires c.Removed? || c.Added?
    ensures c !in UpdateChanges(kept, methods)
  {
    hide ProcedureOf, RefreshChanges, LookUp;
    UpdateReported(kept, methods, c);
    forall t, m ensures c !in RefreshChanges(t, m) { RefreshReported(t, m, c); }
  }

  lemma {:induction false} RemovedReason(items: seq<Node>, methods: seq<Method>, name: Node, p: string)
    requires WorkableAll(items, methods)
    ensures Removed(name, p) in ItemChanges(items, methods) <==> Reason(items, methods, Removed(name, p))
  {
    hide ProcedureOf, Workable, Stale, Pruned, Called, NameOf, Named, LookUp, UpdateChanges, PruneChanges, ExtendChanges;
    var c, kept := Removed(name, p), Pruned(items, methods);
    MergedInThreePasses(items, methods);
    PruneReported(items, methods, c);
    NotRefreshed(kept, methods, c);
    ExtendReported(methods, Called(kept), c);
    forall t | t in items && ProcedureOf(t) != "" ensures forall x :: Named(t, x) <==> x == NameOf(t) {
      WorkableIsNamed(t, methods);
    }
    forall t ensures Stale(t, methods) <==> ProcedureOf(t) != "" && forall m :: m in methods ==> m.Procedure() != ProcedureOf(t) {
      StaleExactly(t, methods);
    }
  }

  lemma {:induction false} AddedReason(items: seq<Node>, methods: seq<Method>, p: string)
    requires ContractOk(methods)
    ensures Added(p) in ItemChanges(items, methods) <==> Reason(items, methods, Added(p))
  {
    hide ProcedureOf, Stale, Pruned, NameOf, LookUp, UpdateChanges, PruneChanges, ExtendChanges;
    var c, kept := Added(p), Pruned(items, methods);
    MergedInThreePasses(items, methods);
    PruneReported(items, methods, c);
    NotRefreshed(kept, methods, c);
    ExtendReported(methods, Called(kept), c);
    forall t ensures t in kept <==> t in items && !Stale(t, methods) { KeptCallers(items, methods, t); }
    forall t ensures Stale(t, methods) <==> ProcedureOf(t) != "" && forall m :: m in methods ==> m.Procedure() != ProcedureOf(t) {
      StaleExactly(t, methods);
    }
    forall m | m in methods ensures m.Procedure() != "" { ProcedureIsOfThisSystem(m); }
    if exists m :: m in methods && m.Procedure() == p {
      assert p in Called(kept) <==> exists t :: t in kept && ProcedureOf(t) == p;
    }
  }

  lemma {:induction false} ChangedReason(items: seq<Node>, methods: seq<Method>, c: Change)
    requires WorkableAll(items, methods) && ContractOk(methods) && DistinctProcedures(methods)
    requires c.MethodSet? || c.UrlSet? || c.DescriptionSet?
    ensures c in ItemChanges(items, methods) <==> Reason(items, methods, c)
  {
    hide ProcedureOf, Workable, RefreshChanges, Stale, Pruned, Called, UrlIs, UrlNode, HostOf, NameOf, MergeDescription,
        Named, Describes, LookUp, Description, RequestMembers, TextIn, Get, UpdateChanges, PruneChanges, ExtendChanges,
        Reason;
    var kept := Pruned(items, methods);
    MergedInThreePasses(items, methods);
    PruneReported(items, methods, c);
    UpdateReported(kept, methods, c);
    ExtendReported(methods, Called(kept), c);
    if c in UpdateChanges(kept, methods) {
      var t :| t in kept && ProcedureOf(t) != "" && LookUp(methods, ProcedureOf(t)).Some?
               && c in RefreshChanges(t, LookUp(methods, ProcedureOf(t)).value);
      KeptCallers(items, methods, t);
      var m := LookUp(methods, ProcedureOf(t)).value;
      ReasonOf(items, methods, c, t, m);
    }
    if Reason(items, methods, c) {
      var t, m := CauseOf(items, methods, c);
      KeptCallers(items, methods, t);
      StaleExactly(t, methods);
      LookUpDistinct(methods, m);
      ProcedureIsOfThisSystem(m);
    }
  }

  lemma {:induction false} ReasonOf(items: seq<Node>, methods: seq<Method>, c: Change, t: Node, m: Method)
    requires t in items && Workable(t, methods) && m in methods && ProcedureOf(t) == m.Procedure() != ""
    requires c in RefreshChanges(t, m)
    ensures Reason(items, methods, c)
  {
    hide ProcedureOf, Workable, UrlIs, UrlNode, HostOf, NameOf, MergeDescription, Named, Describes, Description,
        RequestMembers, TextIn, Get, RefreshChanges;
    RefreshReported(t, m, c);
    WorkableIsNamed(t, methods);
    WorkableIsDescribed(t, methods, m);
    assert CallsOf(items, t, m, methods, NameOf(t));
    assert Describes(t, Description(RequestMembers(t)));
  }

  lemma {:induction false} CauseOf(items: seq<Node>, methods: seq<Method>, c: Change) returns (t: Node, m: Method)
    requires WorkableAll(items, methods) && ContractOk(methods) && (c.MethodSet? || c.UrlSet? || c.DescriptionSet?)
    requires Reason(items, methods, c)
    ensures t in items && m in methods && ProcedureOf(t) == m.Procedure() != "" && c in RefreshChanges(t, m)
  {
    hide ProcedureOf, Workable, UrlIs, UrlNode, HostOf, NameOf, MergeDescription, Named, Describes, Description,
        RequestMembers, TextIn, Get, RefreshChanges;
    match c {
      case MethodSet(name) =>
        t, m :| CallsOf(items, t, m, methods, name) && TextIn(Get(RequestMembers(t), "method")) != Some("POST");
      case UrlSet(name, url) =>
        t, m :| CallsOf(items, t, m, methods, name) && !UrlIs(RequestMembers(t), UrlNode(m, HostOf(t)))
                && url == HostOf(t) + "/" + (m.package + "." + m.service + "/" + m.name);
      case DescriptionSet(name) =>
        var d;
        t, m, d :| CallsOf(items, t, m, methods, name) && Describes(t, d) && MergeDescription(d, m) != d;
      case _ =>
    }
    ProcedureIsOfThisSystem(m);
    WorkableIsNamed(t, methods);
    WorkableIsDescribed(t, methods, m);
    RefreshReported(t, m, c);
  }
}
