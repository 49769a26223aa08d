/** What the requests of the folder say after a merge, value by value. */
module RequestFacts {
  import opened Wrappers
  import opened Text
  import opened JsonTree
  import opened JsonLayout
  import opened Contract
  import opened Requests
  import opened Merging
  import opened MergeFrame
  import opened Settled
  import opened Regenerate

  function TextIn(t: Option<Node>): Option<string> {
    if t.Some? && t.value.String? then Some(t.value.value) else None
  }

  /** The texts of a list of texts. */
  function TextsIn(t: Option<Node>): Option<seq<string>> {
    if t.Some? && t.value.Array? then TextsOf(t.value.items) else None
  }

  function TextsOf(items: seq<Node>): Option<seq<string>> {
    if items == [] then Some([])
    else if !items[0].String? then None
    else
      var rest :- TextsOf(items[1..]);
      Some([items[0].value] + rest)
  }

  // ---- which RPC a request calls ------------------------------------------

  /** The RPC is what follows the first slash before `kindlast.`; a URL without one calls none. */
  lemma ProcedureExactly(item: Node, host: string, procedure: string)
    requires "kindlast." <= procedure
    ensures ProcedureOf(item) == procedure && HostOf(item) == host <==>
      && RawUrl(item) == Some(host + "/" + procedure)
      && forall i: nat :: i < |host| ==> !OccursAt(host + "/" + procedure, "/kindlast.", i)
  {
    var raw := host + "/" + procedure;
    assert RPC_MARK == "/kindlast.";
    assert raw[|host|..|host| + |RPC_MARK|] == "/" + procedure[..9];
    assert OccursAt(raw, RPC_MARK, |host|);
    assert raw[|host| + 1..] == procedure && raw[..|host|] == host;
    if ProcedureOf(item) == procedure && HostOf(item) == host { RpcMarkSplit(item); }
    if forall i: nat :: i < |host| ==> !OccursAt(raw, "/kindlast.", i) { IndexIs(raw, RPC_MARK, |host|); }
  }

  lemma OwnFolderExactly(t: Node)
    ensures IsOwnFolder(t) <==> TextIn(Field(t, "name")) == Some("Core API v1")
  {
  }

  // ---- on what the merge stops ---------------------------------------------

  /** `in`, asked of the value of a node for a name, does not raise, nor does what follows it. */
  ghost predicate NameCanBeSought(t: Node) {
    t.Object? || t.Array? || (t.String? && !Contains(t.value, "name"))
  }

  /** Missing, or an object that can be stepped into. */
  ghost predicate Steppable(t: Option<Node>) {
    t.None? || t.value.Object?
  }

  /** The steps the two loops take into one item. */
  ghost predicate ItemIsSound(t: Node, methods: seq<Method>) {
    && t.Object? && Steppable(Get(t.members, "request"))
    && (forall request :: Get(t.members, "request") == Some(request) ==> Steppable(Get(request.members, "url")))
    && (ProcedureOf(t) != "" ==>
          && Get(t.members, "name").Some?
          && forall m :: m in methods && m.Procedure() == ProcedureOf(t) ==>
               var request := Get(t.members, "request").value.members;
               Get(request, "method").Some?
               && forall d :: Get(request, "description") == Some(d) ==> d.String?)
  }

  /** Entry `k` is the folder, and the only one of its name. */
  ghost predicate OnlyFolder(entries: seq<Node>, k: nat) {
    k < |entries| && forall j :: 0 <= j < |entries| ==> (TextIn(Field(entries[j], "name")) == Some("Core API v1") <==> j == k)
  }

  lemma HasRequestObject(t: Node)
    requires ProcedureOf(t) != ""
    ensures t.Object? && Get(t.members, "request").Some? && Get(t.members, "request").value.Object?
  {
    hide IndexOf, Get;
  }

  lemma ItemIsSoundExactly(t: Node, methods: seq<Method>)
    ensures Workable(t, methods) <==> ItemIsSound(t, methods)
  {
    hide ProcedureOf, Get;
    if ProcedureOf(t) != "" { HasRequestObject(t); }
  }

  lemma {:induction false} OwnFoldersExactly(entries: seq<Node>)
    ensures forall k: nat :: k in OwnFolders(entries) <==> k < |entries| && IsOwnFolder(entries[k])
    ensures forall i, j :: 0 <= i < j < |OwnFolders(entries)| ==> OwnFolders(entries)[i] < OwnFolders(entries)[j]
  {
    hide IsOwnFolder;
    OwnFoldersAreFolders(entries);
    if entries != [] {
      var n := |entries| - 1;
      OwnFoldersExactly(entries[..n]);
      OwnFoldersAreFolders(entries[..n]);
      var own, init := OwnFolders(entries), OwnFolders(entries[..n]);
      forall i, j | 0 <= i < j < |own| ensures own[i] < own[j] {
        assert own[i] == init[i] && init[i] in init;
      }
    }
  }

  lemma OneOwnFolder(entries: seq<Node>, k: nat)
    ensures OwnFolders(entries) == [k] <==> OnlyFolder(entries, k)
  {
    hide IsOwnFolder;
    OwnFoldersExactly(entries);
    var own := OwnFolders(entries);
    forall j | 0 <= j < |entries| ensures IsOwnFolder(entries[j]) <==> TextIn(Field(entries[j], "name")) == Some("Core API v1") {
      OwnFolderExactly(entries[j]);
    }
    assert |own| >= 2 ==> own[0] != own[1];
    if own == [k] { assert k in own; }
    if OnlyFolder(entries, k) {
      assert k in own;
      forall i | 0 <= i < |own| ensures own[i] == k { assert own[i] in own; }
    }
  }

  /**
   * The merge goes through exactly when the collection lists its entries, each
   * can be asked for a name, one alone is the folder and lists its items, and
   * every step into every item is into an object.
   */
  lemma {:induction false} MergeableExactly(root: Node, methods: seq<Method>)
    ensures Mergeable(root, methods) <==>
      exists entries: seq<Node>, k: nat, items: seq<Node> ::
        && Entries(root) == Some(entries) && OnlyFolder(entries, k) && Entries(entries[k]) == Some(items)
        && (forall t :: t in entries ==> NameCanBeSought(t))
        && (forall t :: t in items ==> ItemIsSound(t, methods))
  {
    hide OwnFolders, OnlyFolder, Workable, ItemIsSound, Entries, IsOwnFolder;
    forall t: Node ensures Workable(t, methods) <==> ItemIsSound(t, methods) { ItemIsSoundExactly(t, methods); }
    forall t: Node ensures Inspectable(t) <==> NameCanBeSought(t) {}
    hide Inspectable, NameCanBeSought;
    if Entries(root).Some? {
      var entries := Entries(root).value;
      forall k: nat ensures OwnFolders(entries) == [k] <==> OnlyFolder(entries, k) { OneOwnFolder(entries, k); }
      if Mergeable(root, methods) {
        var k, items := FolderIndex(root).value, FolderItems(root).value;
        assert OwnFolders(entries) == [k];
      }
      if k: nat :| OnlyFolder(entries, k) && k < |entries| && Entries(entries[k]).Some?
                   && forall t :: t in entries ==> Inspectable(t) {
        assert OwnFolders(entries) == [k];
        assert FolderIndex(root) == Some(k);
      }
    }
  }

  // ---- the contract facts -------------------------------------------------

  /** POST, to this RPC on the request's own host, spelled whole and in its parts. */
  ghost predicate States(t: Node, m: Method) {
    var request, host := RequestMembers(t), HostOf(t);
    && TextIn(Get(request, "method")) == Some("POST")
    && Get(request, "url").Some?
    && var url := Get(request, "url").value;
       && TextIn(Field(url, "raw")) == Some(host + "/" + m.package + "." + m.service + "/" + m.name)
       && TextsIn(Field(url, "host")) == Some([host])
       && TextsIn(Field(url, "path")) == Some([m.package + "." + m.service, m.name])
  }

  lemma UrlNodeParts(m: Method, host: string)
    ensures var url := UrlNode(m, host);
            && TextIn(Field(url, "raw")) == Some(host + "/" + m.package + "." + m.service + "/" + m.name)
            && TextsIn(Field(url, "host")) == Some([host])
            && TextsIn(Field(url, "path")) == Some([m.package + "." + m.service, m.name])
  {
    var ms := UrlNode(m, host).members;
    GetAt(ms, 0);
    GetAt(ms, 1);
    GetAt(ms, 2);
    OneText(host);
    OneText(m.name);
    TwoTexts(m.ServicePath(), m.name);
    Regrouped(host, m.package, m.service, m.name);
  }

  lemma Regrouped(host: string, package: string, service: string, name: string)
    ensures host + "/" + (package + "." + service + "/" + name) == host + "/" + package + "." + service + "/" + name
  {
  }

  lemma OneText(a: string)
    ensures TextsOf([NewString(a)]) == Some([a])
  {
    assert [NewString(a)][1..] == [];
    assert [a] + [] == [a];
  }

  lemma TwoTexts(a: string, b: string)
    ensures TextsOf([NewString(a), NewString(b)]) == Some([a, b])
  {
    OneText(b);
    assert [NewString(a), NewString(b)][1..] == [NewString(b)];
    assert [a] + [b] == [a, b];
  }

  lemma {:induction false} FlattenTexts(items: seq<Node>)
    ensures TextsOf(FlattenItems(items)) == TextsOf(items)
  {
    hide Flatten;
    if items != [] {
      FlattenShape(items[0]);
      FlattenItemsAt(items);
      FlattenTexts(items[1..]);
      assert FlattenItems(items)[1..] == FlattenItems(items[1..]);
    }
  }

  lemma SameTexts(a: Node, b: Node, key: string)
    requires Flatten(a) == Flatten(b)
    ensures TextIn(Field(a, key)) == TextIn(Field(b, key)) && TextsIn(Field(a, key)) == TextsIn(Field(b, key))
  {
    hide Flatten, Field;
    FlattenField(a, key);
    FlattenField(b, key);
    var x, y := Field(a, key), Field(b, key);
    if x.Some? && y.Some? {
      FlattenShape(x.value);
      FlattenShape(y.value);
      if x.value.Array? { FlattenTexts(x.value.items); }
      if y.value.Array? { FlattenTexts(y.value.items); }
    }
  }

  /** Two values with one one-line text are one value. */
  lemma SameFlatSameValue(a: Node, b: Node)
    requires WellFormed(a) && WellFormed(b) && Flat(a) == Flat(b)
    ensures Flatten(a) == Flatten(b)
  {
    hide Flat, Flatten, Spell, WellFormed, ReadValue;
    FlatSpells(a, 0);
    FlatSpells(b, 0);
    ReadInvertsSpell(Flatten(a), 0, true, "");
    ReadInvertsSpell(Flatten(b), 0, true, "");
    assert Spell(Flatten(a), 0) + "" == Spell(Flatten(b), 0) + "";
  }

  lemma {:induction false} RefreshedStates(t: Node, m: Method)
    requires WellFormed(t) && Navigable(t) && ProcedureOf(t) == m.Procedure() != ""
    ensures States(Refreshed(t, m), m)
  {
    hide WellFormed, Flat, Flatten, UrlNode, MergeDescription, ProcedureOf, RefreshedMembers, HostOf;
    var r := Refreshed(t, m);
    RefreshedFacts(t, m);
    RefreshFrame(t, m, "request");
    RefreshKeepsTheCall(t, m);
    RefreshedIsWellFormed(t, m);
    var url := Get(RequestMembers(r), "url").value;
    UrlIsWellFormed(r);
    BuiltUrl(m, HostOf(t));
    SameFlatSameValue(url, UrlNode(m, HostOf(t)));
    SameTexts(url, UrlNode(m, HostOf(t)), "raw");
    SameTexts(url, UrlNode(m, HostOf(t)), "host");
    SameTexts(url, UrlNode(m, HostOf(t)), "path");
    UrlNodeParts(m, HostOf(t));
  }

  lemma UrlIsWellFormed(t: Node)
    requires WellFormed(t) && Get(RequestMembers(t), "url").Some?
    ensures WellFormed(Get(RequestMembers(t), "url").value)
  {
    assert Get([], "url") == None;
    hide Get;
    if t.Object? {
      GetIsWellFormed(t.members, "request");
      assert forall i :: 0 <= i < |RequestMembers(t)| ==> WellFormed(RequestMembers(t)[i].value);
      GetIsWellFormed(RequestMembers(t), "url");
    }
  }

  lemma {:induction false} NewStates(m: Method)
    requires OfThisSystem(m)
    ensures States(NewRequest(m), m)
  {
    hide NewRequest, UrlNode, MergeDescription, ProcedureOf, Get, HostOf;
    NewRequestFields(m);
    NewRequestCallsItsMethod(m);
    UrlNodeParts(m, DEFAULT_HOST);
  }

  /** After a merge every request for a declared RPC is a POST to it, and its URL says so whole and in parts. */
  lemma {:induction false} MergedState(items: seq<Node>, methods: seq<Method>, m: Method, t: Node)
    requires WorkableAll(items, methods) && AllWellFormed(items) && ContractOk(methods) && DistinctProcedures(methods)
    requires m in methods && t in MergedItems(items, methods) && ProcedureOf(t) == m.Procedure()
    ensures States(t, m)
  {
    hide NewRequest, Extended, Updated, Workable, Stale, Called, ProcedureOf, States, WellFormed;
    var kept := Pruned(items, methods);
    KeptAreWorkable(items, methods);
    var updated := UpdatedAll(kept, methods);
    ExtendedIsFrom(updated, methods, Called(kept));
    ProcedureIsOfThisSystem(m);
    if t in updated {
      var i :| 0 <= i < |updated| && updated[i] == t;
      assert kept[i] in kept && kept[i] in items;
      var j :| 0 <= j < |items| && items[j] == kept[i];
      UpdatedKeepsTheCall(kept[i], methods);
      UpdatedStates(kept[i], methods, m);
    } else {
      var n :| n in methods && t == NewRequest(n);
      NewRequestCallsItsMethod(n);
      LookUpDistinct(methods, m);
      LookUpDistinct(methods, n);
      NewStates(m);
    }
  }

  lemma UpdatedStates(t: Node, methods: seq<Method>, m: Method)
    requires WellFormed(t) && Workable(t, methods) && DistinctProcedures(methods) && m in methods
    requires ProcedureOf(t) == m.Procedure() != ""
    ensures States(Updated(t, methods), m)
  {
    hide WellFormed, ProcedureOf, Refreshed, States, LookUp, Comparable;
    LookUpDistinct(methods, m);
    RefreshedStates(t, m);
  }

  // ---- a new request ------------------------------------------------------

  function Pairs(items: seq<Node>): Option<seq<(string, string)>> {
    if items == [] then Some([])
    else if TextIn(Field(items[0], "key")).None? || TextIn(Field(items[0], "value")).None? then None
    else
      var rest :- Pairs(items[1..]);
      Some([(TextIn(Field(items[0], "key")).value, TextIn(Field(items[0], "value")).value)] + rest)
  }

  lemma HeaderReads(key: string, value: string)
    ensures TextIn(Field(Header(key, value), "key")) == Some(key)
    ensures TextIn(Field(Header(key, value), "value")) == Some(value)
  {
    GetAt(Header(key, value).members, 0);
    GetAt(Header(key, value).members, 1);
  }

  lemma {:induction false} PairsMore(h: Node, rest: seq<Node>, key: string, value: string)
    requires TextIn(Field(h, "key")) == Some(key) && TextIn(Field(h, "value")) == Some(value)
    ensures Pairs([h] + rest) == if Pairs(rest).None? then None else Some([(key, value)] + Pairs(rest).value)
  {
    hide Field;
    assert ([h] + rest)[1..] == rest;
  }

  /** The headers of a new request: two always, and the organisation for a core package. */
  lemma HeadersRead(m: Method)
    ensures Pairs(Headers(m)) == Some(
      [("Content-Type", "application/json"), ("Authorization", "Bearer {{access_token}}")]
      + if "kindlast.core." <= m.package then [("Kindlast-Org-Id", "{{org_id}}")] else [])
  {
    hide Header, Field;
    var a, b, c := Header("Content-Type", "application/json"), Header("Authorization", "Bearer {{access_token}}"),
                   Header("Kindlast-Org-Id", "{{org_id}}");
    HeaderReads("Content-Type", "application/json");
    HeaderReads("Authorization", "Bearer {{access_token}}");
    HeaderReads("Kindlast-Org-Id", "{{org_id}}");
    var last := if "kindlast.core." <= m.package then [c] else [];
    assert Headers(m) == [a] + ([b] + last);
    assert [c] == [c] + [];
    PairsMore(c, [], "Kindlast-Org-Id", "{{org_id}}");
    PairsMore(b, last, "Authorization", "Bearer {{access_token}}");
    PairsMore(a, [b] + last, "Content-Type", "application/json");
    var pair: seq<(string, string)> := if "kindlast.core." <= m.package then [("Kindlast-Org-Id", "{{org_id}}")] else [];
    assert [("Kindlast-Org-Id", "{{org_id}}")] + [] == [("Kindlast-Org-Id", "{{org_id}}")];
    assert Pairs(last) == Some(pair);
    assert [("Content-Type", "application/json")] + ([("Authorization", "Bearer {{access_token}}")] + pair)
        == [("Content-Type", "application/json"), ("Authorization", "Bearer {{access_token}}")] + pair;
  }

  /** What a new request holds besides its facts: a name, those headers, and an empty raw body. */
  lemma NewRequestReads(m: Method)
    ensures var request := RequestMembers(NewRequest(m));
            && TextIn(Field(NewRequest(m), "name")) == Some(m.name + " (" + m.service + ")")
            && Get(request, "header") == Some(Array(Headers(m), ByWidth))
            && Get(request, "body").Some?
            && TextIn(Field(Get(request, "body").value, "mode")) == Some("raw")
            && TextIn(Field(Get(request, "body").value, "raw")) == Some("{}")
    ensures "kindlast." <= m.package ==> HostOf(NewRequest(m)) == "{{api_base_url}}"
  {
    hide MergeDescription, UrlNode, Get, Headers;
    var item := NewRequest(m);
    var ms := item.members[1].value.members;
    GetAt(item.members, 0);
    GetAt(item.members, 1);
    GetAt(ms, 1);
    GetAt(ms, 2);
    GetAt(ms[2].value.members, 0);
    GetAt(ms[2].value.members, 1);
    if SYSTEM <= m.package { NewRequestCallsItsMethod(m); }
  }
}
