/** Requests of the collection: which RPC one calls, and what the contract wants of it. */
module Requests {
  import opened Wrappers
  import opened Text
  import opened JsonTree
  import opened Contract

  const SYSTEM := "kindlast."
  const RPC_MARK := "/" + SYSTEM
  const DEFAULT_HOST := "{{api_base_url}}"

  /** A string this script built: it has no source text. */
  function NewString(value: string): Node { String(value, None) }

  function Field(t: Node, key: string): Option<Node> {
    if t.Object? then Get(t.members, key) else None
  }

  function RawUrl(item: Node): Option<string> {
    var request :- Field(item, "request");
    var url :- Field(request, "url");
    var raw :- Field(url, "raw");
    if raw.String? then Some(raw.value) else None
  }

  /** The RPC an existing request calls, or "". */
  function ProcedureOf(item: Node): string {
    var raw := RawUrl(item);
    if raw.None? || IndexOf(raw.value, RPC_MARK).None? then ""
    else raw.value[IndexOf(raw.value, RPC_MARK).value + 1..]
  }

  /** The base address an existing request uses, or the default. */
  function HostOf(item: Node): string {
    var raw := RawUrl(item);
    if raw.None? || IndexOf(raw.value, RPC_MARK).None? then DEFAULT_HOST
    else raw.value[..IndexOf(raw.value, RPC_MARK).value]
  }

  function UrlNode(m: Method, host: string): Node {
    Object([
      Member("raw", NewString(host + "/" + m.Procedure())),
      Member("host", Array([NewString(host)], OneLine)),
      Member("path", Array([NewString(m.ServicePath()), NewString(m.name)], OneLine))
    ], Broken)
  }

  function Header(key: string, value: string): Node {
    Object([Member("key", NewString(key)), Member("value", NewString(value))], ByWidth)
  }

  function Headers(m: Method): seq<Node> {
    [Header("Content-Type", "application/json"), Header("Authorization", "Bearer {{access_token}}")]
    + if "kindlast.core." <= m.package then [Header("Kindlast-Org-Id", "{{org_id}}")] else []
  }

  function NewRequest(m: Method): Node {
    Object([
      Member("name", NewString(m.name + " (" + m.service + ")")),
      Member("request", Object([
        Member("method", NewString("POST")),
        Member("header", Array(Headers(m), ByWidth)),
        Member("body", Object([Member("mode", NewString("raw")), Member("raw", NewString("{}"))], ByWidth)),
        Member("url", UrlNode(m, DEFAULT_HOST)),
        Member("description", NewString(MergeDescription("", m)))
      ], ByWidth))
    ], ByWidth)
  }

  // ---- where looking at a request raises ----------------------------------

  predicate MissingOrObject(t: Option<Node>) { t.Some? ==> t.value.Object? }

  /** `procedure_of` goes through: every step it takes is into an object. */
  predicate Navigable(item: Node) {
    && item.Object?
    && MissingOrObject(Field(item, "request"))
    && (Field(item, "request").Some? ==> MissingOrObject(Field(Field(item, "request").value, "url")))
  }

  /** The request can be compared with the contract: it has a method, and its description is text. */
  predicate Comparable(item: Node) {
    && Field(item, "request").Some?
    && var request := Field(item, "request").value;
       Field(request, "method").Some?
       && (Field(request, "description").Some? ==> Field(request, "description").value.String?)
  }

  /** The method the contract gives for a procedure: the last one listed. */
  function LookUp(methods: seq<Method>, procedure: string): (r: Option<Method>)
    ensures r.Some? ==> r.value in methods && r.value.Procedure() == procedure
    ensures r.None? ==> forall m :: m in methods ==> m.Procedure() != procedure
  {
    if methods == [] then None
    else
      var last := methods[|methods| - 1];
      if last.Procedure() == procedure then Some(last) else LookUp(methods[..|methods| - 1], procedure)
  }

  predicate Workable(item: Node, methods: seq<Method>) {
    && Navigable(item)
    && (ProcedureOf(item) != "" ==>
          && Field(item, "name").Some?
          && (LookUp(methods, ProcedureOf(item)).Some? ==> Comparable(item)))
  }

  // ---- the contract facts of one request ----------------------------------

  predicate IsPost(request: seq<Member>) {
    var t := Get(request, "method");
    t.Some? && t.value.String? && t.value.value == "POST"
  }

  predicate UrlIs(request: seq<Member>, wanted: Node) {
    var t := Get(request, "url");
    t.Some? && Flat(t.value) == Flat(wanted)
  }

  function Description(request: seq<Member>): string {
    var t := Get(request, "description");
    if t.Some? && t.value.String? then t.value.value else ""
  }

  function WithMethod(request: seq<Member>): seq<Member> {
    if IsPost(request) then request else Put(request, "method", NewString("POST"))
  }

  function WithUrl(request: seq<Member>, wanted: Node): seq<Member> {
    if UrlIs(request, wanted) then request else Put(request, "url", wanted)
  }

  function WithDescription(request: seq<Member>, m: Method): seq<Member> {
    var merged := MergeDescription(Description(request), m);
    if merged == Description(request) then request else Put(request, "description", NewString(merged))
  }

  function RequestMembers(item: Node): seq<Member> {
    var t := Field(item, "request");
    if t.Some? && t.value.Object? then t.value.members else []
  }

  function RefreshedMembers(item: Node, m: Method): seq<Member> {
    WithDescription(WithUrl(WithMethod(RequestMembers(item)), UrlNode(m, HostOf(item))), m)
  }

  /** The item with its request replaced; everything else as it was. */
  function WithRequest(item: Node, members: seq<Member>): Node
    requires item.Object? && Field(item, "request").Some? && Field(item, "request").value.Object?
  {
    item.(members := Put(item.members, "request", Field(item, "request").value.(members := members)))
  }

  function Refreshed(item: Node, m: Method): Node
    requires Navigable(item) && ProcedureOf(item) != ""
  {
    WithRequest(item, RefreshedMembers(item, m))
  }

  /** Nothing about the request has to change. */
  predicate Current(item: Node, m: Method) {
    var request := RequestMembers(item);
    IsPost(request) && UrlIs(request, UrlNode(m, HostOf(item)))
    && MergeDescription(Description(request), m) == Description(request)
  }

  // ---- what one change reports --------------------------------------------

  /** One line of the report; `name` is the value the request's `name` holds. */
  datatype Change =
    | Removed(name: Node, procedure: string)
    | MethodSet(name: Node)
    | UrlSet(name: Node, url: string)
    | DescriptionSet(name: Node)
    | Added(procedure: string)

  function NameOf(item: Node): Node {
    var t := Field(item, "name");
    if t.Some? then t.value else Null
  }

  function RefreshChanges(item: Node, m: Method): seq<Change> {
    var r0 := RequestMembers(item);
    var wanted := UrlNode(m, HostOf(item));
    var r2 := WithUrl(WithMethod(r0), wanted);
    (if IsPost(r0) then [] else [MethodSet(NameOf(item))])
    + (if UrlIs(WithMethod(r0), wanted) then [] else [UrlSet(NameOf(item), HostOf(item) + "/" + m.Procedure())])
    + (if MergeDescription(Description(r2), m) == Description(r2) then [] else [DescriptionSet(NameOf(item))])
  }

  /** The three comparisons of one request, each rewriting its fact when it differs. */
  method RefreshItem(item: Node, m: Method) returns (updated: Node, changes: seq<Change>)
    requires Navigable(item) && ProcedureOf(item) != "" && Comparable(item)
    ensures updated == Refreshed(item, m)
    ensures changes == RefreshChanges(item, m)
  {
    hide MergeDescription, UrlNode, Flat, Put, Get, ProcedureOf, HostOf, WithRequest, Navigable;
    changes := [];
    var request := RequestMembers(item);
    var name := NameOf(item);
    if !IsPost(request) {
      changes := changes + [MethodSet(name)];
      request := Put(request, "method", NewString("POST"));
    }
    var wanted := UrlNode(m, HostOf(item));
    if !UrlIs(request, wanted) {
      changes := changes + [UrlSet(name, HostOf(item) + "/" + m.Procedure())];
      request := Put(request, "url", wanted);
    }
    var existing := Description(request);
    var merged := MergeDescription(existing, m);
    if merged != existing {
      changes := changes + [DescriptionSet(name)];
      request := Put(request, "description", NewString(merged));
    }
    updated := WithRequest(item, request);
  }

  // ---- a request and its RPC ----------------------------------------------

  lemma SplitAtMark(raw: string, k: nat)
    requires OccursAt(raw, RPC_MARK, k)
    ensures raw == raw[..k] + "/" + raw[k + 1..]
    ensures SYSTEM <= raw[k + 1..]
  {
    assert raw[k] == raw[k..k + |RPC_MARK|][0] == '/';
    assert raw[k + 1..][..|SYSTEM|] == raw[k..k + |RPC_MARK|][1..];
    assert ("/" + SYSTEM)[1..] == SYSTEM;
  }

  lemma {:induction false} RpcMarkSplit(item: Node)
    requires ProcedureOf(item) != ""
    ensures RawUrl(item) == Some(HostOf(item) + "/" + ProcedureOf(item))
    ensures SYSTEM <= ProcedureOf(item)
    ensures IndexOf(HostOf(item) + "/" + ProcedureOf(item), RPC_MARK) == Some(|HostOf(item)|)
  {
    hide IndexOf, RawUrl;
    var raw := RawUrl(item).value;
    SplitAtMark(raw, IndexOf(raw, RPC_MARK).value);
  }

  /** A request reads its RPC off any URL made of a host without the mark and an RPC of this system. */
  lemma BuiltUrlNamesItsProcedure(host: string, procedure: string)
    requires SYSTEM <= procedure && forall i :: 0 <= i < |host| ==> host[i] != '/'
    ensures IndexOf(host + "/" + procedure, RPC_MARK) == Some(|host|)
  {
    var raw := host + "/" + procedure;
    assert raw[|host|..|host| + |RPC_MARK|] == "/" + procedure[..|SYSTEM|];
    assert OccursAt(raw, RPC_MARK, |host|);
    forall j: nat | j < |host| ensures !OccursAt(raw, RPC_MARK, j) {
      assert raw[j] == host[j];
      if j + |RPC_MARK| <= |raw| { Mismatch(raw, RPC_MARK, j, 0); }
    }
    IndexIs(raw, RPC_MARK, |host|);
  }

  lemma ProcedureIsOfThisSystem(m: Method)
    requires SYSTEM <= m.package
    ensures SYSTEM <= m.Procedure()
  {
    assert m.Procedure()[..|m.package|] == m.package;
  }

  lemma NewRequestCallsItsMethod(m: Method)
    requires SYSTEM <= m.package
    ensures ProcedureOf(NewRequest(m)) == m.Procedure()
    ensures HostOf(NewRequest(m)) == DEFAULT_HOST
    ensures Navigable(NewRequest(m)) && Comparable(NewRequest(m)) && Field(NewRequest(m), "name").Some?
  {
    hide NewRequest, Get, UrlNode, MergeDescription;
    var item := NewRequest(m);
    NewRequestFields(m);
    ProcedureIsOfThisSystem(m);
    BuiltUrlNamesItsProcedure(DEFAULT_HOST, m.Procedure());
    assert (DEFAULT_HOST + "/" + m.Procedure())[|DEFAULT_HOST| + 1..] == m.Procedure();
    assert (DEFAULT_HOST + "/" + m.Procedure())[..|DEFAULT_HOST|] == DEFAULT_HOST;
  }

  lemma NewRequestFields(m: Method)
    ensures var item := NewRequest(m);
            && Field(item, "name") == Some(NewString(m.name + " (" + m.service + ")"))
            && Field(item, "request").Some? && Field(item, "request").value.Object?
            && RawUrl(item) == Some(DEFAULT_HOST + "/" + m.Procedure())
            && var request := RequestMembers(item);
               && Get(request, "method") == Some(NewString("POST"))
               && Get(request, "url") == Some(UrlNode(m, DEFAULT_HOST))
               && Get(request, "description") == Some(NewString(MergeDescription("", m)))
  {
    hide MergeDescription, Get;
    var item := NewRequest(m);
    var r := item.members[1].value;
    GetAt(item.members, 0);
    GetAt(item.members, 1);
    GetAt(r.members, 0);
    GetAt(r.members, 3);
    GetAt(r.members, 4);
    UrlNodeRaw(m, DEFAULT_HOST);
  }

  /** Refreshing touches three members of the request and nothing else. */
  lemma {:induction false} RefreshFrame(item: Node, m: Method, key: string)
    requires Navigable(item) && ProcedureOf(item) != ""
    ensures key != "request" ==> Field(Refreshed(item, m), key) == Field(item, key)
    ensures key !in {"method", "url", "description"} ==>
      Get(RequestMembers(Refreshed(item, m)), key) == Get(RequestMembers(item), key)
    ensures Refreshed(item, m).layout == item.layout
    ensures RequestMembers(Refreshed(item, m)) == RefreshedMembers(item, m)
  {
    hide MergeDescription, UrlNode, Flat, Put, Get;
    var r := RequestMembers(item);
    var wanted := UrlNode(m, HostOf(item));
    GetPut(item.members, "request", Field(item, "request").value.(members := RefreshedMembers(item, m)), key);
    GetPut(item.members, "request", Field(item, "request").value.(members := RefreshedMembers(item, m)), "request");
    GetPut(r, "method", NewString("POST"), key);
    GetPut(WithMethod(r), "url", wanted, key);
    var r2 := WithUrl(WithMethod(r), wanted);
    GetPut(r2, "description", NewString(MergeDescription(Description(r2), m)), key);
  }

  lemma {:induction false} RefreshedFacts(item: Node, m: Method)
    requires Navigable(item) && ProcedureOf(item) == m.Procedure() != ""
    ensures var r, wanted := RefreshedMembers(item, m), UrlNode(m, HostOf(item));
            && IsPost(r) && UrlIs(r, wanted)
            && (Get(r, "url") == Get(RequestMembers(item), "url") || Get(r, "url") == Some(wanted))
            && Description(r) == MergeDescription(Description(RequestMembers(item)), m)
            && ((Get(r, "description").Some? && Get(r, "description").value.String?)
                || Get(r, "description") == Get(RequestMembers(item), "description"))
  {
    hide MergeDescription, UrlNode, Flat, Put, Get;
    var r0 := RequestMembers(item);
    var wanted := UrlNode(m, HostOf(item));
    var r1 := WithMethod(r0);
    var r2 := WithUrl(r1, wanted);
    ThreeKeys(r0, "method", NewString("POST"));
    ThreeKeys(r1, "url", wanted);
    ThreeKeys(r2, "description", NewString(MergeDescription(Description(r2), m)));
  }

  lemma ThreeKeys(ms: seq<Member>, key: string, value: Node)
    ensures var r := Put(ms, key, value);
            && Get(r, "method") == (if key == "method" then Some(value) else Get(ms, "method"))
            && Get(r, "url") == (if key == "url" then Some(value) else Get(ms, "url"))
            && Get(r, "description") == (if key == "description" then Some(value) else Get(ms, "description"))
  {
    hide Put, Get;
    GetPut(ms, key, value, "method");
    GetPut(ms, key, value, "url");
    GetPut(ms, key, value, "description");
  }

  lemma UrlNodeRaw(m: Method, host: string)
    ensures Field(UrlNode(m, host), "raw") == Some(NewString(host + "/" + m.Procedure()))
  {
  }

  /** A refreshed request calls the same RPC at the same address, and its URL value has not moved. */
  lemma {:induction false} RefreshKeepsTheCall(item: Node, m: Method)
    requires Navigable(item) && ProcedureOf(item) == m.Procedure() != ""
    ensures RawUrl(Refreshed(item, m)) == RawUrl(item)
    ensures ProcedureOf(Refreshed(item, m)) == ProcedureOf(item) && HostOf(Refreshed(item, m)) == HostOf(item)
    ensures Navigable(Refreshed(item, m))
    ensures Comparable(item) ==> Comparable(Refreshed(item, m))
  {
    hide MergeDescription, Flat, Put, Get;
    RpcMarkSplit(item);
    RefreshedFacts(item, m);
    RefreshFrame(item, m, "request");
    var request := Field(item, "request").value;
    GetPut(item.members, "request", request.(members := RefreshedMembers(item, m)), "request");
    UrlNodeRaw(m, HostOf(item));
  }

  /** Hand-written prose stays, under any contract; the block below it is the new contract's. */
  lemma {:induction false} RefreshKeepsTheProse(item: Node, m: Method)
    requires Navigable(item) && ProcedureOf(item) == m.Procedure() != ""
    requires Prose(Description(RequestMembers(item))) != ""
    ensures var before, after := Description(RequestMembers(item)), Description(RequestMembers(Refreshed(item, m)));
            after == Prose(before) + "\n\n" + ContractBlock(m) && Prose(after) == Prose(before)
  {
    hide Flat, Put, Get, Prose, ContractBlock;
    RefreshedFacts(item, m);
    RefreshFrame(item, m, "request");
    ProseSurvives(Prose(Description(RequestMembers(item))), m);
  }
}
