/** The billing webhook: verify, read, and apply each event once. */
module Webhook {
  import opened Wrappers
  import opened Base64
  import opened Signature

  const MAX_BODY_BYTES := 64 * 1024

  /** The fields read out of a provider's body. */
  datatype Payload = Payload(id: string, kind: string, customer: string, status: string, currentPeriodEnd: int,
      lookups: seq<string>)

  datatype Event = Event(id: string, kind: string, customer: string, plan: string, status: string, periodEnd: Option<int>)

  datatype Subscription = Subscription(plan: string, status: string, periodEnd: Option<int>)

  const CREATED := "customer.subscription.created"
  const UPDATED := "customer.subscription.updated"
  const DELETED := "customer.subscription.deleted"

  predicate Handled(kind: string) { kind == CREATED || kind == UPDATED || kind == DELETED }

  function MapStatus(provider: string): string {
    if provider == "active" || provider == "trialing" then "active"
    else if provider == "past_due" || provider == "unpaid" || provider == "incomplete" then "past_due"
    else "canceled"
  }

  function MapPlan(lookups: seq<string>): (plan: string)
    ensures plan == "pro" <==> "pro" in lookups
    ensures plan == "pro" || plan == "free"
  {
    if lookups == [] then "free" else if lookups[0] == "pro" then "pro" else MapPlan(lookups[1..])
  }

  function EventOf(p: Payload): Event {
    var deleted := p.kind == DELETED;
    Event(p.id, p.kind, p.customer,
          if deleted then "free" else MapPlan(p.lookups),
          if deleted then "canceled" else MapStatus(p.status),
          if p.currentPeriodEnd > 0 then Some(p.currentPeriodEnd) else None)
  }

  predicate Valid(e: Event) {
    !Blank(e.id) && !Blank(e.customer) && e.plan in {"free", "pro"} && e.status in {"active", "past_due", "canceled"}
  }

  /**
   * One HTTP request: `broken` if the body could not be read, `fault` if the
   * database fails. `customers` gives the organisation of each provider
   * customer id known at that moment; a checkout between two deliveries adds to it.
   */
  datatype Delivery = Delivery(
    broken: bool, header: string, body: Bytes, now: int, customers: map<string, string>, fault: bool)

  /** What a deployment is configured with, and how a body is read as JSON. */
  datatype Site = Site(secret: string, mac: Mac, read: Bytes -> Option<Payload>)

  datatype State = State(ledger: set<string>, subscriptions: map<string, Subscription>)

  datatype Applied = Done | AlreadyApplied | UnknownCustomer | Fault

  /** An event, and the organisation its customer belonged to when it was applied. */
  datatype Change = Change(org: string, event: Event)

  function SubscriptionOf(e: Event): Subscription { Subscription(e.plan, e.status, e.periodEnd) }

  function Write(subs: map<string, Subscription>, c: Change): map<string, Subscription> {
    subs[c.org := SubscriptionOf(c.event)]
  }

  function ApplyResult(s: State, e: Event, customers: map<string, string>, fault: bool): Applied {
    if fault then Fault
    else if e.id in s.ledger then AlreadyApplied
    else if e.customer !in customers then UnknownCustomer
    else Done
  }

  /** The event a delivery carries, if it is signed, readable, of a handled type and usable. */
  function Carried(d: Delivery, site: Site): Option<Event> {
    if d.broken || |d.body| > MAX_BODY_BYTES then None
    else if Verify(d.header, d.body, site.secret, d.now, site.mac) != Accepted then None
    else
      var p :- site.read(d.body);
      var e := EventOf(p);
      if Handled(e.kind) && Valid(e) then Some(e) else None
  }

  function Step(s: State, d: Delivery, site: Site): State {
    var e := Carried(d, site);
    if e.Some? && ApplyResult(s, e.value, d.customers, d.fault) == Done
    then State(s.ledger + {e.value.id}, Write(s.subscriptions, Change(d.customers[e.value.customer], e.value)))
    else s
  }

  /** The status code that answers a delivery. */
  function Code(s: State, d: Delivery, site: Site): int {
    if d.broken || |d.body| > MAX_BODY_BYTES then 400
    else if Verify(d.header, d.body, site.secret, d.now, site.mac) != Accepted then 400
    else if site.read(d.body).None? then 400
    else
      var e := EventOf(site.read(d.body).value);
      if !Handled(e.kind) then 200
      else if !Valid(e) then 400
      else if ApplyResult(s, e, d.customers, d.fault) == Fault then 500
      else 200
  }

  class Store {
    const site: Site
    var ledger: set<string>
    var subscriptions: map<string, Subscription>

    ghost function Now(): State
      reads this
    {
      State(ledger, subscriptions)
    }

    constructor (site: Site, subscriptions: map<string, Subscription>)
      ensures this.site == site && Now() == State({}, subscriptions)
    {
      this.site := site;
      ledger := {};
      this.subscriptions := subscriptions;
    }

    /** One transaction: the event id is claimed first, and any failure rolls it back. */
    method Apply(e: Event, customers: map<string, string>, fault: bool) returns (r: Applied)
      modifies this
      ensures r == ApplyResult(old(Now()), e, customers, fault)
      ensures r != Done ==> Now() == old(Now())
      ensures r == Done ==>
        e.customer in customers
        && Now() == State(old(ledger) + {e.id}, Write(old(subscriptions), Change(customers[e.customer], e)))
    {
      if fault { return Fault; }
      if e.id in ledger { return AlreadyApplied; }
      var claimed := ledger + {e.id};
      if e.customer !in customers { return UnknownCustomer; }
      var org := customers[e.customer];
      subscriptions := subscriptions[org := SubscriptionOf(e)];
      ledger := claimed;
      return Done;
    }

    method Handle(d: Delivery) returns (code: int)
      modifies this
      ensures Now() == Step(old(Now()), d, site)
      ensures code == Code(old(Now()), d, site)
    {
      hide Verify, EventOf, Valid;
      if d.broken || |d.body| > MAX_BODY_BYTES { return 400; }
      var verdict := VerifySignature(d.header, d.body, site.secret, d.now, site.mac);
      if verdict != Accepted { return 400; }
      var payload := site.read(d.body);
      if payload.None? { return 400; }
      var event := EventOf(payload.value);
      if !Handled(event.kind) { return 200; }
      if !Valid(event) { return 400; }
      var r := Apply(event, d.customers, d.fault);
      if r == Fault { return 500; }
      return 200;
    }
  }

  // ---- runs ---------------------------------------------------------------

  function After(s: State, run: seq<Delivery>, site: Site): State {
    if run == [] then s else Step(After(s, run[..|run| - 1], site), run[|run| - 1], site)
  }

  /** A delivery that would be applied if its event were new: it carries one, for a known customer, and no fault. */
  predicate Applicable(d: Delivery, site: Site) {
    !d.fault && Carried(d, site).Some? && Carried(d, site).value.customer in d.customers
  }

  function IdOf(d: Delivery, site: Site): string
    requires Applicable(d, site)
  {
    Carried(d, site).value.id
  }

  /** No earlier applicable delivery has this one's event id. */
  predicate IsFirst(run: seq<Delivery>, i: nat, site: Site)
    requires i < |run|
  {
    Applicable(run[i], site) &&
    forall j :: 0 <= j < i && Applicable(run[j], site) ==> IdOf(run[j], site) != IdOf(run[i], site)
  }

  function ChangeOf(d: Delivery, site: Site): Change
    requires Applicable(d, site)
  {
    Change(d.customers[Carried(d, site).value.customer], Carried(d, site).value)
  }

  /** What the first applicable delivery of each id says, in order: a question about the run alone. */
  function FirstChanges(run: seq<Delivery>, site: Site): seq<Change> {
    if run == [] then []
    else
      FirstChanges(run[..|run| - 1], site)
      + if IsFirst(run, |run| - 1, site) then [ChangeOf(run[|run| - 1], site)] else []
  }

  function WriteAll(subs: map<string, Subscription>, changes: seq<Change>): map<string, Subscription> {
    if changes == [] then subs else Write(WriteAll(subs, changes[..|changes| - 1]), changes[|changes| - 1])
  }

  function Ids(run: seq<Delivery>, site: Site): set<string> {
    set d | d in run && Applicable(d, site) :: IdOf(d, site)
  }

  lemma IsFirstByIds(run: seq<Delivery>, site: Site)
    requires run != []
    ensures var n := |run| - 1;
            IsFirst(run, n, site) <==> Applicable(run[n], site) && IdOf(run[n], site) !in Ids(run[..n], site)
  {
    hide Applicable, IdOf;
    var n := |run| - 1;
    if Applicable(run[n], site) {
      if IdOf(run[n], site) in Ids(run[..n], site) {
        var d :| d in run[..n] && Applicable(d, site) && IdOf(d, site) == IdOf(run[n], site);
        var j :| 0 <= j < n && run[..n][j] == d;
        assert run[j] == d;
      } else {
        forall j | 0 <= j < n && Applicable(run[j], site) ensures IdOf(run[j], site) != IdOf(run[n], site) {
          assert run[j] == run[..n][j] && run[j] in run[..n];
          assert IdOf(run[j], site) in Ids(run[..n], site);
        }
      }
    }
  }

  lemma WriteAllMore(subs: map<string, Subscription>, changes: seq<Change>, c: Change)
    ensures WriteAll(subs, changes + [c]) == Write(WriteAll(subs, changes), c)
  {
    assert (changes + [c])[..|changes|] == changes;
  }

  lemma IdsOfMore(run: seq<Delivery>, site: Site)
    requires run != []
    ensures var n := |run| - 1;
            Ids(run, site) == Ids(run[..n], site) + if Applicable(run[n], site) then {IdOf(run[n], site)} else {}
  {
    hide Applicable, IdOf;
    assert run == run[..|run| - 1] + [run[|run| - 1]];
  }

  /** A delivery changes the store exactly when it is applicable and its event new. */
  lemma StepIs(s: State, d: Delivery, site: Site)
    ensures Step(s, d, site)
         == if Applicable(d, site) && IdOf(d, site) !in s.ledger
            then State(s.ledger + {IdOf(d, site)}, Write(s.subscriptions, ChangeOf(d, site)))
            else s
  {
    hide Carried, Write;
  }

  /**
   * However deliveries are repeated, forged or interleaved, the subscriptions
   * are the first applicable delivery of each event, written in order, and the
   * ledger is their ids.
   */
  lemma {:induction false} TraceIsItsFirstChanges(subs: map<string, Subscription>, run: seq<Delivery>, site: Site)
    ensures var s := After(State({}, subs), run, site);
            && s.ledger == Ids(run, site)
            && s.subscriptions == WriteAll(subs, FirstChanges(run, site))
  {
    hide Applicable, IdOf, ChangeOf, Step, Write, IsFirst;
    if run != [] {
      var n := |run| - 1;
      var init, d := run[..n], run[n];
      TraceIsItsFirstChanges(subs, init, site);
      IsFirstByIds(run, site);
      StepIs(After(State({}, subs), init, site), d, site);
      IdsOfMore(run, site);
      var before := FirstChanges(init, site);
      if IsFirst(run, n, site) {
        WriteAllMore(subs, before, ChangeOf(d, site));
      } else {
        assert before + [] == before;
      }
    }
  }

  /** Inserting a delivery that cannot be applied, anywhere, changes nothing. */
  lemma {:induction false} InapplicableChangesNothing(s: State, a: seq<Delivery>, d: Delivery, b: seq<Delivery>, site: Site)
    requires !Applicable(d, site)
    ensures After(s, a + [d] + b, site) == After(s, a + b, site)
  {
    InsertedIsSkipped(s, a, d, b, site);
  }

  /** Inserting another delivery of an event already applied, anywhere after it, changes nothing. */
  lemma {:induction false} RepeatChangesNothing(subs: map<string, Subscription>, a: seq<Delivery>, d: Delivery,
      b: seq<Delivery>, site: Site)
    requires Applicable(d, site) ==> IdOf(d, site) in Ids(a, site)
    ensures After(State({}, subs), a + [d] + b, site) == After(State({}, subs), a + b, site)
  {
    hide Carried;
    TraceIsItsFirstChanges(subs, a, site);
    InsertedIsSkipped(State({}, subs), a, d, b, site);
  }

  lemma {:induction false} InsertedIsSkipped(s: State, a: seq<Delivery>, d: Delivery, b: seq<Delivery>, site: Site)
    requires Step(After(s, a, site), d, site) == After(s, a, site)
    ensures After(s, a + [d] + b, site) == After(s, a + b, site)
    decreases |b|
  {
    hide Step;
    if b == [] {
      assert a + [d] + b == a + [d] && a + b == a;
      assert (a + [d])[..|a|] == a;
    } else {
      var n := |b| - 1;
      InsertedIsSkipped(s, a, d, b[..n], site);
      assert (a + [d] + b)[..|a| + 1 + n] == a + [d] + b[..n];
      assert (a + b)[..|a| + n] == a + b[..n];
    }
  }

  // ---- who can be upgraded ------------------------------------------------

  lemma {:induction false} FirstChangesAreCarried(run: seq<Delivery>, site: Site)
    ensures forall c :: c in FirstChanges(run, site) ==>
      exists i :: 0 <= i < |run| && Applicable(run[i], site) && ChangeOf(run[i], site) == c
  {
    hide Carried, Applicable, ChangeOf, IsFirst;
    if run != [] {
      var n := |run| - 1;
      FirstChangesAreCarried(run[..n], site);
      forall c | c in FirstChanges(run, site)
        ensures exists i :: 0 <= i < |run| && Applicable(run[i], site) && ChangeOf(run[i], site) == c
      {
        if c in FirstChanges(run[..n], site) {
          var i :| 0 <= i < n && Applicable(run[..n][i], site) && ChangeOf(run[..n][i], site) == c;
          assert Applicable(run[i], site) && ChangeOf(run[i], site) == c;
        } else {
          assert Applicable(run[n], site) && ChangeOf(run[n], site) == c by { FirstIsApplicable(run, n, site); }
        }
      }
    }
  }

  lemma FirstIsApplicable(run: seq<Delivery>, i: nat, site: Site)
    requires i < |run| && IsFirst(run, i, site)
    ensures Applicable(run[i], site)
  {
  }

  /** `i` is the last change for an organisation. */
  ghost predicate IsLastFor(changes: seq<Change>, i: nat, org: string) {
    i < |changes| && changes[i].org == org && forall j :: i < j < |changes| ==> changes[j].org != org
  }

  /** What an organisation holds is what it had, or what the last change written for it said. */
  lemma {:induction false} LastWriteIsHeld(subs: map<string, Subscription>, changes: seq<Change>, org: string)
    requires org in WriteAll(subs, changes)
    ensures var held := WriteAll(subs, changes)[org];
            || (org in subs && held == subs[org] && forall c :: c in changes ==> c.org != org)
            || exists i: nat :: IsLastFor(changes, i, org) && held == SubscriptionOf(changes[i].event)
  {
    if changes != [] {
      var n := |changes| - 1;
      var init := changes[..n];
      if changes[n].org == org {
        assert IsLastFor(changes, n, org);
      } else {
        LastWriteIsHeld(subs, init, org);
        assert changes == init + [changes[n]];
        if i: nat :| IsLastFor(init, i, org) && WriteAll(subs, init)[org] == SubscriptionOf(init[i].event) {
          assert IsLastFor(changes, i, org);
        }
      }
    }
  }

  /** What a payload says of a subscription, read off the provider's own words. */
  ghost predicate Says(p: Payload, held: Subscription) {
    var ended := p.kind == "customer.subscription.deleted";
    && (held.plan == "pro" <==> !ended && "pro" in p.lookups)
    && (held.plan == "free" <==> ended || "pro" !in p.lookups)
    && (held.status == "active" <==> !ended && p.status in {"active", "trialing"})
    && (held.status == "past_due" <==> !ended && p.status in {"past_due", "unpaid", "incomplete"})
    && (held.status == "canceled" <==>
          ended || p.status !in {"active", "trialing", "past_due", "unpaid", "incomplete"})
    && (held.periodEnd == if p.currentPeriodEnd > 0 then Some(p.currentPeriodEnd) else None)
  }

  /** A signed delivery of a subscription event for a customer of this organisation that says so. */
  ghost predicate SaysSo(d: Delivery, site: Site, org: string, held: Subscription) {
    && Verify(d.header, d.body, site.secret, d.now, site.mac) == Accepted && site.read(d.body).Some?
    && var p := site.read(d.body).value;
       && p.kind in {"customer.subscription.created", "customer.subscription.updated", "customer.subscription.deleted"}
       && p.customer in d.customers && d.customers[p.customer] == org
       && Says(p, held)
  }

  lemma EventSays(p: Payload)
    ensures Says(p, SubscriptionOf(EventOf(p)))
    ensures EventOf(p).id == p.id && EventOf(p).customer == p.customer && EventOf(p).kind == p.kind
  {
  }

  /** When a delivery counts: genuine, of a handled type, complete, for a known customer, and without a fault. */
  lemma ApplicableExactly(d: Delivery, site: Site)
    ensures Applicable(d, site) <==>
      && !d.fault && Genuine(d, site)
      && var p := site.read(d.body).value;
         && p.kind in {"customer.subscription.created", "customer.subscription.updated", "customer.subscription.deleted"}
         && !Blank(p.id) && !Blank(p.customer) && p.customer in d.customers
    ensures Applicable(d, site) ==>
      var p := site.read(d.body).value;
      && IdOf(d, site) == p.id && ChangeOf(d, site).org == d.customers[p.customer]
      && Says(p, SubscriptionOf(ChangeOf(d, site).event))
  {
    hide Verify, Blank, EventOf, Says, Valid;
    if Genuine(d, site) {
      var p := site.read(d.body).value;
      EventSays(p);
      ValidExactly(p);
    }
  }

  /**
   * After any run, what an organisation holds is what it held before, or what
   * a signed delivery for one of its own customers says: plan, status and
   * period end, in the provider's own words.
   */
  lemma {:induction false} HeldWasSigned(subs: map<string, Subscription>, run: seq<Delivery>, site: Site, org: string)
    requires org in After(State({}, subs), run, site).subscriptions
    ensures var held := After(State({}, subs), run, site).subscriptions[org];
            || (org in subs && held == subs[org])
            || exists i :: 0 <= i < |run| && SaysSo(run[i], site, org, held)
  {
    hide Verify, Write, WriteAll, After, FirstChanges, Applicable, ChangeOf, Says, IdOf;
    var changes := FirstChanges(run, site);
    TraceIsItsFirstChanges(subs, run, site);
    LastWriteIsHeld(subs, changes, org);
    FirstChangesAreCarried(run, site);
    if k: nat :| IsLastFor(changes, k, org)
                 && After(State({}, subs), run, site).subscriptions[org] == SubscriptionOf(changes[k].event) {
      assert changes[k] in changes;
      var i :| 0 <= i < |run| && Applicable(run[i], site) && ChangeOf(run[i], site) == changes[k];
      ApplicableExactly(run[i], site);
      assert SaysSo(run[i], site, org, SubscriptionOf(changes[k].event));
    }
  }

  /**
   * A plan of `pro` that was not there before comes from a signed delivery of
   * a created or updated subscription, for a customer of that organisation,
   * whose items include the lookup key `pro`.
   */
  lemma {:induction false} ProComesFromASignedUpgrade(subs: map<string, Subscription>, run: seq<Delivery>, site: Site,
      org: string)
    requires var s := After(State({}, subs), run, site);
             org in s.subscriptions && s.subscriptions[org].plan == "pro"
    requires org in subs ==> subs[org].plan != "pro"
    ensures exists i :: 0 <= i < |run| &&
              var d := run[i];
              && Verify(d.header, d.body, site.secret, d.now, site.mac) == Accepted
              && site.read(d.body).Some?
              && var p := site.read(d.body).value;
                 && p.kind in {"customer.subscription.created", "customer.subscription.updated"} && "pro" in p.lookups
                 && p.customer in d.customers && d.customers[p.customer] == org
  {
    hide Verify, After;
    HeldWasSigned(subs, run, site, org);
    var held := After(State({}, subs), run, site).subscriptions[org];
    var i :| 0 <= i < |run| && SaysSo(run[i], site, org, held);
    assert "pro" in site.read(run[i].body).value.lookups;
  }

  /** A status of `active` that was not there before comes from one whose provider status is `active` or `trialing`. */
  lemma {:induction false} ActiveComesFromASignedStatus(subs: map<string, Subscription>, run: seq<Delivery>, site: Site,
      org: string)
    requires var s := After(State({}, subs), run, site);
             org in s.subscriptions && s.subscriptions[org].status == "active"
    requires org in subs ==> subs[org].status != "active"
    ensures exists i :: 0 <= i < |run| &&
              var d := run[i];
              && Verify(d.header, d.body, site.secret, d.now, site.mac) == Accepted
              && site.read(d.body).Some?
              && var p := site.read(d.body).value;
                 && p.kind in {"customer.subscription.created", "customer.subscription.updated"}
                 && p.status in {"active", "trialing"}
                 && p.customer in d.customers && d.customers[p.customer] == org
  {
    hide Verify, After;
    HeldWasSigned(subs, run, site, org);
    var held := After(State({}, subs), run, site).subscriptions[org];
    var i :| 0 <= i < |run| && SaysSo(run[i], site, org, held);
    assert site.read(run[i].body).value.status in {"active", "trialing"};
  }

  // ---- what the status code tells the provider ----------------------------

  /** A body that was read can only lack its id or its customer: plan and status are always ones the schema takes. */
  lemma ValidExactly(p: Payload)
    ensures Valid(EventOf(p)) <==> !Blank(p.id) && !Blank(p.customer)
  {
    hide Blank;
  }

  predicate Genuine(d: Delivery, site: Site) {
    !d.broken && |d.body| <= 65536
    && Verify(d.header, d.body, site.secret, d.now, site.mac) == Accepted && site.read(d.body).Some?
  }

  /**
   * Which answer a delivery gets. In particular a genuine one is refused
   * exactly when it is of a handled type and has no id or no customer.
   */
  lemma {:induction false} CodesExactly(s: State, d: Delivery, site: Site)
    ensures Code(s, d, site) in {200, 400, 500}
    ensures Code(s, d, site) == 400 <==>
      !Genuine(d, site)
      || var p := site.read(d.body).value;
         && p.kind in {"customer.subscription.created", "customer.subscription.updated", "customer.subscription.deleted"}
         && (Blank(p.id) || Blank(p.customer))
    ensures Code(s, d, site) == 500 <==> d.fault && Carried(d, site).Some?
  {
    hide Verify, Blank, Valid, EventOf, Says;
    if Genuine(d, site) {
      ValidExactly(site.read(d.body).value);
      EventSays(site.read(d.body).value);
    }
  }

  /**
   * Against what the handler is documented to do: a genuine event without an
   * id or a customer is answered 400, and sending it again, at whatever time,
   * in whatever state and with whatever valid signature, is answered 400 again.
   */
  lemma {:induction false} MissingFieldIsRefusedForEver(s: State, d: Delivery, later: State, again: Delivery, site: Site)
    requires Genuine(d, site) && Genuine(again, site) && again.body == d.body
    requires Code(s, d, site) == 400
    ensures Code(later, again, site) == 400
  {
    hide Genuine, Code, Blank, Handled;
    CodesExactly(s, d, site);
    CodesExactly(later, again, site);
  }

  /**
   * A code other than 200 means nothing changed. A delivery answered 200 need
   * not be sent again unchanged; one answered 500, sent again without the
   * fault and for a known customer, is applied.
   */
  lemma {:induction false} CodesTellWhetherToRetry(s: State, d: Delivery, site: Site)
    ensures Code(s, d, site) != 200 ==> Step(s, d, site) == s
    ensures Step(Step(s, d, site), d, site) == Step(s, d, site)
    ensures Code(s, d, site) == 200 ==> Code(Step(s, d, site), d, site) == 200
    ensures Code(s, d, site) == 500 ==>
      var again := d.(fault := false);
      Code(Step(s, d, site), again, site) == 200 && Carried(again, site) == Carried(d, site)
      && (Applicable(again, site) ==> IdOf(again, site) in Step(s, again, site).ledger)
  {
    hide Verify, EventOf, Valid;
  }

  /**
   * An event answered 200 is left unapplied exactly when its customer is
   * unknown, with neither a fault nor an earlier application.
   */
  lemma {:induction false} AcknowledgedButUnapplied(s: State, d: Delivery, site: Site)
    requires Carried(d, site).Some?
    ensures var e := Carried(d, site).value;
            Code(s, d, site) == 200 && e.id !in Step(s, d, site).ledger
            <==> !d.fault && e.id !in s.ledger && e.customer !in d.customers
  {
    hide Verify, EventOf, Valid;
  }

  /**
   * Over a run: such an event is applied exactly if it is delivered again,
   * without a fault, once its customer is known. The answer it got, 200, does
   * not ask the provider to do that.
   */
  lemma {:induction false} UnknownCustomerNeedsAnotherDelivery(subs: map<string, Subscription>, a: seq<Delivery>,
      d: Delivery, b: seq<Delivery>, site: Site)
    requires Carried(d, site).Some? && !d.fault && Carried(d, site).value.customer !in d.customers
    requires Carried(d, site).value.id !in Ids(a, site)
    ensures var id := Carried(d, site).value.id;
            && Code(After(State({}, subs), a, site), d, site) == 200
            && (id in After(State({}, subs), a + [d] + b, site).ledger
                <==> exists i :: 0 <= i < |b| && Applicable(b[i], site) && IdOf(b[i], site) == id)
  {
    var id := Carried(d, site).value.id;
    TraceIsItsFirstChanges(subs, a, site);
    AcknowledgedButUnapplied(After(State({}, subs), a, site), d, site);
    TraceIsItsFirstChanges(subs, a + [d] + b, site);
    assert !Applicable(d, site);
    hide Carried, Applicable, IdOf, Code, After;
    IdsOfParts(a, d, b, site);
    if i :| 0 <= i < |b| && Applicable(b[i], site) && IdOf(b[i], site) == id { assert b[i] in b; }
  }

  lemma IdsOfParts(a: seq<Delivery>, d: Delivery, b: seq<Delivery>, site: Site)
    requires !Applicable(d, site)
    ensures Ids(a + [d] + b, site) == Ids(a, site) + Ids(b, site)
  {
    hide Applicable, IdOf;
  }
}
