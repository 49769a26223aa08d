/** The cache of an authorization server's signing keys, and when it goes back to the network. */
module KeyCache {
  import opened Wrappers
  import opened JwkKeys

  /** What one request for the key set brings; the document is missing when the body is not one. */
  datatype Response = Unreachable | Answer(status: int, document: Option<seq<Jwk>>)

  const OK := 200

  predicate Good(r: Response) { r.Answer? && r.status == OK && r.document.Some? }

  datatype State = State(keys: map<string, PublicKey>, refetched: bool, lastRefetch: int, cooldown: int)

  /**
   * A call on the cache. `asked` and `stamped` are the two readings of the
   * clock a miss takes, `at` is the time of a boot fetch; `response` is what a
   * fetch in this call would bring.
   */
  datatype Event =
    | Warm(at: int, response: Response)
    | Ask(kid: string, asked: int, stamped: int, response: Response)
    | SetCooldown(at: int, cooldown: int)

  function LookUp(keys: map<string, PublicKey>, kid: string): Option<PublicKey> {
    if kid != "" then (if kid in keys then Some(keys[kid]) else None)
    else if |keys| != 1 then None
    else
      OnlyKey(keys);
      var k :| keys.Keys == {k};
      assert k in keys.Keys;
      Some(keys[k])
  }

  lemma OnlyKey(keys: map<string, PublicKey>)
    requires |keys| == 1
    ensures exists k :: keys.Keys == {k}
    ensures forall k, j :: keys.Keys == {k} && keys.Keys == {j} ==> k == j
  {
    assert |keys.Keys| == 1;
    var k :| k in keys.Keys;
    assert |keys.Keys - {k}| == 0;
    assert keys.Keys == {k};
    forall i, j | keys.Keys == {i} && keys.Keys == {j} ensures i == j { assert i in keys.Keys; }
  }

  /**
   * What a key map answers for an id: the key under that id, or, to an empty
   * id, the only key there is.
   */
  ghost predicate Gives(keys: map<string, PublicKey>, kid: string, key: PublicKey) {
    if kid != "" then kid in keys && keys[kid] == key else exists id :: keys == map[id := key]
  }

  ghost predicate Serves(keys: map<string, PublicKey>, kid: string) {
    if kid != "" then kid in keys else exists id, key :: keys == map[id := key]
  }

  lemma LookUpExactly(keys: map<string, PublicKey>, kid: string)
    ensures forall key :: LookUp(keys, kid) == Some(key) <==> Gives(keys, kid, key)
    ensures LookUp(keys, kid).Some? <==> Serves(keys, kid)
  {
    if kid == "" {
      if |keys| == 1 {
        OnlyKey(keys);
        var k :| keys.Keys == {k};
        assert keys == map[k := keys[k]];
      }
      forall id, key | keys == map[id := key] ensures LookUp(keys, kid) == Some(key) {
        OneKey(keys, id, key);
        OnlyKey(keys);
      }
    }
  }

  lemma OneKey(keys: map<string, PublicKey>, id: string, key: PublicKey)
    requires keys == map[id := key]
    ensures |keys| == 1 && keys.Keys == {id}
  {
    assert keys.Keys == {id};
    assert |keys.Keys| == |keys|;
  }

  /** The keys after a fetch: replaced by a good answer, left alone by any other. */
  function Fetched(keys: map<string, PublicKey>, r: Response, check: PointCheck): map<string, PublicKey> {
    if Good(r) then KeysOf(r.document.value, check) else keys
  }

  predicate MayRefetch(s: State, now: int) {
    !s.refetched || now - s.lastRefetch >= s.cooldown
  }

  /** Does this call go to the network because a key is missing? */
  predicate Refetches(s: State, e: Event) {
    e.Ask? && LookUp(s.keys, e.kid).None? && MayRefetch(s, e.asked)
  }

  function Step(s: State, e: Event, check: PointCheck): State {
    match e
    case Warm(_, r) => s.(keys := Fetched(s.keys, r, check))
    case SetCooldown(_, d) => s.(cooldown := d)
    case Ask(_, _, stamped, r) =>
      if Refetches(s, e) then s.(keys := Fetched(s.keys, r, check), refetched := true, lastRefetch := stamped) else s
  }

  /** What a request for a key gets: from the cache, or from a fetch that went well. */
  function Outcome(s: State, e: Event, check: PointCheck): Option<PublicKey>
    requires e.Ask?
  {
    if LookUp(s.keys, e.kid).Some? then LookUp(s.keys, e.kid)
    else if Refetches(s, e) && Good(e.response) then LookUp(Fetched(s.keys, e.response, check), e.kid)
    else None
  }

  class KeySet {
    const check: PointCheck
    var cooldown: int
    var keys: map<string, PublicKey>
    var refetched: bool
    var lastRefetch: int

    ghost function Now(): State
      reads this
    {
      State(keys, refetched, lastRefetch, cooldown)
    }

    constructor (check: PointCheck, cooldown: int)
      ensures this.check == check && Now() == State(map[], false, 0, cooldown)
    {
      this.check := check;
      this.cooldown := cooldown;
      keys := map[];
      refetched := false;
      lastRefetch := 0;
    }

    method SetRefetchCooldown(at: int, d: int)
      modifies this
      ensures Now() == Step(old(Now()), SetCooldown(at, d), check)
    {
      cooldown := d;
    }

    method FetchLocked(r: Response) returns (ok: bool)
      modifies this`keys
      ensures ok <==> Good(r)
      ensures keys == Fetched(old(keys), r, check)
    {
      if r.Unreachable? { return false; }
      if r.status != OK { return false; }
      if r.document.None? { return false; }
      keys := ParseJwks(r.document.value, check);
      return true;
    }

    method WarmUp(at: int, r: Response) returns (ok: bool)
      modifies this
      ensures ok <==> Good(r)
      ensures Now() == Step(old(Now()), Warm(at, r), check)
    {
      ok := FetchLocked(r);
    }

    method KeyFor(kid: string, asked: int, stamped: int, r: Response) returns (key: Option<PublicKey>)
      modifies this
      ensures Now() == Step(old(Now()), Ask(kid, asked, stamped, r), check)
      ensures key == Outcome(old(Now()), Ask(kid, asked, stamped, r), check)
    {
      key := LookUp(keys, kid);
      if key.Some? { return; }
      if refetched && asked - lastRefetch < cooldown { return None; }
      refetched := true;
      lastRefetch := stamped;
      var ok := FetchLocked(r);
      if !ok { return None; }
      key := LookUp(keys, kid);
    }
  }

  // ---- runs ---------------------------------------------------------------

  function Starts(e: Event): int { if e.Ask? then e.asked else e.at }
  function Ends(e: Event): int { if e.Ask? then e.stamped else e.at }

  /** The calls take place one after another, and the clock does not go back. */
  ghost predicate Ordered(run: seq<Event>) {
    && (forall i :: 0 <= i < |run| ==> Starts(run[i]) <= Ends(run[i]))
    && (forall i, j :: 0 <= i < j < |run| ==> Ends(run[i]) <= Starts(run[j]))
  }

  function Fresh(cooldown: int): State { State(map[], false, 0, cooldown) }

  /** The state after a run. */
  function After(s: State, run: seq<Event>, check: PointCheck): State {
    if run == [] then s else Step(After(s, run[..|run| - 1], check), run[|run| - 1], check)
  }

  // ---- a key comes from the latest document -------------------------------

  /** The document of the last fetch that was made and went well. */
  function LatestDocument(s: State, run: seq<Event>, check: PointCheck): Option<seq<Jwk>> {
    if run == [] then None
    else
      var init, e := run[..|run| - 1], run[|run| - 1];
      if (e.Warm? || Refetches(After(s, init, check), e)) && Good(e.response) then e.response.document
      else LatestDocument(s, init, check)
  }

  /** The keys of that document; none before the first. */
  function Held(cooldown: int, run: seq<Event>, check: PointCheck): map<string, PublicKey> {
    var d := LatestDocument(Fresh(cooldown), run, check);
    if d.Some? then KeysOf(d.value, check) else map[]
  }

  lemma {:induction false} CacheIsTheLatestDocument(cooldown: int, run: seq<Event>, check: PointCheck)
    ensures After(Fresh(cooldown), run, check).keys == Held(cooldown, run, check)
  {
    hide LookUp, KeysOf;
    if run != [] {
      CacheIsTheLatestDocument(cooldown, run[..|run| - 1], check);
    }
  }

  /** A key that is given out is the one the latest good document serves under that id, this call's document included. */
  lemma {:induction false} KeyIsServed(cooldown: int, run: seq<Event>, e: Event, key: PublicKey, check: PointCheck)
    requires e.Ask? && Outcome(After(Fresh(cooldown), run, check), e, check) == Some(key)
    ensures LatestDocument(Fresh(cooldown), run + [e], check).Some?
    ensures var m := Held(cooldown, run + [e], check);
            && (e.kid != "" ==> e.kid in m && m[e.kid] == key)
            && (e.kid == "" ==> exists id :: m == map[id := key])
  {
    hide KeysOf, LookUp, Serves;
    assert (run + [e])[..|run|] == run;
    CacheIsTheLatestDocument(cooldown, run, check);
    NothingServes(e.kid);
    LookUpExactly(Held(cooldown, run, check), e.kid);
    LookUpExactly(Held(cooldown, run + [e], check), e.kid);
  }

  // ---- what a request gets, and when it goes to the network ----------------

  /** The cooldown as last set. */
  function CurrentCooldown(cooldown: int, run: seq<Event>): int {
    if run == [] then cooldown
    else if run[|run| - 1].SetCooldown? then run[|run| - 1].cooldown
    else CurrentCooldown(cooldown, run[..|run| - 1])
  }

  /** The times at which a missing key drove a fetch. */
  function FetchTimes(s: State, run: seq<Event>, check: PointCheck): seq<int> {
    if run == [] then []
    else
      var init, e := run[..|run| - 1], run[|run| - 1];
      FetchTimes(s, init, check) + if Refetches(After(s, init, check), e) then [e.stamped] else []
  }

  /** No missing key has driven a fetch yet, or the last one is a cooldown ago. */
  predicate Due(cooldown: int, run: seq<Event>, now: int, check: PointCheck) {
    var times := FetchTimes(Fresh(cooldown), run, check);
    times == [] || now - times[|times| - 1] >= CurrentCooldown(cooldown, run)
  }

  lemma {:induction false} MarksAreTheTimes(cooldown: int, run: seq<Event>, check: PointCheck)
    ensures var s := After(Fresh(cooldown), run, check);
            var times := FetchTimes(Fresh(cooldown), run, check);
            && s.cooldown == CurrentCooldown(cooldown, run)
            && (s.refetched <==> times != [])
            && (times != [] ==> s.lastRefetch == times[|times| - 1])
  {
    hide LookUp, KeysOf;
    if run != [] { MarksAreTheTimes(cooldown, run[..|run| - 1], check); }
  }

  /**
   * In any run: a request goes to the network exactly when the keys held do
   * not serve its id and a fetch is due; and it gets a key exactly when the
   * keys held, or else the good document of that fetch, give it.
   */
  lemma {:induction false} AnswerExactly(cooldown: int, run: seq<Event>, e: Event, check: PointCheck)
    requires e.Ask?
    ensures var s, held := After(Fresh(cooldown), run, check), Held(cooldown, run, check);
            var fetches := !Serves(held, e.kid) && Due(cooldown, run, e.asked, check);
            && (Refetches(s, e) <==> fetches)
            && FetchTimes(Fresh(cooldown), run + [e], check)
                 == FetchTimes(Fresh(cooldown), run, check) + (if fetches then [e.stamped] else [])
            && forall key :: Outcome(s, e, check) == Some(key) <==>
                 || Gives(held, e.kid, key)
                 || (fetches && exists document :: e.response == Answer(200, Some(document))
                                                   && Gives(KeysOf(document, check), e.kid, key))
  {
    hide KeysOf, LookUp, Serves, Gives;
    CacheIsTheLatestDocument(cooldown, run, check);
    MarksAreTheTimes(cooldown, run, check);
    assert (run + [e])[..|run|] == run;
    var held := Held(cooldown, run, check);
    LookUpExactly(held, e.kid);
    GivesOnlyServed(held, e.kid);
    if Good(e.response) { LookUpExactly(KeysOf(e.response.document.value, check), e.kid); }
  }

  lemma GivesOnlyServed(keys: map<string, PublicKey>, kid: string)
    ensures (exists key :: Gives(keys, kid, key)) <==> Serves(keys, kid)
  {
    if kid != "" && kid in keys { assert Gives(keys, kid, keys[kid]); }
    if id, key :| kid == "" && keys == map[id := key] { assert Gives(keys, kid, key); }
  }

  // ---- a rotation does not lock anyone out for long -----------------------

  /** From `time` on every fetch that is made brings a document that answers `kid`. */
  ghost predicate ServedFrom(run: seq<Event>, time: int, kid: string, check: PointCheck) {
    forall i :: 0 <= i < |run| && !run[i].SetCooldown? && Ends(run[i]) >= time ==>
      Good(run[i].response) && Serves(KeysOf(run[i].response.document.value, check), kid)
  }

  /** If the last refetch was at or after `time`, the cache answers `kid`; and it was not in the future. */
  lemma {:induction false} RefetchBringsTheKey(cooldown: int, run: seq<Event>, time: int, kid: string, check: PointCheck)
    requires Ordered(run) && ServedFrom(run, time, kid, check)
    ensures var s := After(Fresh(cooldown), run, check);
            && (s.refetched && s.lastRefetch >= time ==> Serves(s.keys, kid))
            && (s.refetched ==> exists i :: 0 <= i < |run| && Ends(run[i]) == s.lastRefetch)
  {
    hide LookUp, KeysOf;
    if run != [] {
      var init, e := run[..|run| - 1], run[|run| - 1];
      RefetchBringsTheKey(cooldown, init, time, kid, check);
      var s := After(Fresh(cooldown), init, check);
      if s.refetched {
        var i :| 0 <= i < |init| && Ends(init[i]) == s.lastRefetch;
        assert Ends(run[i]) <= Starts(e) <= Ends(e);
      }
      assert Ends(run[|run| - 1]) == Ends(e);
    }
  }

  /**
   * Once the server serves a key and answers every fetch, a request for the
   * key gets it as soon as one cooldown has passed, whatever happened before.
   * The clock is counted in ticks; the last refetch that could have missed the
   * key was one tick before `time`.
   */
  lemma {:induction false} RotationOutageIsBounded(cooldown: int, run: seq<Event>, e: Event, time: int, check: PointCheck)
    requires e.Ask? && Ordered(run + [e]) && ServedFrom(run + [e], time, e.kid, check)
    requires e.asked >= time && e.asked - (time - 1) >= CurrentCooldown(cooldown, run)
    ensures exists key :: Outcome(After(Fresh(cooldown), run, check), e, check) == Some(key)
                          && Gives(Held(cooldown, run + [e], check), e.kid, key)
  {
    hide LookUp, KeysOf, Serves;
    var all := run + [e];
    assert all[|run|] == e;
    assert forall i :: 0 <= i < |run| ==> all[i] == run[i];
    RefetchBringsTheKey(cooldown, run, time, e.kid, check);
    MarksAreTheTimes(cooldown, run, check);
    var s := After(Fresh(cooldown), run, check);
    LookUpExactly(s.keys, e.kid);
    if Good(e.response) { LookUpExactly(KeysOf(e.response.document.value, check), e.kid); }
    var key := Outcome(s, e, check).value;
    KeyIsServed(cooldown, run, e, key, check);
    assert Gives(Held(cooldown, run + [e], check), e.kid, key);
  }

  /** One tick less is not enough: a failed refetch just before `time` keeps the key out until then. */
  lemma RotationBoundIsExact(cooldown: int, time: int, kid: string, document: seq<Jwk>, check: PointCheck)
    requires cooldown >= 2 && Serves(KeysOf(document, check), kid)
    ensures var first := Ask(kid, time - 1, time - 1, Unreachable);
            var late := Ask(kid, time - 2 + cooldown, time - 2 + cooldown, Answer(OK, Some(document)));
            && Ordered([first, late]) && ServedFrom([first, late], time, kid, check)
            && late.asked >= time && late.asked - (time - 1) == cooldown - 1
            && Outcome(After(Fresh(cooldown), [first], check), late, check).None?
  {
    hide KeysOf, LookUp, Serves;
    var first := Ask(kid, time - 1, time - 1, Unreachable);
    assert [first][..0] == [];
    LookUpExactly(map[], kid);
    NothingServes(kid);
    assert After(Fresh(cooldown), [first], check) == Step(Fresh(cooldown), first, check);
  }

  lemma NothingServes(kid: string)
    ensures !Serves(map[], kid)
  {
    if kid == "" {
      forall id: string, key: PublicKey ensures map[] != map[id := key] { assert id in map[id := key]; }
    }
  }

  // ---- the network is not an amplifier ------------------------------------

  /** The cooldown is at least `least` throughout. */
  ghost predicate CooldownAtLeast(least: int, cooldown: int, run: seq<Event>) {
    cooldown >= least && forall i :: 0 <= i < |run| && run[i].SetCooldown? ==> run[i].cooldown >= least
  }

  ghost predicate Spaced(times: seq<int>, gap: int) {
    forall i :: 0 <= i < |times| - 1 ==> times[i + 1] - times[i] >= gap
  }

  lemma {:induction false} FetchesAreSpaced(least: int, cooldown: int, run: seq<Event>, check: PointCheck)
    requires Ordered(run) && CooldownAtLeast(least, cooldown, run)
    ensures var s := After(Fresh(cooldown), run, check);
            var times := FetchTimes(Fresh(cooldown), run, check);
            && Spaced(times, least) && s.cooldown >= least
            && (s.refetched <==> times != [])
            && (times != [] ==> s.lastRefetch == times[|times| - 1])
  {
    hide LookUp, KeysOf;
    if run != [] {
      var init, e := run[..|run| - 1], run[|run| - 1];
      FetchesAreSpaced(least, cooldown, init, check);
      assert Starts(run[|run| - 1]) <= Ends(run[|run| - 1]);
      var before := FetchTimes(Fresh(cooldown), init, check);
      if Refetches(After(Fresh(cooldown), init, check), e) && before != [] {
        assert e.stamped - before[|before| - 1] >= least;
      }
    }
  }

  lemma {:induction false} SpacedAddsUp(times: seq<int>, gap: int, i: nat, j: nat)
    requires Spaced(times, gap) && i <= j < |times|
    ensures times[j] - times[i] >= (j - i) * gap
    decreases j - i
  {
    if i < j {
      SpacedAddsUp(times, gap, i, j - 1);
      assert times[j] - times[j - 1] >= gap by { assert times[j - 1 + 1] - times[j - 1] >= gap; }
      assert (j - i) * gap == (j - 1 - i) * gap + gap;
    }
  }

  /**
   * Failed or not, fetches driven by missing keys that fall in a span of
   * `width` are at most `width / cooldown + 1`.
   */
  lemma FetchRateIsBounded(cooldown: int, run: seq<Event>, check: PointCheck, i: nat, j: nat, width: nat)
    requires cooldown > 0 && Ordered(run) && CooldownAtLeast(cooldown, cooldown, run)
    requires var times := FetchTimes(Fresh(cooldown), run, check); i <= j < |times| && times[j] - times[i] <= width
    ensures j - i + 1 <= width / cooldown + 1
  {
    FetchesAreSpaced(cooldown, cooldown, run, check);
    SpacedAddsUp(FetchTimes(Fresh(cooldown), run, check), cooldown, i, j);
    Quotient(j - i, cooldown, width);
  }

  lemma {:induction false} Quotient(n: nat, d: int, w: nat)
    requires d > 0 && n * d <= w
    ensures n <= w / d
  {
    var above := w / d + 1 - n;
    assert w == d * (w / d) + w % d;
    assert above * d == d * (w / d) + d - n * d;
    assert above * d > 0;
  }

  /**
   * The boot fetch is never the last: until a missing key has driven a fetch,
   * the next missing key does, and that one call makes one fetch.
   */
  lemma {:induction false} FirstMissAlwaysFetches(cooldown: int, run: seq<Event>, e: Event, check: PointCheck)
    requires e.Ask? && FetchTimes(Fresh(cooldown), run, check) == [] && !Serves(Held(cooldown, run, check), e.kid)
    ensures FetchTimes(Fresh(cooldown), run + [e], check) == [e.stamped]
  {
    AnswerExactly(cooldown, run, e, check);
  }
}
