/** A service's own access token: minted, cached, and replaced before it expires. */
module TokenSource {
  import opened Wrappers

  const SECOND := 1_000_000_000
  const REFRESH_MARGIN := 30 * SECOND
  const FALLBACK_LIFETIME := 5 * 60 * SECOND

  /** What the token endpoint brings; the payload is missing when the body cannot be read as one. */
  datatype Response = Unreachable | Answer(status: int, payload: Option<Payload>)
  datatype Payload = Payload(accessToken: string, expiresIn: real)

  /** A response a token can be taken from. */
  predicate Mints(r: Response) {
    r.Answer? && r.status == 200 && r.payload.Some? && r.payload.value.accessToken != ""
  }

  /** The life assumed for a token: whole seconds of what the server says, or the fallback. */
  function Lifetime(p: Payload): int {
    if p.expiresIn > 0.0 then p.expiresIn.Floor * SECOND else FALLBACK_LIFETIME
  }

  function Usable(p: Payload): int {
    if Lifetime(p) - REFRESH_MARGIN <= 0 then 0 else Lifetime(p) - REFRESH_MARGIN
  }

  datatype State = State(token: string, expiresAt: int)

  const EMPTY := State("", 0)

  /** A call for a token: the clock when it asks, the clock after a mint, and what minting would bring. */
  datatype Call = Call(asked: int, stamped: int, response: Response)

  predicate Cached(s: State, c: Call) { s.token != "" && c.asked < s.expiresAt }

  function Step(s: State, c: Call): State {
    if Cached(s, c) || !Mints(c.response) then s
    else State(c.response.payload.value.accessToken, c.stamped + Usable(c.response.payload.value))
  }

  function Outcome(s: State, c: Call): Option<string> {
    if Cached(s, c) then Some(s.token)
    else if Mints(c.response) then Some(c.response.payload.value.accessToken)
    else None
  }

  class ClientCredentials {
    var token: string
    var expiresAt: int

    ghost function Now(): State
      reads this
    {
      State(token, expiresAt)
    }

    constructor ()
      ensures Now() == EMPTY
    {
      token := "";
      expiresAt := 0;
    }

    method MintLocked(stamped: int, r: Response) returns (ok: bool)
      modifies this
      ensures ok <==> Mints(r)
      ensures !ok ==> Now() == old(Now())
      ensures ok ==> Now() == State(r.payload.value.accessToken, stamped + Usable(r.payload.value))
    {
      if r.Unreachable? { return false; }
      if r.status != 200 { return false; }
      if r.payload.None? { return false; }
      var payload := r.payload.value;
      if payload.accessToken == "" { return false; }
      var lifetime := FALLBACK_LIFETIME;
      if payload.expiresIn > 0.0 {
        lifetime := payload.expiresIn.Floor * SECOND;
      }
      var usable := lifetime - REFRESH_MARGIN;
      if usable <= 0 {
        usable := 0;
      }
      token := payload.accessToken;
      expiresAt := stamped + usable;
      return true;
    }

    method Token(c: Call) returns (r: Option<string>)
      modifies this
      ensures Now() == Step(old(Now()), c)
      ensures r == Outcome(old(Now()), c)
    {
      if token != "" && c.asked < expiresAt { return Some(token); }
      var ok := MintLocked(c.stamped, c.response);
      if !ok { return None; }
      return Some(token);
    }
  }

  // ---- runs ---------------------------------------------------------------

  ghost predicate Ordered(run: seq<Call>) {
    && (forall i :: 0 <= i < |run| ==> run[i].asked <= run[i].stamped)
    && (forall i, j :: 0 <= i < j < |run| ==> run[i].stamped <= run[j].asked)
  }

  function After(run: seq<Call>): State {
    if run == [] then EMPTY else Step(After(run[..|run| - 1]), run[|run| - 1])
  }

  /** Did this call mint a token? */
  predicate Minted(run: seq<Call>, i: nat)
    requires i < |run|
  {
    !Cached(After(run[..i]), run[i]) && Mints(run[i].response)
  }

  /** The call that minted last. */
  function LatestMint(run: seq<Call>): (i: Option<nat>)
    ensures i.Some? ==> i.value < |run| && Mints(run[i.value].response)
  {
    if run == [] then None
    else if !Cached(After(run[..|run| - 1]), run[|run| - 1]) && Mints(run[|run| - 1].response) then Some(|run| - 1)
    else LatestMint(run[..|run| - 1])
  }

  /** A token as it was minted. */
  function PayloadAt(run: seq<Call>, i: nat): Payload
    requires i < |run| && Mints(run[i].response)
  {
    run[i].response.payload.value
  }

  /** The cache holds the latest mint and its deadline, and nothing before the first. */
  lemma {:induction false} CacheIsTheLatestMint(run: seq<Call>)
    ensures var i := LatestMint(run);
            After(run) == if i.None? then EMPTY
                          else State(PayloadAt(run, i.value).accessToken,
                                     run[i.value].stamped + Usable(PayloadAt(run, i.value)))
    ensures LatestMint(run).Some? ==> Minted(run, LatestMint(run).value)
    ensures forall j :: 0 <= j < |run| && Minted(run, j) ==> LatestMint(run).Some? && j <= LatestMint(run).value
  {
    if run != [] {
      var init := run[..|run| - 1];
      CacheIsTheLatestMint(init);
      forall j: nat | j < |run| && Minted(run, j)
        ensures LatestMint(run).Some? && j <= LatestMint(run).value
      {
        if j < |init| {
          assert init[j] == run[j] && init[..j] == run[..j];
          assert Minted(init, j);
        }
      }
      if LatestMint(init).Some? {
        var j := LatestMint(init).value;
        assert init[j] == run[j] && init[..j] == run[..j];
      }
    }
  }

  /** A mint that gave this token: an answer of 200 with a token in it. */
  ghost predicate Gave(r: Response, p: Payload) {
    r == Answer(200, Some(p)) && p.accessToken != ""
  }

  /** The life assumed for a token, in nanoseconds: `expires_in` in whole seconds, or five minutes without one. */
  ghost predicate Lives(p: Payload, life: int) {
    if p.expiresIn <= 0.0 then life == 300_000_000_000
    else exists seconds: int :: IsFloor(p.expiresIn, seconds) && life == seconds * 1_000_000_000
  }

  predicate IsFloor(x: real, n: int) { n as real <= x < n as real + 1.0 }

  lemma LifetimeExactly(p: Payload, life: int)
    ensures Lives(p, life) <==> life == Lifetime(p)
  {
    if p.expiresIn > 0.0 { assert IsFloor(p.expiresIn, p.expiresIn.Floor); }
  }

  /**
   * Every token handed out was minted by this very call, or is the latest
   * mint, longer-lived than the margin, with more than the margin left of the
   * life assumed for it. The cache answers in exactly that second case.
   */
  lemma {:induction false} MarginIsKept(run: seq<Call>, c: Call, token: string)
    requires Ordered(run + [c])
    ensures var latest := LatestMint(run);
            var cached := exists p: Payload, life: int ::
              && latest.Some? && Gave(run[latest.value].response, p) && Lives(p, life)
              && c.asked + 30_000_000_000 < run[latest.value].stamped + life;
            Outcome(After(run), c) == Some(token) <==>
              if cached then token == PayloadAt(run, latest.value).accessToken
              else exists p: Payload :: Gave(c.response, p) && token == p.accessToken
  {
    hide Lives, Lifetime;
    CacheIsTheLatestMint(run);
    var latest := LatestMint(run);
    if latest.Some? {
      var p := PayloadAt(run, latest.value);
      var all := run + [c];
      assert all[latest.value] == run[latest.value] && all[|run|] == c;
      assert all[latest.value].stamped <= all[|run|].asked;
      assert Gave(run[latest.value].response, p);
      LifetimeExactly(p, Lifetime(p));
      forall life: int ensures Lives(p, life) <==> life == Lifetime(p) { LifetimeExactly(p, life); }
    }
    if Mints(c.response) { assert Gave(c.response, c.response.payload.value); }
  }

  /** After a mint that outlives the margin, the next one is at least its life less the margin later. */
  lemma MintsAreSpaced(run: seq<Call>, i: nat, j: nat)
    requires Ordered(run) && i < j < |run| && Minted(run, i) && Minted(run, j)
    requires forall k :: i < k < j ==> !Minted(run, k)
    ensures forall life: int :: Lives(PayloadAt(run, i), life) ==> run[j].asked >= run[i].stamped + life - 30_000_000_000
  {
    forall life: int ensures Lives(PayloadAt(run, i), life) <==> life == Lifetime(PayloadAt(run, i)) {
      LifetimeExactly(PayloadAt(run, i), life);
    }
    hide Lives, Lifetime;
    var before := run[..j];
    CacheIsTheLatestMint(before);
    forall k: nat | k < j ensures before[k] == run[k] && before[..k] == run[..k] {}
    assert Minted(before, i);
    var latest := LatestMint(before).value;
    assert Minted(run, latest);
    assert latest == i;
  }

  /** A mint that fails changes nothing that later calls can see. */
  lemma FailedMintIsInvisible(a: seq<Call>, failed: Call, b: seq<Call>)
    requires !Mints(failed.response)
    ensures After(a + [failed] + b) == After(a + b)
    decreases |b|
  {
    if b == [] {
      assert a + [failed] + b == a + [failed] && a + b == a;
      assert (a + [failed])[..|a|] == a;
    } else {
      var n := |b| - 1;
      FailedMintIsInvisible(a, failed, b[..n]);
      assert (a + [failed] + b)[..|a| + 1 + n] == a + [failed] + b[..n];
      assert (a + b)[..|a| + n] == a + b[..n];
    }
  }
}
