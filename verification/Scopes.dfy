/**
 * The scopes an access token carries: the union of a space-delimited claim, an array claim and
 * object claims, each scope once, in the order the claims are read.
 */
module Scopes {
  import opened Wrappers
  import Text

  const OPENID: string := "openid"

  /** A claim as the token's payload spells it. Numbers and booleans are all `Other`. */
  datatype Json = Null | Other | Text(text: string) | Array(items: seq<Json>) | Object(members: map<string, Json>)

  /** The claims scope collection reads; `raw` is the whole payload. */
  datatype TokenClaims = TokenClaims(scope: string, scp: Option<Json>, raw: map<string, Json>)

  function Lookup(raw: map<string, Json>, name: string): Option<Json> {
    if name in raw then Some(raw[name]) else None
  }

  /** Decoding into a Go string: a missing or null claim leaves it empty, any other shape refuses the token. */
  function Decoded(payload: map<string, Json>): Option<TokenClaims> {
    var scope := Lookup(payload, "scope");
    if scope.None? || scope.value.Null? then Some(TokenClaims("", Lookup(payload, "scp"), payload))
    else if scope.value.Text? then Some(TokenClaims(scope.value.text, Lookup(payload, "scp"), payload))
    else None
  }

  // ---------------------------------------------------------------- words

  function WordEnd(t: string): (n: nat)
    ensures n <= |t|
    ensures forall k :: 0 <= k < n ==> !Text.GoSpace(t[k])
    ensures n < |t| ==> Text.GoSpace(t[n])
  {
    if t == "" || Text.GoSpace(t[0]) then 0 else 1 + WordEnd(t[1..])
  }

  /** `strings.Fields`. */
  function Fields(t: string): seq<string>
    decreases |t|
  {
    if t == "" then []
    else if Text.GoSpace(t[0]) then Fields(t[1..])
    else [t[..WordEnd(t)]] + Fields(t[WordEnd(t)..])
  }

  /** `s` stands in `t` at `i` with white space, or an end of the text, on both sides. */
  predicate WordAt(t: string, s: string, i: nat) {
    Text.OccursAt(t, s, i) && s != "" && (forall k :: 0 <= k < |s| ==> !Text.GoSpace(s[k]))
    && (i == 0 || Text.GoSpace(t[i - 1])) && (i + |s| == |t| || Text.GoSpace(t[i + |s|]))
  }

  ghost predicate IsWord(t: string, s: string) {
    exists i: nat :: WordAt(t, s, i)
  }

  /** Dropping a prefix that ends at a word's edge keeps the words after it. */
  lemma WordsAfter(t: string, s: string, n: nat, i: nat)
    requires 0 < n <= i && n <= |t|
    ensures WordAt(t, s, i) <==> WordAt(t[n..], s, i - n) && (i == n ==> Text.GoSpace(t[n - 1]))
  {
    if i + |s| <= |t| {
      assert t[n..][i - n..i - n + |s|] == t[i..i + |s|];
    }
  }

  /** The word a text begins with. */
  lemma FirstWord(t: string, s: string, i: nat)
    requires t != "" && !Text.GoSpace(t[0]) && WordAt(t, s, i)
    ensures i == 0 ==> s == t[..WordEnd(t)]
    ensures i > 0 ==> i > WordEnd(t)
  {
    var n := WordEnd(t);
    if i == 0 {
      assert s == t[..|s|];
      if n < |s| { LetterOf(t, s, n); }
    }
  }

  lemma LetterOf(t: string, s: string, k: nat)
    requires s <= t && k < |s| && forall j :: 0 <= j < |s| ==> !Text.GoSpace(s[j])
    ensures !Text.GoSpace(t[k])
  {
    assert s[k] == t[k];
  }

  /** `strings.Fields` finds exactly the maximal runs without white space. */
  lemma {:induction false} FieldsAreTheWords(t: string, s: string)
    ensures s in Fields(t) <==> IsWord(t, s)
    decreases |t|
  {
    if t != "" && Text.GoSpace(t[0]) {
      FieldsAreTheWords(t[1..], s);
      DropSpace(t, s);
    } else if t != "" {
      var n := WordEnd(t);
      FieldsAreTheWords(t[n..], s);
      DropWord(t, s);
    }
  }

  lemma DropSpace(t: string, s: string)
    requires t != "" && Text.GoSpace(t[0])
    ensures IsWord(t, s) <==> IsWord(t[1..], s)
  {
    if IsWord(t, s) {
      var i: nat :| WordAt(t, s, i);
      assert i > 0 by { if s != "" && |s| <= |t| { assert t[0..|s|][0] == t[0]; } }
      WordsAfter(t, s, 1, i);
    }
    if IsWord(t[1..], s) {
      var i: nat :| WordAt(t[1..], s, i);
      WordsAfter(t, s, 1, i + 1);
    }
  }

  lemma DropWord(t: string, s: string)
    requires t != "" && !Text.GoSpace(t[0])
    ensures IsWord(t, s) <==> s == t[..WordEnd(t)] || IsWord(t[WordEnd(t)..], s)
  {
    var n := WordEnd(t);
    assert WordAt(t, t[..n], 0);
    if IsWord(t, s) {
      var i: nat :| WordAt(t, s, i);
      FirstWord(t, s, i);
      if i > 0 { WordsAfter(t, s, n, i); }
    }
    if IsWord(t[n..], s) {
      var i: nat :| WordAt(t[n..], s, i);
      assert i > 0 by { if |s| <= |t[n..]| && s != "" { assert t[n..][0..|s|][0] == t[n]; } }
      WordsAfter(t, s, n, i + n);
    }
  }

  // ---------------------------------------------------------------- sorted keys

  /** The order `sort.Strings` uses. */
  predicate Less(a: string, b: string) {
    b != "" && (a == "" || a[0] < b[0] || (a[0] == b[0] && Less(a[1..], b[1..])))
  }

  /** `a` comes first by code point: at the first difference it is smaller, or it has ended. */
  predicate ComesFirst(a: string, b: string, at: nat) {
    at <= |a| && at < |b| && a[..at] == b[..at] && (at == |a| || a[at] as int < b[at] as int)
  }

  lemma {:induction false} LessExactly(a: string, b: string)
    ensures Less(a, b) <==> exists at: nat :: ComesFirst(a, b, at)
  {
    if a != "" && b != "" {
      LessExactly(a[1..], b[1..]);
      if at: nat :| ComesFirst(a[1..], b[1..], at) && a[0] == b[0] {
        assert a[..at + 1] == [a[0]] + a[1..][..at] && b[..at + 1] == [b[0]] + b[1..][..at];
        assert ComesFirst(a, b, at + 1);
      }
      if a[0] < b[0] { assert ComesFirst(a, b, 0); }
      if at: nat :| ComesFirst(a, b, at) && at > 0 {
        assert a[..at][0] == b[..at][0];
        assert a[1..][..at - 1] == a[..at][1..] && b[1..][..at - 1] == b[..at][1..];
        assert ComesFirst(a[1..], b[1..], at - 1);
      }
    } else if b != "" {
      assert ComesFirst(a, b, 0);
    }
  }

  lemma {:induction false} LessIsTotal(a: string, b: string)
    ensures a == b || Less(a, b) || Less(b, a)
    ensures !(Less(a, b) && Less(b, a))
  {
    if a != "" && b != "" {
      LessIsTotal(a[1..], b[1..]);
      assert a == [a[0]] + a[1..] && b == [b[0]] + b[1..];
    }
  }

  lemma {:induction false} LessIsTransitive(a: string, b: string, c: string)
    requires Less(a, b) && Less(b, c)
    ensures Less(a, c)
  {
    if a != "" && a[0] == b[0] == c[0] { LessIsTransitive(a[1..], b[1..], c[1..]); }
  }

  ghost predicate Ascending(s: seq<string>) {
    forall i, j :: 0 <= i < j < |s| ==> Less(s[i], s[j])
  }

  /** `s` lists `keys`, each once, in order. */
  ghost predicate Lists(s: seq<string>, keys: set<string>) {
    Ascending(s) && forall k :: k in s <==> k in keys
  }

  lemma {:induction false} OneListing(a: seq<string>, b: seq<string>, keys: set<string>)
    requires Lists(a, keys) && Lists(b, keys)
    ensures a == b
    decreases |a|
  {
    hide Less;
    if a == [] {
      if b != [] { Held(b, 0); }
    } else {
      assert a[0] in b;
      assert b[0] in a;
      LeastIsFirst(a, b[0]);
      LeastIsFirst(b, a[0]);
      LessIsTotal(a[0], b[0]);
      RestLists(a, keys);
      RestLists(b, keys);
      OneListing(a[1..], b[1..], keys - {a[0]});
      assert a == [a[0]] + a[1..] && b == [b[0]] + b[1..];
    }
  }

  lemma Held(s: seq<string>, i: int)
    requires 0 <= i < |s|
    ensures s[i] in s
  {
  }

  lemma LeastIsFirst(s: seq<string>, x: string)
    requires Ascending(s) && x in s
    ensures s[0] == x || Less(s[0], x)
  {
    hide Less;
    var i :| 0 <= i < |s| && s[i] == x;
    assert i > 0 ==> Less(s[0], s[i]);
  }

  lemma RestLists(s: seq<string>, keys: set<string>)
    requires Lists(s, keys) && s != []
    ensures Lists(s[1..], keys - {s[0]})
  {
    hide Less;
    forall k ensures k in s[1..] <==> k in keys - {s[0]} {
      LessIsTotal(s[0], s[0]);
      if k in s[1..] {
        var i :| 0 <= i < |s[1..]| && s[1..][i] == k;
        assert Less(s[0], s[i + 1]);
      }
      if k in keys - {s[0]} {
        var i :| 0 <= i < |s| && s[i] == k;
        assert s[1..][i - 1] == k;
      }
    }
  }

  /** Where `x` belongs in a sorted list. */
  function Place(s: seq<string>, x: string): (p: nat)
    requires Ascending(s) && x !in s
    ensures p <= |s|
    ensures forall i :: 0 <= i < p ==> Less(s[i], x)
    ensures forall i :: p <= i < |s| ==> Less(x, s[i])
  {
    if s == [] then 0
    else
      var last := s[|s| - 1];
      LessIsTotal(last, x);
      if Less(last, x) then
        assert forall i :: 0 <= i < |s| - 1 ==> Less(s[i], x) by { AllBelow(s, x); }
        |s|
      else Place(s[..|s| - 1], x)
  }

  lemma AllBelow(s: seq<string>, x: string)
    requires Ascending(s) && s != [] && Less(s[|s| - 1], x)
    ensures forall i :: 0 <= i < |s| ==> Less(s[i], x)
  {
    forall i | 0 <= i < |s| - 1 ensures Less(s[i], x) { LessIsTransitive(s[i], s[|s| - 1], x); }
  }

  function Inserted(s: seq<string>, x: string): seq<string>
    requires Ascending(s) && x !in s
  {
    s[..Place(s, x)] + [x] + s[Place(s, x)..]
  }

  lemma InsertedLists(s: seq<string>, x: string, keys: set<string>)
    requires Lists(s, keys) && x !in keys
    ensures Lists(Inserted(s, x), keys + {x})
  {
    hide Less;
    var p := Place(s, x);
    var r := Inserted(s, x);
    forall i, j | 0 <= i < j < |r| ensures Less(r[i], r[j]) {
      assert r[i] == if i < p then s[i] else if i == p then x else s[i - 1];
      assert r[j] == if j < p then s[j] else if j == p then x else s[j - 1];
    }
    assert forall k :: k in r <==> k in s[..p] || k == x || k in s[p..];
    assert s == s[..p] + s[p..];
  }

  /** The keys in order: the one list `OneListing` leaves possible. */
  ghost function Listing(keys: set<string>): (r: seq<string>)
    ensures Lists(r, keys)
  {
    if keys == {} then []
    else
      var x :| x in keys;
      InsertedLists(Listing(keys - {x}), x, keys - {x});
      assert keys - {x} + {x} == keys;
      Inserted(Listing(keys - {x}), x)
  }

  // ---------------------------------------------------------------- one claim

  predicate TextOrNull(claim: Json) { claim.Text? || claim.Null? }

  predicate ListOfText(claim: Json) {
    claim.Array? && forall i :: 0 <= i < |claim.items| ==> TextOrNull(claim.items[i])
  }

  /** What decoding `claim` into a Go string leaves. */
  function TextOf(claim: Json): string
    requires TextOrNull(claim)
  {
    if claim.Text? then claim.text else ""
  }

  ghost function Values(claim: Option<Json>): seq<string> {
    if claim.None? then []
    else if TextOrNull(claim.value) then Fields(TextOf(claim.value))
    else if ListOfText(claim.value) then seq(|claim.value.items|,
        i requires 0 <= i < |claim.value.items| => TextOf(claim.value.items[i]))
    else if claim.value.Object? then Listing(claim.value.members.Keys)
    else []
  }

  /**
   * `valuesOf`. The keys are collected in whatever order the map yields them; the result is the same
   * for every such order, because `Values` does not depend on one.
   */
  method ValuesOf(claim: Option<Json>) returns (r: seq<string>)
    ensures r == Values(claim)
  {
    if claim.None? { return []; }
    if TextOrNull(claim.value) { return Fields(TextOf(claim.value)); }
    if ListOfText(claim.value) {
      return seq(|claim.value.items|, i requires 0 <= i < |claim.value.items| => TextOf(claim.value.items[i]));
    }
    if claim.value.Object? {
      var left := claim.value.members.Keys;
      ghost var all := left;
      var keys: seq<string> := [];
      while left != {}
        invariant forall k :: k in keys || k in left <==> k in all
        invariant forall k :: k in keys ==> k !in left
        invariant forall i, j :: 0 <= i < j < |keys| ==> keys[i] != keys[j]
        decreases left
      {
        var key :| key in left;
        left := left - {key};
        keys := keys + [key];
      }
      r := SortStrings(keys);
      OneListing(r, Listing(all), all);
      return;
    }
    return [];
  }

  /** `sort.Strings` on keys that are all different. */
  method SortStrings(keys: seq<string>) returns (sorted: seq<string>)
    requires forall i, j :: 0 <= i < j < |keys| ==> keys[i] != keys[j]
    ensures Ascending(sorted) && forall k :: k in sorted <==> k in keys
  {
    hide Less;
    sorted := [];
    ghost var placed: set<string> := {};
    for i := 0 to |keys|
      invariant Lists(sorted, placed)
      invariant forall k :: k in placed <==> k in keys[..i]
    {
      assert keys[i] !in keys[..i];
      InsertedLists(sorted, keys[i], placed);
      sorted := Inserted(sorted, keys[i]);
      placed := placed + {keys[i]};
      assert keys[..i + 1] == keys[..i] + [keys[i]];
    }
    assert keys[..|keys|] == keys;
  }

  /** What each of the three shapes grants, said without the code that reads them. */
  ghost predicate Grants(claim: Option<Json>, s: string) {
    claim.Some? && match claim.value
      case Text(text) => IsWord(text, s)
      case Array(items) => (forall x :: x in items ==> x.Text? || x == Null) && Text(s) in items
      case Object(members) => s in members
      case _ => false
  }

  lemma ValuesAreTheGrants(claim: Option<Json>, s: string)
    requires s != ""
    ensures s in Values(claim) <==> Grants(claim, s)
  {
    if claim.Some? && TextOrNull(claim.value) {
      FieldsAreTheWords(TextOf(claim.value), s);
      assert Fields("") == [];
    } else if claim.Some? && ListOfText(claim.value) {
      var items := claim.value.items;
      var values := Values(claim);
      if Text(s) in items {
        var i :| 0 <= i < |items| && items[i] == Text(s);
        assert values[i] == s;
      }
      if s in values {
        var i :| 0 <= i < |items| && values[i] == s;
        assert items[i] == Text(s);
      }
    }
  }

  // ---------------------------------------------------------------- the union

  /** Every value of every claim read, in reading order. */
  ghost function Read(c: TokenClaims, extra: seq<string>): seq<string> {
    if extra == [] then Fields(c.scope) + Values(c.scp)
    else Read(c, extra[..|extra| - 1]) + Values(Lookup(c.raw, extra[|extra| - 1]))
  }

  /** Each value the first time it is seen, and never the empty one. */
  function Distinct(values: seq<string>): seq<string> {
    if values == [] then []
    else
      var before := Distinct(values[..|values| - 1]);
      var last := values[|values| - 1];
      if last == "" || last in before then before else before + [last]
  }

  /** `i` is where `s` is first seen. */
  ghost predicate FirstAt(values: seq<string>, s: string, i: nat) {
    i < |values| && values[i] == s && s !in values[..i]
  }

  /** Listed by where each is first seen. */
  ghost predicate InFirstSeenOrder(r: seq<string>, values: seq<string>) {
    forall i, j, m: nat, n: nat ::
      0 <= i < j < |r| && FirstAt(values, r[i], m) && FirstAt(values, r[j], n) ==> m < n
  }

  /** The list the scopes are promised to be: nothing lost, no empty one, first-seen order. */
  ghost predicate FirstOccurrences(r: seq<string>, values: seq<string>) {
    (forall s :: s in r <==> s in values && s != "") && InFirstSeenOrder(r, values)
  }

  lemma {:induction false} HasFirst(values: seq<string>, s: string) returns (i: nat)
    requires s in values
    ensures FirstAt(values, s, i)
  {
    var n := |values| - 1;
    assert values == values[..n] + [values[n]];
    if s in values[..n] {
      i := HasFirst(values[..n], s);
      assert values[..n][..i] == values[..i];
    } else {
      i := n;
    }
  }

  /** One place only, and the same place in every longer list. */
  lemma FirstIsOne(values: seq<string>, s: string, i: nat, j: nat)
    requires FirstAt(values, s, i) && FirstAt(values, s, j)
    ensures i == j
  {
    if i < j { Earlier(values, s, i, j); } else if j < i { Earlier(values, s, j, i); }
  }

  lemma Earlier(values: seq<string>, s: string, i: nat, j: nat)
    requires i < j <= |values| && values[i] == s
    ensures s in values[..j]
  {
    assert values[..j][i] == s;
  }

  /** The loop's list meets the promise. */
  lemma {:induction false} DistinctMeetsThePromise(values: seq<string>)
    ensures FirstOccurrences(Distinct(values), values)
  {
    if values != [] {
      var front, last := values[..|values| - 1], values[|values| - 1];
      assert values == front + [last];
      DistinctMeetsThePromise(front);
      var r := Distinct(values);
      forall i, j, m: nat, n: nat
        | 0 <= i < j < |r| && FirstAt(values, r[i], m) && FirstAt(values, r[j], n)
        ensures m < n
      {
        assert r[i] in Distinct(front);
        var a := HasFirst(front, r[i]);
        FirstStays(front, last, r[i], a);
        FirstIsOne(values, r[i], a, m);
        if j < |Distinct(front)| {
          assert r[j] in Distinct(front);
          var b := HasFirst(front, r[j]);
          FirstStays(front, last, r[j], b);
          FirstIsOne(values, r[j], b, n);
          assert Distinct(front)[i] == r[i] && Distinct(front)[j] == r[j];
        } else {
          assert last !in front;
          if n < |front| { Held(front, n); }
        }
      }
    }
  }

  lemma FirstStays(front: seq<string>, last: string, s: string, i: nat)
    requires FirstAt(front, s, i)
    ensures FirstAt(front + [last], s, i)
  {
    assert (front + [last])[..i] == front[..i];
  }

  /** In first-seen order nothing can be listed twice. */
  lemma NoRepeats(r: seq<string>, values: seq<string>, i: nat, j: nat)
    requires InFirstSeenOrder(r, values) && i < j < |r| && r[i] in values
    ensures r[i] != r[j]
  {
    var m := HasFirst(values, r[i]);
    assert FirstAt(values, r[i], m);
  }

  /** The promise leaves one list possible. */
  lemma PromiseIsExact(r: seq<string>, values: seq<string>)
    ensures FirstOccurrences(r, values) <==> r == Distinct(values)
  {
    DistinctMeetsThePromise(values);
    if FirstOccurrences(r, values) { OneOrder(r, Distinct(values), values); }
  }

  lemma {:induction false} OneOrder(a: seq<string>, b: seq<string>, values: seq<string>)
    requires InFirstSeenOrder(a, values) && InFirstSeenOrder(b, values)
    requires forall s :: s in a <==> s in b
    requires forall s :: s in a ==> s in values
    ensures a == b
  {
    if a == [] {
      if b != [] { Held(b, 0); }
    } else if b == [] {
      Held(a, 0);
    } else {
      SameFirst(a, b, values);
      SameRest(a, b, values);
      OneOrder(a[1..], b[1..], values);
      assert a == [a[0]] + a[1..] && b == [b[0]] + b[1..];
    }
  }

  lemma SameFirst(a: seq<string>, b: seq<string>, values: seq<string>)
    requires InFirstSeenOrder(a, values) && InFirstSeenOrder(b, values) && a != [] && b != []
    requires a[0] in b && b[0] in a && a[0] in values && b[0] in values
    ensures a[0] == b[0]
  {
    var m := HasFirst(values, a[0]);
    var n := HasFirst(values, b[0]);
    HeadIsSeenFirst(a, values, b[0], m, n);
    HeadIsSeenFirst(b, values, a[0], n, m);
  }

  lemma HeadIsSeenFirst(r: seq<string>, values: seq<string>, x: string, m: nat, n: nat)
    requires InFirstSeenOrder(r, values) && x in r && FirstAt(values, r[0], m) && FirstAt(values, x, n)
    ensures x == r[0] || m < n
  {
    var i :| 0 <= i < |r| && r[i] == x;
  }

  lemma SameRest(a: seq<string>, b: seq<string>, values: seq<string>)
    requires InFirstSeenOrder(a, values) && InFirstSeenOrder(b, values) && a != [] && b != [] && a[0] == b[0]
    requires forall s :: s in a <==> s in b
    requires forall s :: s in a ==> s in values
    ensures InFirstSeenOrder(a[1..], values) && InFirstSeenOrder(b[1..], values)
    ensures forall s :: s in a[1..] <==> s in b[1..]
  {
    forall s | s in a[1..] ensures s in b[1..] { RestHolds(a, b, values, s); }
    forall s | s in b[1..] ensures s in a[1..] { RestHolds(b, a, values, s); }
  }

  lemma RestHolds(a: seq<string>, b: seq<string>, values: seq<string>, s: string)
    requires InFirstSeenOrder(a, values) && a != [] && b != [] && a[0] == b[0] && a[0] in values
    requires s in a[1..] && s in b
    ensures s in b[1..]
  {
    var i :| 0 <= i < |a[1..]| && a[1..][i] == s;
    NoRepeats(a, values, 0, i + 1);
    assert b == [b[0]] + b[1..];
  }

  // ---------------------------------------------------------------- scopes

  /** `scopes`, once the claims are decoded. */
  ghost function ScopesOf(c: TokenClaims, extra: seq<string>): seq<string> {
    Distinct(Read(c, extra))
  }

  /** The closure `add`: the values not yet found, in order. */
  method AddAll(values: seq<string>, found: set<string>, ordered: seq<string>, ghost seen: seq<string>)
    returns (nowFound: set<string>, nowOrdered: seq<string>)
    requires ordered == Distinct(seen) && forall s :: s in found <==> s in ordered
    ensures nowOrdered == Distinct(seen + values) && forall s :: s in nowFound <==> s in nowOrdered
  {
    nowFound, nowOrdered := found, ordered;
    assert seen + values[..0] == seen;
    for i := 0 to |values|
      invariant nowOrdered == Distinct(seen + values[..i])
      invariant forall s :: s in nowFound <==> s in nowOrdered
    {
      ghost var longer := seen + values[..i + 1];
      assert longer[..|longer| - 1] == seen + values[..i];
      if !(values[i] == "" || values[i] in nowFound) {
        nowFound := nowFound + {values[i]};
        nowOrdered := nowOrdered + [values[i]];
      }
    }
    assert values[..|values|] == values;
  }

  method CollectScopes(c: TokenClaims, extra: seq<string>) returns (ordered: seq<string>)
    ensures ordered == ScopesOf(c, extra)
    ensures FirstOccurrences(ordered, Read(c, extra))
  {
    var found: set<string> := {};
    ordered := [];
    found, ordered := AddAll(Fields(c.scope), found, ordered, []);
    assert [] + Fields(c.scope) == Fields(c.scope);
    var values := ValuesOf(c.scp);
    found, ordered := AddAll(values, found, ordered, Fields(c.scope));
    for i := 0 to |extra|
      invariant ordered == Distinct(Read(c, extra[..i]))
      invariant forall s :: s in found <==> s in ordered
    {
      values := ValuesOf(Lookup(c.raw, extra[i]));
      found, ordered := AddAll(values, found, ordered, Read(c, extra[..i]));
      assert extra[..i + 1][..i] == extra[..i];
    }
    assert extra[..|extra|] == extra;
    DistinctMeetsThePromise(Read(c, extra));
  }

  /** The union of the three shapes, over every claim the deployment reads. */
  ghost predicate Granted(c: TokenClaims, extra: seq<string>, s: string) {
    IsWord(c.scope, s) || Grants(c.scp, s) || exists i :: 0 <= i < |extra| && Grants(Lookup(c.raw, extra[i]), s)
  }

  lemma {:induction false} ReadIsTheUnion(c: TokenClaims, extra: seq<string>, s: string)
    requires s != ""
    ensures s in Read(c, extra) <==> Granted(c, extra, s)
  {
    hide Grants, Values, IsWord, Fields;
    if extra == [] {
      FieldsAreTheWords(c.scope, s);
      ValuesAreTheGrants(c.scp, s);
    } else {
      var n := |extra| - 1;
      ReadIsTheUnion(c, extra[..n], s);
      ValuesAreTheGrants(Lookup(c.raw, extra[n]), s);
      if exists i :: 0 <= i < |extra| && Grants(Lookup(c.raw, extra[i]), s) {
        var i :| 0 <= i < |extra| && Grants(Lookup(c.raw, extra[i]), s);
        assert i < n ==> extra[..n][i] == extra[i];
      }
      if exists i :: 0 <= i < n && Grants(Lookup(c.raw, extra[..n][i]), s) {
        var i :| 0 <= i < n && Grants(Lookup(c.raw, extra[..n][i]), s);
        assert extra[i] == extra[..n][i];
      }
    }
  }

  /** The scopes are exactly the non-empty grants. */
  lemma ScopesAreTheUnion(c: TokenClaims, extra: seq<string>, s: string)
    ensures s in ScopesOf(c, extra) <==> s != "" && Granted(c, extra, s)
  {
    hide Read, Granted, Distinct;
    DistinctMeetsThePromise(Read(c, extra));
    if s != "" { ReadIsTheUnion(c, extra, s); }
  }

  /** A claim no deployment setting names grants nothing, whatever it holds. */
  lemma {:induction false} UnnamedClaimsGrantNothing(c: TokenClaims, d: TokenClaims, extra: seq<string>)
    requires c.scope == d.scope && c.scp == d.scp
    requires forall i :: 0 <= i < |extra| ==> Lookup(c.raw, extra[i]) == Lookup(d.raw, extra[i])
    ensures Read(c, extra) == Read(d, extra)
    ensures ScopesOf(c, extra) == ScopesOf(d, extra)
  {
    if extra != [] { UnnamedClaimsGrantNothing(c, d, extra[..|extra| - 1]); }
  }

  /** Naming one more claim never takes a scope away or moves one: it can only append. */
  lemma MoreClaimsOnlyAppend(c: TokenClaims, extra: seq<string>, name: string)
    ensures ScopesOf(c, extra) <= ScopesOf(c, extra + [name])
  {
    assert (extra + [name])[..|extra|] == extra;
    DistinctGrows(Read(c, extra), Values(Lookup(c.raw, name)));
  }

  lemma {:induction false} DistinctGrows(values: seq<string>, more: seq<string>)
    ensures Distinct(values) <= Distinct(values + more)
    decreases |more|
  {
    if more == [] {
      assert values + more == values;
    } else {
      DistinctGrows(values, more[..|more| - 1]);
      assert (values + more)[..|values + more| - 1] == values + more[..|more| - 1];
    }
  }

  // ---------------------------------------------------------------- openid

  function WithOpenIDOf(scopes: seq<string>): seq<string> {
    if OPENID in scopes then scopes else scopes + [OPENID]
  }

  method WithOpenID(scopes: seq<string>) returns (r: seq<string>)
    ensures r == WithOpenIDOf(scopes)
  {
    for i := 0 to |scopes|
      invariant OPENID !in scopes[..i]
    {
      if scopes[i] == OPENID { return scopes; }
      assert scopes[..i + 1] == scopes[..i] + [scopes[i]];
    }
    assert scopes[..|scopes|] == scopes;
    return scopes + [OPENID];
  }

  /** Exact membership, never a prefix. */
  method HasScope(scopes: seq<string>, scope: string) returns (held: bool)
    ensures held <==> scope in scopes
  {
    for i := 0 to |scopes|
      invariant scope !in scopes[..i]
    {
      if scopes[i] == scope { return true; }
      assert scopes[..i + 1] == scopes[..i] + [scopes[i]];
    }
    assert scopes[..|scopes|] == scopes;
    return false;
  }

  /** What a verified token carries: the decoded claims' scopes, with `openid` asserted. */
  ghost function Verified(payload: map<string, Json>, extra: seq<string>): Option<seq<string>> {
    var c := Decoded(payload);
    if c.None? then None else Some(WithOpenIDOf(ScopesOf(c.value, extra)))
  }

  method Verify(payload: map<string, Json>, extra: seq<string>) returns (r: Option<seq<string>>)
    ensures r == Verified(payload, extra)
  {
    var c := Decoded(payload);
    if c.None? { return None; }
    var scopes := CollectScopes(c.value, extra);
    scopes := WithOpenID(scopes);
    return Some(scopes);
  }

  /** The scope claim, as a string of words: absent and null are the empty string. */
  ghost predicate InScopeClaim(payload: map<string, Json>, s: string) {
    "scope" in payload && payload["scope"].Text? && IsWord(payload["scope"].text, s)
  }

  /**
   * The authority of a verified token, from its payload alone: the words of `scope`, what `scp` and
   * the named claims grant in their own shapes, and `openid`, which holds exactly once. Only a
   * `scope` that is neither text nor null nor missing refuses the token.
   */
  lemma AuthorityIsTheUnionAndOpenID(payload: map<string, Json>, extra: seq<string>, s: string)
    ensures Verified(payload, extra).None?
       <==> "scope" in payload && !payload["scope"].Text? && !payload["scope"].Null?
    ensures Verified(payload, extra).Some? ==>
              (s in Verified(payload, extra).value <==>
                s == OPENID
                || (s != "" && (InScopeClaim(payload, s)
                                || Grants(Lookup(payload, "scp"), s)
                                || exists i :: 0 <= i < |extra| && Grants(Lookup(payload, extra[i]), s))))
    ensures Verified(payload, extra).Some? ==> multiset(Verified(payload, extra).value)[s] <= 1
  {
    hide Grants, Read, Distinct;
    var c := Decoded(payload);
    if c.Some? {
      var scopes := ScopesOf(c.value, extra);
      ScopesAreTheUnion(c.value, extra, s);
      DistinctMeetsThePromise(Read(c.value, extra));
      OnceEach(scopes, Read(c.value, extra), s);
    }
  }

  /**
   * In order: each value of the claims the first time it is seen, and `openid` at the end if it is not among them; the
   * words of `scope` first, then what `scp` grants.
   */
  lemma {:induction false} VerifiedInOrder(payload: map<string, Json>, extra: seq<string>)
    requires Verified(payload, extra).Some?
    ensures exists scopes: seq<string> ::
      && FirstOccurrences(scopes, Read(Decoded(payload).value, extra))
      && Verified(payload, extra).value == scopes + if "openid" in scopes then [] else ["openid"]
    ensures var c := Decoded(payload).value;
            && Distinct(Fields(c.scope)) <= Verified(payload, extra).value
            && Distinct(Fields(c.scope) + Values(c.scp)) <= Verified(payload, extra).value
  {
    hide Distinct, Fields, Values;
    var c := Decoded(payload).value;
    var values := Read(c, extra);
    var scopes := Distinct(values);
    DistinctMeetsThePromise(values);
    assert scopes + [] == scopes;
    StandardClaimsFirst(c, extra);
    DistinctGrows(Fields(c.scope), Values(c.scp));
    var first := Fields(c.scope) + Values(c.scp);
    assert values == first + values[|first|..];
    DistinctGrows(first, values[|first|..]);
  }

  lemma {:induction false} StandardClaimsFirst(c: TokenClaims, extra: seq<string>)
    ensures Fields(c.scope) + Values(c.scp) <= Read(c, extra)
  {
    hide Fields, Values;
    if extra != [] { StandardClaimsFirst(c, extra[..|extra| - 1]); }
  }

  lemma {:induction false} OnceEach(r: seq<string>, values: seq<string>, s: string)
    requires InFirstSeenOrder(r, values) && forall x :: x in r ==> x in values
    ensures multiset(r)[s] <= 1
  {
    if r != [] {
      var front, last := r[..|r| - 1], r[|r| - 1];
      OnceEach(front, values, s);
      assert r == front + [last];
      if s in front {
        var i :| 0 <= i < |front| && front[i] == s;
        NoRepeats(r, values, i, |r| - 1);
      }
    }
  }
}
