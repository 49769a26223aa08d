/** A JSON document that remembers how it was written, its printer and its reader. */
module JsonTree {
  import opened Wrappers
  import opened JsonText

  /** How a container was laid out: on one line or broken, or not yet decided. */
  datatype Layout = OneLine | Broken | ByWidth

  datatype Member = Member(key: string, value: Node)

  /** `raw` is the source text of a string that came from a file. */
  datatype Node =
    | Object(members: seq<Member>, layout: Layout)
    | Array(items: seq<Node>, layout: Layout)
    | String(value: string, raw: Option<string>)
    | Integer(number: int)
    | Boolean(truth: bool)
    | Null

  const PRINT_WIDTH := 80

  // ---- members of an object, in order -------------------------------------

  function Keys(ms: seq<Member>): set<string> {
    set i | 0 <= i < |ms| :: ms[i].key
  }

  predicate DistinctKeys(ms: seq<Member>) {
    forall i, j :: 0 <= i < j < |ms| ==> ms[i].key != ms[j].key
  }

  /** Assignment to a key: in place if the key is there, at the end if it is not. */
  function Put(ms: seq<Member>, key: string, value: Node): (r: seq<Member>)
    ensures |ms| <= |r| <= |ms| + 1
    ensures |r| > |ms| ==> r[|ms|] == Member(key, value)
    ensures forall i :: 0 <= i < |ms| ==> r[i].key == ms[i].key
    ensures forall i :: 0 <= i < |ms| && ms[i].key != key ==> r[i] == ms[i]
  {
    if ms == [] then [Member(key, value)]
    else if ms[0].key == key then [Member(key, value)] + ms[1..]
    else [ms[0]] + Put(ms[1..], key, value)
  }

  function Get(ms: seq<Member>, key: string): Option<Node> {
    if ms == [] then None else if ms[0].key == key then Some(ms[0].value) else Get(ms[1..], key)
  }

  lemma {:induction false} GetIsMembership(ms: seq<Member>, key: string)
    ensures Get(ms, key).Some? <==> key in Keys(ms)
  {
    if ms != [] {
      KeysSplit(ms);
      GetIsMembership(ms[1..], key);
    }
  }

  lemma {:induction false} GetAt(ms: seq<Member>, i: nat)
    requires DistinctKeys(ms) && i < |ms|
    ensures Get(ms, ms[i].key) == Some(ms[i].value)
  {
    if i > 0 {
      DistinctSplit(ms);
      assert ms[0].key != ms[i].key;
      GetAt(ms[1..], i - 1);
    }
  }

  lemma {:induction false} PutKeys(ms: seq<Member>, key: string, value: Node)
    ensures Keys(Put(ms, key, value)) == Keys(ms) + {key}
  {
    var r := Put(ms, key, value);
    KeysSplit(r);
    if ms != [] {
      KeysSplit(ms);
      if ms[0].key == key {
        assert r[1..] == ms[1..];
      } else {
        PutKeys(ms[1..], key, value);
        assert r[1..] == Put(ms[1..], key, value);
      }
    }
  }

  lemma {:induction false} PutKeepsKeysDistinct(ms: seq<Member>, key: string, value: Node)
    requires DistinctKeys(ms)
    ensures DistinctKeys(Put(ms, key, value))
  {
    if key in Keys(ms) {
      PutInPlace(ms, key, value);
    } else {
      PutNew(ms, key, value);
    }
  }

  lemma {:induction false} PutInPlace(ms: seq<Member>, key: string, value: Node)
    requires key in Keys(ms)
    ensures |Put(ms, key, value)| == |ms|
  {
    KeysSplit(ms);
    if ms[0].key != key {
      PutInPlace(ms[1..], key, value);
    }
  }

  lemma {:induction false} GetPut(ms: seq<Member>, key: string, value: Node, other: string)
    ensures Get(Put(ms, key, value), other) == if other == key then Some(value) else Get(ms, other)
  {
    if ms != [] && ms[0].key != key {
      GetPut(ms[1..], key, value, other);
    }
  }

  lemma KeysSplit(ms: seq<Member>)
    requires ms != []
    ensures Keys(ms) == {ms[0].key} + Keys(ms[1..])
  {
    forall k | k in Keys(ms) ensures k in {ms[0].key} + Keys(ms[1..]) {
      var i :| 0 <= i < |ms| && ms[i].key == k;
      if i > 0 { assert ms[1..][i - 1].key == k; }
    }
    forall k | k in Keys(ms[1..]) ensures k in Keys(ms) {
      var i :| 0 <= i < |ms[1..]| && ms[1..][i].key == k;
      assert ms[i + 1].key == k;
    }
  }

  lemma DistinctSplit(ms: seq<Member>)
    requires ms != []
    ensures DistinctKeys(ms) <==> ms[0].key !in Keys(ms[1..]) && DistinctKeys(ms[1..])
  {
    if DistinctKeys(ms) {
      forall i | 0 <= i < |ms[1..]| ensures ms[1..][i].key != ms[0].key { assert ms[1..][i] == ms[i + 1]; }
    } else {
      var i, j :| 0 <= i < j < |ms| && ms[i].key == ms[j].key;
      assert ms[j] == ms[1..][j - 1];
      if i > 0 { assert ms[i] == ms[1..][i - 1]; }
    }
  }

  lemma {:induction false} PutNew(ms: seq<Member>, key: string, value: Node)
    requires key !in Keys(ms)
    ensures Put(ms, key, value) == ms + [Member(key, value)]
  {
    if ms != [] {
      KeysSplit(ms);
      PutNew(ms[1..], key, value);
      assert ms == [ms[0]] + ms[1..];
    }
  }

  /** A tree a document or the merge can hold: source text agrees with the value, keys are distinct. */
  predicate WellFormed(t: Node) {
    match t
    case Object(ms, _) => DistinctKeys(ms) && forall i :: 0 <= i < |ms| ==> WellFormed(ms[i].value)
    case Array(items, _) => forall i :: 0 <= i < |items| ==> WellFormed(items[i])
    case String(v, raw) => raw.Some? ==> LoadString(raw.value) == Some(v)
    case _ => true
  }

  // ---- the printer --------------------------------------------------------

  function Flat(t: Node): string {
    match t
    case Object(ms, _) => if ms == [] then "{}" else "{ " + FlatMembers(ms) + " }"
    case Array(items, _) => if items == [] then "[]" else "[" + FlatItems(items) + "]"
    case String(v, raw) => if raw.Some? then raw.value else Quote(v)
    case Integer(n) => ShowInteger(n)
    case Boolean(b) => if b then "true" else "false"
    case Null => "null"
  }

  function FlatMembers(ms: seq<Member>): string
    requires ms != []
  {
    Quote(ms[0].key) + ": " + Flat(ms[0].value) + if |ms| == 1 then "" else ", " + FlatMembers(ms[1..])
  }

  function FlatItems(items: seq<Node>): string
    requires items != []
  {
    Flat(items[0]) + if |items| == 1 then "" else ", " + FlatItems(items[1..])
  }

  /** Does a container go on one line when it starts at this column? */
  predicate PrintsFlat(t: Node, column: nat)
    requires t.Object? || t.Array?
  {
    t.layout.OneLine? || (t.layout.ByWidth? && '\n' !in Flat(t) && column + |Flat(t)| <= PRINT_WIDTH)
  }

  function Print(t: Node, indent: nat, column: nat): string {
    match t
    case Object(ms, _) =>
      if PrintsFlat(t, column) then Flat(t)
      else if ms == [] then "{}"
      else "{\n" + PrintMembers(ms, indent) + "\n" + Spaces(indent) + "}"
    case Array(items, _) =>
      if PrintsFlat(t, column) then Flat(t)
      else if items == [] then "[]"
      else "[\n" + PrintItems(items, indent) + "\n" + Spaces(indent) + "]"
    case _ => Flat(t)
  }

  function PrintMembers(ms: seq<Member>, indent: nat): string
    requires ms != []
  {
    Spaces(indent + 2) + Quote(ms[0].key) + ": "
    + Print(ms[0].value, indent + 2, indent + 2 + |Quote(ms[0].key)| + 2)
    + if |ms| == 1 then "" else ",\n" + PrintMembers(ms[1..], indent)
  }

  function PrintItems(items: seq<Node>, indent: nat): string
    requires items != []
  {
    Spaces(indent + 2) + Print(items[0], indent + 2, indent + 2)
    + if |items| == 1 then "" else ",\n" + PrintItems(items[1..], indent)
  }

  function WriteDocument(root: Node): string {
    Print(root, 0, 0) + "\n"
  }

  // ---- the reader ---------------------------------------------------------

  /** What was read off the front of a text, and the text left over. */
  datatype Parsed<+T> = Parsed(value: T, rest: string)

  /** Is there a line break between a bracket and what follows it? */
  predicate BrokeAfterBracket(s: string) {
    s != "" &&
    (s[0] == '\n' || ((s[0] == ' ' || s[0] == '\t' || s[0] == '\r') && BrokeAfterBracket(s[1..])))
  }

  predicate EndsLiteral(c: char) {
    c == ',' || c == '}' || c == ']' || IsSpace(c)
  }

  function LiteralLength(s: string): (n: nat)
    ensures n <= |s|
    ensures forall i :: 0 <= i < n ==> !EndsLiteral(s[i])
    ensures n < |s| ==> EndsLiteral(s[n])
  {
    if s == "" || EndsLiteral(s[0]) then 0 else 1 + LiteralLength(s[1..])
  }

  /** `json.loads` of a bare token: an integer, `true`, `false` or `null`. */
  function LoadLiteral(token: string): (t: Option<Node>)
    ensures t.Some? ==> t.value.Integer? || t.value.Boolean? || t.value.Null?
  {
    if token == "true" then Some(Boolean(true))
    else if token == "false" then Some(Boolean(false))
    else if token == "null" then Some(Null)
    else if IsInteger(token) then Some(Integer(ReadInteger(token)))
    else None
  }

  /** A quoted token, decoded, with the exact characters it was written with. */
  datatype Token = Token(value: string, raw: string)

  function ReadString(s: string): (r: Option<Parsed<Token>>)
    requires s != ""
    ensures r.Some? ==> |r.value.rest| < |s|
    ensures r.Some? ==> LoadString(r.value.value.raw) == Some(r.value.value.value)
    ensures r.Some? ==> s == r.value.value.raw + r.value.rest
  {
    var n :- CloseQuote(s[1..]);
    var raw := s[..n + 1];
    var v :- LoadString(raw);
    Some(Parsed(Token(v, raw), s[n + 1..]))
  }

  function ReadLiteral(s: string): (r: Option<Parsed<Node>>)
    ensures r.Some? ==> |r.value.rest| < |s|
  {
    var n := LiteralLength(s);
    var t :- LoadLiteral(s[..n]);
    Some(Parsed(t, s[n..]))
  }

  function ReadValue(text: string): (r: Option<Parsed<Node>>)
    ensures r.Some? ==> |r.value.rest| < |text|
    decreases |text|, 1
  {
    var s := SkipSpace(text);
    if s == "" then None
    else if s[0] == '{' then
      var inner := SkipSpace(s[1..]);
      if inner == "" then None
      else if inner[0] == '}' then Some(Parsed(Object([], OneLine), inner[1..]))
      else
        var r :- ReadMembers(inner, []);
        Some(Parsed(Object(r.value, if BrokeAfterBracket(s[1..]) then Broken else OneLine), r.rest))
    else if s[0] == '[' then
      var inner := SkipSpace(s[1..]);
      if inner == "" then None
      else if inner[0] == ']' then Some(Parsed(Array([], OneLine), inner[1..]))
      else
        var r :- ReadItems(inner, []);
        Some(Parsed(Array(r.value, if BrokeAfterBracket(s[1..]) then Broken else OneLine), r.rest))
    else if s[0] == '"' then
      var r :- ReadString(s);
      Some(Parsed(String(r.value.value, Some(r.value.raw)), r.rest))
    else ReadLiteral(s)
  }

  /** The members from here to the closing brace, after those already read. */
  function ReadMembers(text: string, sofar: seq<Member>): (r: Option<Parsed<seq<Member>>>)
    ensures r.Some? ==> |r.value.rest| < |text|
    decreases |text|, 0
  {
    var s := SkipSpace(text);
    if s == "" then None
    else
      var key :- ReadString(s);
      var colon := SkipSpace(key.rest);
      if colon == "" || colon[0] != ':' then None
      else
        var v :- ReadValue(colon[1..]);
        var members := Put(sofar, key.value.value, v.value);
        var next := SkipSpace(v.rest);
        if next == "" then None
        else if next[0] == ',' then ReadMembers(next[1..], members)
        else if next[0] == '}' then Some(Parsed(members, next[1..]))
        else None
  }

  function ReadItems(text: string, sofar: seq<Node>): (r: Option<Parsed<seq<Node>>>)
    ensures r.Some? ==> |r.value.rest| < |text|
    decreases |text|, 2
  {
    var v :- ReadValue(text);
    var items := sofar + [v.value];
    var next := SkipSpace(v.rest);
    if next == "" then None
    else if next[0] == ',' then ReadItems(next[1..], items)
    else if next[0] == ']' then Some(Parsed(items, next[1..]))
    else None
  }

  /** What follows the first value is not looked at. */
  function ReadDocument(text: string): Option<Node> {
    var r :- ReadValue(text);
    Some(r.value)
  }

  // ---- every tree that is read is well formed -----------------------------

  lemma {:induction false} ReadIsWellFormed(text: string)
    requires ReadValue(text).Some?
    ensures WellFormed(ReadValue(text).value.value)
    decreases |text|, 1
  {
    var s := SkipSpace(text);
    if s[0] == '{' || s[0] == '[' {
      var inner := SkipSpace(s[1..]);
      if s[0] == '{' && inner[0] != '}' {
        ReadMembersAreWellFormed(inner, []);
      } else if s[0] == '[' && inner[0] != ']' {
        ReadItemsAreWellFormed(inner, []);
      }
    }
  }

  lemma {:induction false} ReadMembersAreWellFormed(text: string, sofar: seq<Member>)
    requires ReadMembers(text, sofar).Some?
    requires DistinctKeys(sofar) && forall i :: 0 <= i < |sofar| ==> WellFormed(sofar[i].value)
    ensures var ms := ReadMembers(text, sofar).value.value;
            DistinctKeys(ms) && forall i :: 0 <= i < |ms| ==> WellFormed(ms[i].value)
    decreases |text|, 0
  {
    var key := ReadString(SkipSpace(text)).value;
    var colon := SkipSpace(key.rest);
    ReadIsWellFormed(colon[1..]);
    var v := ReadValue(colon[1..]).value;
    PutWellFormed(sofar, key.value.value, v.value);
    PutKeepsKeysDistinct(sofar, key.value.value, v.value);
    var next := SkipSpace(v.rest);
    if next[0] == ',' {
      ReadMembersAreWellFormed(next[1..], Put(sofar, key.value.value, v.value));
    }
  }

  lemma {:induction false} PutWellFormed(ms: seq<Member>, key: string, value: Node)
    requires WellFormed(value) && forall i :: 0 <= i < |ms| ==> WellFormed(ms[i].value)
    ensures forall i :: 0 <= i < |Put(ms, key, value)| ==> WellFormed(Put(ms, key, value)[i].value)
  {
    if ms != [] && ms[0].key != key {
      PutWellFormed(ms[1..], key, value);
    }
  }

  lemma {:induction false} ReadItemsAreWellFormed(text: string, sofar: seq<Node>)
    requires ReadItems(text, sofar).Some?
    requires forall i :: 0 <= i < |sofar| ==> WellFormed(sofar[i])
    ensures forall i :: 0 <= i < |ReadItems(text, sofar).value.value| ==> WellFormed(ReadItems(text, sofar).value.value[i])
    decreases |text|, 2
  {
    ReadIsWellFormed(text);
    var v := ReadValue(text).value;
    var next := SkipSpace(v.rest);
    if next[0] == ',' {
      ReadItemsAreWellFormed(next[1..], sofar + [v.value]);
    }
  }
}
