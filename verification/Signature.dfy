/** The signature of a billing webhook: a header of parts, a time window, and one matching code. */
module Signature {
  import opened Wrappers
  import opened Text
  import JsonText
  import JsonSpelling
  import opened Base64

  const SECOND := 1_000_000_000
  const TOLERANCE := 5 * 60 * SECOND

  /** HMAC-SHA256 of a message under a secret. */
  type Mac = (string, Bytes) -> Bytes

  datatype Verdict = Accepted | NoSignature | BadSignature | SignatureExpired

  /** `key=value`, cut at the first equals sign. */
  datatype Part = Part(key: string, value: string)

  function PartOf(piece: string): Option<Part> {
    var r :- Cut(TrimSpace(piece), '=');
    Some(Part(r.0, r.1))
  }

  /** The parts of a header in order; pieces without an equals sign are none. */
  function PartsOf(pieces: seq<string>): seq<Part> {
    if pieces == [] then []
    else
      var p := PartOf(pieces[|pieces| - 1]);
      PartsOf(pieces[..|pieces| - 1]) + if p.None? then [] else [p.value]
  }

  function Parts(header: string): seq<Part> { PartsOf(Split(header, ',')) }

  /** The values given for a key, in order. */
  function Values(parts: seq<Part>, key: string): seq<string> {
    if parts == [] then []
    else
      var last := parts[|parts| - 1];
      Values(parts[..|parts| - 1], key) + if last.key == key then [last.value] else []
  }

  function LastValue(parts: seq<Part>, key: string): string {
    var vs := Values(parts, key);
    if vs == [] then "" else vs[|vs| - 1]
  }

  /** `strconv.ParseInt(s, 10, 64)`. */
  function ParseInt64(s: string): Option<int> {
    var digits := if s != "" && (s[0] == '-' || s[0] == '+') then s[1..] else s;
    if digits == "" || !JsonText.AllDigits(digits) then None
    else
      var n: int := JsonText.ReadNatural(digits);
      var v := if s[0] == '-' then 0 - n else n;
      if -0x8000_0000_0000_0000 <= v <= 0x7FFF_FFFF_FFFF_FFFF then Some(v) else None
  }

  /** `hex.DecodeString`: an even number of digits of either case. */
  function HexDecode(s: string): Option<Bytes> {
    if s == "" then Some([])
    else if |s| == 1 then None
    else
      var hi :- JsonText.HexValue(s[0]);
      var lo :- JsonText.HexValue(s[1]);
      var rest :- HexDecode(s[2..]);
      Some([hi * 16 + lo] + rest)
  }

  function HexEncode(b: Bytes): string {
    if b == [] then "" else [JsonText.HexDigit(b[0] / 16), JsonText.HexDigit(b[0] % 16)] + HexEncode(b[1..])
  }

  /** The bytes of text that is ASCII. */
  function Ascii(s: string): Bytes { seq(|s|, i requires 0 <= i < |s| => s[i] as int % 256) }

  /** What is signed: the timestamp as it was written, a dot, the body. */
  function Message(timestamp: string, body: Bytes): Bytes {
    Ascii(timestamp) + [46] + body
  }

  predicate Blank(s: string) { TrimSpace(s) == "" }

  predicate InWindow(now: int, seconds: int) {
    -TOLERANCE <= now - seconds * SECOND <= TOLERANCE
  }

  method VerifySignature(header: string, body: Bytes, secret: string, now: int, mac: Mac) returns (v: Verdict)
    ensures v == Verify(header, body, secret, now, mac)
  {
    hide Blank, Split, PartOf, PartsOf, Values, ParseInt64, HexDecode, Message, InWindow;
    NoParts();
    if Blank(header) || Blank(secret) { return NoSignature; }
    var timestamp := "";
    var candidates: seq<string> := [];
    var pieces := Split(header, ',');
    for n := 0 to |pieces|
      invariant timestamp == LastValue(PartsOf(pieces[..n]), "t")
      invariant candidates == Values(PartsOf(pieces[..n]), "v1")
    {
      PartStep(pieces, n);
      var part := PartOf(pieces[n]);
      if part.None? { continue; }
      if part.value.key == "t" {
        timestamp := part.value.value;
      } else if part.value.key == "v1" {
        candidates := candidates + [part.value.value];
      }
    }
    assert pieces[..|pieces|] == pieces;
    if timestamp == "" || |candidates| == 0 { return NoSignature; }
    var seconds := ParseInt64(timestamp);
    if seconds.None? { return NoSignature; }
    if !InWindow(now, seconds.value) { return SignatureExpired; }
    var expected := mac(secret, Message(timestamp, body));
    for n := 0 to |candidates|
      invariant forall i :: 0 <= i < n ==> HexDecode(candidates[i]) != Some(expected)
    {
      if HexDecode(candidates[n]) == Some(expected) { return Accepted; }
    }
    return BadSignature;
  }

  lemma NoParts()
    ensures PartsOf([]) == [] && Values([], "t") == [] && Values([], "v1") == []
  {
  }

  lemma {:induction false} ValuesOfMore(parts: seq<Part>, p: Part, key: string)
    ensures Values(parts + [p], key) == Values(parts, key) + if p.key == key then [p.value] else []
  {
    assert (parts + [p])[..|parts|] == parts;
  }

  /** What one more piece adds to the parts and to the values of the two keys. */
  lemma PartStep(pieces: seq<string>, n: nat)
    requires n < |pieces|
    ensures var before, after, p := PartsOf(pieces[..n]), PartsOf(pieces[..n + 1]), PartOf(pieces[n]);
            && after == before + (if p.None? then [] else [p.value])
            && (p.None? ==> after == before)
            && (p.Some? ==> Values(after, "t") == Values(before, "t") + if p.value.key == "t" then [p.value.value] else [])
            && (p.Some? ==>
                  Values(after, "v1") == Values(before, "v1") + if p.value.key == "v1" then [p.value.value] else [])
  {
    hide PartOf;
    var before, p := PartsOf(pieces[..n]), PartOf(pieces[n]);
    assert pieces[..n + 1][..n] == pieces[..n];
    assert PartsOf(pieces[..n + 1]) == before + if p.None? then [] else [p.value];
    hide PartsOf, Values;
    if p.Some? {
      ValuesOfMore(before, p.value, "t");
      ValuesOfMore(before, p.value, "v1");
    }
  }

  function Verify(header: string, body: Bytes, secret: string, now: int, mac: Mac): Verdict {
    if Blank(header) || Blank(secret) then NoSignature
    else VerdictOn(LastValue(Parts(header), "t"), Values(Parts(header), "v1"), body, secret, now, mac)
  }

  function VerdictOn(timestamp: string, candidates: seq<string>, body: Bytes, secret: string, now: int, mac: Mac): Verdict {
    if timestamp == "" || candidates == [] then NoSignature
    else
      var seconds := ParseInt64(timestamp);
      if seconds.None? then NoSignature
      else if !InWindow(now, seconds.value) then SignatureExpired
      else if exists i :: 0 <= i < |candidates|
                          && HexDecode(candidates[i]) == Some(mac(secret, Message(timestamp, body))) then Accepted
      else BadSignature
  }

  // ---- when a header is accepted ------------------------------------------

  lemma {:induction false} ValuesAreParts(parts: seq<Part>, key: string, value: string)
    ensures value in Values(parts, key) <==> Part(key, value) in parts
  {
    if parts != [] {
      var init, last := parts[..|parts| - 1], parts[|parts| - 1];
      assert parts == init + [last];
      ValuesAreParts(init, key, value);
    }
  }

  /** `i` is the last place a part with this key stands. */
  ghost predicate IsLast(parts: seq<Part>, key: string, i: nat) {
    i < |parts| && parts[i].key == key && forall j :: i < j < |parts| ==> parts[j].key != key
  }

  /** The last value for a key is found at the last part with that key. */
  lemma {:induction false} LastValueIsAt(parts: seq<Part>, key: string, i: nat)
    requires IsLast(parts, key, i)
    ensures Values(parts, key) != [] && LastValue(parts, key) == parts[i].value
    decreases |parts|
  {
    var n := |parts| - 1;
    if i < n {
      assert parts[n].key != key;
      assert IsLast(parts[..n], key, i);
      LastValueIsAt(parts[..n], key, i);
    }
  }

  lemma {:induction false} LastPlace(parts: seq<Part>, key: string) returns (i: nat)
    requires Values(parts, key) != []
    ensures IsLast(parts, key, i)
  {
    var n := |parts| - 1;
    if parts[n].key == key {
      i := n;
    } else {
      i := LastPlace(parts[..n], key);
    }
  }

  /** The last `t` part, at `i`, is in the window, and the `v1` part at `j` is the code for it. */
  ghost predicate Matches(parts: seq<Part>, i: nat, j: nat, body: Bytes, secret: string, now: int, mac: Mac) {
    && IsLast(parts, "t", i)
    && j < |parts| && parts[j].key == "v1"
    && ParseInt64(parts[i].value).Some? && InWindow(now, ParseInt64(parts[i].value).value)
    && HexDecode(parts[j].value) == Some(mac(secret, Message(parts[i].value, body)))
  }

  lemma AcceptedOnMatch(header: string, body: Bytes, secret: string, now: int, mac: Mac)
    ensures Verify(header, body, secret, now, mac) == Accepted <==>
      && !Blank(header) && !Blank(secret)
      && exists i: nat, j: nat :: Matches(Parts(header), i, j, body, secret, now, mac)
  {
    hide Blank, Parts, ParseInt64, HexDecode, Message, InWindow, Values;
    var parts := Parts(header);
    var candidates := Values(parts, "v1");
    EmptyIsNoNumber();
    forall value ensures value in candidates <==> Part("v1", value) in parts { ValuesAreParts(parts, "v1", value); }
    if Verify(header, body, secret, now, mac) == Accepted {
      var k :| 0 <= k < |candidates| && HexDecode(candidates[k]) == Some(mac(secret, Message(LastValue(parts, "t"), body)));
      assert candidates[k] in candidates;
      var j :| 0 <= j < |parts| && parts[j] == Part("v1", candidates[k]);
      var i := LastPlace(parts, "t");
      LastValueIsAt(parts, "t", i);
      assert Matches(parts, i, j, body, secret, now, mac);
    }
    forall i: nat, j: nat | Matches(parts, i, j, body, secret, now, mac)
      ensures !Blank(header) && !Blank(secret) ==> Verify(header, body, secret, now, mac) == Accepted
    {
      assert parts[j] == Part("v1", parts[j].value) && parts[j].value in candidates;
      var k :| 0 <= k < |candidates| && candidates[k] == parts[j].value;
      LastValueIsAt(parts, "t", i);
    }
  }

  lemma EmptyIsNoNumber()
    ensures ParseInt64("") == None
  {
  }

  // ---- the same, in the words of the scheme --------------------------------

  /** A decimal number that fits 64 bits, with or without a sign. */
  ghost predicate Decimal64(s: string, n: int) {
    && -9_223_372_036_854_775_808 <= n <= 9_223_372_036_854_775_807
    && exists sign: string, digits: string :: SignedDigits(s, sign, digits, n)
  }

  predicate SignedDigits(s: string, sign: string, digits: string, n: int) {
    && s == sign + digits && sign in {"", "+", "-"}
    && digits != "" && JsonText.AllDigits(digits)
    && var v: int := JsonText.ReadNatural(digits); n == if sign == "-" then -v else v
  }

  lemma ParseInt64Exactly(s: string, n: int)
    ensures ParseInt64(s) == Some(n) <==> Decimal64(s, n)
  {
    hide JsonText.ReadNatural;
    if s != "" && (s[0] == '-' || s[0] == '+') {
      assert s == [s[0]] + s[1..];
      assert [s[0]] == "-" || [s[0]] == "+";
      if ParseInt64(s) == Some(n) { assert SignedDigits(s, [s[0]], s[1..], n); }
    } else if ParseInt64(s) == Some(n) {
      assert s == "" + s;
      assert SignedDigits(s, "", s, n);
    }
    forall sign: string, digits: string | SignedDigits(s, sign, digits, n)
      ensures s != "" && sign == (if s[0] == '-' then "-" else if s[0] == '+' then "+" else "")
      ensures digits == if s[0] == '-' || s[0] == '+' then s[1..] else s
    {
      assert JsonText.IsDigit(digits[0]);
      assert s[|sign|..] == digits;
    }
  }

  /** Two hexadecimal digits a byte, of either case. */
  predicate HexText(s: string, b: Bytes) {
    |s| == 2 * |b| && forall k :: 0 <= k < |b| ==> HexByte(s[2 * k], s[2 * k + 1], b[k])
  }

  predicate HexByte(hi: char, lo: char, v: Byte) {
    JsonSpelling.DigitSpells(hi, v / 16) && JsonSpelling.DigitSpells(lo, v % 16)
  }

  lemma HexByteExactly(hi: char, lo: char, v: Byte)
    ensures HexByte(hi, lo, v) <==>
      JsonText.HexValue(hi).Some? && JsonText.HexValue(lo).Some?
      && v == JsonText.HexValue(hi).value * 16 + JsonText.HexValue(lo).value
  {
    hide JsonSpelling.DigitSpells, JsonText.HexValue;
    JsonSpelling.HexValueExactly(hi, v / 16);
    JsonSpelling.HexValueExactly(lo, v % 16);
  }

  lemma {:induction false} HexDecodeExactly(s: string, b: Bytes)
    ensures HexDecode(s) == Some(b) <==> HexText(s, b)
    decreases |s|
  {
    hide HexByte;
    if |s| >= 2 && b != [] {
      HexByteExactly(s[0], s[1], b[0]);
      HexDecodeExactly(s[2..], b[1..]);
      assert b == [b[0]] + b[1..];
      if HexText(s, b) {
        forall k | 0 <= k < |b[1..]| ensures HexByte(s[2..][2 * k], s[2..][2 * k + 1], b[1..][k]) {
          assert HexByte(s[2 * (k + 1)], s[2 * (k + 1) + 1], b[k + 1]);
        }
      }
      if HexByte(s[0], s[1], b[0]) && HexText(s[2..], b[1..]) {
        forall k | 0 <= k < |b| ensures HexByte(s[2 * k], s[2 * k + 1], b[k]) {
          if k > 0 { assert HexByte(s[2..][2 * (k - 1)], s[2..][2 * (k - 1) + 1], b[1..][k - 1]); }
        }
      }
    }
  }

  /** The characters of a timestamp, a dot, and the body. */
  predicate IsMessage(message: Bytes, timestamp: string, body: Bytes) {
    && |message| == |timestamp| + 1 + |body|
    && (forall k :: 0 <= k < |timestamp| ==> message[k] == timestamp[k] as int)
    && message[|timestamp|] == '.' as int && message[|timestamp| + 1..] == body
  }

  lemma MessageExactly(message: Bytes, timestamp: string, body: Bytes)
    requires ParseInt64(timestamp).Some?
    ensures IsMessage(message, timestamp, body) <==> message == Message(timestamp, body)
  {
    NumberCharacters(timestamp);
    hide ParseInt64;
    var m := Message(timestamp, body);
    assert m[|timestamp| + 1..] == body;
    if IsMessage(message, timestamp, body) {
      assert message == message[..|timestamp| + 1] + message[|timestamp| + 1..];
      assert forall k :: 0 <= k < |timestamp| ==> m[k] == timestamp[k] as int;
      assert m[..|timestamp| + 1] == message[..|timestamp| + 1];
    }
  }

  /**
   * The last `t` part, at `i`, is a number of seconds no more than 300 before
   * or after now, and the `v1` part at `j` is in hexadecimal the code of its
   * text, a dot and the body. The clock counts nanoseconds.
   */
  ghost predicate Accepts(parts: seq<Part>, i: nat, j: nat, seconds: int, message: Bytes, body: Bytes, secret: string,
      now: int, mac: Mac)
  {
    && IsLast(parts, "t", i) && Decimal64(parts[i].value, seconds)
    && seconds * 1_000_000_000 - 300_000_000_000 <= now <= seconds * 1_000_000_000 + 300_000_000_000
    && j < |parts| && parts[j].key == "v1"
    && IsMessage(message, parts[i].value, body) && HexText(parts[j].value, mac(secret, message))
  }

  lemma MatchesExactly(parts: seq<Part>, i: nat, j: nat, body: Bytes, secret: string, now: int, mac: Mac)
    ensures Matches(parts, i, j, body, secret, now, mac)
       <==> exists seconds: int, message: Bytes :: Accepts(parts, i, j, seconds, message, body, secret, now, mac)
  {
    hide IsLast, Decimal64, IsMessage, HexText, HexDecode, ParseInt64, Message;
    if i < |parts| && j < |parts| {
      var t := parts[i].value;
      forall n: int ensures ParseInt64(t) == Some(n) <==> Decimal64(t, n) { ParseInt64Exactly(t, n); }
      if ParseInt64(t).Some? {
        forall m: Bytes ensures IsMessage(m, t, body) <==> m == Message(t, body) { MessageExactly(m, t, body); }
        HexDecodeExactly(parts[j].value, mac(secret, Message(t, body)));
      }
      if Matches(parts, i, j, body, secret, now, mac) {
        assert Accepts(parts, i, j, ParseInt64(t).value, Message(t, body), body, secret, now, mac);
      }
    }
    if i >= |parts| { assert !IsLast(parts, "t", i) by { LastIsInside(parts, "t", i); } }
  }

  lemma LastIsInside(parts: seq<Part>, key: string, i: nat)
    ensures IsLast(parts, key, i) ==> i < |parts|
  {
  }

  /**
   * A header is accepted exactly when neither it nor the secret is white space
   * alone, its last `t` part is a number of seconds within five minutes of now
   * either way, and some `v1` part is the code of that timestamp and the body.
   */
  lemma AcceptedExactly(header: string, body: Bytes, secret: string, now: int, mac: Mac)
    ensures Verify(header, body, secret, now, mac) == Accepted <==>
      && !OnlySpace(header) && !OnlySpace(secret)
      && exists i: nat, j: nat, seconds: int, message: Bytes ::
           Accepts(Parts(header), i, j, seconds, message, body, secret, now, mac)
  {
    hide OnlySpace, Parts, Matches, Accepts, Verify;
    AcceptedOnMatch(header, body, secret, now, mac);
    TrimToNothing(header);
    TrimToNothing(secret);
    var parts := Parts(header);
    if i: nat, j: nat :| Matches(parts, i, j, body, secret, now, mac) {
      MatchesExactly(parts, i, j, body, secret, now, mac);
      var seconds: int, message: Bytes :| Accepts(parts, i, j, seconds, message, body, secret, now, mac);
      assert exists n: nat, m: nat, t: int, x: Bytes :: Accepts(parts, n, m, t, x, body, secret, now, mac);
    }
    if i: nat, j: nat, seconds: int, message: Bytes :| Accepts(parts, i, j, seconds, message, body, secret, now, mac) {
      MatchesExactly(parts, i, j, body, secret, now, mac);
      assert Matches(parts, i, j, body, secret, now, mac);
    }
  }

  /**
   * Why a header is refused: no signature when it or the secret is blank, a
   * `t` or `v1` part is missing, or the last `t` is no number; expired when
   * that number is more than 300 seconds away; bad otherwise.
   */
  lemma RefusedExactly(header: string, body: Bytes, secret: string, now: int, mac: Mac)
    ensures var parts := Parts(header);
            && (Verify(header, body, secret, now, mac) == NoSignature <==>
                  || OnlySpace(header) || OnlySpace(secret)
                  || (forall v :: Part("t", v) !in parts) || (forall v :: Part("v1", v) !in parts)
                  || (forall i: nat, n: int :: IsLast(parts, "t", i) ==> !Decimal64(parts[i].value, n)))
            && (Verify(header, body, secret, now, mac) == SignatureExpired ==>
                  exists i: nat, n: int :: IsLast(parts, "t", i) && Decimal64(parts[i].value, n)
                    && !(n * 1_000_000_000 - 300_000_000_000 <= now <= n * 1_000_000_000 + 300_000_000_000))
            && (Verify(header, body, secret, now, mac) == BadSignature ==>
                  exists i: nat, n: int :: IsLast(parts, "t", i) && Decimal64(parts[i].value, n)
                    && n * 1_000_000_000 - 300_000_000_000 <= now <= n * 1_000_000_000 + 300_000_000_000)
  {
    hide OnlySpace, Parts, ParseInt64, HexDecode, Message, Values, Decimal64, IsLast;
    TrimToNothing(header);
    TrimToNothing(secret);
    var parts := Parts(header);
    EmptyIsNoNumber();
    forall v ensures v in Values(parts, "t") <==> Part("t", v) in parts { ValuesAreParts(parts, "t", v); }
    forall v ensures v in Values(parts, "v1") <==> Part("v1", v) in parts { ValuesAreParts(parts, "v1", v); }
    if Values(parts, "v1") != [] { assert Values(parts, "v1")[0] in Values(parts, "v1"); }
    if Values(parts, "t") != [] {
      assert Values(parts, "t")[0] in Values(parts, "t");
      var i := LastPlace(parts, "t");
      LastValueIsAt(parts, "t", i);
      LastIsInside(parts, "t", i);
      forall n: int ensures ParseInt64(parts[i].value) == Some(n) <==> Decimal64(parts[i].value, n) {
        ParseInt64Exactly(parts[i].value, n);
      }
      forall k: nat | IsLast(parts, "t", k) ensures k == i { OneLast(parts, "t", i, k); }
    }
  }

  lemma OneLast(parts: seq<Part>, key: string, i: nat, k: nat)
    requires IsLast(parts, key, i) && IsLast(parts, key, k)
    ensures i == k
  {
  }

  /** Only the last timestamp and the set of codes matter: not their order, nor any other part. */
  lemma {:induction false} OrderAndUnknownPartsDoNotMatter(a: string, b: string, body: Bytes, secret: string,
      now: int, mac: Mac)
    requires !Blank(a) && !Blank(b)
    requires LastValue(Parts(a), "t") == LastValue(Parts(b), "t")
    requires forall v :: Part("v1", v) in Parts(a) <==> Part("v1", v) in Parts(b)
    ensures Verify(a, body, secret, now, mac) == Verify(b, body, secret, now, mac)
  {
    hide Blank, Parts, ParseInt64, HexDecode, Message, InWindow, Values;
    var va, vb := Values(Parts(a), "v1"), Values(Parts(b), "v1");
    forall v ensures v in va <==> v in vb {
      ValuesAreParts(Parts(a), "v1", v);
      ValuesAreParts(Parts(b), "v1", v);
    }
    assert va == [] <==> vb == [] by {
      if va != [] { assert va[0] in vb; }
      if vb != [] { assert vb[0] in va; }
    }
    forall i | 0 <= i < |va| ensures va[i] in vb { assert va[i] in va; }
    forall i | 0 <= i < |vb| ensures vb[i] in va { assert vb[i] in vb; }
  }

  // ---- headers as a provider writes them ----------------------------------

  function Written(p: Part): string { p.key + "=" + p.value }

  /** A part that comes back as it was written. */
  predicate Plain(p: Part) {
    '=' !in p.key && ',' !in Written(p) && Trimmed(Written(p))
  }

  function Pieces(parts: seq<Part>): seq<string> {
    if parts == [] then [] else Pieces(parts[..|parts| - 1]) + [Written(parts[|parts| - 1])]
  }

  lemma PlainReadsBack(p: Part)
    requires Plain(p)
    ensures PartOf(Written(p)) == Some(p)
  {
    hide Cut, TrimSpace;
    TrimOfTrimmed(Written(p));
    CutIs(p.key, '=', p.value);
    assert Written(p) == p.key + ['='] + p.value;
  }

  lemma {:induction false} PiecesAreWritten(parts: seq<Part>)
    ensures |Pieces(parts)| == |parts| && forall i :: 0 <= i < |parts| ==> Pieces(parts)[i] == Written(parts[i])
  {
    hide Written;
    if parts != [] { PiecesAreWritten(parts[..|parts| - 1]); }
  }

  lemma {:induction false} PiecesReadBack(parts: seq<Part>)
    requires forall i :: 0 <= i < |parts| ==> Plain(parts[i])
    ensures PartsOf(Pieces(parts)) == parts
  {
    hide PartOf, Plain, Written;
    if parts != [] {
      var n := |parts| - 1;
      PiecesReadBack(parts[..n]);
      PlainReadsBack(parts[n]);
      assert Pieces(parts)[..|Pieces(parts)| - 1] == Pieces(parts[..n]);
    }
  }

  /** Reading a header inverts writing one. */
  lemma HeaderReadsBack(parts: seq<Part>)
    requires parts != [] && forall i :: 0 <= i < |parts| ==> Plain(parts[i])
    ensures |Pieces(parts)| > 0 && Parts(Join(Pieces(parts), ',')) == parts
  {
    PiecesReadBack(parts);
    PiecesAreWritten(parts);
    forall i | 0 <= i < |parts| ensures ',' !in Pieces(parts)[i] { assert Plain(parts[i]); }
    hide Pieces, PartsOf, Plain;
    SplitInvertsJoin(Pieces(parts), ',');
  }

  lemma {:induction false} HexDecodeInverts(b: Bytes)
    ensures HexDecode(HexEncode(b)) == Some(b)
  {
    if b != [] {
      HexDecodeInverts(b[1..]);
      assert HexEncode(b)[2..] == HexEncode(b[1..]);
      assert b == [b[0]] + b[1..];
    }
  }

  /**
   * A header is accepted whatever stale codes and unknown parts stand beside
   * the right one, as in the middle of a rotation of the secret.
   */
  lemma SignedHeaderIsAccepted(parts: seq<Part>, i: nat, j: nat, body: Bytes, secret: string, now: int, mac: Mac)
    requires forall k :: 0 <= k < |parts| ==> Plain(parts[k])
    requires IsLast(parts, "t", i) && ParseInt64(parts[i].value).Some? && InWindow(now, ParseInt64(parts[i].value).value)
    requires j < |parts| && parts[j] == Part("v1", HexEncode(mac(secret, Message(parts[i].value, body))))
    requires !Blank(secret)
    ensures |Pieces(parts)| > 0 && Verify(Join(Pieces(parts), ','), body, secret, now, mac) == Accepted
  {
    hide Blank, ParseInt64, HexDecode, Message, InWindow, Join, Pieces, Parts;
    HeaderReadsBack(parts);
    var header := Join(Pieces(parts), ',');
    HexDecodeInverts(mac(secret, Message(parts[i].value, body)));
    assert !Blank(header) by {
      if Blank(header) { BlankHasNoParts(header); }
    }
    AcceptedOnMatch(header, body, secret, now, mac);
    assert Matches(Parts(header), i, j, body, secret, now, mac);
  }

  lemma BlankHasNoParts(header: string)
    requires Blank(header)
    ensures Parts(header) == []
  {
    TrimToNothing(header);
    assert ',' !in header;
    assert Split(header, ',') == [header];
    assert PartOf(header).None?;
    assert [header][..0] == [];
    assert PartsOf([header]) == PartsOf([]) + [];
  }

  // ---- a code binds the time and the body ---------------------------------

  /** Two signed messages are equal only if both their timestamps and their bodies are. */
  lemma MessageDeterminesItsParts(t1: string, b1: Bytes, t2: string, b2: Bytes)
    requires ParseInt64(t1).Some? && ParseInt64(t2).Some?
    requires Message(t1, b1) == Message(t2, b2)
    ensures t1 == t2 && b1 == b2
  {
    hide ParseInt64;
    DotAfterNumber(t1, b1);
    DotAfterNumber(t2, b2);
    assert |t1| == |t2|;
    assert Ascii(t1) == Message(t1, b1)[..|t1|] == Message(t2, b2)[..|t2|] == Ascii(t2);
    NumberCharacters(t1);
    NumberCharacters(t2);
    forall i | 0 <= i < |t1| ensures t1[i] == t2[i] { assert Ascii(t1)[i] == Ascii(t2)[i]; }
    assert b1 == Message(t1, b1)[|t1| + 1..] && b2 == Message(t2, b2)[|t2| + 1..];
  }

  /** The first dot of a message is the one after its timestamp. */
  lemma DotAfterNumber(t: string, body: Bytes)
    requires ParseInt64(t).Some?
    ensures var m := Message(t, body); |m| > |t| && m[|t|] == 46 && forall i :: 0 <= i < |t| ==> m[i] != 46
  {
    NumberCharacters(t);
    hide ParseInt64;
    var m := Message(t, body);
    forall i | 0 <= i < |t| ensures m[i] != 46 { assert m[i] == t[i] as int % 256; }
  }

  lemma NumberCharacters(s: string)
    requires ParseInt64(s).Some?
    ensures forall i :: 0 <= i < |s| ==> s[i] as int < 128 && s[i] != '.'
  {
    forall i | 0 <= i < |s| ensures s[i] as int < 128 && s[i] != '.' {
      if i > 0 && (s[0] == '-' || s[0] == '+') { assert JsonText.IsDigit(s[1..][i - 1]); }
      else if s[0] != '-' && s[0] != '+' { assert JsonText.IsDigit(s[i]); }
    }
  }
}
