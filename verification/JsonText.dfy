/** The spelling of JSON tokens: strings, integers and white space. */
module JsonText {
  import opened Wrappers

  // ---- white space --------------------------------------------------------

  predicate IsSpace(c: char) { c == ' ' || c == '\t' || c == '\r' || c == '\n' }

  predicate AllSpace(s: string) { forall i :: 0 <= i < |s| ==> IsSpace(s[i]) }

  function SkipSpace(s: string): (rest: string)
    ensures |rest| <= |s|
    ensures rest != "" ==> !IsSpace(rest[0])
  {
    if s != "" && IsSpace(s[0]) then SkipSpace(s[1..]) else s
  }

  lemma {:induction false} SkipLeadingSpace(lead: string, s: string)
    requires AllSpace(lead)
    ensures SkipSpace(lead + s) == SkipSpace(s)
  {
    if lead == "" {
      assert lead + s == s;
    } else {
      assert (lead + s)[1..] == lead[1..] + s;
      SkipLeadingSpace(lead[1..], s);
    }
  }

  function Spaces(n: nat): (s: string)
    ensures |s| == n && AllSpace(s)
    ensures forall i :: 0 <= i < |s| ==> s[i] == ' '
  {
    if n == 0 then "" else " " + Spaces(n - 1)
  }

  // ---- strings ------------------------------------------------------------

  function HexDigit(n: nat): (c: char)
    requires n < 16
    ensures HexValue(c) == Some(n)
  {
    if n < 10 then ('0' as int + n) as char else ('a' as int + (n - 10)) as char
  }

  function HexValue(c: char): (v: Option<nat>)
    ensures v.Some? ==> v.value < 16 && c != '"' && c != '\\'
  {
    if '0' <= c <= '9' then Some(c as int - '0' as int)
    else if 'a' <= c <= 'f' then Some(c as int - 'a' as int + 10)
    else if 'A' <= c <= 'F' then Some(c as int - 'A' as int + 10)
    else None
  }

  /** Four hexadecimal digits at the front of `s`. */
  function Hex4(s: string): (v: Option<nat>)
    ensures v.Some? ==> v.value < 0x10000 && |s| >= 4
  {
    if |s| < 4 then None
    else
      var a :- HexValue(s[0]);
      var b :- HexValue(s[1]);
      var c :- HexValue(s[2]);
      var d :- HexValue(s[3]);
      Some(a * 4096 + b * 256 + c * 16 + d)
  }

  /** How one character is written inside a string literal. */
  function EscapeChar(c: char): (e: string)
    ensures e != ""
  {
    if c == '"' then "\\\""
    else if c == '\\' then "\\\\"
    else if c == '\n' then "\\n"
    else if c == '\r' then "\\r"
    else if c == '\t' then "\\t"
    else if c == '\U{8}' then "\\b"
    else if c == '\U{C}' then "\\f"
    else if c < ' ' then "\\u00" + [HexDigit(c as int / 16)] + [HexDigit(c as int % 16)]
    else [c]
  }

  function Escape(s: string): string {
    if s == "" then "" else EscapeChar(s[0]) + Escape(s[1..])
  }

  function Quote(s: string): string {
    "\"" + Escape(s) + "\""
  }

  function ShortEscape(c: char): Option<char> {
    if c == '"' || c == '\\' || c == '/' then Some(c)
    else if c == 'n' then Some('\n')
    else if c == 'r' then Some('\r')
    else if c == 't' then Some('\t')
    else if c == 'b' then Some('\U{8}')
    else if c == 'f' then Some('\U{C}')
    else None
  }

  datatype Escaped = Escaped(decoded: char, width: nat)

  /**
   * The character a backslash sequence stands for, and how many characters the
   * sequence takes (section 7 of RFC 8259). A high surrogate must be followed
   * by a low one; a lone surrogate names no character.
   */
  function UnescapeOne(s: string): (r: Option<Escaped>)
    requires s != "" && s[0] == '\\'
    ensures r.Some? ==> 2 <= r.value.width <= |s|
  {
    if |s| < 2 then None
    else if ShortEscape(s[1]).Some? then Some(Escaped(ShortEscape(s[1]).value, 2))
    else if s[1] != 'u' then None
    else
      var u :- Hex4(s[2..]);
      if u < 0xD800 || u > 0xDFFF then Some(Escaped(u as char, 6))
      else if u < 0xDC00 && |s| >= 8 && s[6] == '\\' && s[7] == 'u' then
        var low :- Hex4(s[8..]);
        if 0xDC00 <= low <= 0xDFFF
        then Some(Escaped((0x10000 + (u - 0xD800) * 0x400 + (low - 0xDC00)) as char, 12))
        else None
      else None
  }

  /** The text between two quotes, decoded; nothing if it is not a legal string body. */
  function Unescape(s: string): Option<string> {
    if s == "" then Some("")
    else if s[0] == '"' || s[0] < ' ' then None
    else if s[0] == '\\' then
      var e :- UnescapeOne(s);
      var tail :- Unescape(s[e.width..]);
      Some([e.decoded] + tail)
    else
      var tail :- Unescape(s[1..]);
      Some([s[0]] + tail)
  }

  /** `json.loads` of a quoted token. */
  function LoadString(raw: string): Option<string> {
    if |raw| >= 2 && raw[0] == '"' && raw[|raw| - 1] == '"' then Unescape(raw[1..|raw| - 1]) else None
  }

  /**
   * How many characters of `s`, the text after an opening quote, belong to the
   * string: up to and including the first quote no backslash protects.
   */
  function CloseQuote(s: string): (n: Option<nat>)
    ensures n.Some? ==> 1 <= n.value <= |s| && s[n.value - 1] == '"'
  {
    if s == "" then None
    else if s[0] == '\\' then
      if |s| < 2 then None else Add(2, CloseQuote(s[2..]))
    else if s[0] == '"' then Some(1)
    else Add(1, CloseQuote(s[1..]))
  }

  lemma {:induction false} UnescapeInvertsEscape(s: string)
    ensures Unescape(Escape(s)) == Some(s)
  {
    if s != "" {
      var head, tail := EscapeChar(s[0]), Escape(s[1..]);
      UnescapeInvertsEscape(s[1..]);
      UnescapeOneChar(s[0], tail);
      assert s == [s[0]] + s[1..];
    }
  }

  lemma {:induction false} UnescapeControl(hi: nat, lo: nat, tail: string)
    requires hi < 2 && lo < 16 && Unescape(tail).Some?
    ensures Unescape("\\u00" + [HexDigit(hi)] + [HexDigit(lo)] + tail) == Some([(16 * hi + lo) as char] + Unescape(tail).value)
  {
    hide Unescape;
    var s := "\\u00" + [HexDigit(hi)] + [HexDigit(lo)] + tail;
    assert s[2..][0] == '0' && s[2..][1] == '0' && s[2..][2] == HexDigit(hi) && s[2..][3] == HexDigit(lo);
    assert UnescapeOne(s) == Some(Escaped((16 * hi + lo) as char, 6));
    assert s[6..] == tail;
    UnescapeStep(s);
  }

  lemma UnescapeShort(d: char, tail: string)
    requires ShortEscape(d).Some? && Unescape(tail).Some?
    ensures Unescape(['\\', d] + tail) == Some([ShortEscape(d).value] + Unescape(tail).value)
  {
    hide Unescape;
    var s := ['\\', d] + tail;
    assert s[2..] == tail;
    UnescapeStep(s);
  }

  lemma UnescapeStep(s: string)
    requires s != "" && s[0] == '\\' && UnescapeOne(s).Some?
    requires Unescape(s[UnescapeOne(s).value.width..]).Some?
    ensures var e := UnescapeOne(s).value; Unescape(s) == Some([e.decoded] + Unescape(s[e.width..]).value)
  {
  }

  lemma UnescapePlain(c: char, tail: string)
    requires c >= ' ' && c != '"' && c != '\\' && Unescape(tail).Some?
    ensures Unescape([c] + tail) == Some([c] + Unescape(tail).value)
  {
    assert ([c] + tail)[1..] == tail;
  }

  lemma {:induction false} UnescapeOneChar(c: char, tail: string)
    requires Unescape(tail).Some?
    ensures Unescape(EscapeChar(c) + tail) == Some([c] + Unescape(tail).value)
  {
    hide Unescape;
    var e := EscapeChar(c);
    if |e| == 6 {
      UnescapeControl(c as int / 16, c as int % 16, tail);
    } else if |e| == 2 {
      assert e == ['\\', e[1]] && ShortEscape(e[1]) == Some(c);
      UnescapeShort(e[1], tail);
    } else {
      UnescapePlain(c, tail);
    }
  }

  lemma LoadInvertsQuote(s: string)
    ensures LoadString(Quote(s)) == Some(s)
  {
    var q := Quote(s);
    assert q[1..|q| - 1] == Escape(s);
    UnescapeInvertsEscape(s);
  }

  lemma {:induction false} ClosePastPlain(s: string, k: nat)
    requires k <= |s|
    requires forall i :: 0 <= i < k ==> s[i] != '"' && s[i] != '\\'
    ensures CloseQuote(s) == Add(k, CloseQuote(s[k..]))
  {
    if k > 0 {
      ClosePastPlain(s[1..], k - 1);
      assert s[1..][k - 1..] == s[k..];
    } else {
      assert s[0..] == s;
    }
  }

  lemma ClosePastUnicode(s: string)
    requires |s| >= 6 && s[0] == '\\' && Hex4(s[2..]).Some?
    ensures CloseQuote(s) == Add(6, CloseQuote(s[6..]))
  {
    var h := s[2..];
    assert HexValue(h[0]).Some? && HexValue(h[1]).Some? && HexValue(h[2]).Some? && HexValue(h[3]).Some?;
    assert CloseQuote(s) == Add(2, CloseQuote(h));
    hide CloseQuote;
    ClosePastPlain(h, 4);
    assert h[4..] == s[6..];
  }

  lemma Hex4Prefix(s: string, t: string)
    requires Hex4(s).Some?
    ensures Hex4(s + t) == Hex4(s)
  {
  }

  lemma ClosePastEscape(s: string, t: string)
    requires s != "" && s[0] == '\\' && UnescapeOne(s).Some?
    ensures var w := UnescapeOne(s).value.width;
            CloseQuote(s + t) == Add(w, CloseQuote(s[w..] + t))
  {
    hide Hex4, ShortEscape;
    var w, st := UnescapeOne(s).value.width, s + t;
    assert st[w..] == s[w..] + t;
    if w >= 6 {
      hide CloseQuote;
      assert st[2..] == s[2..] + t;
      Hex4Prefix(s[2..], t);
      ClosePastUnicode(st);
      if w == 12 {
        assert st[6..][2..] == s[8..] + t;
        Hex4Prefix(s[8..], t);
        ClosePastUnicode(st[6..]);
        assert st[6..][6..] == st[12..];
      }
    }
  }

  /** The scanner stops exactly at the quote that closes a legal string body. */
  lemma {:induction false} CloseQuoteIsExact(body: string, after: string)
    requires Unescape(body).Some?
    ensures CloseQuote(body + ("\"" + after)) == Some(|body| + 1)
    decreases |body|
  {
    hide Hex4, ShortEscape;
    var t := "\"" + after;
    if body == "" {
      assert body + t == t;
    } else if body[0] == '\\' {
      var w := UnescapeOne(body).value.width;
      ClosePastEscape(body, t);
      CloseQuoteIsExact(body[w..], after);
    } else {
      CloseQuoteIsExact(body[1..], after);
      assert (body + t)[1..] == body[1..] + t;
    }
  }

  lemma QuoteHasNoNewline(raw: string)
    requires LoadString(raw).Some?
    ensures '\n' !in raw
  {
    BodyHasNoControl(raw[1..|raw| - 1]);
    forall i | 0 <= i < |raw| ensures raw[i] != '\n' {
      if 0 < i < |raw| - 1 { assert raw[i] == raw[1..|raw| - 1][i - 1]; }
    }
  }

  lemma {:induction false} BodyHasNoControl(body: string)
    requires Unescape(body).Some?
    ensures forall i :: 0 <= i < |body| ==> body[i] >= ' '
    decreases |body|
  {
    if body == "" {
    } else if body[0] == '\\' {
      var w := UnescapeOne(body).value.width;
      BodyHasNoControl(body[w..]);
      EscapeHasNoControl(body);
      assert body == body[..w] + body[w..];
    } else {
      BodyHasNoControl(body[1..]);
      assert body == [body[0]] + body[1..];
    }
  }

  lemma EscapeHasNoControl(s: string)
    requires s != "" && s[0] == '\\' && UnescapeOne(s).Some?
    ensures forall i :: 0 <= i < UnescapeOne(s).value.width ==> s[i] >= ' '
  {
    var w := UnescapeOne(s).value.width;
    if w >= 6 { Hex4HasNoControl(s[2..]); forall i | 2 <= i < 6 ensures s[i] >= ' ' { assert s[i] == s[2..][i - 2]; } }
    if w == 12 { Hex4HasNoControl(s[8..]); forall i | 8 <= i < 12 ensures s[i] >= ' ' { assert s[i] == s[8..][i - 8]; } }
  }

  lemma Hex4HasNoControl(s: string)
    requires Hex4(s).Some?
    ensures forall i :: 0 <= i < 4 ==> s[i] >= ' '
  {
    assert HexValue(s[0]).Some? && HexValue(s[1]).Some? && HexValue(s[2]).Some? && HexValue(s[3]).Some?;
  }

  /**
   * A string body in the printer's own spelling: every character that has to
   * be escaped is, in its shortest form, with lower-case digits, and nothing
   * else is.
   */
  predicate Canonical(s: string) {
    if s == "" then true
    else if s[0] == '\\' then
      |s| >= 2 &&
      (if s[1] == 'u' then CanonicalControl(s) && Canonical(s[6..])
       else s[1] != '/' && ShortEscape(s[1]).Some? && Canonical(s[2..]))
    else s[0] != '"' && s[0] >= ' ' && Canonical(s[1..])
  }

  /** `\u00xx` for a control character that has no short form. */
  predicate CanonicalControl(s: string) {
    |s| >= 6 && s[0] == '\\' && s[1] == 'u' && s[2] == '0' && s[3] == '0' &&
    (s[4] == '0' || s[4] == '1') &&
    ('0' <= s[5] <= '9' || 'a' <= s[5] <= 'f') &&
    !(s[4] == '0' && s[5] in "89acd")
  }

  /** The explicit rule and the round trip through the printer are one condition. */
  lemma {:induction false} CanonicalIsPrinterSpelling(s: string)
    ensures Canonical(s) <==> Unescape(s).Some? && Escape(Unescape(s).value) == s
  {
    if Canonical(s) { CanonicalRoundTrip(s); }
    if Unescape(s).Some? && Escape(Unescape(s).value) == s { EscapeIsCanonical(Unescape(s).value); }
  }

  lemma {:induction false} EscapeIsCanonical(s: string)
    ensures Canonical(Escape(s))
  {
    if s != "" {
      EscapeIsCanonical(s[1..]);
      CanonicalEscapeChar(s[0], Escape(s[1..]));
    }
  }

  lemma CanonicalEscapeChar(c: char, tail: string)
    requires Canonical(tail)
    ensures Canonical(EscapeChar(c) + tail)
  {
    var e := EscapeChar(c);
    assert (e + tail)[|e|..] == tail;
    if |e| == 6 {
      var hi, lo := c as int / 16, c as int % 16;
      assert (e + tail)[4] == HexDigit(hi) && (e + tail)[5] == HexDigit(lo);
      assert CanonicalControl(e + tail);
    }
  }

  /** A canonical body starts with the printer's spelling of some character. */
  lemma {:induction false} CanonicalHead(s: string) returns (c: char, k: nat)
    requires Canonical(s) && s != ""
    ensures 0 < k <= |s| && s[..k] == EscapeChar(c) && Canonical(s[k..])
  {
    if s[0] == '\\' && s[1] == 'u' {
      CanonicalControlValue(s);
      c, k := UnescapeOne(s).value.decoded, 6;
    } else if s[0] == '\\' {
      c, k := ShortEscape(s[1]).value, 2;
    } else {
      c, k := s[0], 1;
    }
  }

  lemma {:induction false} CanonicalRoundTrip(s: string)
    requires Canonical(s)
    ensures Unescape(s).Some? && Escape(Unescape(s).value) == s
    decreases |s|
  {
    if s != "" {
      var c, k := CanonicalHead(s);
      CanonicalRoundTrip(s[k..]);
      UnescapeOneChar(c, s[k..]);
      assert s == EscapeChar(c) + s[k..];
      assert ([c] + Unescape(s[k..]).value)[1..] == Unescape(s[k..]).value;
    }
  }

  lemma CanonicalControlValue(s: string)
    requires CanonicalControl(s)
    ensures UnescapeOne(s).Some? && UnescapeOne(s).value.width == 6
    ensures EscapeChar(UnescapeOne(s).value.decoded) == s[..6]
  {
    var hi, lo := HexValue(s[4]).value, HexValue(s[5]).value;
    assert Hex4(s[2..]) == Some(16 * hi + lo) by {
      assert s[2..][0] == '0' && s[2..][1] == '0' && s[2..][2] == s[4] && s[2..][3] == s[5];
    }
    var c := (16 * hi + lo) as char;
    assert c < ' ' && c as int / 16 == hi && c as int % 16 == lo;
    assert HexDigit(hi) == s[4] && HexDigit(lo) == s[5];
    assert s[..6] == "\\u00" + [s[4]] + [s[5]];
  }

  // ---- integers -----------------------------------------------------------

  predicate IsDigit(c: char) { '0' <= c <= '9' }

  predicate AllDigits(s: string) { forall i :: 0 <= i < |s| ==> IsDigit(s[i]) }

  /** A natural number without a leading zero, as the JSON grammar wants it. */
  predicate IsNatural(s: string) {
    s != "" && AllDigits(s) && (s[0] == '0' ==> |s| == 1)
  }

  predicate IsInteger(s: string) {
    IsNatural(s) || (s != "" && s[0] == '-' && IsNatural(s[1..]))
  }

  function ReadNatural(s: string): nat
    requires AllDigits(s)
  {
    if s == "" then 0
    else 10 * ReadNatural(s[..|s| - 1]) + (s[|s| - 1] as int - '0' as int)
  }

  function ReadInteger(s: string): int
    requires IsInteger(s)
  {
    if s[0] == '-' then 0 - ReadNatural(s[1..]) else ReadNatural(s)
  }

  function ShowNatural(n: nat): string {
    (if n < 10 then "" else ShowNatural(n / 10)) + [(n % 10 + '0' as int) as char]
  }

  function ShowInteger(n: int): string {
    if n < 0 then "-" + ShowNatural(-n) else ShowNatural(n)
  }

  lemma {:induction false} ShownNatural(n: nat)
    ensures IsNatural(ShowNatural(n))
    ensures n > 0 ==> ShowNatural(n)[0] != '0'
    ensures ReadNatural(ShowNatural(n)) == n
  {
    var s := ShowNatural(n);
    if n >= 10 {
      ShownNatural(n / 10);
    }
    assert s[..|s| - 1] == if n < 10 then "" else ShowNatural(n / 10);
  }

  lemma ReadInvertsShow(n: int)
    ensures IsInteger(ShowInteger(n)) && ShowInteger(n) != "-0"
    ensures ReadInteger(ShowInteger(n)) == n
  {
    if n < 0 {
      ShownNatural(-n);
      assert ShowInteger(n)[1..] == ShowNatural(-n);
    } else {
      ShownNatural(n);
    }
  }

  lemma {:induction false} ReadNaturalShown(s: string)
    requires IsNatural(s)
    ensures ShowNatural(ReadNatural(s)) == s
    ensures ReadNatural(s) == 0 <==> s == "0"
    decreases |s|
  {
    var init, last := s[..|s| - 1], s[|s| - 1];
    var d := last as int - '0' as int;
    assert s == init + [last] && IsDigit(last);
    assert ReadNatural(s) == 10 * ReadNatural(init) + d;
    if init == "" {
      OneDigit(d);
    } else {
      assert init[0] == s[0] && IsNatural(init);
      ReadNaturalShown(init);
      LastDigit(ReadNatural(init), d);
    }
  }

  lemma OneDigit(d: nat)
    requires d < 10
    ensures ShowNatural(d) == [(d + '0' as int) as char]
  {
  }

  lemma LastDigit(n: nat, d: nat)
    requires d < 10 && n > 0
    ensures ShowNatural(10 * n + d) == ShowNatural(n) + [(d + '0' as int) as char]
  {
    assert (10 * n + d) / 10 == n && (10 * n + d) % 10 == d;
  }

  /** Only `-0` is an integer the printer would spell another way. */
  lemma ShowInvertsRead(s: string)
    requires IsInteger(s)
    ensures ShowInteger(ReadInteger(s)) == s <==> s != "-0"
  {
    if s[0] == '-' {
      ReadNaturalShown(s[1..]);
      assert s == "-" + s[1..];
    } else {
      ReadNaturalShown(s);
    }
  }
}
