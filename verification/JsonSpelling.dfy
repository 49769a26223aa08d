/** Every way to spell a text inside a JSON string, and that reading accepts exactly these. */
module JsonSpelling {
  import opened Wrappers
  import opened JsonText

  /** A hexadecimal digit of either case. */
  predicate DigitSpells(c: char, v: nat) {
    v < 16 && (c == "0123456789abcdef"[v] || c == "0123456789ABCDEF"[v])
  }

  /** Four hexadecimal digits, the most significant first. */
  predicate HexSpells(s: string, n: nat) {
    |s| == 4 && exists a: nat, b: nat, c: nat, d: nat | a < 16 && b < 16 && c < 16 && d < 16 ::
      n == ((a * 16 + b) * 16 + c) * 16 + d
      && DigitSpells(s[0], a) && DigitSpells(s[1], b) && DigitSpells(s[2], c) && DigitSpells(s[3], d)
  }

  lemma HexValueExactly(c: char, v: nat)
    ensures HexValue(c) == Some(v) <==> DigitSpells(c, v)
  {
  }

  lemma Hex4Exactly(s: string, n: nat)
    requires |s| >= 4
    ensures Hex4(s) == Some(n) <==> HexSpells(s[..4], n)
  {
    hide HexValue, DigitSpells;
    forall c: char, v: nat ensures HexValue(c) == Some(v) <==> DigitSpells(c, v) { HexValueExactly(c, v); }
    assert s[..4][0] == s[0] && s[..4][1] == s[1] && s[..4][2] == s[2] && s[..4][3] == s[3];
    if Hex4(s) == Some(n) {
      var a, b, c, d := HexValue(s[0]).value, HexValue(s[1]).value, HexValue(s[2]).value, HexValue(s[3]).value;
      assert n == ((a * 16 + b) * 16 + c) * 16 + d;
      assert DigitSpells(s[0], a) && DigitSpells(s[1], b) && DigitSpells(s[2], c) && DigitSpells(s[3], d);
    }
  }

  /** The two-character escapes of section 7 of RFC 8259. */
  predicate ShortSpells(d: char, c: char) {
    || (d == '"' && c as int == 0x22) || (d == '\\' && c as int == 0x5C) || (d == '/' && c as int == 0x2F)
    || (d == 'b' && c as int == 0x08) || (d == 'f' && c as int == 0x0C) || (d == 'n' && c as int == 0x0A)
    || (d == 'r' && c as int == 0x0D) || (d == 't' && c as int == 0x09)
  }

  lemma ShortEscapeExactly(d: char, c: char)
    ensures ShortEscape(d) == Some(c) <==> ShortSpells(d, c)
  {
  }

  /** A UTF-16 unit: a backslash, `u` and four digits. */
  predicate UnitSpells(s: string, n: nat) {
    |s| == 6 && s[0] == '\\' && s[1] == 'u' && HexSpells(s[2..], n)
  }

  /** Every way to write one character in a string (section 7 of RFC 8259): itself, two characters, one unit or a pair. */
  predicate Spells(s: string, c: char) {
    || (s == [c] && c as int >= 0x20 && c != '"' && c != '\\')
    || (|s| == 2 && s[0] == '\\' && ShortSpells(s[1], c))
    || (c as int < 0x10000 && UnitSpells(s, c as int))
    || (c as int >= 0x10000 && |s| == 12
        && UnitSpells(s[..6], 0xD800 + (c as int - 0x10000) / 0x400)
        && UnitSpells(s[6..], 0xDC00 + (c as int - 0x10000) % 0x400))
  }

  /** `s` spells `t`, one character after another. */
  ghost predicate SpellsText(s: string, t: string)
    decreases |t|
  {
    if t == "" then s == ""
    else exists k: nat :: Splits(s, k, t[0]) && SpellsText(s[k..], t[1..])
  }

  predicate Splits(s: string, k: nat, c: char) {
    0 < k <= |s| && Spells(s[..k], c)
  }

  lemma UnitAt(s: string, n: nat)
    requires |s| >= 6 && s[0] == '\\' && s[1] == 'u'
    ensures UnitSpells(s[..6], n) <==> Hex4(s[2..]) == Some(n)
  {
    hide Hex4, HexSpells;
    assert s[..6][2..] == s[2..][..4];
    Hex4Exactly(s[2..], n);
  }

  lemma LowUnitAt(s: string, n: nat)
    requires |s| >= 12 && s[6] == '\\' && s[7] == 'u'
    ensures UnitSpells(s[..12][6..], n) <==> Hex4(s[8..]) == Some(n)
  {
    hide Hex4, HexSpells, UnitSpells;
    assert s[6..][..6] == s[..12][6..] && s[6..][2..] == s[8..];
    UnitAt(s[6..], n);
  }

  lemma PairArithmetic(c: char, u: nat, low: nat)
    requires 0xD800 <= u < 0xDC00 && 0xDC00 <= low <= 0xDFFF
    ensures c as int == 0x10000 + (u - 0xD800) * 0x400 + (low - 0xDC00)
       <==> c as int >= 0x10000 && u == 0xD800 + (c as int - 0x10000) / 0x400 && low == 0xDC00 + (c as int - 0x10000) % 0x400
  {
  }

  lemma ShortExactly(s: string, c: char)
    requires s != "" && s[0] == '\\'
    ensures UnescapeOne(s) == Some(Escaped(c, 2)) <==> |s| >= 2 && ShortSpells(s[1], c)
  {
    hide Hex4, ShortEscape, ShortSpells;
    if |s| >= 2 { ShortEscapeExactly(s[1], c); }
  }

  lemma UnitIsNoShort()
    ensures ShortEscape('u') == None
  {
  }

  lemma UnitExactly(s: string, c: char)
    requires s != "" && s[0] == '\\'
    ensures UnescapeOne(s) == Some(Escaped(c, 6)) <==> |s| >= 6 && UnitSpells(s[..6], c as int)
  {
    hide Hex4, ShortEscape, UnitSpells, HexSpells;
    UnitIsNoShort();
    if |s| >= 6 && s[1] == 'u' {
      UnitAt(s, c as int);
    } else if |s| >= 6 {
      NoUnit(s[..6], c as int);
    }
  }

  lemma NoUnit(s: string, n: nat)
    ensures UnitSpells(s, n) ==> |s| == 6 && s[0] == '\\' && s[1] == 'u'
  {
  }

  lemma PairExactly(s: string, c: char)
    requires s != "" && s[0] == '\\'
    ensures UnescapeOne(s) == Some(Escaped(c, 12)) <==>
      && |s| >= 12 && c as int >= 0x10000
      && UnitSpells(s[..12][..6], 0xD800 + (c as int - 0x10000) / 0x400)
      && UnitSpells(s[..12][6..], 0xDC00 + (c as int - 0x10000) % 0x400)
  {
    hide Hex4, ShortEscape, UnitSpells, HexSpells;
    UnitIsNoShort();
    if |s| >= 12 {
      var high, low := 0xD800 + (c as int - 0x10000) / 0x400, 0xDC00 + (c as int - 0x10000) % 0x400;
      assert s[..12][..6] == s[..6];
      assert s[..12][6..][0] == s[6] && s[..12][6..][1] == s[7];
      NoUnit(s[..6], high);
      NoUnit(s[..12][6..], low);
      if s[1] == 'u' && s[6] == '\\' && s[7] == 'u' {
        UnitAt(s, high);
        LowUnitAt(s, low);
        var u, l := Hex4(s[2..]), Hex4(s[8..]);
        if u.Some? && l.Some? && 0xD800 <= u.value < 0xDC00 && 0xDC00 <= l.value <= 0xDFFF {
          PairArithmetic(c, u.value, l.value);
        }
      }
    }
  }

  /** What follows a backslash is read as exactly the character it spells. */
  lemma UnescapeOneExactly(s: string, c: char, k: nat)
    requires s != "" && s[0] == '\\'
    ensures UnescapeOne(s) == Some(Escaped(c, k)) <==> Splits(s, k, c)
  {
    ShortExactly(s, c);
    UnitExactly(s, c);
    PairExactly(s, c);
    EscapeWidths(s);
    hide UnescapeOne, ShortSpells, UnitSpells;
    if 0 < k <= |s| {
      assert s[..k][0] == s[0];
      if k >= 2 { assert s[..k][1] == s[1]; }
      NoUnit(s[..k], c as int);
    }
  }

  lemma EscapeWidths(s: string)
    requires s != "" && s[0] == '\\'
    ensures UnescapeOne(s).Some? ==> UnescapeOne(s).value.width in {2, 6, 12}
  {
    hide Hex4, ShortEscape;
  }

  /**
   * A string body decodes to a text exactly when it spells it: any escape of
   * any character, in either case, pairs above U+FFFF, and nothing else.
   */
  lemma {:induction false} UnescapeExactly(s: string, t: string)
    ensures Unescape(s) == Some(t) <==> SpellsText(s, t)
    decreases |s|
  {
    hide UnescapeOne, Spells;
    if s == "" {
      EmptySpells(t);
    } else if t == "" {
    } else if s[0] == '\\' {
      forall k: nat ensures UnescapeOne(s) == Some(Escaped(t[0], k)) <==> Splits(s, k, t[0]) {
        UnescapeOneExactly(s, t[0], k);
      }
      if UnescapeOne(s).Some? {
        UnescapeExactly(s[UnescapeOne(s).value.width..], t[1..]);
      }
      assert t == [t[0]] + t[1..];
    } else {
      forall k: nat ensures Splits(s, k, t[0]) <==> k == 1 && s[0] == t[0] && s[0] >= ' ' && s[0] != '"' {
        PlainSplits(s, k, t[0]);
      }
      UnescapeExactly(s[1..], t[1..]);
      assert t == [t[0]] + t[1..];
    }
  }

  lemma EmptySpells(t: string)
    ensures SpellsText("", t) <==> t == ""
  {
  }

  lemma PlainSplits(s: string, k: nat, c: char)
    requires s != "" && s[0] != '\\'
    ensures Splits(s, k, c) <==> k == 1 && s[0] == c && s[0] >= ' ' && s[0] != '"'
  {
    hide ShortSpells, HexSpells;
    if 0 < k <= |s| {
      assert s[..k][0] == s[0];
      if k >= 6 { assert s[..k][..6][0] == s[0]; }
      if k == 1 { assert s[..1] == [s[0]]; }
    }
  }

  // ---- the spelling that is ASCII throughout ------------------------------

  function HexOf(n: nat, upper: bool): char
    requires n < 16
  {
    if upper then "0123456789ABCDEF"[n] else "0123456789abcdef"[n]
  }

  function UnitOf(n: nat, upper: bool): string
    requires n < 0x10000
  {
    ['\\', 'u', HexOf(n / 4096, upper), HexOf(n / 256 % 16, upper), HexOf(n / 16 % 16, upper), HexOf(n % 16, upper)]
  }

  /** How a library with `ensure_ascii` writes one character. */
  function AsciiChar(c: char, upper: bool): string {
    if c as int < 0x7F then EscapeChar(c)
    else if c as int < 0x10000 then UnitOf(c as int, upper)
    else UnitOf(0xD800 + (c as int - 0x10000) / 0x400, upper) + UnitOf(0xDC00 + (c as int - 0x10000) % 0x400, upper)
  }

  function AsciiSpelling(t: string, upper: bool): string {
    if t == "" then "" else AsciiChar(t[0], upper) + AsciiSpelling(t[1..], upper)
  }

  lemma UnitOfSpells(n: nat, upper: bool)
    requires n < 0x10000
    ensures UnitSpells(UnitOf(n, upper), n)
  {
    var a, b, c, d := n / 4096, n / 256 % 16, n / 16 % 16, n % 16;
    FourDigits(n);
    HexOfSpells(a, upper);
    HexOfSpells(b, upper);
    HexOfSpells(c, upper);
    HexOfSpells(d, upper);
    hide HexOf, DigitSpells;
    var s := UnitOf(n, upper)[2..];
    assert s == [HexOf(a, upper), HexOf(b, upper), HexOf(c, upper), HexOf(d, upper)];
    assert DigitSpells(s[0], a) && DigitSpells(s[1], b) && DigitSpells(s[2], c) && DigitSpells(s[3], d);
  }

  lemma FourDigits(n: nat)
    requires n < 0x10000
    ensures n == ((n / 4096 * 16 + n / 256 % 16) * 16 + n / 16 % 16) * 16 + n % 16
    ensures n / 4096 < 16
  {
    var q1, q2 := n / 16, n / 256;
    assert q2 == q1 / 16 && n / 4096 == q2 / 16;
    assert n == 16 * q1 + n % 16 && q1 == 16 * q2 + q1 % 16 && q2 == 16 * (n / 4096) + q2 % 16;
  }

  lemma HexOfSpells(v: nat, upper: bool)
    requires v < 16
    ensures DigitSpells(HexOf(v, upper), v)
  {
  }

  lemma LowUnit(c: char)
    requires c < ' ' && EscapeChar(c)[1] == 'u'
    ensures EscapeChar(c) == UnitOf(c as int, false)
  {
  }

  lemma EscapeCharSpells(c: char)
    ensures Spells(EscapeChar(c), c)
  {
    if c < ' ' && EscapeChar(c)[1] == 'u' {
      LowUnit(c);
      UnitOfSpells(c as int, false);
    }
  }

  lemma AsciiCharSpells(c: char, upper: bool)
    ensures AsciiChar(c, upper) != "" && Spells(AsciiChar(c, upper), c)
  {
    hide UnitSpells, UnitOf, ShortSpells;
    if c as int < 0x7F {
      EscapeCharSpells(c);
    } else if c as int < 0x10000 {
      UnitOfSpells(c as int, upper);
      NoUnit(UnitOf(c as int, upper), c as int);
    } else {
      var high, low := 0xD800 + (c as int - 0x10000) / 0x400, 0xDC00 + (c as int - 0x10000) % 0x400;
      UnitOfSpells(high, upper);
      UnitOfSpells(low, upper);
      NoUnit(UnitOf(high, upper), high);
      NoUnit(UnitOf(low, upper), low);
      var s := AsciiChar(c, upper);
      assert s[..6] == UnitOf(high, upper) && s[6..] == UnitOf(low, upper);
    }
  }

  /** The spelling the library re-dumps use reads as the text, with digits of either case. */
  lemma {:induction false} AsciiSpellingReadsBack(t: string, upper: bool)
    ensures SpellsText(AsciiSpelling(t, upper), t) && Unescape(AsciiSpelling(t, upper)) == Some(t)
  {
    hide AsciiChar, Spells, Unescape;
    if t != "" {
      var s, head := AsciiSpelling(t, upper), AsciiChar(t[0], upper);
      AsciiSpellingReadsBack(t[1..], upper);
      AsciiCharSpells(t[0], upper);
      assert s[..|head|] == head && s[|head|..] == AsciiSpelling(t[1..], upper);
      assert Splits(s, |head|, t[0]);
    }
    UnescapeExactly(AsciiSpelling(t, upper), t);
  }
}
