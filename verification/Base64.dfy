/** Base64 as Go's encoding/base64 reads and writes it (sections 4 and 5 of RFC 4648). */
module Base64 {
  import opened Wrappers

  type Byte = n: nat | n < 256
  type Bytes = seq<Byte>

  /** The standard or the URL alphabet, with or without padding. */
  datatype Encoding = Encoding(url: bool, padded: bool)

  const STD := Encoding(false, true)
  const RAW_STD := Encoding(false, false)
  const RAW_URL := Encoding(true, false)

  function Digit(v: nat, url: bool): (c: char)
    requires v < 64
    ensures Value(c, url) == Some(v) && c != '=' && c != '\r' && c != '\n'
  {
    if v < 26 then ('A' as int + v) as char
    else if v < 52 then ('a' as int + (v - 26)) as char
    else if v < 62 then ('0' as int + (v - 52)) as char
    else if v == 62 then (if url then '-' else '+')
    else (if url then '_' else '/')
  }

  function Value(c: char, url: bool): (v: Option<nat>)
    ensures v.Some? ==> v.value < 64
  {
    if 'A' <= c <= 'Z' then Some(c as int - 'A' as int)
    else if 'a' <= c <= 'z' then Some(c as int - 'a' as int + 26)
    else if '0' <= c <= '9' then Some(c as int - '0' as int + 52)
    else if c == (if url then '-' else '+') then Some(62)
    else if c == (if url then '_' else '/') then Some(63)
    else None
  }

  function First(v0: nat, v1: nat): Byte requires v0 < 64 && v1 < 64 { v0 * 4 + v1 / 16 }
  function Second(v1: nat, v2: nat): Byte requires v1 < 64 && v2 < 64 { (v1 % 16) * 16 + v2 / 4 }
  function Third(v2: nat, v3: nat): Byte requires v2 < 64 && v3 < 64 { (v2 % 4) * 64 + v3 }

  function Encode(k: Bytes, e: Encoding): string {
    if k == [] then ""
    else if |k| == 1 then
      [Digit(k[0] / 4, e.url), Digit((k[0] % 4) * 16, e.url)] + if e.padded then "==" else ""
    else if |k| == 2 then
      [Digit(k[0] / 4, e.url), Digit((k[0] % 4) * 16 + k[1] / 16, e.url), Digit((k[1] % 16) * 4, e.url)]
      + if e.padded then "=" else ""
    else
      [Digit(k[0] / 4, e.url), Digit((k[0] % 4) * 16 + k[1] / 16, e.url),
       Digit((k[1] % 16) * 4 + k[2] / 64, e.url), Digit(k[2] % 64, e.url)] + Encode(k[3..], e)
  }

  /** Line breaks are skipped wherever they stand. */
  function Dense(s: string): string {
    if s == "" then ""
    else if s[0] == '\r' || s[0] == '\n' then Dense(s[1..])
    else [s[0]] + Dense(s[1..])
  }

  /**
   * Four digits at a time. The last group may be short without padding, and
   * must be filled up with it; bits it leaves over are not looked at.
   */
  function DecodeDense(s: string, e: Encoding): Option<Bytes> {
    if s == "" then Some([])
    else if |s| == 1 then None
    else
      var v0 :- Value(s[0], e.url);
      var v1 :- Value(s[1], e.url);
      if |s| == 2 then (if e.padded then None else Some([First(v0, v1)]))
      else if e.padded && s[2] == '=' then
        if |s| == 4 && s[3] == '=' then Some([First(v0, v1)]) else None
      else
        var v2 :- Value(s[2], e.url);
        if |s| == 3 then (if e.padded then None else Some([First(v0, v1), Second(v1, v2)]))
        else if e.padded && s[3] == '=' then
          if |s| == 4 then Some([First(v0, v1), Second(v1, v2)]) else None
        else
          var v3 :- Value(s[3], e.url);
          var rest :- DecodeDense(s[4..], e);
          Some([First(v0, v1), Second(v1, v2), Third(v2, v3)] + rest)
  }

  function Decode(s: string, e: Encoding): Option<Bytes> {
    DecodeDense(Dense(s), e)
  }

  lemma OneByte(a: Byte)
    ensures First(a / 4, (a % 4) * 16) == a
  {
  }

  lemma TwoBytes(a: Byte, b: Byte)
    ensures var v1 := (a % 4) * 16 + b / 16; First(a / 4, v1) == a && Second(v1, (b % 16) * 4) == b
  {
  }

  lemma ThreeBytes(a: Byte, b: Byte, c: Byte)
    ensures var v1 := (a % 4) * 16 + b / 16; var v2 := (b % 16) * 4 + c / 64;
            First(a / 4, v1) == a && Second(v1, v2) == b && Third(v2, c % 64) == c
  {
  }

  /** A full group decodes to its three bytes, and decoding goes on behind it. */
  lemma {:induction false} DecodeGroup(a: Byte, b: Byte, c: Byte, tail: string, e: Encoding)
    requires DecodeDense(tail, e).Some?
    ensures var v1, v2 := (a % 4) * 16 + b / 16, (b % 16) * 4 + c / 64;
            DecodeDense([Digit(a / 4, e.url), Digit(v1, e.url), Digit(v2, e.url), Digit(c % 64, e.url)] + tail, e)
              == Some([a, b, c] + DecodeDense(tail, e).value)
  {
    hide First, Second, Third, Digit;
    var v1, v2 := (a % 4) * 16 + b / 16, (b % 16) * 4 + c / 64;
    var s := [Digit(a / 4, e.url), Digit(v1, e.url), Digit(v2, e.url), Digit(c % 64, e.url)] + tail;
    ThreeBytes(a, b, c);
    assert s[4..] == tail;
  }

  /** The short last group, padded or not. */
  lemma DecodeOne(a: Byte, e: Encoding)
    ensures DecodeDense(Encode([a], e), e) == Some([a])
  {
    hide First, Second, Third, Digit, Value;
    OneByte(a);
  }

  lemma DecodeTwo(a: Byte, b: Byte, e: Encoding)
    ensures DecodeDense(Encode([a, b], e), e) == Some([a, b])
  {
    hide First, Second, Third, Digit, Value;
    TwoBytes(a, b);
  }

  lemma EncodeGroup(k: Bytes, e: Encoding)
    requires |k| >= 3
    ensures Encode(k, e)
         == [Digit(k[0] / 4, e.url), Digit((k[0] % 4) * 16 + k[1] / 16, e.url),
             Digit((k[1] % 16) * 4 + k[2] / 64, e.url), Digit(k[2] % 64, e.url)] + Encode(k[3..], e)
  {
    hide Digit;
  }

  lemma DecodeNothing(e: Encoding)
    ensures DecodeDense(Encode([], e), e) == Some([])
  {
  }

  lemma {:induction false} DecodeDenseInvertsEncode(k: Bytes, e: Encoding)
    ensures DecodeDense(Encode(k, e), e) == Some(k)
  {
    hide First, Second, Third, Digit, DecodeDense, Encode;
    if |k| == 0 {
      DecodeNothing(e);
    } else if |k| == 1 {
      DecodeOne(k[0], e);
      assert k == [k[0]];
    } else if |k| == 2 {
      DecodeTwo(k[0], k[1], e);
      assert k == [k[0], k[1]];
    } else {
      DecodeDenseInvertsEncode(k[3..], e);
      EncodeGroup(k, e);
      DecodeGroup(k[0], k[1], k[2], Encode(k[3..], e), e);
      assert k == [k[0], k[1], k[2]] + k[3..];
    }
  }

  lemma {:induction false} EncodeIsDense(k: Bytes, e: Encoding)
    ensures forall i :: 0 <= i < |Encode(k, e)| ==> Encode(k, e)[i] != '\r' && Encode(k, e)[i] != '\n'
  {
    hide Digit;
    if |k| >= 3 { EncodeIsDense(k[3..], e); }
  }

  lemma {:induction false} DenseIsKept(s: string)
    requires forall i :: 0 <= i < |s| ==> s[i] != '\r' && s[i] != '\n'
    ensures Dense(s) == s
  {
    if s != "" { DenseIsKept(s[1..]); }
  }

  lemma DecodeInvertsEncode(k: Bytes, e: Encoding)
    ensures Decode(Encode(k, e), e) == Some(k)
  {
    EncodeIsDense(k, e);
    DenseIsKept(Encode(k, e));
    DecodeDenseInvertsEncode(k, e);
  }

  /** A text that both the padded and the raw encoding read stands for the same bytes in both. */
  lemma {:induction false} ReadingsAgree(s: string, url: bool)
    ensures var padded := DecodeDense(s, Encoding(url, true));
            var raw := DecodeDense(s, Encoding(url, false));
            padded.Some? && raw.Some? ==> padded == raw
    decreases |s|
  {
    if |s| > 4 { ReadingsAgree(s[4..], url); }
  }

  lemma TwoBytesShape(e: Encoding)
    ensures Encode([251, 255], e)
         == [Digit(62, e.url), Digit(63, e.url), Digit(60, e.url)] + if e.padded then "=" else ""
  {
    hide Digit;
    var k: Bytes := [251, 255];
    assert k[0] == 251 && k[1] == 255 && |k| == 2;
  }

  /** Two bytes whose encodings show both alphabets and the padding. */
  lemma TwoBytesWritten(e: Encoding)
    ensures var s := Encode([251, 255], e);
            && |s| == (if e.padded then 4 else 3)
            && s[0] == (if e.url then '-' else '+') && s[1] == (if e.url then '_' else '/') && s[2] == '8'
            && (e.padded ==> s[3] == '=')
  {
    TwoBytesShape(e);
    hide Encode;
  }

  /** Bytes from the most significant down, as `big.Int.SetBytes` reads them. */
  function BigEndian(b: Bytes): nat {
    if b == [] then 0 else 256 * BigEndian(b[..|b| - 1]) + b[|b| - 1]
  }

  /** The `size` low bytes of `n`, most significant first. */
  function FixedBytes(n: nat, size: nat): (b: Bytes)
    ensures |b| == size
  {
    if size == 0 then [] else FixedBytes(n / 256, size - 1) + [n % 256]
  }

  function Zeros(n: nat): (z: Bytes)
    ensures |z| == n && forall i :: 0 <= i < n ==> z[i] == 0
  {
    seq(n, i => 0)
  }

  lemma {:induction false} FixedBytesOfZero(size: nat)
    ensures FixedBytes(0, size) == Zeros(size)
  {
    if size > 0 { FixedBytesOfZero(size - 1); }
  }

  /** Padding on the left gives the fixed-width bytes of the same number. */
  lemma {:induction false} LeftPadded(b: Bytes, size: nat)
    requires |b| <= size
    ensures Zeros(size - |b|) + b == FixedBytes(BigEndian(b), size)
  {
    if b == [] {
      FixedBytesOfZero(size);
    } else {
      var init := b[..|b| - 1];
      LeftPadded(init, size - 1);
      ShiftByte(BigEndian(init), b[|b| - 1]);
      assert Zeros(size - |b|) + b == (Zeros(size - |b|) + init) + [b[|b| - 1]];
    }
  }

  lemma ShiftByte(n: nat, low: Byte)
    ensures (256 * n + low) / 256 == n && (256 * n + low) % 256 == low
  {
  }

  function Power256(size: nat): nat { if size == 0 then 1 else 256 * Power256(size - 1) }

  lemma {:induction false} BigEndianInvertsFixedBytes(n: nat, size: nat)
    requires n < Power256(size)
    ensures BigEndian(FixedBytes(n, size)) == n
  {
    if size > 0 {
      assert n / 256 < Power256(size - 1);
      BigEndianInvertsFixedBytes(n / 256, size - 1);
      assert FixedBytes(n, size)[..size - 1] == FixedBytes(n / 256, size - 1);
    }
  }

  lemma {:induction false} PowerGrows(n: nat, size: nat)
    requires n <= size
    ensures Power256(n) <= Power256(size)
  {
    if n < size { PowerGrows(n, size - 1); }
  }

  /** Bytes of any length fit any width they are not longer than. */
  lemma {:induction false} BigEndianFits(b: Bytes, size: nat)
    requires |b| <= size
    ensures BigEndian(b) < Power256(size)
  {
    if b == [] {
      PowerGrows(0, size);
    } else {
      BigEndianFits(b[..|b| - 1], size - 1);
    }
  }

  /** Leading zeros leave the number alone. */
  lemma {:induction false} LeadingZerosDoNotCount(n: nat, b: Bytes)
    ensures BigEndian(Zeros(n) + b) == BigEndian(b)
  {
    LeftPadded(b, n + |b|);
    BigEndianFits(b, n + |b|);
    BigEndianInvertsFixedBytes(BigEndian(b), n + |b|);
  }
}
