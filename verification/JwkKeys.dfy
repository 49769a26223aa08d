/** Public keys out of a JWKS document (RFC 7517, RFC 7518). */
module JwkKeys {
  import opened Wrappers
  import opened Base64

  datatype Jwk = Jwk(kty: string, kid: string, use: string, alg: string, n: string, e: string, crv: string, x: string,
      y: string)

  datatype Curve = P256 | P384 | P521

  datatype PublicKey = Rsa(modulus: nat, exponent: int) | Ec(curve: Curve, x: nat, y: nat)

  /** `crypto/ecdh` decides which encoded points are on the curve. */
  type PointCheck = (Curve, Bytes) -> bool

  function BitSize(c: Curve): nat {
    match c case P256 => 256 case P384 => 384 case P521 => 521
  }

  function Size(c: Curve): nat { (BitSize(c) + 7) / 8 }

  function CurveNamed(crv: string): Option<Curve> {
    if crv == "P-256" then Some(P256)
    else if crv == "P-384" then Some(P384)
    else if crv == "P-521" then Some(P521)
    else None
  }

  /** The name of a curve (section 6.2.1.1 of RFC 7518). */
  function CurveName(c: Curve): string {
    match c case P256 => "P-256" case P384 => "P-384" case P521 => "P-521"
  }

  lemma CurveNamedExactly(crv: string, c: Curve)
    ensures CurveNamed(crv) == Some(c) <==> crv == CurveName(c)
  {
  }

  /** Base64url without padding (section 2 of RFC 7515). */
  function DecodeSegment(value: string): Option<Bytes> {
    if value == "" then None else Decode(value, RAW_URL)
  }

  /** The low 64 bits of a number below 2^64, as a signed integer. */
  function ToInt64(n: nat): int {
    if n < 0x8000_0000_0000_0000 then n else n - 0x1_0000_0000_0000_0000
  }

  function RsaKey(k: Jwk): Option<PublicKey> {
    var modulus :- DecodeSegment(k.n);
    var exponent :- DecodeSegment(k.e);
    if |exponent| == 0 || |exponent| > 8 then None
    else Some(Rsa(BigEndian(modulus), ToInt64(BigEndian(exponent))))
  }

  /**
   * The uncompressed encoding of a point with these coordinates, each at the
   * full length of the curve (section 2.3.3 of SEC 1).
   */
  function Sec1(c: Curve, x: nat, y: nat): Bytes {
    [4] + FixedBytes(x, Size(c)) + FixedBytes(y, Size(c))
  }

  /** The key an EC entry stands for: the integers in it, if their point is on the curve. */
  function EcKey(k: Jwk, check: PointCheck): Option<PublicKey> {
    var c :- CurveNamed(k.crv);
    var x :- DecodeSegment(k.x);
    var y :- DecodeSegment(k.y);
    if |x| > Size(c) || |y| > Size(c) then None
    else if !check(c, Sec1(c, BigEndian(x), BigEndian(y))) then None
    else Some(Ec(c, BigEndian(x), BigEndian(y)))
  }

  /** The point buffer, filled the way the source fills it: two copies that end where each half ends. */
  method FillPoint(x: Bytes, y: Bytes, size: nat) returns (point: array<Byte>)
    requires |x| <= size && |y| <= size
    ensures fresh(point) && point.Length == 1 + 2 * size
    ensures point[..] == [4] + FixedBytes(BigEndian(x), size) + FixedBytes(BigEndian(y), size)
    ensures BigEndian(point[1..1 + size]) == BigEndian(x) && BigEndian(point[1 + size..]) == BigEndian(y)
  {
    hide BigEndian, FixedBytes;
    point := new Byte[1 + 2 * size](_ => 0);
    point[0] := 4;
    var atX, atY := 1 + size - |x|, 1 + 2 * size - |y|;
    forall i | 0 <= i < |x| { point[atX + i] := x[i]; }
    forall i | 0 <= i < |y| { point[atY + i] := y[i]; }
    assert point[1..1 + size] == Zeros(size - |x|) + x;
    assert point[1 + size..] == Zeros(size - |y|) + y;
    LeadingZerosDoNotCount(size - |x|, x);
    LeadingZerosDoNotCount(size - |y|, y);
    LeftPadded(x, size);
    LeftPadded(y, size);
    assert point[..] == [4] + point[1..1 + size] + point[1 + size..];
  }

  method EcPublicKey(k: Jwk, check: PointCheck) returns (r: Option<PublicKey>)
    ensures r == EcKey(k, check)
  {
    var curve := CurveNamed(k.crv);
    if curve.None? { return None; }
    var x := DecodeSegment(k.x);
    if x.None? { return None; }
    var y := DecodeSegment(k.y);
    if y.None? { return None; }
    var size := Size(curve.value);
    if |x.value| > size || |y.value| > size { return None; }
    var point := FillPoint(x.value, y.value, size);
    if !check(curve.value, point[..]) { return None; }
    return Some(Ec(curve.value, BigEndian(x.value), BigEndian(y.value)));
  }

  function KeyOf(k: Jwk, check: PointCheck): Option<PublicKey> {
    if k.kty == "RSA" then RsaKey(k)
    else if k.kty == "EC" then EcKey(k, check)
    else None
  }

  /** An entry that gives a verification key. */
  predicate Usable(k: Jwk, check: PointCheck) {
    k.use != "enc" && KeyOf(k, check).Some?
  }

  function KeysOf(set_: seq<Jwk>, check: PointCheck): map<string, PublicKey> {
    if set_ == [] then map[]
    else
      var earlier, last := KeysOf(set_[..|set_| - 1], check), set_[|set_| - 1];
      if Usable(last, check) then earlier[last.kid := KeyOf(last, check).value] else earlier
  }

  method ParseJwks(set_: seq<Jwk>, check: PointCheck) returns (keys: map<string, PublicKey>)
    ensures keys == KeysOf(set_, check)
  {
    keys := map[];
    for n := 0 to |set_|
      invariant keys == KeysOf(set_[..n], check)
    {
      var key := set_[n];
      assert set_[..n + 1][..n] == set_[..n];
      if key.use == "enc" { continue; }
      var public: Option<PublicKey>;
      if key.kty == "RSA" {
        public := RsaKey(key);
      } else if key.kty == "EC" {
        public := EcPublicKey(key, check);
      } else {
        public := None;
      }
      if public.None? { continue; }
      keys := keys[key.kid := public.value];
    }
    assert set_[..|set_|] == set_;
  }

  // ---- what the parser promises -------------------------------------------

  /** A value of an entry, as section 2 of RFC 7515 writes it: base64url without padding. */
  function Segment(b: Bytes): string { Encode(b, Encoding(url := true, padded := false)) }

  lemma SizesAreWhole()
    ensures Size(P256) == 32 && Size(P384) == 48 && Size(P521) == 66
  {
  }

  /** `p` is an uncompressed point of this curve whose halves read as these integers. */
  ghost predicate Encodes(p: Bytes, c: Curve, x: nat, y: nat) {
    && |p| == 1 + 2 * Size(c) && p[0] == 4
    && BigEndian(p[1..1 + Size(c)]) == x && BigEndian(p[1 + Size(c)..]) == y
  }

  lemma {:induction false} Halves(c: Curve, x: nat, y: nat)
    ensures var p := Sec1(c, x, y);
            && |p| == 1 + 2 * Size(c) && p[0] == 4
            && p[1..1 + Size(c)] == FixedBytes(x, Size(c)) && p[1 + Size(c)..] == FixedBytes(y, Size(c))
  {
  }

  /** Coordinates that fit have exactly one such point. */
  lemma {:induction false} OnePoint(p: Bytes, c: Curve, x: nat, y: nat)
    requires x < Power256(Size(c)) && y < Power256(Size(c))
    ensures Encodes(p, c, x, y) <==> p == Sec1(c, x, y)
  {
    hide FixedBytes, Power256, BigEndian, Sec1, Size;
    Halves(c, x, y);
    BigEndianInvertsFixedBytes(x, Size(c));
    BigEndianInvertsFixedBytes(y, Size(c));
    if Encodes(p, c, x, y) {
      Refixed(p[1..1 + Size(c)], Size(c));
      Refixed(p[1 + Size(c)..], Size(c));
      Apart(p, Size(c));
      Apart(Sec1(c, x, y), Size(c));
    }
  }

  lemma Refixed(half: Bytes, size: nat)
    requires |half| == size
    ensures FixedBytes(BigEndian(half), size) == half
  {
    hide FixedBytes, BigEndian;
    LeftPadded(half, size);
    assert Zeros(0) + half == half;
  }

  lemma Apart(p: Bytes, size: nat)
    requires |p| == 1 + 2 * size
    ensures p == [p[0]] + p[1..1 + size] + p[1 + size..]
  {
  }

  /** The filled point reads back as the integers of the coordinates, whatever leading zeros they lack. */
  lemma {:induction false} PointReadsBack(c: Curve, x: Bytes, y: Bytes)
    requires |x| <= Size(c) && |y| <= Size(c)
    ensures Encodes(Sec1(c, BigEndian(x), BigEndian(y)), c, BigEndian(x), BigEndian(y))
  {
    BigEndianFits(x, Size(c));
    BigEndianFits(y, Size(c));
    OnePoint(Sec1(c, BigEndian(x), BigEndian(y)), c, BigEndian(x), BigEndian(y));
  }

  /**
   * Whatever an entry looks like, the key it gives is the point that was
   * validated: there is one encoding of the key's integers, and it passed.
   */
  lemma {:induction false} ValidatedPointIsTheKey(k: Jwk, check: PointCheck)
    requires KeyOf(k, check).Some? && KeyOf(k, check).value.Ec?
    ensures var key := KeyOf(k, check).value;
            && (exists p :: Encodes(p, key.curve, key.x, key.y))
            && (forall p :: Encodes(p, key.curve, key.x, key.y) ==> check(key.curve, p))
  {
    hide FixedBytes, Power256, Decode, Sec1, BigEndian;
    var key := KeyOf(k, check).value;
    var x, y := DecodeSegment(k.x).value, DecodeSegment(k.y).value;
    PointReadsBack(key.curve, x, y);
    BigEndianFits(x, Size(key.curve));
    BigEndianFits(y, Size(key.curve));
    forall p | Encodes(p, key.curve, key.x, key.y) ensures check(key.curve, p) { OnePoint(p, key.curve, key.x, key.y); }
  }

  /** What an entry with these coordinates gives. */
  lemma {:induction false} KeyOfCoordinates(k: Jwk, c: Curve, x: Bytes, y: Bytes, check: PointCheck)
    requires k.kty == "EC" && k.crv == CurveName(c) && x != [] && y != []
    requires k.x == Segment(x) && k.y == Segment(y)
    ensures KeyOf(k, check)
         == if |x| <= Size(c) && |y| <= Size(c) && check(c, Sec1(c, BigEndian(x), BigEndian(y)))
            then Some(Ec(c, BigEndian(x), BigEndian(y)))
            else None
  {
    DecodeInvertsEncode(x, RAW_URL);
    DecodeInvertsEncode(y, RAW_URL);
    assert k.x != "" && k.y != "";
  }

  /**
   * Two entries that differ in how many leading zeros they keep, up to the
   * length of the curve, give the same answer; beyond it the entry is refused.
   */
  lemma {:induction false} PaddingDoesNotMatter(k: Jwk, l: Jwk, c: Curve, x: Bytes, y: Bytes, m: nat, n: nat,
      check: PointCheck)
    requires k.kty == l.kty == "EC" && k.crv == l.crv == CurveName(c) && x != [] && y != []
    requires k.x == Segment(x) && k.y == Segment(y)
    requires l.x == Segment(Zeros(m) + x) && l.y == Segment(Zeros(n) + y)
    ensures KeyOf(l, check) == if m + |x| <= Size(c) && n + |y| <= Size(c) then KeyOf(k, check) else None
  {
    hide Segment, KeyOf, BigEndian, Sec1;
    KeyOfCoordinates(k, c, x, y, check);
    KeyOfCoordinates(l, c, Zeros(m) + x, Zeros(n) + y, check);
    LeadingZerosDoNotCount(m, x);
    LeadingZerosDoNotCount(n, y);
  }

  /** A point written at full length reads back as itself when it is on the curve. */
  lemma {:induction false} PointRoundTrip(k: Jwk, c: Curve, x: nat, y: nat, check: PointCheck)
    requires k.kty == "EC" && k.crv == CurveName(c)
    requires x < Power256(Size(c)) && y < Power256(Size(c))
    requires k.x == Segment(FixedBytes(x, Size(c))) && k.y == Segment(FixedBytes(y, Size(c)))
    ensures KeyOf(k, check) == if check(c, Sec1(c, x, y)) then Some(Ec(c, x, y)) else None
    ensures |Sec1(c, x, y)| == match c case P256 => 65 case P384 => 97 case P521 => 133
  {
    SizesAreWhole();
    assert |Sec1(c, x, y)| == 1 + 2 * Size(c);
    hide FixedBytes, Segment, KeyOf, Sec1;
    BigEndianInvertsFixedBytes(x, Size(c));
    BigEndianInvertsFixedBytes(y, Size(c));
    KeyOfCoordinates(k, c, FixedBytes(x, Size(c)), FixedBytes(y, Size(c)), check);
  }

  /** A key of this id that is not marked for encryption, and is a key. */
  ghost predicate Offers(k: Jwk, kid: string, check: PointCheck) {
    k.kid == kid && k.use != "enc" && KeyOf(k, check).Some?
  }

  /** A key id is served exactly when a usable entry has it. */
  lemma {:induction false} ServedIffOffered(set_: seq<Jwk>, check: PointCheck, kid: string)
    ensures kid in KeysOf(set_, check) <==> exists i :: 0 <= i < |set_| && Offers(set_[i], kid, check)
  {
    hide KeyOf;
    if set_ != [] {
      var n := |set_| - 1;
      ServedIffOffered(set_[..n], check, kid);
      if i :| 0 <= i < n && Offers(set_[..n][i], kid, check) { assert Offers(set_[i], kid, check); }
      if i :| 0 <= i < |set_| && Offers(set_[i], kid, check) {
        if i < n { assert Offers(set_[..n][i], kid, check); }
      }
    }
  }

  /** Of several usable entries with one key id, the last is the key. */
  lemma {:induction false} LastOfferWins(set_: seq<Jwk>, check: PointCheck, i: nat)
    requires i < |set_| && Offers(set_[i], set_[i].kid, check)
    requires forall j :: i < j < |set_| ==> !Offers(set_[j], set_[i].kid, check)
    ensures set_[i].kid in KeysOf(set_, check) && KeysOf(set_, check)[set_[i].kid] == KeyOf(set_[i], check).value
  {
    hide KeyOf;
    var n := |set_| - 1;
    if i < n {
      assert !Offers(set_[n], set_[i].kid, check);
      LastOfferWins(set_[..n], check, i);
    }
  }

  /** An entry that is unusable, wherever it stands, hides no other key. */
  lemma {:induction false} UnusableEntryHidesNothing(a: seq<Jwk>, bad: Jwk, b: seq<Jwk>, check: PointCheck)
    requires !Offers(bad, bad.kid, check)
    ensures KeysOf(a + [bad] + b, check) == KeysOf(a + b, check)
  {
    hide KeyOf;
    if b == [] {
      assert a + [bad] + b == a + [bad] && a + b == a;
      assert (a + [bad])[..|a|] == a;
    } else {
      var n := |b| - 1;
      UnusableEntryHidesNothing(a, bad, b[..n], check);
      assert (a + [bad] + b)[..|a| + 1 + n] == a + [bad] + b[..n];
      assert (a + b)[..|a| + n] == a + b[..n];
    }
  }

  // ---- RSA ----------------------------------------------------------------

  const TWO63 := 0x8000_0000_0000_0000

  /** The integers of an RSA entry, as they are written: the modulus, and the exponent if it has at most eight bytes. */
  lemma {:induction false} RsaNumbers(k: Jwk, n: Bytes, e: Bytes, check: PointCheck)
    requires k.kty == "RSA" && n != [] && e != []
    requires k.n == Segment(n) && k.e == Segment(e)
    ensures KeyOf(k, check)
         == if |e| > 8 then None
            else Some(Rsa(BigEndian(n), if BigEndian(e) < TWO63 then BigEndian(e) else BigEndian(e) - 2 * TWO63))
  {
    DecodeInvertsEncode(n, RAW_URL);
    DecodeInvertsEncode(e, RAW_URL);
    hide BigEndian, Decode;
    assert k.n != "" && k.e != "";
  }

  /** An RSA key written at any width that holds it reads back as itself. */
  lemma {:induction false} RsaRoundTrip(k: Jwk, modulus: nat, exponent: nat, s: nat, t: nat, check: PointCheck)
    requires k.kty == "RSA" && 0 < s && 0 < t <= 8
    requires modulus < Power256(s) && exponent < Power256(t) && exponent < TWO63
    requires k.n == Segment(FixedBytes(modulus, s)) && k.e == Segment(FixedBytes(exponent, t))
    ensures KeyOf(k, check) == Some(Rsa(modulus, exponent))
  {
    hide FixedBytes, Segment, KeyOf, BigEndian, Power256;
    BigEndianInvertsFixedBytes(modulus, s);
    BigEndianInvertsFixedBytes(exponent, t);
    RsaNumbers(k, FixedBytes(modulus, s), FixedBytes(exponent, t), check);
  }

  /** Leading zeros change nothing in a modulus, nor in an exponent up to eight bytes. */
  lemma {:induction false} RsaPaddingDoesNotMatter(k: Jwk, l: Jwk, n: Bytes, e: Bytes, m: nat, p: nat, check: PointCheck)
    requires k.kty == l.kty == "RSA" && n != [] && e != []
    requires k.n == Segment(n) && k.e == Segment(e)
    requires l.n == Segment(Zeros(m) + n) && l.e == Segment(Zeros(p) + e)
    ensures KeyOf(l, check) == if p + |e| <= 8 then KeyOf(k, check) else None
  {
    hide Segment, KeyOf, BigEndian;
    RsaNumbers(k, n, e, check);
    RsaNumbers(l, Zeros(m) + n, Zeros(p) + e, check);
    LeadingZerosDoNotCount(m, n);
    LeadingZerosDoNotCount(p, e);
  }

  /** With a modulus that decodes, an RSA entry is refused exactly for an exponent missing, unreadable or not 1 to 8 bytes. */
  lemma {:induction false} RsaRefusedExactly(k: Jwk, check: PointCheck)
    requires k.kty == "RSA" && DecodeSegment(k.n).Some?
    ensures KeyOf(k, check).None? <==> DecodeSegment(k.e).None? || !(1 <= |DecodeSegment(k.e).value| <= 8)
    ensures DecodeSegment("").None?
  {
    hide Decode, BigEndian;
  }

  /** Any other type is refused, a symmetric key among them. */
  lemma OnlyTwoTypes(k: Jwk, check: PointCheck)
    ensures KeyOf(k, check).Some? && KeyOf(k, check).value.Rsa? ==> k.kty == "RSA"
    ensures KeyOf(k, check).Some? && KeyOf(k, check).value.Ec? ==> k.kty == "EC"
  {
    hide Decode, BigEndian;
  }
}
