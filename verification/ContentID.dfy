/** Content ids: canonical UUIDv7 text (contentref/id.go; RFC 9562, sections 4.1 and 5.7). */
module ContentID {
  import opened Arith
  import opened Lex
  import opened Text
  import opened Decimal

  type byte = b: int | 0 <= b < 256

  const TWO_48: int := 0x1_0000_0000_0000

  // ---------------------------------------------------------------- text

  predicate IsHex(ch: char) { '0' <= ch <= '9' || 'a' <= ch <= 'f' }

  /** ValidateID accepts. */
  predicate ValidID(id: string) {
    && |id| == 36
    && (forall i | 0 <= i < 36 :: if i in {8, 13, 18, 23} then id[i] == '-' else IsHex(id[i]))
    && id[14] == '7' && id[19] in "89ab"
  }

  function HexDigit(n: int): char
    requires 0 <= n < 16
  {
    if n < 10 then (n + '0' as int) as char else (n - 10 + 'a' as int) as char
  }

  /** hex.EncodeToString. */
  function Hex(bytes: seq<byte>): (s: string)
    ensures |s| == 2 * |bytes|
  {
    if bytes == [] then "" else
      var last := bytes[|bytes| - 1];
      Hex(bytes[..|bytes| - 1]) + [HexDigit(last / 16), HexDigit(last % 16)]
  }

  lemma {:induction false} HexAt(bytes: seq<byte>, i: nat)
    requires i < |bytes|
    ensures Hex(bytes)[2 * i] == HexDigit(bytes[i] / 16) && Hex(bytes)[2 * i + 1] == HexDigit(bytes[i] % 16)
    decreases bytes
  {
    hide HexDigit;
    if i < |bytes| - 1 { HexAt(bytes[..|bytes| - 1], i); }
  }

  function Dashed(h: string): string
    requires |h| == 32
  {
    h[..8] + "-" + h[8..12] + "-" + h[12..16] + "-" + h[16..20] + "-" + h[20..]
  }

  // ---------------------------------------------------------------- layout

  /** n's last k base-256 digits, most significant first. */
  function BigEndian(n: nat, k: nat): (bytes: seq<byte>)
    ensures |bytes| == k
  {
    if k == 0 then [] else BigEndian(n / 256, k - 1) + [n % 256]
  }

  /** The 16 bytes of a UUIDv7: 48 timestamp bits, then version and variant over the other ten bytes. */
  function Layout(millis: int, tail: seq<byte>): (u: seq<byte>)
    requires |tail| == 10
    ensures |u| == 16
  {
    BigEndian(millis % TWO_48, 6) + [0x70 + tail[0] % 16, tail[1], 0x80 + tail[2] % 64] + tail[3..]
  }

  function IDOf(millis: int, tail: seq<byte>): string
    requires |tail| == 10
  {
    Dashed(Hex(Layout(millis, tail)))
  }

  lemma {:induction false} BigEndianPrefix(n: nat, k: nat)
    ensures BigEndian(n, k + 2)[..k] == BigEndian(n / 65536, k)
  {
    assert n / 256 / 256 == n / 65536;
    assert BigEndian(n, k + 2)[..k] == BigEndian(n / 256, k + 1)[..k] == BigEndian(n / 256 / 256, k);
  }

  // ---------------------------------------------------------------- bits

  function And(a: nat, b: nat): nat {
    if a == 0 || b == 0 then 0 else 2 * And(a / 2, b / 2) + if a % 2 == 1 && b % 2 == 1 then 1 else 0
  }

  function Or(a: nat, b: nat): nat {
    if a == 0 || b == 0 then a + b else 2 * Or(a / 2, b / 2) + if a % 2 == 1 || b % 2 == 1 then 1 else 0
  }

  lemma AndStep(n: nat, mask: nat)
    ensures And(n, 2 * mask + 1) == 2 * And(n / 2, mask) + n % 2
  {
    if n == 0 { assert And(n / 2, mask) == 0; }
  }

  lemma OrStep(fixed: nat, low: nat)
    ensures Or(2 * fixed, low) == 2 * Or(fixed, low / 2) + low % 2
  {
    if fixed == 0 || low == 0 { assert Or(fixed, low / 2) == fixed + low / 2; }
  }

  /** The masks keep the low bits and add the fixed ones. */
  lemma MasksAdd(b: byte)
    ensures Or(0x70, And(b, 0x0f)) == 0x70 + b % 16
    ensures Or(0x80, And(b, 0x3f)) == 0x80 + b % 64
  {
    hide And, Or;
    FourBits(b);
    SixBits(b);
    AboveFour(7, b % 16);
    AboveSix(b % 64);
  }

  lemma SixBits(n: nat)
    ensures And(n, 0x3f) == n % 64
  {
    hide And;
    var n1 := n / 2;
    var n2 := n1 / 2;
    FourBits(n2);
    AndStep(n1, 15);
    AndStep(n, 31);
    assert n == 64 * (n2 / 16) + And(n, 0x3f);
  }

  lemma FourBits(n: nat)
    ensures And(n, 0x0f) == n % 16
  {
    var n1 := n / 2;
    var n2 := n1 / 2;
    var n3 := n2 / 2;
    assert And(n3 / 2, 0) == 0;
    hide And;
    AndStep(n3, 0);
    AndStep(n2, 1);
    AndStep(n1, 3);
    AndStep(n, 7);
    assert n == 16 * (n3 / 2) + And(n, 0x0f);
  }

  /** Four bits below a multiple of 16. */
  lemma AboveFour(high: nat, x: nat)
    requires x < 16
    ensures Or(16 * high, x) == 16 * high + x
  {
    hide Or;
    var x1 := x / 2;
    AboveTwo(high, x1 / 2);
    OrStep(4 * high, x1);
    OrStep(8 * high, x);
  }

  lemma AboveTwo(high: nat, x: nat)
    requires x < 4
    ensures Or(4 * high, x) == 4 * high + x
  {
    assert Or(high, 0) == high;
    hide Or;
    OrStep(high, x / 2);
    OrStep(2 * high, x);
  }

  lemma AboveSix(y: nat)
    requires y < 64
    ensures Or(0x80, y) == 0x80 + y
  {
    hide Or;
    var y1 := y / 2;
    var y2 := y1 / 2;
    AboveFour(2, y2);
    OrStep(32, y1);
    OrStep(64, y);
  }

  /** v7: the timestamp as uint64(ms)<<16 is written first, then the fixed bits, in a 16-byte array. */
  method V7(millis: int, tail: seq<byte>) returns (id: string)
    requires |tail| == 10
    ensures id == IDOf(millis, tail)
  {
    hide And, Or, Hex, BigEndian;
    var shifted := millis % TWO_64 * 65536 % TWO_64;
    var ts := BigEndian(shifted, 8);
    ShiftedPrefix(millis);
    var u := new byte[16];
    forall i | 0 <= i < 16 { u[i] := if i < 6 then ts[i] else tail[i - 6]; }
    MasksAdd(u[6]);
    MasksAdd(u[8]);
    u[6] := Or(0x70, And(u[6], 0x0f));
    u[8] := Or(0x80, And(u[8], 0x3f));
    assert u[..] == Layout(millis, tail) by {
      assert forall i | 0 <= i < 6 :: u[..][i] == ts[..6][i];
    }
    hide Layout;
    var h := Hex(u[..]);
    id := h[..8] + "-" + h[8..12] + "-" + h[12..16] + "-" + h[16..20] + "-" + h[20..];
  }

  lemma ShiftedPrefix(millis: int)
    ensures BigEndian(millis % TWO_64 * 65536 % TWO_64, 8)[..6] == BigEndian(millis % TWO_48, 6)
  {
    ShiftedIs(millis);
    hide BigEndian;
    BigEndianPrefix(millis % TWO_48 * 65536, 6);
  }

  lemma ShiftedIs(millis: int)
    ensures millis % TWO_64 * 65536 % TWO_64 == millis % TWO_48 * 65536
    ensures millis % TWO_48 * 65536 / 65536 == millis % TWO_48
  {
    var m := millis % TWO_64;
    var q, r := m / TWO_48, m % TWO_48;
    ModIs(millis, TWO_48, 65536 * (millis / TWO_64) + q, r);
    ModIs(m * 65536, TWO_64, q, r * 65536);
    ModIs(r * 65536, 65536, r, 0);
  }

  /** Every result is a valid id, whatever the time and the other bytes. */
  lemma V7IsValid(millis: int, tail: seq<byte>)
    requires |tail| == 10
    ensures ValidID(IDOf(millis, tail))
  {
    var u := Layout(millis, tail);
    assert u[6] / 16 == 7 && u[8] / 16 in {8, 9, 10, 11};
    HexDigits(u);
    DashedAt(Hex(u));
    HexAt(u, 6);
    HexAt(u, 8);
    hide Hex, IsHex, Layout, Dashed;
  }

  /** Four dashes are put in. */
  lemma DashedAt(h: string)
    requires |h| == 32
    ensures |Dashed(h)| == 36
    ensures forall i | 0 <= i < 36 ::
              if i in {8, 13, 18, 23} then Dashed(h)[i] == '-'
              else Dashed(h)[i] in h
    ensures Dashed(h)[14] == h[12] && Dashed(h)[19] == h[16]
  {
    forall i | 0 <= i < 36 && i !in {8, 13, 18, 23} ensures Dashed(h)[i] in h {
      assert Dashed(h)[i] == h[if i < 8 then i else if i < 13 then i - 1 else if i < 18 then i - 2 else
                               if i < 23 then i - 3 else i - 4];
    }
  }

  lemma HexDigits(bytes: seq<byte>)
    ensures forall ch <- Hex(bytes) :: IsHex(ch)
  {
    forall i | 0 <= i < 2 * |bytes| ensures IsHex(Hex(bytes)[i]) {
      HexAt(bytes, i / 2);
      assert Hex(bytes)[i] == HexDigit(if i % 2 == 0 then bytes[i / 2] / 16 else bytes[i / 2] % 16);
    }
  }

  // ---------------------------------------------------------------- order

  function HexPair(b: byte): string { [HexDigit(b / 16), HexDigit(b % 16)] }

  lemma HexOfBigEndian(n: nat, k: nat)
    requires k > 0
    ensures Hex(BigEndian(n, k)) == Hex(BigEndian(n / 256, k - 1)) + HexPair(n % 256)
  {
    assert BigEndian(n, k)[..k - 1] == BigEndian(n / 256, k - 1);
  }

  lemma {:induction false} BigEndianOrder(a: nat, b: nat, k: nat)
    requires a < b && BigEndianFits(b, k)
    ensures k > 0 && Less(Hex(BigEndian(a, k)), Hex(BigEndian(b, k)))
    decreases k
  {
    hide Hex, Less, BigEndian, HexPair;
    HexOfBigEndian(a, k);
    HexOfBigEndian(b, k);
    var hx, hy := Hex(BigEndian(a / 256, k - 1)), Hex(BigEndian(b / 256, k - 1));
    if a / 256 < b / 256 {
      BigEndianOrder(a / 256, b / 256, k - 1);
      LessBeforeSuffix(hx, hy, HexPair(a % 256), HexPair(b % 256));
    } else {
      DigitsOrder(a % 256, b % 256);
      LessAfterPrefix(hx, HexPair(a % 256), HexPair(b % 256));
    }
  }

  predicate BigEndianFits(n: nat, k: nat) { if k == 0 then n == 0 else BigEndianFits(n / 256, k - 1) }

  lemma DigitsOrder(a: byte, b: byte)
    requires a < b
    ensures Less(HexPair(a), HexPair(b))
  {
    var x, y := HexPair(a), HexPair(b);
    assert x[1..] == [HexDigit(a % 16)] && y[1..] == [HexDigit(b % 16)];
    assert x[1..][1..] == [];
  }

  /** A smaller timestamp gives a smaller id string, whatever the other bytes. */
  lemma V7IsOrdered(a: int, b: int, s: seq<byte>, t: seq<byte>)
    requires 0 <= a < b < TWO_48 && |s| == 10 && |t| == 10
    ensures Less(IDOf(a, s), IDOf(b, t))
  {
    hide Hex, Layout, BigEndian, Dashed, Less, BigEndianFits;
    SixBytesFit(b);
    BigEndianOrder(a, b, 6);
    TimePrefix(a, s);
    TimePrefix(b, t);
    DashedOrder(Hex(Layout(a, s)), Hex(Layout(b, t)));
  }

  /** The timestamp's text. */
  function TimeText(millis: int): string {
    var x := Hex(BigEndian(millis % TWO_48, 6));
    x[..8] + "-" + x[8..]
  }

  /** The text of the other ten bytes, under the fixed bits. */
  function TailText(tail: seq<byte>): string
    requires |tail| == 10
  {
    var y := Hex([0x70 + tail[0] % 16, tail[1], 0x80 + tail[2] % 64] + tail[3..]);
    "-" + y[..4] + "-" + y[4..8] + "-" + y[8..]
  }

  /** The order of any two ids: by timestamp modulo 2^48, and within one millisecond by the other bytes. */
  lemma V7Order(a: int, b: int, s: seq<byte>, t: seq<byte>)
    requires |s| == 10 && |t| == 10
    ensures Less(IDOf(a, s), IDOf(b, t)) <==>
              a % TWO_48 < b % TWO_48 || (a % TWO_48 == b % TWO_48 && Less(TailText(s), TailText(t)))
  {
    hide IDOf, Less;
    var x, y := a % TWO_48, b % TWO_48;
    TimeWraps(a, s);
    TimeWraps(b, t);
    if x < y {
      V7IsOrdered(x, y, s, t);
    } else if y < x {
      V7IsOrdered(y, x, t, s);
      LessAsymmetric(IDOf(x, s), IDOf(y, t));
    } else {
      IDText(x, s);
      IDText(x, t);
      hide TimeText;
      LessAfterPrefix(TimeText(x), TailText(s), TailText(t));
    }
  }

  lemma TimeWraps(millis: int, tail: seq<byte>)
    requires |tail| == 10
    ensures IDOf(millis % TWO_48, tail) == IDOf(millis, tail)
  {
    assert millis % TWO_48 % TWO_48 == millis % TWO_48;
  }

  lemma IDText(millis: int, tail: seq<byte>)
    requires |tail| == 10
    ensures IDOf(millis, tail) == TimeText(millis) + TailText(tail)
  {
    var time := BigEndian(millis % TWO_48, 6);
    var rest := [0x70 + tail[0] % 16, tail[1], 0x80 + tail[2] % 64] + tail[3..];
    assert Layout(millis, tail) == time + rest;
    HexConcat(time, rest);
    hide Hex, BigEndian, Layout;
    DashedConcat(Hex(time), Hex(rest));
  }

  lemma DashedConcat(x: string, y: string)
    requires |x| == 12 && |y| == 20
    ensures Dashed(x + y) == (x[..8] + "-" + x[8..]) + ("-" + y[..4] + "-" + y[4..8] + "-" + y[8..])
  {
    var h := x + y;
    assert h[..8] == x[..8] && h[8..12] == x[8..] && h[12..16] == y[..4] && h[16..20] == y[4..8] && h[20..] == y[8..];
  }

  lemma {:induction false} HexConcat(a: seq<byte>, b: seq<byte>)
    ensures Hex(a + b) == Hex(a) + Hex(b)
    decreases b
  {
    if b == [] {
      assert a + b == a;
    } else {
      assert (a + b)[..|a + b| - 1] == a + b[..|b| - 1];
      HexConcat(a, b[..|b| - 1]);
    }
  }

  /** Hex strings that differ in order within the first twelve digits keep it once dashed. */
  lemma DashedOrder(x: string, y: string)
    requires |x| == |y| == 32 && Less(x[..12], y[..12])
    ensures Less(Dashed(x), Dashed(y))
  {
    hide Less;
    var restx := "-" + x[12..16] + "-" + x[16..20] + "-" + x[20..];
    var resty := "-" + y[12..16] + "-" + y[16..20] + "-" + y[20..];
    assert x[..12] == x[..8] + x[8..12] && y[..12] == y[..8] + y[8..12];
    LessParts(x[..8], x[8..12], y[..8], y[8..12]);
    assert Dashed(x) == x[..8] + ("-" + x[8..12] + restx) == x[..8] + "-" + (x[8..12] + restx);
    assert Dashed(y) == y[..8] + ("-" + y[8..12] + resty) == y[..8] + "-" + (y[8..12] + resty);
    if Less(x[..8], y[..8]) {
      LessBeforeSuffix(x[..8], y[..8], "-" + x[8..12] + restx, "-" + y[8..12] + resty);
    } else {
      LessBeforeSuffix(x[8..12], y[8..12], restx, resty);
      LessAfterPrefix(x[..8] + "-", x[8..12] + restx, y[8..12] + resty);
    }
  }

  lemma SixBytesFit(n: int)
    requires 0 <= n < TWO_48
    ensures BigEndianFits(n, 6)
  {
    var n1 := n / 256;
    var n2 := n1 / 256;
    var n3 := n2 / 256;
    var n4 := n3 / 256;
    var n5 := n4 / 256;
    assert n5 / 256 == 0;
    assert BigEndianFits(n5, 1);
    assert BigEndianFits(n4, 2);
    assert BigEndianFits(n3, 3);
    assert BigEndianFits(n2, 4);
    assert BigEndianFits(n1, 5);
  }

  /** The first twelve hex digits are the timestamp's. */
  lemma TimePrefix(millis: int, tail: seq<byte>)
    requires |tail| == 10 && 0 <= millis < TWO_48
    ensures Hex(Layout(millis, tail))[..12] == Hex(BigEndian(millis, 6))
  {
    hide Hex, BigEndian;
    assert millis % TWO_48 == millis;
    var rest := Layout(millis, tail)[6..];
    assert Layout(millis, tail) == BigEndian(millis, 6) + rest;
    HexConcat(BigEndian(millis, 6), rest);
  }

  /** The order of equal-length strings, part by part. */
  lemma {:induction false} LessParts(x: string, x': string, y: string, y': string)
    requires |x| == |y|
    ensures Less(x + x', y + y') ==> Less(x, y) || (x == y && Less(x', y'))
    decreases x
  {
    if x == [] {
      assert x + x' == x' && y + y' == y';
    } else {
      assert (x + x')[1..] == x[1..] + x' && (y + y')[1..] == y[1..] + y';
      LessParts(x[1..], x', y[1..], y');
      assert x == [x[0]] + x[1..] && y == [y[0]] + y[1..];
    }
  }

  // ---------------------------------------------------------------- legacy ids

  /** 2010-01-01 UTC in milliseconds. */
  const LEGACY_EPOCH: int := 1_262_304_000_000
  const MILLISECOND: int := 1_000_000

  /** The undated timestamp: the epoch plus legacyID milliseconds as a nanosecond Duration. */
  function UndatedMillis(legacyID: int): int {
    (LEGACY_EPOCH * MILLISECOND + Wrap64(legacyID * MILLISECOND)) / MILLISECOND
  }

  predicate ValidNamespace(ns: string) {
    0 < |ns| <= 64 && forall ch <- ns :: 'a' <= ch <= 'z' || '0' <= ch <= '9' || ch == '_' || ch == '-'
  }

  /** The other ten bytes of a legacy id. */
  function Hashed(ns: string, kind: string, legacyID: int, hash: string -> seq<byte>): (tail: seq<byte>)
    requires forall s :: |hash(s)| == 10
    ensures |tail| == 10
  {
    hash(ns + "/" + kind + "/" + Itoa(legacyID))
  }

  /** LegacyID; None panics. hash gives the first ten bytes of the SHA-256, createdAt None is the zero time. */
  function LegacyID(ns: string, kind: string, legacyID: int, createdAt: Option<int>,
                    hash: string -> seq<byte>): Option<string>
    requires forall s :: |hash(s)| == 10
  {
    if !ValidNamespace(ns) then None else
      var millis := if createdAt.Some? then createdAt.value else UndatedMillis(legacyID);
      Some(IDOf(millis, Hashed(ns, kind, legacyID, hash)))
  }

  /** The text of an undated id, and what decides its place among others. */
  ghost predicate Undated(id: Option<string>, millis: int, tail: seq<byte>) {
    id.Some? && ValidID(id.value) && |tail| == 10 && id.value == IDOf(millis, tail)
  }

  lemma LegacyIDIs(ns: string, kind: string, n: int, hash: string -> seq<byte>)
    requires (forall s :: |hash(s)| == 10) && ValidNamespace(ns)
    ensures Undated(LegacyID(ns, kind, n, None, hash), UndatedMillis(n), Hashed(ns, kind, n, hash))
  {
    V7IsValid(UndatedMillis(n), Hashed(ns, kind, n, hash));
  }

  /** All undated legacy ids, of any kind and namespace: they are ordered by their wrapped timestamps, and
      by their hashes within one millisecond. */
  lemma LegacyIDOrder(ns: string, kind: string, a: int, ns': string, kind': string, b: int,
                      hash: string -> seq<byte>)
    requires (forall s :: |hash(s)| == 10) && ValidNamespace(ns) && ValidNamespace(ns')
    ensures var x, y := LegacyID(ns, kind, a, None, hash), LegacyID(ns', kind', b, None, hash);
            var at, bt := UndatedMillis(a) % TWO_48, UndatedMillis(b) % TWO_48;
            && x.Some? && y.Some? && ValidID(x.value) && ValidID(y.value)
            && (Less(x.value, y.value) <==>
                  at < bt || (at == bt && Less(TailText(Hashed(ns, kind, a, hash)),
                                               TailText(Hashed(ns', kind', b, hash)))))
  {
    hide IDOf, ValidID, Less, TailText, LegacyID, UndatedMillis;
    LegacyIDIs(ns, kind, a, hash);
    LegacyIDIs(ns', kind', b, hash);
    V7Order(UndatedMillis(a), UndatedMillis(b),
            Hashed(ns, kind, a, hash), Hashed(ns', kind', b, hash));
  }

  /** While the milliseconds fit the Duration, undated ids are in legacy-id order exactly when the two lie on
      the same side of 1970. */
  lemma LegacyIDsAreOrdered(ns: string, kind: string, a: int, ns': string, kind': string, b: int,
                            hash: string -> seq<byte>)
    requires (forall s :: |hash(s)| == 10) && ValidNamespace(ns) && ValidNamespace(ns')
    requires MIN_INT64 <= a * MILLISECOND && a < b && b * MILLISECOND <= MAX_INT64
    ensures var x, y := LegacyID(ns, kind, a, None, hash), LegacyID(ns', kind', b, None, hash);
            && x.Some? && y.Some? && ValidID(x.value) && ValidID(y.value)
            && (Less(x.value, y.value) <==> a >= -LEGACY_EPOCH || b < -LEGACY_EPOCH)
  {
    LegacyIDOrder(ns, kind, a, ns', kind', b, hash);
    InRangeMillis(a);
    InRangeMillis(b);
  }

  lemma InRangeMillis(n: int)
    requires MIN_INT64 <= n * MILLISECOND <= MAX_INT64
    ensures UndatedMillis(n) == LEGACY_EPOCH + n
    ensures UndatedMillis(n) % TWO_48 == if n >= -LEGACY_EPOCH then LEGACY_EPOCH + n else LEGACY_EPOCH + n + TWO_48
  {}

  lemma OverflowMillis()
    ensures UndatedMillis(18446744073710) == UndatedMillis(0) == LEGACY_EPOCH
    ensures UndatedMillis(0) % TWO_48 < UndatedMillis(1) % TWO_48
  {}

  /** Past the Duration the order breaks: this id dates to the epoch itself, so it sorts before id 1. */
  lemma OverflowOrderBreaks(ns: string, kind: string, ns': string, kind': string, hash: string -> seq<byte>)
    requires (forall s :: |hash(s)| == 10) && ValidNamespace(ns) && ValidNamespace(ns')
    ensures UndatedMillis(18446744073710) == UndatedMillis(0)
    ensures var x, y := LegacyID(ns, kind, 18446744073710, None, hash), LegacyID(ns', kind', 1, None, hash);
            x.Some? && y.Some? && Less(x.value, y.value)
  {
    hide *;
    OverflowMillis();
    LegacyIDOrder(ns, kind, 18446744073710, ns', kind', 1, hash);
  }

  /** Around 1970 the order breaks: one millisecond before it wraps to the last timestamp. */
  lemma BeforeEpochOrderBreaks(s: seq<byte>, t: seq<byte>)
    requires |s| == 10 && |t| == 10
    ensures Less(IDOf(UndatedMillis(-LEGACY_EPOCH), t), IDOf(UndatedMillis(-LEGACY_EPOCH - 1), s))
  {
    hide IDOf, Less, TailText;
    V7Order(0, -1, t, s);
  }
}
