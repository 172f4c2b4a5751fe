/** Reading content ids back: every valid id is a v7 result, and a legacy id tells its row apart. */
module IDReading {
  import opened Arith
  import opened Text
  import opened Decimal
  import opened ContentID

  // ---------------------------------------------------------------- hex and dashes

  function HexValue(ch: char): int
    requires IsHex(ch)
  {
    if ch <= '9' then ch as int - '0' as int else ch as int - 'a' as int + 10
  }

  lemma HexValueOfDigit(n: int)
    requires 0 <= n < 16
    ensures IsHex(HexDigit(n)) && HexValue(HexDigit(n)) == n
  {}

  lemma HexDigitOfValue(ch: char)
    requires IsHex(ch)
    ensures 0 <= HexValue(ch) < 16 && HexDigit(HexValue(ch)) == ch
  {}

  predicate AllHex(h: string) { |h| % 2 == 0 && forall ch <- h :: IsHex(ch) }

  function HexByte(a: char, b: char): byte
    requires IsHex(a) && IsHex(b)
  {
    HexDigitOfValue(a);
    HexDigitOfValue(b);
    16 * HexValue(a) + HexValue(b)
  }

  /** hex.DecodeString. */
  function UnHex(h: string): (bytes: seq<byte>)
    requires AllHex(h)
  {
    seq(|h| / 2, i requires 0 <= i < |h| / 2 =>
      assert h[2 * i] in h && h[2 * i + 1] in h;
      HexByte(h[2 * i], h[2 * i + 1]))
  }

  lemma UnHexHex(bytes: seq<byte>)
    ensures AllHex(Hex(bytes)) && UnHex(Hex(bytes)) == bytes
  {
    var h := Hex(bytes);
    HexDigits(bytes);
    forall i | 0 <= i < |bytes|
      ensures IsHex(h[2 * i]) && IsHex(h[2 * i + 1]) && HexByte(h[2 * i], h[2 * i + 1]) == bytes[i]
    {
      HexAt(bytes, i);
      HexValueOfDigit(bytes[i] / 16);
      HexValueOfDigit(bytes[i] % 16);
    }
  }

  lemma HexUnHex(h: string)
    requires AllHex(h)
    ensures Hex(UnHex(h)) == h
  {
    var bytes := UnHex(h);
    forall k | 0 <= k < |h| ensures Hex(bytes)[k] == h[k] {
      var i := k / 2;
      assert h[2 * i] in h && h[2 * i + 1] in h;
      HexAt(bytes, i);
      HexByteDigits(h[2 * i], h[2 * i + 1]);
    }
  }

  lemma HexByteDigits(a: char, b: char)
    requires IsHex(a) && IsHex(b)
    ensures HexDigit(HexByte(a, b) / 16) == a && HexDigit(HexByte(a, b) % 16) == b
  {
    HexDigitOfValue(a);
    HexDigitOfValue(b);
    var n := HexByte(a, b);
    assert n / 16 == HexValue(a) && n % 16 == HexValue(b);
  }

  function Undashed(id: string): (h: string)
    requires |id| == 36
    ensures |h| == 32
  {
    id[..8] + id[9..13] + id[14..18] + id[19..23] + id[24..]
  }

  lemma UndashedDashed(h: string)
    requires |h| == 32
    ensures |Dashed(h)| == 36 && Undashed(Dashed(h)) == h
  {
    var id := Dashed(h);
    assert id[..8] == h[..8] && id[9..13] == h[8..12] && id[14..18] == h[12..16] && id[19..23] == h[16..20]
           && id[24..] == h[20..];
  }

  lemma DashedUndashed(id: string)
    requires ValidID(id)
    ensures Dashed(Undashed(id)) == id && AllHex(Undashed(id))
    ensures Undashed(id)[12] == '7' && Undashed(id)[16] in "89ab"
  {
    var h := Undashed(id);
    assert h[..8] == id[..8] && h[8..12] == id[9..13] && h[12..16] == id[14..18] && h[16..20] == id[19..23]
           && h[20..] == id[24..];
    assert [id[8]] == [id[13]] == [id[18]] == [id[23]] == "-";
    assert forall ch <- id[..8] + id[9..13] + id[14..18] + id[19..23] + id[24..] :: IsHex(ch);
  }

  // ---------------------------------------------------------------- big-endian numbers

  function FromBigEndian(bytes: seq<byte>): nat {
    if bytes == [] then 0 else 256 * FromBigEndian(bytes[..|bytes| - 1]) + bytes[|bytes| - 1]
  }

  lemma {:induction false} FromBigEndianInverts(n: nat, k: nat)
    requires BigEndianFits(n, k)
    ensures FromBigEndian(BigEndian(n, k)) == n
    decreases k
  {
    if k > 0 {
      FromBigEndianInverts(n / 256, k - 1);
      assert BigEndian(n, k)[..k - 1] == BigEndian(n / 256, k - 1);
    }
  }

  lemma {:induction false} BigEndianInverts(bytes: seq<byte>)
    ensures BigEndian(FromBigEndian(bytes), |bytes|) == bytes && BigEndianFits(FromBigEndian(bytes), |bytes|)
    decreases bytes
  {
    if bytes != [] {
      var init, last := bytes[..|bytes| - 1], bytes[|bytes| - 1];
      BigEndianInverts(init);
      assert FromBigEndian(bytes) / 256 == FromBigEndian(init) && FromBigEndian(bytes) % 256 == last;
      assert bytes == init + [last];
    }
  }

  lemma SixBytesBound(n: nat)
    requires BigEndianFits(n, 6)
    ensures n < TWO_48
  {
    var n1 := n / 256;
    var n2 := n1 / 256;
    var n3 := n2 / 256;
    var n4 := n3 / 256;
    var n5 := n4 / 256;
    assert BigEndianFits(n1, 5);
    assert BigEndianFits(n2, 4);
    assert BigEndianFits(n3, 3);
    assert BigEndianFits(n4, 2);
    assert BigEndianFits(n5, 1);
    assert BigEndianFits(n5 / 256, 0);
  }

  // ---------------------------------------------------------------- ids

  /** An id's 16 bytes. */
  function BytesOf(id: string): (u: seq<byte>)
    requires ValidID(id)
    ensures |u| == 16
  {
    DashedUndashed(id);
    UnHex(Undashed(id))
  }

  /** The milliseconds an id carries. */
  function TimestampOf(id: string): nat
    requires ValidID(id)
  {
    FromBigEndian(BytesOf(id)[..6])
  }

  /** The other ten bytes, fixed bits included. */
  function TailOf(id: string): (tail: seq<byte>)
    requires ValidID(id)
    ensures |tail| == 10
  {
    BytesOf(id)[6..]
  }

  /** The tail under the fixed version and variant bits. */
  function Fixed(tail: seq<byte>): (fixed: seq<byte>)
    requires |tail| == 10
    ensures |fixed| == 10
  {
    [0x70 + tail[0] % 16, tail[1], 0x80 + tail[2] % 64] + tail[3..]
  }

  /** An id carries its timestamp modulo 2^48 and every other bit it was made of. */
  lemma IDReadsBack(millis: int, tail: seq<byte>)
    requires |tail| == 10
    ensures ValidID(IDOf(millis, tail))
    ensures TimestampOf(IDOf(millis, tail)) == millis % TWO_48 && TailOf(IDOf(millis, tail)) == Fixed(tail)
  {
    var u := Layout(millis, tail);
    V7IsValid(millis, tail);
    BytesOfID(millis, tail);
    SixBytesFit(millis % TWO_48);
    FromBigEndianInverts(millis % TWO_48, 6);
    assert u == BigEndian(millis % TWO_48, 6) + Fixed(tail);
    hide BigEndian, FromBigEndian, BytesOf, Layout, IDOf, Fixed, ValidID;
    assert u[..6] == BigEndian(millis % TWO_48, 6) && u[6..] == Fixed(tail);
  }

  lemma BytesOfID(millis: int, tail: seq<byte>)
    requires |tail| == 10 && ValidID(IDOf(millis, tail))
    ensures BytesOf(IDOf(millis, tail)) == Layout(millis, tail)
  {
    hide Layout, Dashed, ValidID, Undashed, Hex, UnHex, AllHex;
    UndashedDashed(Hex(Layout(millis, tail)));
    UnHexHex(Layout(millis, tail));
  }

  /** Every string ValidateID accepts is a v7 result: the grammar is exactly the layout. */
  lemma ValidIDsAreV7(id: string)
    requires ValidID(id)
    ensures TimestampOf(id) < TWO_48 && IDOf(TimestampOf(id), TailOf(id)) == id
  {
    DashedUndashed(id);
    HexUnHex(Undashed(id));
    var u := BytesOf(id);
    hide Hex, UnHex, AllHex, ValidID, Dashed, Undashed, BigEndian, FromBigEndian, Fixed, HexDigit;
    FixedBits(Undashed(id), u);
    BigEndianInverts(u[..6]);
    SixBytesBound(TimestampOf(id));
    assert u == u[..6] + u[6..];
    LayoutIs(TimestampOf(id), u[..6], u[6..]);
  }

  lemma LayoutIs(millis: nat, time: seq<byte>, tail: seq<byte>)
    requires millis < TWO_48 && |time| == 6 && time == BigEndian(millis, 6) && |tail| == 10 && Fixed(tail) == tail
    ensures Layout(millis, tail) == time + tail
  {
    assert millis % TWO_48 == millis;
  }

  lemma FixedBits(h: string, u: seq<byte>)
    requires |h| == 32 && |u| == 16 && Hex(u) == h && h[12] == '7' && h[16] in "89ab"
    ensures Fixed(u[6..]) == u[6..]
  {
    HexAt(u, 6);
    HexAt(u, 8);
    hide Hex;
    HexValueOfDigit(u[6] / 16);
    HexValueOfDigit(u[8] / 16);
    assert HexValue('7') == 7 && HexValue('8') == 8 && HexValue('9') == 9 && HexValue('a') == 10 && HexValue('b') == 11;
  }

  // ---------------------------------------------------------------- legacy ids

  /** The hashed text can be read in one way only, even when a kind holds slashes. */
  lemma LegacyTextIsUnique(ns: string, kind: string, n: int, ns': string, kind': string, n': int)
    requires '/' !in ns && '/' !in ns'
    requires ns + "/" + kind + "/" + Itoa(n) == ns' + "/" + kind' + "/" + Itoa(n')
    ensures ns == ns' && kind == kind' && n == n'
  {
    hide Itoa, Cut;
    var rest, rest' := kind + "/" + Itoa(n), kind' + "/" + Itoa(n');
    assert ns + "/" + kind + "/" + Itoa(n) == ns + ['/'] + rest;
    assert ns' + "/" + kind' + "/" + Itoa(n') == ns' + ['/'] + rest';
    CutJoined(ns, '/', rest);
    CutJoined(ns', '/', rest');
    NoSlashInItoa(n);
    NoSlashInItoa(n');
    LastCut(kind, Itoa(n), kind', Itoa(n'));
    ItoaInjective(n, n');
  }

  lemma NoSlashInItoa(n: int)
    ensures '/' !in Itoa(n)
  {
    var digits := Digits(if n < 0 then -n else n);
    assert AllDigits(digits) && (forall ch <- digits :: IsDigit(ch)) && !IsDigit('/');
    hide Digits;
  }

  lemma LastCut(a: string, x: string, b: string, y: string)
    requires '/' !in x && '/' !in y && a + "/" + x == b + "/" + y
    ensures a == b && x == y
  {
    var s := a + "/" + x;
    assert s[|a|] == '/' && s[|b|] == '/';
    forall k | |a| < k < |s| ensures s[k] != '/' { assert s[k] == x[k - |a| - 1] && x[k - |a| - 1] in x; }
    forall k | |b| < k < |s| ensures s[k] != '/' { assert s[k] == y[k - |b| - 1] && y[k - |b| - 1] in y; }
    assert |a| == |b|;
    assert s[..|a|] == a && s[..|b|] == b && s[|a| + 1..] == x && s[|b| + 1..] == y;
  }

  /** A legacy id carries its creation time; undated, the epoch and the legacy id in milliseconds. */
  lemma LegacyIDCarriesItsTime(ns: string, kind: string, n: int, createdAt: Option<int>, hash: string -> seq<byte>)
    requires (forall s :: |hash(s)| == 10) && ValidNamespace(ns)
    ensures var id := LegacyID(ns, kind, n, createdAt, hash);
            && id.Some? && ValidID(id.value)
            && (createdAt.Some? ==> TimestampOf(id.value) == createdAt.value % TWO_48)
            && (createdAt.None? && MIN_INT64 <= n * MILLISECOND <= MAX_INT64 ==>
                  TimestampOf(id.value) == (LEGACY_EPOCH + n) % TWO_48)
            && TailOf(id.value) == Fixed(hash(ns + "/" + kind + "/" + Itoa(n)))
  {
    hide IDOf, ValidID, UndatedMillis, TimestampOf, TailOf, Fixed, Itoa;
    IDReadsBack(if createdAt.Some? then createdAt.value else UndatedMillis(n), Hashed(ns, kind, n, hash));
    if MIN_INT64 <= n * MILLISECOND <= MAX_INT64 { InRangeMillis(n); }
  }

  /** Two different legacy rows, whatever their creation times, get different ids under some hash: nothing of
      namespace, kind and id is lost before hashing. */
  lemma LegacyRowsAreToldApart(ns: string, kind: string, n: int, at: Option<int>,
                               ns': string, kind': string, n': int, at': Option<int>)
    returns (hash: string -> seq<byte>)
    requires ValidNamespace(ns) && ValidNamespace(ns') && (ns, kind, n) != (ns', kind', n')
    ensures forall s :: |hash(s)| == 10
    ensures LegacyID(ns, kind, n, at, hash) != LegacyID(ns', kind', n', at', hash)
  {
    var text := ns + "/" + kind + "/" + Itoa(n);
    hash := (s: string) => if s == text then [0, 1, 0, 0, 0, 0, 0, 0, 0, 0] else [0, 0, 0, 0, 0, 0, 0, 0, 0, 0];
    if ns' + "/" + kind' + "/" + Itoa(n') == text {
      LegacyTextIsUnique(ns', kind', n', ns, kind, n);
    }
    TailsDiffer();
    hide *;
    LegacyIDCarriesItsTime(ns, kind, n, at, hash);
    LegacyIDCarriesItsTime(ns', kind', n', at', hash);
  }

  lemma TailsDiffer()
    ensures Fixed([0, 1, 0, 0, 0, 0, 0, 0, 0, 0]) != Fixed([0, 0, 0, 0, 0, 0, 0, 0, 0, 0])
  {
    assert Fixed([0, 1, 0, 0, 0, 0, 0, 0, 0, 0])[1] == 1 && Fixed([0, 0, 0, 0, 0, 0, 0, 0, 0, 0])[1] == 0;
  }

  // ---------------------------------------------------------------- the validating scans

  /** ValidateID's scan. */
  method ValidateID(id: string) returns (ok: bool)
    ensures ok <==> ValidID(id)
  {
    if |id| != 36 { return false; }
    for i := 0 to 36
      invariant forall j | 0 <= j < i :: if j in {8, 13, 18, 23} then id[j] == '-' else IsHex(id[j])
    {
      var c := id[i];
      match i {
        case 8 | 13 | 18 | 23 => if c != '-' { return false; }
        case _ => if !('0' <= c <= '9' || 'a' <= c <= 'f') { return false; }
      }
    }
    ok := id[14] == '7' && (id[19] == '8' || id[19] == '9' || id[19] == 'a' || id[19] == 'b');
  }

  /** validNamespace's scan. */
  method CheckNamespace(ns: string) returns (ok: bool)
    ensures ok <==> ValidNamespace(ns)
    ensures ok ==> 1 <= |ns| <= 64 && '/' !in ns
  {
    if ns == "" || |ns| > 64 { return false; }
    for i := 0 to |ns|
      invariant forall ch <- ns[..i] :: 'a' <= ch <= 'z' || '0' <= ch <= '9' || ch == '_' || ch == '-'
    {
      var c := ns[i];
      assert c in ns && ns[..i + 1] == ns[..i] + [c];
      if !('a' <= c <= 'z' || '0' <= c <= '9' || c == '_' || c == '-') { return false; }
    }
    assert ns[..|ns|] == ns;
    return true;
  }
}
