/** KV keys: printing them, parsing them back, and the scan ranges of one agency or tenant. */
module Keys {
  import opened ByteStrings

  const MAX_INT64: int := 0x7fff_ffff_ffff_ffff
  const MIN_INT64: int := -0x8000_0000_0000_0000
  const MAX_UINT64: int := 0xffff_ffff_ffff_ffff

  predicate ColonFree(s: Bytes) {
    SEPARATOR !in s
  }

  // ------------------------------------------------------------ decimal text

  predicate IsDigit(c: Byte) {
    '0' <= c <= '9'
  }

  function Digit(d: nat): Byte
    requires d < 10
  {
    ('0' as int + d) as char
  }

  function DigitValue(c: Byte): nat
    requires IsDigit(c)
  {
    c as int - '0' as int
  }

  function Digits(n: nat): Bytes {
    if n < 10 then [Digit(n)] else Digits(n / 10) + [Digit(n % 10)]
  }

  /** `%d` of an integer. */
  function FormatInt(n: int): Bytes {
    if n < 0 then "-" + Digits(-n) else Digits(n)
  }

  datatype Parsed = Value(n: nat) | Syntax | Range

  /** The digit loop of strconv: the first bad byte or the first overflow ends it. */
  function ParseDigits(acc: nat, s: Bytes): Parsed
    decreases s
  {
    if |s| == 0 then Value(acc)
    else if !IsDigit(s[0]) then Syntax
    else
      var next := acc * 10 + DigitValue(s[0]);
      if next > MAX_UINT64 then Range else ParseDigits(next, s[1..])
  }

  function ParseUint(s: Bytes): Parsed {
    if |s| == 0 then Syntax else ParseDigits(0, s)
  }

  /** `n, _ := strconv.ParseInt(s, 10, 64)`: 0 on a syntax error, clamped when out of range. */
  function ParseInt(s: Bytes): (n: int) {
    if |s| == 0 then 0
    else
      var negative := s[0] == '-';
      var u := ParseUint(if negative || s[0] == '+' then s[1..] else s);
      match u
      case Syntax => 0
      case Range => if negative then MIN_INT64 else MAX_INT64
      case Value(n) =>
        var m: int := n;
        if negative then (if m > -MIN_INT64 then MIN_INT64 else -m)
        else (if m > MAX_INT64 then MAX_INT64 else m)
  }

  predicate AllDigits(s: Bytes) {
    forall i :: 0 <= i < |s| ==> IsDigit(s[i])
  }

  lemma {:induction false} DigitsShape(n: nat)
    ensures |Digits(n)| > 0 && AllDigits(Digits(n))
  {
    if n >= 10 {
      DigitsShape(n / 10);
    }
  }

  lemma {:induction false} ParseAppend(acc: nat, s: Bytes, c: Byte)
    requires AllDigits(s) && IsDigit(c)
    requires ParseDigits(acc, s).Value?
    ensures var next := ParseDigits(acc, s).n * 10 + DigitValue(c);
            ParseDigits(acc, s + [c]) == if next > MAX_UINT64 then Range else Value(next)
    decreases s
  {
    if |s| == 0 {
      assert (s + [c])[1..] == [];
    } else {
      assert (s + [c])[1..] == s[1..] + [c];
      ParseAppend(acc * 10 + DigitValue(s[0]), s[1..], c);
    }
  }

  lemma {:induction false} ParseOfDigits(n: nat)
    ensures ParseDigits(0, Digits(n)) == if n <= MAX_UINT64 then Value(n) else Range
  {
    if n >= 10 {
      DigitsShape(n / 10);
      ParseOfDigits(n / 10);
      if n / 10 <= MAX_UINT64 {
        ParseAppend(0, Digits(n / 10), Digit(n % 10));
      } else {
        RangeStays(0, Digits(n / 10), [Digit(n % 10)]);
      }
    } else {
      assert Digits(n)[1..] == [];
    }
  }

  lemma {:induction false} RangeStays(acc: nat, s: Bytes, tail: Bytes)
    requires ParseDigits(acc, s).Range?
    ensures ParseDigits(acc, s + tail).Range?
    decreases s
  {
    if acc * 10 + DigitValue(s[0]) <= MAX_UINT64 {
      assert (s + tail)[1..] == s[1..] + tail;
      RangeStays(acc * 10 + DigitValue(s[0]), s[1..], tail);
    }
  }

  /** Decimal text of any integer is read back exactly within int64 and clamped outside it. */
  lemma ParseIntInvertsFormat(n: int)
    ensures ParseInt(FormatInt(n)) ==
      if n < -9_223_372_036_854_775_808 then -9_223_372_036_854_775_808
      else if n > 9_223_372_036_854_775_807 then 9_223_372_036_854_775_807
      else n
  {
    var m := if n < 0 then -n else n;
    DigitsShape(m);
    ParseOfDigits(m);
    assert n < 0 ==> FormatInt(n)[1..] == Digits(m);
  }

  /** The most significant digit comes first. */
  lemma DecimalText()
    ensures FormatInt(0) == "0" && FormatInt(7) == "7" && FormatInt(120) == "120" && FormatInt(-45) == "-45"
  {
    assert Digits(1) == "1" && Digits(12) == "12" && Digits(4) == "4";
  }

  /** Other texts: a plus sign is skipped, and nothing, a sign alone or a foreign byte give 0. */
  lemma OtherText(n: nat)
    ensures ParseInt("+" + FormatInt(n)) == ParseInt(FormatInt(n))
    ensures ParseInt("") == 0 && ParseInt("-") == 0 && ParseInt("+") == 0 && ParseInt("4x") == 0
  {
    DigitsShape(n);
    ParseOfDigits(n);
    assert ("+" + Digits(n))[1..] == Digits(n);
    assert "4x"[1..] == "x";
  }

  lemma {:induction false} DigitsInjective(m: nat, n: nat)
    requires Digits(m) == Digits(n)
    ensures m == n
  {
    DigitsShape(m / 10);
    DigitsShape(n / 10);
    if m >= 10 && n >= 10 {
      var a, b := Digits(m / 10), Digits(n / 10);
      assert a == Digits(m)[..|Digits(m)| - 1] && b == Digits(n)[..|Digits(n)| - 1];
      assert Digits(m)[|a|] == Digit(m % 10) && Digits(n)[|b|] == Digit(n % 10);
      DigitsInjective(m / 10, n / 10);
    } else {
      assert |Digits(m)| == |Digits(n)|;
      assert m < 10 && n < 10;
      assert Digits(m)[0] == Digit(m) && Digits(n)[0] == Digit(n);
    }
  }

  lemma FormatColonFree(n: int)
    ensures ColonFree(FormatInt(n))
  {
    DigitsShape(if n < 0 then -n else n);
  }

  lemma FormatInjective(m: int, n: int)
    requires FormatInt(m) == FormatInt(n)
    ensures m == n
  {
    var a, b := if m < 0 then -m else m, if n < 0 then -n else n;
    DigitsShape(a);
    DigitsShape(b);
    assert m < 0 ==> FormatInt(m)[1..] == Digits(a);
    assert n < 0 ==> FormatInt(n)[1..] == Digits(b);
    assert m < 0 <==> FormatInt(m)[0] == '-';
    assert n < 0 <==> FormatInt(n)[0] == '-';
    DigitsInjective(a, b);
  }

  /** Text with a foreign byte in it never parses to a value. */
  lemma {:induction false} BadByteNeverParses(acc: nat, s: Bytes, i: nat)
    requires i < |s| && !IsDigit(s[i])
    ensures !ParseDigits(acc, s).Value?
    decreases s
  {
    if i > 0 && IsDigit(s[0]) {
      BadByteNeverParses(acc * 10 + DigitValue(s[0]), s[1..], i - 1);
    }
  }

  // --------------------------------------------------------------- splitting

  /** Position of the first separator, or -1 (strings.IndexByte). */
  function IndexByte(s: Bytes): (i: int)
    ensures -1 <= i < |s|
    ensures i == -1 <==> ColonFree(s)
    ensures i >= 0 ==> s[i] == SEPARATOR && ColonFree(s[..i])
  {
    if |s| == 0 then -1
    else if s[0] == SEPARATOR then 0
    else
      var i := IndexByte(s[1..]);
      assert s == [s[0]] + s[1..];
      if i < 0 then -1 else
        assert s[..i + 1] == [s[0]] + s[1..][..i];
        i + 1
  }

  /** strings.SplitN(s, ":", n) for n >= 1. */
  function SplitN(s: Bytes, n: nat): seq<Bytes> {
    var i := IndexByte(s);
    if n <= 1 || i < 0 then [s] else [s[..i]] + SplitN(s[i + 1..], n - 1)
  }

  lemma SplitJoin(a: Bytes, rest: Bytes, n: nat)
    requires ColonFree(a) && n > 1
    ensures SplitN(a + [SEPARATOR] + rest, n) == [a] + SplitN(rest, n - 1)
  {
    IndexOfJoin(a, rest);
    var s := a + [SEPARATOR] + rest;
    assert s[..|a|] == a && s[|a| + 1..] == rest;
  }

  lemma IndexOfJoin(a: Bytes, rest: Bytes)
    requires ColonFree(a)
    ensures IndexByte(a + [SEPARATOR] + rest) == |a|
  {
    var s := a + [SEPARATOR] + rest;
    var i := IndexByte(s);
    assert s[|a|] == SEPARATOR;
    assert forall j :: 0 <= j < |a| ==> s[j] == a[j];
    assert forall j :: 0 <= j < i ==> s[j] == s[..i][j];
  }

  /** What precedes the first separator is determined by the whole. */
  lemma FirstFieldUnique(a: Bytes, rest: Bytes, a': Bytes, rest': Bytes)
    requires ColonFree(a) && ColonFree(a')
    requires a + [SEPARATOR] + rest == a' + [SEPARATOR] + rest'
    ensures a == a' && rest == rest'
  {
    var s := a + [SEPARATOR] + rest;
    IndexOfJoin(a, rest);
    IndexOfJoin(a', rest');
    assert a == s[..|a|] && a' == s[..|a'|];
    assert rest == s[|a| + 1..] && rest' == s[|a'| + 1..];
  }

  /** What follows the last separator is determined by the whole. */
  lemma LastFieldUnique(v: Bytes, t: Bytes, v': Bytes, t': Bytes)
    requires ColonFree(t) && ColonFree(t')
    requires v + [SEPARATOR] + t == v' + [SEPARATOR] + t'
    ensures v == v' && t == t'
  {
    var s, s' := v + [SEPARATOR] + t, v' + [SEPARATOR] + t';
    assert forall j :: |v| < j < |s| ==> s[j] == t[j - |v| - 1];
    assert forall j :: |v'| < j < |s'| ==> s'[j] == t'[j - |v'| - 1];
    assert s[|v|] == SEPARATOR && s'[|v'|] == SEPARATOR;
    assert v == s[..|v|] && v' == s'[..|v'|];
    assert t == s[|v| + 1..] && t' == s'[|v'| + 1..];
  }

  /** A vehicle id up to its first colon: all of it when it has none. */
  function Head(v: Bytes): Bytes {
    var i := IndexByte(v);
    if i < 0 then v else v[..i]
  }

  // ------------------------------------------------- vehicle position keys

  /** {agency}:{vehicle id}:{timestamp in ns} */
  function PositionKey(agency: Bytes, vehicleID: Bytes, ns: int): Bytes {
    agency + [SEPARATOR] + (vehicleID + [SEPARATOR] + FormatInt(ns))
  }

  function VehicleIDFromKey(key: Bytes): Bytes {
    var parts := SplitN(key, 3);
    if |parts| < 2 then "" else parts[1]
  }

  function TimestampNSFromKey(key: Bytes): int {
    var parts := SplitN(key, 3);
    if |parts| < 3 then 0 else ParseInt(parts[2])
  }

  function AgencyPrefix(agency: Bytes): Bytes {
    agency + [SEPARATOR]
  }

  /** The layout of a position key. */
  lemma KeyLayout(a: Bytes, v: Bytes, ns: int)
    ensures PositionKey(a, v, ns) == a + ":" + v + ":" + FormatInt(ns)
  {
    var t := FormatInt(ns);
    hide FormatInt;
    assert a + [SEPARATOR] + (v + [SEPARATOR] + t) == a + ":" + v + ":" + t;
  }

  /** What is read from keys with fewer parts or foreign text. */
  lemma ForeignKeys(a: Bytes, v: Bytes, rest: Bytes)
    requires ColonFree(a) && ColonFree(v)
    ensures VehicleIDFromKey(a) == "" && TimestampNSFromKey(a) == 0
    ensures VehicleIDFromKey(a + ":" + v) == v && TimestampNSFromKey(a + ":" + v) == 0
    ensures VehicleIDFromKey(a + ":" + v + ":" + rest) == v
    ensures TimestampNSFromKey(a + ":" + v + ":" + rest) == ParseInt(rest)
  {
    hide ParseInt;
    assert a + ":" + v == a + [SEPARATOR] + v;
    SplitJoin(a, v, 3);
    assert a + ":" + v + ":" + rest == a + [SEPARATOR] + (v + [SEPARATOR] + rest);
    SplitJoin(a, v + [SEPARATOR] + rest, 3);
    SplitJoin(v, rest, 2);
    assert SplitN(rest, 1) == [rest];
  }

  /** The head of an id is what precedes its first colon, or all of it. */
  lemma HeadIs(v: Bytes)
    ensures Head(v) <= v && ':' !in Head(v)
    ensures Head(v) == v || v[|Head(v)|] == ':'
  {
  }

  lemma PositionKeyInjective(a: Bytes, v: Bytes, ns: int, a': Bytes, v': Bytes, ns': int)
    requires ColonFree(a) && ColonFree(a')
    requires PositionKey(a, v, ns) == PositionKey(a', v', ns')
    ensures a == a' && v == v' && ns == ns'
  {
    FirstFieldUnique(a, v + [SEPARATOR] + FormatInt(ns), a', v' + [SEPARATOR] + FormatInt(ns'));
    FormatColonFree(ns);
    FormatColonFree(ns');
    LastFieldUnique(v, FormatInt(ns), v', FormatInt(ns'));
    FormatInjective(ns, ns');
  }

  /** Within one agency's database the agency need not be colon-free. */
  lemma PositionKeyInjectiveInAgency(a: Bytes, v: Bytes, ns: int, v': Bytes, ns': int)
    requires PositionKey(a, v, ns) == PositionKey(a, v', ns')
    ensures v == v' && ns == ns'
  {
    var r, r' := v + [SEPARATOR] + FormatInt(ns), v' + [SEPARATOR] + FormatInt(ns');
    assert r == (AgencyPrefix(a) + r)[|a| + 1..] && r' == (AgencyPrefix(a) + r')[|a| + 1..];
    FormatColonFree(ns);
    FormatColonFree(ns');
    LastFieldUnique(v, FormatInt(ns), v', FormatInt(ns'));
    FormatInjective(ns, ns');
  }

  lemma SplitInner(v: Bytes, text: Bytes)
    ensures var h := Head(v);
            h <= v
            && SplitN(v + [SEPARATOR] + text, 2)
               == [h, if h == v then text else v[|h| + 1..] + [SEPARATOR] + text]
    ensures Head(v) == v <==> ColonFree(v)
  {
    var h := Head(v);
    if ColonFree(v) {
      SplitJoin(v, text, 2);
      assert SplitN(text, 1) == [text];
    } else {
      var tail := v[|h| + 1..] + [SEPARATOR] + text;
      assert v == h + [SEPARATOR] + v[|h| + 1..];
      assert v + [SEPARATOR] + text == h + [SEPARATOR] + tail;
      SplitJoin(h, tail, 2);
      assert SplitN(tail, 1) == [tail];
    }
  }

  /** The three-way split of a key: the cut inside the vehicle id is at its first colon. */
  lemma SplitOfKey(a: Bytes, v: Bytes, ns: int)
    requires ColonFree(a)
    ensures var h := Head(v);
            h <= v
            && SplitN(PositionKey(a, v, ns), 3)
               == [a, h, if h == v then FormatInt(ns) else v[|h| + 1..] + [SEPARATOR] + FormatInt(ns)]
    ensures Head(v) == v <==> ColonFree(v)
  {
    SplitJoin(a, v + [SEPARATOR] + FormatInt(ns), 3);
    SplitInner(v, FormatInt(ns));
  }

  /** The id read from a key is the part of the vehicle id before its first colon. */
  lemma VehicleIDOfKey(a: Bytes, v: Bytes, ns: int)
    requires ColonFree(a)
    ensures VehicleIDFromKey(PositionKey(a, v, ns)) == Head(v)
  {
    SplitOfKey(a, v, ns);
  }

  lemma VehicleIDRecoveredIff(a: Bytes, v: Bytes, ns: int)
    requires ColonFree(a)
    ensures VehicleIDFromKey(PositionKey(a, v, ns)) == v <==> ColonFree(v)
  {
    VehicleIDOfKey(a, v, ns);
    assert IndexByte(v) >= 0 ==> |Head(v)| < |v|;
  }

  lemma TimestampOfKey(a: Bytes, v: Bytes, ns: int)
    requires ColonFree(a) && MIN_INT64 <= ns <= MAX_INT64
    ensures ColonFree(v) ==> TimestampNSFromKey(PositionKey(a, v, ns)) == ns
    ensures !ColonFree(v) ==> TimestampNSFromKey(PositionKey(a, v, ns)) in {0, MIN_INT64, MAX_INT64}
  {
    SplitOfKey(a, v, ns);
    ParseIntInvertsFormat(ns);
    if !ColonFree(v) {
      var before := v[|Head(v)| + 1..];
      ColonNeverParses(before + [SEPARATOR] + FormatInt(ns), |before|);
    }
  }

  lemma ColonNeverParses(s: Bytes, i: nat)
    requires i < |s| && s[i] == SEPARATOR
    ensures ParseInt(s) in {0, MIN_INT64, MAX_INT64}
  {
    if s[0] == '-' || s[0] == '+' {
      assert s[1..][i - 1] == SEPARATOR;
      BadByteNeverParses(0, s[1..], i - 1);
    } else {
      BadByteNeverParses(0, s, i);
    }
  }

  /** Every timestamp survives the key exactly when the vehicle id has no colon. */
  lemma TimestampRecoveredIff(a: Bytes, v: Bytes)
    requires ColonFree(a)
    ensures (forall ns :: MIN_INT64 <= ns <= MAX_INT64 ==> TimestampNSFromKey(PositionKey(a, v, ns)) == ns)
            <==> ColonFree(v)
  {
    forall ns | MIN_INT64 <= ns <= MAX_INT64
      ensures ColonFree(v) ==> TimestampNSFromKey(PositionKey(a, v, ns)) == ns
    {
      TimestampOfKey(a, v, ns);
    }
    TimestampOfKey(a, v, 1);
  }

  /** With colons in the agency two different positions can share one key. */
  lemma ColonAgencyCollides()
    ensures PositionKey("a:b", "c", 1) == PositionKey("a", "b:c", 1)
  {
  }

  ghost predicate CanCollide(a: Bytes, b: Bytes) {
    exists v, ns, v', ns' :: PositionKey(a, v, ns) == PositionKey(b, v', ns')
  }

  lemma CollisionPrefix(a: Bytes, v: Bytes, ns: int, b: Bytes, v': Bytes, ns': int)
    requires PositionKey(a, v, ns) == PositionKey(b, v', ns') && |a| <= |b| && a != b
    ensures AgencyPrefix(a) <= b
  {
    var key, other := PositionKey(a, v, ns), PositionKey(b, v', ns');
    assert a == key[..|a|] && b == other[..|b|] && key[|a|] == SEPARATOR;
    assert |a| < |b|;
    assert AgencyPrefix(a) == key[..|a| + 1] == b[..|a| + 1];
  }

  lemma PrefixCollides(a: Bytes, b: Bytes)
    requires AgencyPrefix(a) <= b
    ensures CanCollide(a, b) && CanCollide(b, a)
  {
    var rest, t := b[|a| + 1..], FormatInt(0);
    assert b == a + [SEPARATOR] + rest;
    var v := rest + [SEPARATOR];
    assert PositionKey(a, v, 0) == a + [SEPARATOR] + (rest + [SEPARATOR] + [SEPARATOR] + t);
    assert PositionKey(b, "", 0) == (a + [SEPARATOR] + rest) + [SEPARATOR] + ([SEPARATOR] + t);
    assert PositionKey(a, v, 0) == PositionKey(b, "", 0);
  }

  /** Which agencies can collide: two different ones share a key, for some vehicle ids and times, if and
      only if one of them followed by a colon is a prefix of the other. */
  lemma AgenciesCollideIff(a: Bytes, b: Bytes)
    requires a != b
    ensures CanCollide(a, b) <==> AgencyPrefix(a) <= b || AgencyPrefix(b) <= a
  {
    if CanCollide(a, b) {
      var v, ns, v', ns' :| PositionKey(a, v, ns) == PositionKey(b, v', ns');
      if |a| <= |b| {
        CollisionPrefix(a, v, ns, b, v', ns');
      } else {
        CollisionPrefix(b, v', ns', a, v, ns);
      }
    }
    if AgencyPrefix(a) <= b {
      PrefixCollides(a, b);
    }
    if AgencyPrefix(b) <= a {
      PrefixCollides(b, a);
    }
  }

  lemma PrefixNotMax(p: Bytes)
    ensures !AllMax(p + [SEPARATOR])
  {
    assert (p + [SEPARATOR])[|p|] == SEPARATOR;
  }

  /** A scan of one agency meets exactly the keys that start with "agency:". */
  lemma AgencyScanExact(a: Bytes, k: Bytes)
    ensures InRange(k, AgencyPrefix(a), UpperBound(AgencyPrefix(a))) <==> AgencyPrefix(a) <= k
  {
    PrefixNotMax(a);
    RangeMeaning(AgencyPrefix(a), k);
  }

  lemma PrefixesApart(a: Bytes, b: Bytes, k: Bytes)
    requires ColonFree(a) && ColonFree(b) && AgencyPrefix(a) <= k && AgencyPrefix(b) <= k
    ensures a == b
  {
    hide ColonFree;
    assert k == a + [SEPARATOR] + k[|a| + 1..] && k == b + [SEPARATOR] + k[|b| + 1..];
    FirstFieldUnique(a, k[|a| + 1..], b, k[|b| + 1..]);
  }

  /** Scans of different colon-free agencies, or tenants, never meet. */
  lemma ScanRangesDisjoint(a: Bytes, b: Bytes, k: Bytes)
    requires ColonFree(a) && ColonFree(b) && a != b
    requires InRange(k, AgencyPrefix(a), UpperBound(AgencyPrefix(a)))
    ensures !InRange(k, AgencyPrefix(b), UpperBound(AgencyPrefix(b)))
  {
    hide ColonFree, InRange, AgencyPrefix, UpperBound;
    AgencyScanExact(a, k);
    AgencyScanExact(b, k);
    if AgencyPrefix(b) <= k {
      PrefixesApart(a, b, k);
    }
  }

  // -------------------------------------------------------------- event keys

  /** {tenant}:{event type}:{idempotency key} */
  function EventKey(tenant: Bytes, eventType: Bytes, idempotencyKey: Bytes): Bytes {
    tenant + [SEPARATOR] + (eventType + [SEPARATOR] + idempotencyKey)
  }

  function TenantFromKey(key: Bytes): Bytes {
    var i := IndexByte(key);
    if i > 0 then key[..i] else key
  }

  function TypePrefix(tenant: Bytes, eventType: Bytes): Bytes {
    tenant + [SEPARATOR] + (eventType + [SEPARATOR])
  }

  /** The layout of an event key, and the tenant of keys without one. */
  lemma EventKeyLayout(tenant: Bytes, eventType: Bytes, id: Bytes)
    ensures EventKey(tenant, eventType, id) == tenant + ":" + eventType + ":" + id
    ensures TenantFromKey(":" + id) == ":" + id
    ensures ColonFree(id) ==> TenantFromKey(id) == id
  {
    assert tenant + [SEPARATOR] + (eventType + [SEPARATOR] + id) == tenant + ":" + eventType + ":" + id;
    assert (":" + id)[0] == ':';
  }

  /** The tenant is read back exactly when it is non-empty and colon-free. */
  lemma TenantRecoveredIff(tenant: Bytes, eventType: Bytes, id: Bytes)
    ensures TenantFromKey(EventKey(tenant, eventType, id)) == tenant <==> tenant != "" && ColonFree(tenant)
  {
    var rest := eventType + [SEPARATOR] + id;
    var key := EventKey(tenant, eventType, id);
    if ColonFree(tenant) {
      IndexOfJoin(tenant, rest);
      assert key[..|tenant|] == tenant;
      assert |key| > |tenant|;
    } else {
      var i := IndexByte(tenant);
      var tail := tenant[i + 1..] + [SEPARATOR] + rest;
      assert key == tenant[..i] + [SEPARATOR] + tail;
      IndexOfJoin(tenant[..i], tail);
    }
  }

  lemma EventKeyInjective(t: Bytes, e: Bytes, id: Bytes, t': Bytes, e': Bytes, id': Bytes)
    requires ColonFree(t) && ColonFree(t') && ColonFree(e) && ColonFree(e')
    requires EventKey(t, e, id) == EventKey(t', e', id')
    ensures t == t' && e == e' && id == id'
  {
    FirstFieldUnique(t, e + [SEPARATOR] + id, t', e' + [SEPARATOR] + id');
    FirstFieldUnique(e, id, e', id');
  }

  /** The range of one event type lies inside its tenant's range and holds that type's keys. */
  lemma TypeRangeNests(t: Bytes, e: Bytes, k: Bytes)
    ensures InRange(k, TypePrefix(t, e), UpperBound(TypePrefix(t, e))) <==> TypePrefix(t, e) <= k
    ensures TypePrefix(t, e) <= k ==> InRange(k, AgencyPrefix(t), UpperBound(AgencyPrefix(t)))
  {
    assert TypePrefix(t, e) == (t + [SEPARATOR] + e) + [SEPARATOR];
    PrefixNotMax(t + [SEPARATOR] + e);
    RangeMeaning(TypePrefix(t, e), k);
    AgencyScanExact(t, k);
  }
}
