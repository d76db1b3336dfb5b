/** The worker's hand-written Protocol Buffers reader: varints, fields and the GTFS Realtime feed.
    Numbers are exact; a JavaScript number is exact below 2^53. */
module Wire {
  import opened ByteStrings

  // ----------------------------------------------------------------- varints

  function Pow2(n: nat): nat {
    if n == 0 then 1 else 2 * Pow2(n - 1)
  }

  lemma Pow2Seven(n: nat)
    ensures Pow2(n + 7) == 128 * Pow2(n)
  {
    assert Pow2(n + 7) == 2 * Pow2(n + 6) && Pow2(n + 6) == 2 * Pow2(n + 5);
    assert Pow2(n + 5) == 2 * Pow2(n + 4) && Pow2(n + 4) == 2 * Pow2(n + 3);
    assert Pow2(n + 3) == 2 * Pow2(n + 2) && Pow2(n + 2) == 2 * Pow2(n + 1);
  }

  /** The base-128 number at the start of s, least significant group first; when s ends before the
      number does, what is there. */
  function VarintValue(s: Bytes): nat {
    if |s| == 0 then 0
    else s[0] as int % 128 + (if s[0] as int < 128 then 0 else 128 * VarintValue(s[1..]))
  }

  function VarintLength(s: Bytes): (n: nat)
    ensures n <= |s| && (|s| > 0 ==> n > 0)
  {
    if |s| == 0 then 0 else if s[0] as int < 128 then 1 else 1 + VarintLength(s[1..])
  }

  lemma VarintStarts(bytes: Bytes, offset: nat)
    requires offset < |bytes|
    ensures var b, rest := bytes[offset] as int, bytes[offset + 1..];
            && VarintValue(bytes[offset..]) == b % 128 + (if b < 128 then 0 else 128 * VarintValue(rest))
            && VarintLength(bytes[offset..]) == 1 + (if b < 128 then 0 else VarintLength(rest))
  {
    assert bytes[offset..][1..] == bytes[offset + 1..];
  }

  lemma VarintEnds(bytes: Bytes)
    ensures VarintValue(bytes[|bytes|..]) == 0 && VarintLength(bytes[|bytes|..]) == 0
  {
  }

  method ReadVarint(bytes: Bytes, start: nat) returns (value: nat, offset: nat)
    requires start <= |bytes|
    ensures value == VarintValue(bytes[start..]) && offset == start + VarintLength(bytes[start..])
  {
    hide Pow2, VarintValue, VarintLength;
    value, offset := 0, start;
    var shift := 0;
    PowZero(VarintValue(bytes[start..]));
    VarintEnds(bytes);
    while offset < |bytes|
      invariant start <= offset <= |bytes|
      invariant VarintValue(bytes[start..]) == value + Pow2(shift) * VarintValue(bytes[offset..])
      invariant start + VarintLength(bytes[start..]) == offset + VarintLength(bytes[offset..])
    {
      VarintStarts(bytes, offset);
      var b := bytes[offset] as int;
      Pow2Seven(shift);
      VarintUnroll(Pow2(shift), b, VarintValue(bytes[offset + 1..]));
      offset := offset + 1;
      value := value + (b % 128) * Pow2(shift);
      if b < 128 {
        return;
      }
      shift := shift + 7;
    }
    TimesZero(Pow2(shift));
  }

  lemma PowZero(x: nat)
    ensures Pow2(0) * x == x
  {
  }

  lemma TimesZero(x: nat)
    ensures x * 0 == 0
  {
  }

  lemma VarintUnroll(scale: nat, b: nat, rest: nat)
    ensures scale * (b % 128 + 128 * rest) == (b % 128) * scale + (128 * scale) * rest
    ensures scale * (b % 128 + 0) == (b % 128) * scale
  {
  }

  function EncodeVarint(n: nat): (s: Bytes)
    ensures |s| > 0
  {
    if n < 128 then [n as char] else [(n % 128 + 128) as char] + EncodeVarint(n / 128)
  }

  /** Reading inverts writing, whatever follows. */
  lemma {:induction false} VarintRoundTrip(n: nat, tail: Bytes)
    ensures VarintValue(EncodeVarint(n) + tail) == n
    ensures VarintLength(EncodeVarint(n) + tail) == |EncodeVarint(n)|
  {
    var s := EncodeVarint(n) + tail;
    if n < 128 {
      assert s[0] == n as char;
    } else {
      assert s[1..] == EncodeVarint(n / 128) + tail;
      VarintRoundTrip(n / 128, tail);
    }
  }

  /** A number below 2^(7k) takes k bytes at most; below 2^53 that is eight, where every sum and every
      power of two the reader forms is below 2^53 too and so exact in JavaScript. */
  lemma {:induction false} EncodedLength(n: nat, k: nat)
    requires k > 0 && n < Pow2(7 * k)
    ensures |EncodeVarint(n)| <= k
    decreases k
  {
    if n >= 128 {
      if k == 1 {
        Pow2Seven(0);
        assert false;
      }
      Pow2Seven(7 * (k - 1));
      EncodedLength(n / 128, k - 1);
    }
  }

  lemma BelowTwoTo53(n: nat)
    requires n < 0x20_0000_0000_0000
    ensures |EncodeVarint(n)| <= 8
  {
    Pow2Seven(0);
    Pow2Seven(7);
    Pow2Seven(14);
    Pow2Seven(21);
    Pow2Seven(28);
    Pow2Seven(35);
    Pow2Seven(42);
    Pow2Seven(49);
    EncodedLength(n, 8);
  }

  /** A complete number: its last byte has the high bit clear. */
  predicate Terminated(s: Bytes) {
    |s| > 0 && VarintLength(s) == |s| && s[|s| - 1] as int < 128
  }

  /** Writing inverts reading exactly on the numbers without padding. */
  lemma {:induction false} VarintCanonicalIff(s: Bytes)
    requires Terminated(s)
    ensures EncodeVarint(VarintValue(s)) == s <==> |s| == 1 || s[|s| - 1] as int != 0
  {
    if |s| > 1 {
      var t := s[1..];
      assert s == [s[0]] + t && t[|t| - 1] == s[|s| - 1];
      VarintCanonicalIff(t);
      VarintZero(t);
      if VarintValue(t) > 0 {
        assert EncodeVarint(VarintValue(s)) == [s[0]] + EncodeVarint(VarintValue(t));
        assert EncodeVarint(VarintValue(s))[1..] == EncodeVarint(VarintValue(t));
      }
    }
  }

  lemma {:induction false} VarintZero(s: Bytes)
    requires Terminated(s)
    ensures VarintValue(s) == 0 ==> s[|s| - 1] as int == 0
  {
    if |s| > 1 {
      assert s[1..][|s| - 2] == s[|s| - 1];
      VarintZero(s[1..]);
    }
  }

  // ------------------------------------------------------------------ fields

  datatype Payload = Varint(n: nat) | Fixed64(bytes: Bytes) | Delimited(bytes: Bytes) | Fixed32(bytes: Bytes)

  datatype Field = Field(number: nat, payload: Payload)

  function WireType(p: Payload): nat {
    match p
    case Varint(_) => 0
    case Fixed64(_) => 1
    case Delimited(_) => 2
    case Fixed32(_) => 5
  }

  /** slice(0, n) and what is left: both clamp at the end. */
  function Take(s: Bytes, n: nat): Bytes {
    if n <= |s| then s[..n] else s
  }

  function Drop(s: Bytes, n: nat): Bytes {
    if n <= |s| then s[n..] else []
  }

  function AfterVarint(s: Bytes): Bytes {
    s[VarintLength(s)..]
  }

  datatype Parsed = Stop | Got(field: Field, rest: Bytes)

  /** One tag and its payload: a payload that runs past the end is cut, and a wire type that is
      not 0, 1, 2 or 5 stops the reader. */
  function NextField(s: Bytes): (p: Parsed)
    requires |s| > 0
    ensures p.Got? ==> |p.rest| < |s|
  {
    var number, wire, rest := VarintValue(s) / 8, VarintValue(s) % 8, AfterVarint(s);
    if wire == 0 then Got(Field(number, Varint(VarintValue(rest))), AfterVarint(rest))
    else if wire == 1 then Got(Field(number, Fixed64(Take(rest, 8))), Drop(rest, 8))
    else if wire == 2 then
      var length, body := VarintValue(rest), AfterVarint(rest);
      Got(Field(number, Delimited(Take(body, length))), Drop(body, length))
    else if wire == 5 then Got(Field(number, Fixed32(Take(rest, 4))), Drop(rest, 4))
    else Stop
  }

  /** The fields of a message; never more than it has bytes. */
  function Fields(s: Bytes): (fs: seq<Field>)
    ensures |fs| <= |s|
    decreases |s|
  {
    if |s| == 0 then []
    else match NextField(s)
      case Stop => []
      case Got(field, rest) => [field] + Fields(rest)
  }

  /** bytes.slice(from, from + n) with an offset that may lie past the end. */
  function Slice(s: Bytes, from: nat, n: nat): Bytes {
    Take(Drop(s, from), n)
  }

  lemma DropDrop(s: Bytes, a: nat, b: nat)
    ensures Drop(Drop(s, a), b) == Drop(s, a + b)
  {
  }

  lemma VarintStep(bytes: Bytes, offset: nat)
    requires offset <= |bytes|
    ensures Drop(bytes, offset) == bytes[offset..]
    ensures AfterVarint(Drop(bytes, offset)) == Drop(bytes, offset + VarintLength(bytes[offset..]))
  {
  }

  lemma FieldsUnroll(before: seq<Field>, s: Bytes)
    requires |s| > 0
    ensures NextField(s).Got? ==>
      before + Fields(s) == before + [NextField(s).field] + Fields(NextField(s).rest)
    ensures NextField(s).Stop? ==> before + Fields(s) == before
  {
    hide NextField;
    if NextField(s).Got? {
      assert before + ([NextField(s).field] + Fields(NextField(s).rest)) == before + [NextField(s).field] + Fields(NextField(s).rest);
    }
  }

  method ProtoFields(bytes: Bytes) returns (out: seq<Field>)
    ensures out == Fields(bytes)
  {
    hide Fields, VarintValue, VarintLength, Take, Drop, AfterVarint;
    out := [];
    var offset := 0;
    assert Drop(bytes, 0) == bytes && [] + Fields(bytes) == Fields(bytes) by { WholeMessage(bytes); }
    while offset < |bytes|
      invariant out + Fields(Drop(bytes, offset)) == Fields(bytes)
      decreases |bytes| - offset
    {
      ghost var s := Drop(bytes, offset);
      VarintStep(bytes, offset);
      FieldsUnroll(out, s);
      var tag, at := ReadVarint(bytes, offset);
      assert at > offset by { VarintAdvances(bytes[offset..]); }
      offset := at;
      var number, wire := tag / 8, tag % 8;
      if wire == 0 {
        VarintStep(bytes, offset);
        var v, next := ReadVarint(bytes, offset);
        offset := next;
        out := out + [Field(number, Varint(v))];
      } else if wire == 1 {
        out := out + [Field(number, Fixed64(Slice(bytes, offset, 8)))];
        DropDrop(bytes, offset, 8);
        offset := offset + 8;
      } else if wire == 2 {
        VarintStep(bytes, offset);
        var length, next := ReadVarint(bytes, offset);
        offset := next;
        out := out + [Field(number, Delimited(Slice(bytes, offset, length)))];
        DropDrop(bytes, offset, length);
        offset := offset + length;
      } else if wire == 5 {
        out := out + [Field(number, Fixed32(Slice(bytes, offset, 4)))];
        DropDrop(bytes, offset, 4);
        offset := offset + 4;
      } else {
        return;
      }
    }
    PastTheEnd(out, bytes, offset);
  }

  lemma VarintAdvances(s: Bytes)
    requires |s| > 0
    ensures VarintLength(s) > 0
  {
  }

  lemma WholeMessage(bytes: Bytes)
    ensures Drop(bytes, 0) == bytes && [] + Fields(bytes) == Fields(bytes)
  {
  }

  lemma PastTheEnd(out: seq<Field>, bytes: Bytes, offset: nat)
    requires offset >= |bytes|
    ensures out + Fields(Drop(bytes, offset)) == out
  {
  }

  /** Fixed payloads have their width; every other payload can be written as it is. */
  predicate Sound(f: Field) {
    (f.payload.Fixed64? ==> |f.payload.bytes| == 8) && (f.payload.Fixed32? ==> |f.payload.bytes| == 4)
  }

  function EncodePayload(p: Payload): Bytes {
    match p
    case Varint(n) => EncodeVarint(n)
    case Fixed64(b) => b
    case Delimited(b) => EncodeVarint(|b|) + b
    case Fixed32(b) => b
  }

  function EncodeField(f: Field): Bytes {
    EncodeVarint(f.number * 8 + WireType(f.payload)) + EncodePayload(f.payload)
  }

  function EncodeFields(fs: seq<Field>): Bytes {
    if |fs| == 0 then [] else EncodeField(fs[0]) + EncodeFields(fs[1..])
  }

  lemma CutAt(b: Bytes, tail: Bytes)
    ensures Take(b + tail, |b|) == b && Drop(b + tail, |b|) == tail
  {
  }

  lemma AfterEncoded(n: nat, tail: Bytes)
    ensures VarintValue(EncodeVarint(n) + tail) == n && AfterVarint(EncodeVarint(n) + tail) == tail
  {
    VarintRoundTrip(n, tail);
  }

  lemma TagParts(number: nat, wire: nat)
    requires wire < 8
    ensures (number * 8 + wire) / 8 == number && (number * 8 + wire) % 8 == wire
  {
  }

  lemma FirstTag(f: Field, tail: Bytes)
    ensures var s := EncodeField(f) + tail;
            && |s| > 0 && VarintValue(s) / 8 == f.number && VarintValue(s) % 8 == WireType(f.payload)
            && AfterVarint(s) == EncodePayload(f.payload) + tail
  {
    var tag, body := f.number * 8 + WireType(f.payload), EncodePayload(f.payload);
    assert EncodeField(f) + tail == EncodeVarint(tag) + (body + tail);
    hide VarintValue, AfterVarint, EncodeVarint, EncodePayload;
    AfterEncoded(tag, body + tail);
    TagParts(f.number, WireType(f.payload));
  }

  lemma FirstDelimited(b: Bytes, tail: Bytes)
    ensures var rest := EncodePayload(Delimited(b)) + tail;
            && Take(AfterVarint(rest), VarintValue(rest)) == b
            && Drop(AfterVarint(rest), VarintValue(rest)) == tail
  {
    hide VarintValue, AfterVarint, EncodeVarint, Take, Drop;
    assert EncodePayload(Delimited(b)) + tail == EncodeVarint(|b|) + (b + tail);
    AfterEncoded(|b|, b + tail);
    CutAt(b, tail);
  }

  lemma FirstField(f: Field, tail: Bytes)
    requires Sound(f)
    ensures |EncodeField(f) + tail| > 0 && NextField(EncodeField(f) + tail) == Got(f, tail)
  {
    hide VarintValue, AfterVarint, EncodeVarint, EncodeField, Take, Drop;
    FirstTag(f, tail);
    match f.payload {
      case Varint(n) => AfterEncoded(n, tail);
      case Delimited(b) => FirstDelimited(b, tail);
      case Fixed64(b) => CutAt(b, tail);
      case Fixed32(b) => CutAt(b, tail);
    }
  }

  /** The wire types of the Protocol Buffers encoding, and its standard example of a varint, 150. */
  lemma WireFormat(n: nat, b: Bytes)
    ensures WireType(Varint(n)) == 0 && WireType(Fixed64(b)) == 1
    ensures WireType(Delimited(b)) == 2 && WireType(Fixed32(b)) == 5
    ensures VarintValue([150 as char, 1 as char]) == 150 && VarintLength([150 as char, 1 as char]) == 2
  {
    assert [150 as char, 1 as char][1..] == [1 as char];
    assert [1 as char][1..] == [];
  }

  /** Reading inverts writing for every list of fields of wire types 0, 1, 2 and 5. */
  lemma {:induction false} FieldsRoundTrip(fs: seq<Field>)
    requires forall i :: 0 <= i < |fs| ==> Sound(fs[i])
    ensures Fields(EncodeFields(fs)) == fs
  {
    hide NextField, EncodeField;
    if |fs| > 0 {
      FirstField(fs[0], EncodeFields(fs[1..]));
      FieldsRoundTrip(fs[1..]);
    }
  }

  // ----------------------------------------------------- messages cut short

  lemma {:induction false} FieldsThen(fs: seq<Field>, tail: Bytes)
    requires forall i :: 0 <= i < |fs| ==> Sound(fs[i])
    ensures Fields(EncodeFields(fs) + tail) == fs + Fields(tail)
  {
    hide NextField, EncodeField;
    if |fs| == 0 {
      assert EncodeFields(fs) + tail == tail && [] + Fields(tail) == Fields(tail);
    } else {
      var rest := EncodeFields(fs[1..]);
      assert EncodeFields(fs) + tail == EncodeField(fs[0]) + (rest + tail);
      FirstField(fs[0], rest + tail);
      FieldsThen(fs[1..], tail);
      assert fs + Fields(tail) == [fs[0]] + (fs[1..] + Fields(tail));
    }
  }

  lemma TagThen(number: nat, wire: nat, tail: Bytes)
    requires wire < 8
    ensures var s := EncodeVarint(number * 8 + wire) + tail;
            && |s| > 0 && VarintValue(s) / 8 == number && VarintValue(s) % 8 == wire && AfterVarint(s) == tail
  {
    AfterEncoded(number * 8 + wire, tail);
    hide VarintValue, AfterVarint, EncodeVarint;
    TagParts(number, wire);
  }

  /** Wire types 3, 4, 6 and 7 end the message: the fields before stand, and nothing after is read. */
  lemma StopsAtUnknownWireType(fs: seq<Field>, number: nat, wire: nat, tail: Bytes)
    requires (forall i :: 0 <= i < |fs| ==> Sound(fs[i])) && wire in {3, 4, 6, 7}
    ensures Fields(EncodeFields(fs) + (EncodeVarint(number * 8 + wire) + tail)) == fs
  {
    hide EncodeVarint, VarintValue, AfterVarint, EncodeFields, VarintLength, NextField, Fields, Sound;
    var last := EncodeVarint(number * 8 + wire) + tail;
    FieldsThen(fs, last);
    TagThen(number, wire, tail);
    UnknownStops(last);
    assert fs + [] == fs;
  }

  lemma UnknownStops(s: Bytes)
    requires |s| > 0 && VarintValue(s) % 8 in {3, 4, 6, 7}
    ensures Fields(s) == []
  {
    hide VarintValue, AfterVarint;
  }

  lemma OnlyField(s: Bytes, f: Field)
    requires |s| > 0 && NextField(s) == Got(f, [])
    ensures Fields(s) == [f]
  {
    hide NextField;
    assert Fields([]) == [] && [f] + [] == [f];
  }

  lemma CutAll(b: Bytes, length: nat)
    requires |b| <= length
    ensures Take(b, length) == b && Drop(b, length) == []
  {
  }

  lemma StringIsCut(number: nat, length: nat, b: Bytes)
    requires |b| <= length
    ensures Fields(EncodeVarint(number * 8 + 2) + (EncodeVarint(length) + b)) == [Field(number, Delimited(b))]
  {
    hide EncodeVarint, VarintValue, AfterVarint, VarintLength, Take, Drop, Fields;
    TagThen(number, 2, EncodeVarint(length) + b);
    AfterEncoded(length, b);
    CutAll(b, length);
    OnlyField(EncodeVarint(number * 8 + 2) + (EncodeVarint(length) + b), Field(number, Delimited(b)));
  }

  lemma FixedIsCut(number: nat, b: Bytes)
    ensures |b| <= 8 ==> Fields(EncodeVarint(number * 8 + 1) + b) == [Field(number, Fixed64(b))]
    ensures |b| <= 4 ==> Fields(EncodeVarint(number * 8 + 5) + b) == [Field(number, Fixed32(b))]
  {
    hide EncodeVarint, VarintValue, AfterVarint, VarintLength, Take, Drop, Fields;
    TagThen(number, 1, b);
    TagThen(number, 5, b);
    if |b| <= 8 {
      CutAll(b, 8);
      OnlyField(EncodeVarint(number * 8 + 1) + b, Field(number, Fixed64(b)));
    }
    if |b| <= 4 {
      CutAll(b, 4);
      OnlyField(EncodeVarint(number * 8 + 5) + b, Field(number, Fixed32(b)));
    }
  }

  /** A payload that runs past the end is cut there: strings, 8-byte and 4-byte fields alike. */
  lemma PayloadIsCut(number: nat, length: nat, b: Bytes)
    ensures |b| <= length ==>
      Fields(EncodeVarint(number * 8 + 2) + (EncodeVarint(length) + b)) == [Field(number, Delimited(b))]
    ensures |b| <= 8 ==> Fields(EncodeVarint(number * 8 + 1) + b) == [Field(number, Fixed64(b))]
    ensures |b| <= 4 ==> Fields(EncodeVarint(number * 8 + 5) + b) == [Field(number, Fixed32(b))]
  {
    hide Fields, EncodeVarint;
    if |b| <= length {
      StringIsCut(number, length, b);
    }
    FixedIsCut(number, b);
  }
}
