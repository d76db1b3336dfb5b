/** The worker's GTFS Realtime decoder against a reference meaning of encoded messages, and against
    the vehicle id rule of the Go poller. Floats stay raw; being in bounds is a parameter. */
module GtfsDecoder {
  import opened ByteStrings
  import opened Catalog
  import opened Wire

  datatype Outcome<+T> = Ok(value: T) | Throws

  datatype Feed = Feed(agency: Bytes, group: Bytes)

  type BoundsCheck = (Bytes, Bytes) -> bool

  /** A decoded vehicle; no timestamp stands for the time of decoding. */
  datatype Vehicle = Vehicle(id: Bytes, agency: Bytes, group: Bytes, lat: Bytes, lng: Bytes,
                             bearing: Bytes, speed: Bytes, route: Bytes, timestamp: Option<nat>)

  /** The last second a JavaScript Date can hold. */
  const MAX_DATE_SECONDS: nat := 8_640_000_000_000

  function Zero(): Bytes {
    [0 as char, 0 as char, 0 as char, 0 as char]
  }

  // ------------------------------------------------------------- the decoder

  predicate IsField(f: Field, number: nat, wire: nat) {
    f.number == number && WireType(f.payload) == wire
  }

  function Find(fs: seq<Field>, number: nat, wire: nat): (r: Option<Payload>)
    ensures r.Some? ==> WireType(r.value) == wire
  {
    if |fs| == 0 then None
    else if IsField(fs[0], number, wire) then Some(fs[0].payload)
    else Find(fs[1..], number, wire)
  }

  function BytesField(s: Bytes, number: nat): Option<Bytes> {
    match Find(Fields(s), number, 2)
    case None => None
    case Some(p) => Some(p.bytes)
  }

  function TextField(s: Bytes, number: nat): Bytes {
    match BytesField(s, number)
    case None => ""
    case Some(text) => text
  }

  /** Reading four bytes of a shorter field throws. */
  function FloatField(s: Bytes, number: nat): Outcome<Bytes> {
    match Find(Fields(s), number, 5)
    case None => Ok(Zero())
    case Some(p) => if |p.bytes| < 4 then Throws else Ok(p.bytes)
  }

  function NumberField(s: Bytes, number: nat): Option<nat> {
    match Find(Fields(s), number, 0)
    case None => None
    case Some(p) => Some(p.n)
  }

  datatype Decoded = Skip | Keep(v: Vehicle) | Fail

  function DecodePosition(entity: Bytes, vehicle: Bytes, position: Bytes, lat: Bytes, lng: Bytes, feed: Feed): Decoded {
    var descriptor := BytesField(vehicle, 8);
    var vehicleID :=
      if descriptor.None? then TextField(entity, 1)
      else if TextField(descriptor.value, 1) != "" then TextField(descriptor.value, 1)
      else TextField(descriptor.value, 2);
    var timestamp, trip := NumberField(vehicle, 5), BytesField(vehicle, 1);
    var bearing, speed := FloatField(position, 3), FloatField(position, 5);
    if vehicleID == "" then Skip
    else if timestamp.Some? && timestamp.value > MAX_DATE_SECONDS then Fail
    else if bearing.Throws? || speed.Throws? then Fail
    else Keep(Vehicle(feed.agency + [SEPARATOR] + vehicleID, feed.agency, feed.group, lat, lng,
                      bearing.value, speed.value,
                      if trip.Some? then TextField(trip.value, 5) else "", timestamp))
  }

  function DecodeEntity(entity: Bytes, feed: Feed, inBounds: BoundsCheck): Decoded {
    match BytesField(entity, 4)
    case None => Skip
    case Some(vehicle) =>
      match BytesField(vehicle, 2)
      case None => Skip
      case Some(position) =>
        var lat, lng := FloatField(position, 1), FloatField(position, 2);
        if lat.Throws? || lng.Throws? then Fail
        else if !inBounds(lat.value, lng.value) then Skip
        else DecodePosition(entity, vehicle, position, lat.value, lng.value, feed)
  }

  /** One entity that throws loses the whole feed. */
  function DecodeEntities(fs: seq<Field>, feed: Feed, inBounds: BoundsCheck): Outcome<seq<Vehicle>> {
    if |fs| == 0 then Ok([])
    else if !IsField(fs[0], 2, 2) then DecodeEntities(fs[1..], feed, inBounds)
    else match DecodeEntity(fs[0].payload.bytes, feed, inBounds)
      case Fail => Throws
      case Skip => DecodeEntities(fs[1..], feed, inBounds)
      case Keep(v) => Prepend([v], DecodeEntities(fs[1..], feed, inBounds))
  }

  function Prepend(vs: seq<Vehicle>, r: Outcome<seq<Vehicle>>): Outcome<seq<Vehicle>> {
    match r
    case Throws => Throws
    case Ok(rest) => Ok(vs + rest)
  }

  lemma PrependTwice(a: seq<Vehicle>, b: seq<Vehicle>, r: Outcome<seq<Vehicle>>)
    ensures Prepend(a, Prepend(b, r)) == Prepend(a + b, r)
    ensures Prepend([], r) == r
  {
    if r.Ok? {
      assert a + (b + r.value) == (a + b) + r.value;
      assert [] + r.value == r.value;
    }
  }

  method DecodeGTFS(data: Bytes, feed: Feed, inBounds: BoundsCheck) returns (r: Outcome<seq<Vehicle>>)
    ensures r == DecodeEntities(Fields(data), feed, inBounds)
  {
    hide DecodeEntity, Fields;
    var fields := ProtoFields(data);
    var positions: seq<Vehicle> := [];
    var i := 0;
    PrependTwice([], [], DecodeEntities(fields, feed, inBounds));
    while i < |fields|
      invariant 0 <= i <= |fields|
      invariant DecodeEntities(fields, feed, inBounds)
             == Prepend(positions, DecodeEntities(fields[i..], feed, inBounds))
    {
      if IsField(fields[i], 2, 2) {
        match DecodeEntity(fields[i].payload.bytes, feed, inBounds) {
          case Fail => return Throws;
          case Skip =>
          case Keep(v) =>
            PrependTwice(positions, [v], DecodeEntities(fields[i + 1..], feed, inBounds));
            positions := positions + [v];
        }
      }
      i := i + 1;
    }
    r := Ok(positions);
    assert positions + [] == positions;
  }

  // ----------------------------------------------------- reference messages

  /** A message is a list of trees, in any order and with any unknown fields among them. */
  datatype Tree = Leaf(field: Field) | Message(number: nat, children: seq<Tree>)

  function FieldOf(t: Tree): Field
    decreases t
  {
    match t
    case Leaf(f) => f
    case Message(number, children) => Field(number, Delimited(EncodeFields(FieldsOf(children))))
  }

  function FieldsOf(ts: seq<Tree>): seq<Field>
    decreases ts
  {
    if |ts| == 0 then [] else [FieldOf(ts[0])] + FieldsOf(ts[1..])
  }

  function Encode(ts: seq<Tree>): Bytes {
    EncodeFields(FieldsOf(ts))
  }

  predicate SoundTree(t: Tree)
    decreases t
  {
    match t
    case Leaf(f) => Sound(f)
    case Message(_, children) => forall i :: 0 <= i < |children| ==> SoundTree(children[i])
  }

  predicate SoundTrees(ts: seq<Tree>) {
    forall i :: 0 <= i < |ts| ==> SoundTree(ts[i])
  }

  predicate Matches(t: Tree, number: nat, wire: nat) {
    match t
    case Leaf(f) => IsField(f, number, wire)
    case Message(n, _) => n == number && wire == 2
  }

  /** The last occurrence, which is the one Protocol Buffers keeps. */
  function LastMatch(ts: seq<Tree>, number: nat, wire: nat): (r: Option<Tree>)
    ensures r.Some? ==> WireType(FieldOf(r.value).payload) == wire && Matches(r.value, number, wire)
  {
    if |ts| == 0 then None
    else if Matches(ts[|ts| - 1], number, wire) then Some(ts[|ts| - 1])
    else LastMatch(ts[..|ts| - 1], number, wire)
  }

  predicate Singular(ts: seq<Tree>, number: nat, wire: nat) {
    forall i, j :: 0 <= i < j < |ts| ==> !(Matches(ts[i], number, wire) && Matches(ts[j], number, wire))
  }

  predicate Submessages(ts: seq<Tree>, number: nat) {
    forall i :: 0 <= i < |ts| && Matches(ts[i], number, 2) ==> ts[i].Message?
  }

  function TextOf(ts: seq<Tree>, number: nat): Bytes {
    match LastMatch(ts, number, 2)
    case None => ""
    case Some(t) => FieldOf(t).payload.bytes
  }

  function FloatOf(ts: seq<Tree>, number: nat): Bytes {
    match LastMatch(ts, number, 5)
    case None => Zero()
    case Some(t) => FieldOf(t).payload.bytes
  }

  function NumberOf(ts: seq<Tree>, number: nat): Option<nat> {
    match LastMatch(ts, number, 0)
    case None => None
    case Some(t) => Some(FieldOf(t).payload.n)
  }

  function MessageOf(ts: seq<Tree>, number: nat): Option<seq<Tree>> {
    match LastMatch(ts, number, 2)
    case None => None
    case Some(t) => if t.Message? then Some(t.children) else None
  }

  // The GTFS Realtime messages: each singular field at most once, nothing said about the others.

  predicate DescriptorMessage(ts: seq<Tree>) {
    SoundTrees(ts) && Singular(ts, 1, 2) && Singular(ts, 2, 2)
  }

  predicate TripMessage(ts: seq<Tree>) {
    SoundTrees(ts) && Singular(ts, 5, 2)
  }

  predicate PositionMessage(ts: seq<Tree>) {
    && SoundTrees(ts)
    && Singular(ts, 1, 5) && Singular(ts, 2, 5) && Singular(ts, 3, 5) && Singular(ts, 5, 5)
  }

  predicate VehicleMessage(ts: seq<Tree>) {
    && SoundTrees(ts)
    && Singular(ts, 1, 2) && Singular(ts, 2, 2) && Singular(ts, 8, 2) && Singular(ts, 5, 0)
    && Submessages(ts, 1) && Submessages(ts, 2) && Submessages(ts, 8)
    && (MessageOf(ts, 1).Some? ==> TripMessage(MessageOf(ts, 1).value))
    && (MessageOf(ts, 2).Some? ==> PositionMessage(MessageOf(ts, 2).value))
    && (MessageOf(ts, 8).Some? ==> DescriptorMessage(MessageOf(ts, 8).value))
  }

  predicate EntityMessage(ts: seq<Tree>) {
    && SoundTrees(ts) && Singular(ts, 1, 2) && Singular(ts, 4, 2) && Submessages(ts, 4)
    && (MessageOf(ts, 4).Some? ==> VehicleMessage(MessageOf(ts, 4).value))
  }

  predicate FeedMessage(ts: seq<Tree>) {
    && SoundTrees(ts) && Submessages(ts, 2)
    && forall i :: 0 <= i < |ts| && ts[i].Message? && ts[i].number == 2 ==> EntityMessage(ts[i].children)
  }

  // ------------------------------------------------------ reference meaning

  /** How an entity is identified, from its descriptor and its own id. */
  type IDRule = (Option<seq<Tree>>, Bytes) -> Bytes

  /** The worker: a descriptor, once present, is the only source. */
  function WorkerID(descriptor: Option<seq<Tree>>, entityID: Bytes): Bytes {
    match descriptor
    case None => entityID
    case Some(d) => if TextOf(d, 1) != "" then TextOf(d, 1) else TextOf(d, 2)
  }

  /** The poller: id, then label, then the entity's id. */
  function PollerID(descriptor: Option<seq<Tree>>, entityID: Bytes): Bytes {
    var id := match descriptor
      case None => ""
      case Some(d) => if TextOf(d, 1) != "" then TextOf(d, 1) else TextOf(d, 2);
    if id != "" then id else entityID
  }

  function Meaning(entity: seq<Tree>, feed: Feed, inBounds: BoundsCheck, rule: IDRule): Option<Vehicle> {
    match MessageOf(entity, 4)
    case None => None
    case Some(vehicle) =>
      match MessageOf(vehicle, 2)
      case None => None
      case Some(position) =>
        var id := rule(MessageOf(vehicle, 8), TextOf(entity, 1));
        if !inBounds(FloatOf(position, 1), FloatOf(position, 2)) || id == "" then None
        else
          var route := match MessageOf(vehicle, 1) case None => "" case Some(trip) => TextOf(trip, 5);
          Some(Vehicle(feed.agency + [SEPARATOR] + id, feed.agency, feed.group,
                       FloatOf(position, 1), FloatOf(position, 2), FloatOf(position, 3), FloatOf(position, 5),
                       route, NumberOf(vehicle, 5)))
  }

  /** The in-bounds identified vehicles of a feed, in order. */
  function Meanings(ts: seq<Tree>, feed: Feed, inBounds: BoundsCheck, rule: IDRule): seq<Vehicle> {
    if |ts| == 0 then []
    else
      var rest := Meanings(ts[1..], feed, inBounds, rule);
      if ts[0].Message? && ts[0].number == 2 then
        match Meaning(ts[0].children, feed, inBounds, rule)
        case None => rest
        case Some(v) => [v] + rest
      else rest
  }

  predicate DateFits(v: Vehicle) {
    v.timestamp.Some? ==> v.timestamp.value <= MAX_DATE_SECONDS
  }

  // -------------------------------------------------- decoding the encoding

  lemma {:induction false} FieldsOfAt(ts: seq<Tree>)
    ensures |FieldsOf(ts)| == |ts|
    ensures forall i :: 0 <= i < |ts| ==> FieldsOf(ts)[i] == FieldOf(ts[i])
  {
    hide FieldOf;
    if |ts| > 0 {
      FieldsOfAt(ts[1..]);
      assert FieldsOf(ts) == [FieldOf(ts[0])] + FieldsOf(ts[1..]);
    }
  }

  lemma SoundFields(ts: seq<Tree>)
    requires SoundTrees(ts)
    ensures Fields(Encode(ts)) == FieldsOf(ts)
  {
    FieldsOfAt(ts);
    var fs := FieldsOf(ts);
    forall i | 0 <= i < |fs| ensures Sound(fs[i]) {
      assert SoundTree(ts[i]) && fs[i] == FieldOf(ts[i]);
    }
    FieldsRoundTrip(fs);
  }

  lemma {:induction false} FindFirst(fs: seq<Field>, number: nat, wire: nat)
    ensures Find(fs, number, wire).None? ==> forall i :: 0 <= i < |fs| ==> !IsField(fs[i], number, wire)
    ensures Find(fs, number, wire).Some? ==>
      exists i :: 0 <= i < |fs| && IsField(fs[i], number, wire) && fs[i].payload == Find(fs, number, wire).value
  {
    if |fs| > 0 && !IsField(fs[0], number, wire) {
      FindFirst(fs[1..], number, wire);
      if Find(fs, number, wire).Some? {
        var i :| 0 <= i < |fs| - 1 && IsField(fs[1..][i], number, wire)
              && fs[1..][i].payload == Find(fs, number, wire).value;
        assert fs[i + 1] == fs[1..][i];
      }
    }
  }

  lemma {:induction false} LastMatchAt(ts: seq<Tree>, number: nat, wire: nat)
    ensures LastMatch(ts, number, wire).None? ==> forall i :: 0 <= i < |ts| ==> !Matches(ts[i], number, wire)
    ensures LastMatch(ts, number, wire).Some? ==> exists i :: 0 <= i < |ts| && ts[i] == LastMatch(ts, number, wire).value
  {
    hide FieldOf;
    if |ts| > 0 && !Matches(ts[|ts| - 1], number, wire) {
      LastMatchAt(ts[..|ts| - 1], number, wire);
    }
  }

  lemma MatchesField(t: Tree, number: nat, wire: nat)
    ensures Matches(t, number, wire) <==> IsField(FieldOf(t), number, wire)
  {
  }

  /** With one occurrence at most, the first field the worker takes is the last one. */
  lemma FindIsLast(ts: seq<Tree>, number: nat, wire: nat)
    requires SoundTrees(ts) && Singular(ts, number, wire)
    ensures Find(Fields(Encode(ts)), number, wire) ==
      match LastMatch(ts, number, wire) case None => None case Some(t) => Some(FieldOf(t).payload)
  {
    hide FieldOf, Find, LastMatch, Fields, Encode, Matches, IsField;
    SoundFields(ts);
    FieldsOfAt(ts);
    FindFirst(FieldsOf(ts), number, wire);
    LastMatchAt(ts, number, wire);
    forall i | 0 <= i < |ts| ensures Matches(ts[i], number, wire) <==> IsField(FieldsOf(ts)[i], number, wire) {
      MatchesField(ts[i], number, wire);
    }
  }

  predicate FirstAt(ts: seq<Tree>, number: nat, wire: nat, i: nat) {
    i < |ts| && Matches(ts[i], number, wire) && forall j :: 0 <= j < i ==> !Matches(ts[j], number, wire)
  }

  predicate LastAt(ts: seq<Tree>, number: nat, wire: nat, i: nat) {
    i < |ts| && Matches(ts[i], number, wire) && forall j :: i < j < |ts| ==> !Matches(ts[j], number, wire)
  }

  /** The first and the last occurrence, where there are any, carry the same payload. */
  predicate EndsAgree(ts: seq<Tree>, number: nat, wire: nat) {
    forall i, j :: 0 <= i < |ts| && 0 <= j < |ts| && FirstAt(ts, number, wire, i) && LastAt(ts, number, wire, j)
      ==> FieldOf(ts[i]).payload == FieldOf(ts[j]).payload
  }

  lemma {:induction false} FindAt(fs: seq<Field>, number: nat, wire: nat) returns (i: nat)
    requires Find(fs, number, wire).Some?
    ensures i < |fs| && IsField(fs[i], number, wire) && fs[i].payload == Find(fs, number, wire).value
    ensures forall j :: 0 <= j < i ==> !IsField(fs[j], number, wire)
  {
    if IsField(fs[0], number, wire) {
      i := 0;
    } else {
      var k := FindAt(fs[1..], number, wire);
      assert forall j :: 0 <= j < k ==> fs[1..][j] == fs[j + 1];
      i := k + 1;
    }
  }

  lemma {:induction false} LastMatchIs(ts: seq<Tree>, number: nat, wire: nat) returns (i: nat)
    requires LastMatch(ts, number, wire).Some?
    ensures LastAt(ts, number, wire, i) && ts[i] == LastMatch(ts, number, wire).value
  {
    if Matches(ts[|ts| - 1], number, wire) {
      i := |ts| - 1;
    } else {
      i := LastMatchIs(ts[..|ts| - 1], number, wire);
    }
  }

  lemma FieldsMatch(ts: seq<Tree>, number: nat, wire: nat)
    requires SoundTrees(ts)
    ensures var fs := Fields(Encode(ts));
            |fs| == |ts| && forall i :: 0 <= i < |ts| ==>
              fs[i] == FieldOf(ts[i]) && (IsField(fs[i], number, wire) <==> Matches(ts[i], number, wire))
  {
    hide FieldOf, Fields, Encode, Matches, IsField;
    SoundFields(ts);
    FieldsOfAt(ts);
    forall i | 0 <= i < |ts| ensures IsField(FieldOf(ts[i]), number, wire) <==> Matches(ts[i], number, wire) {
      MatchesField(ts[i], number, wire);
    }
  }

  /** For fields that repeat: what the worker takes is what Protocol Buffers keeps if and only if the
      first and the last occurrence carry the same payload. */
  lemma FindIsLastIff(ts: seq<Tree>, number: nat, wire: nat)
    requires SoundTrees(ts)
    ensures (Find(Fields(Encode(ts)), number, wire) ==
             match LastMatch(ts, number, wire) case None => None case Some(t) => Some(FieldOf(t).payload))
        <==> EndsAgree(ts, number, wire)
  {
    hide FieldOf, Find, LastMatch, Fields, Encode, Matches, IsField;
    var fs := Fields(Encode(ts));
    FieldsMatch(ts, number, wire);
    FindFirst(fs, number, wire);
    LastMatchAt(ts, number, wire);
    if Find(fs, number, wire).Some? {
      var i := FindAt(fs, number, wire);
      assert Matches(ts[i], number, wire);
      var j := LastMatchIs(ts, number, wire);
      assert FirstAt(ts, number, wire, i);
      forall k: nat, l: nat | FirstAt(ts, number, wire, k) && LastAt(ts, number, wire, l) ensures k == i && l == j {
        assert !(k < i) && !(i < k) && !(l < j) && !(j < l);
      }
    }
  }

  lemma MessageIsRead(ts: seq<Tree>, number: nat)
    requires SoundTrees(ts) && Singular(ts, number, 2) && Submessages(ts, number)
    ensures BytesField(Encode(ts), number) ==
      match MessageOf(ts, number) case None => None case Some(children) => Some(Encode(children))
  {
    FindIsLast(ts, number, 2);
    LastMatchAt(ts, number, 2);
    hide Fields, LastMatch, Find;
  }

  lemma TextIsRead(ts: seq<Tree>, number: nat)
    requires SoundTrees(ts) && Singular(ts, number, 2)
    ensures TextField(Encode(ts), number) == TextOf(ts, number)
  {
    FindIsLast(ts, number, 2);
    hide Fields, LastMatch, Find;
  }

  lemma NumberIsRead(ts: seq<Tree>, number: nat)
    requires SoundTrees(ts) && Singular(ts, number, 0)
    ensures NumberField(Encode(ts), number) == NumberOf(ts, number)
  {
    FindIsLast(ts, number, 0);
    hide Fields, LastMatch, Find;
  }

  lemma FloatIsRead(ts: seq<Tree>, number: nat)
    requires SoundTrees(ts) && Singular(ts, number, 5)
    ensures FloatField(Encode(ts), number) == Ok(FloatOf(ts, number))
  {
    FindIsLast(ts, number, 5);
    LastMatchAt(ts, number, 5);
    hide Fields, LastMatch, Find;
    var r := LastMatch(ts, number, 5);
    if r.Some? {
      var i :| 0 <= i < |ts| && ts[i] == r.value;
      assert SoundTree(ts[i]);
    }
  }

  lemma PositionIsRead(p: seq<Tree>)
    requires PositionMessage(p)
    ensures FloatField(Encode(p), 1) == Ok(FloatOf(p, 1)) && FloatField(Encode(p), 2) == Ok(FloatOf(p, 2))
    ensures FloatField(Encode(p), 3) == Ok(FloatOf(p, 3)) && FloatField(Encode(p), 5) == Ok(FloatOf(p, 5))
  {
    FloatIsRead(p, 1);
    FloatIsRead(p, 2);
    FloatIsRead(p, 3);
    FloatIsRead(p, 5);
  }

  /** What the worker makes of a reference meaning: a date out of range throws. */
  function Expected(m: Option<Vehicle>): Decoded {
    match m
    case None => Skip
    case Some(v) => if DateFits(v) then Keep(v) else Fail
  }

  lemma EntityIsRead(entity: seq<Tree>, feed: Feed, inBounds: BoundsCheck)
    requires EntityMessage(entity)
    ensures DecodeEntity(Encode(entity), feed, inBounds) == Expected(Meaning(entity, feed, inBounds, WorkerID))
  {
    hide FieldOf, BytesField, TextField, NumberField, FloatField, LastMatch, Encode, MessageOf, TextOf,
      NumberOf, FloatOf, Singular, SoundTrees, Submessages;
    MessageIsRead(entity, 4);
    TextIsRead(entity, 1);
    if MessageOf(entity, 4).Some? {
      var vehicle := MessageOf(entity, 4).value;
      MessageIsRead(vehicle, 1);
      MessageIsRead(vehicle, 2);
      MessageIsRead(vehicle, 8);
      NumberIsRead(vehicle, 5);
      if MessageOf(vehicle, 1).Some? {
        TextIsRead(MessageOf(vehicle, 1).value, 5);
      }
      if MessageOf(vehicle, 2).Some? {
        PositionIsRead(MessageOf(vehicle, 2).value);
      }
      if MessageOf(vehicle, 8).Some? {
        TextIsRead(MessageOf(vehicle, 8).value, 1);
        TextIsRead(MessageOf(vehicle, 8).value, 2);
      }
    }
  }

  /** Round trip: decoding an encoded feed, whatever the order of its fields and whatever unknown
      fields it carries, gives exactly its in-bounds identified vehicles in order, unless one of
      them has a timestamp no date can hold, which loses the feed. */
  lemma {:induction false} FeedRoundTrip(ts: seq<Tree>, feed: Feed, inBounds: BoundsCheck)
    requires FeedMessage(ts)
    ensures var vs := Meanings(ts, feed, inBounds, WorkerID);
            DecodeEntities(Fields(Encode(ts)), feed, inBounds)
              == if forall i :: 0 <= i < |vs| ==> DateFits(vs[i]) then Ok(vs) else Throws
  {
    SoundFields(ts);
    EntitiesAreRead(ts, feed, inBounds);
  }

  lemma {:induction false} EntitiesAreRead(ts: seq<Tree>, feed: Feed, inBounds: BoundsCheck)
    requires FeedMessage(ts)
    ensures var vs := Meanings(ts, feed, inBounds, WorkerID);
            DecodeEntities(FieldsOf(ts), feed, inBounds)
              == if forall i :: 0 <= i < |vs| ==> DateFits(vs[i]) then Ok(vs) else Throws
  {
    hide DecodeEntity, Meaning, EntityMessage, SoundTrees, Fields, DateFits;
    if |ts| > 0 {
      TailIsFeed(ts);
      EntitiesAreRead(ts[1..], feed, inBounds);
      MatchesField(ts[0], 2, 2);
      if ts[0].Message? && ts[0].number == 2 {
        EntityIsRead(ts[0].children, feed, inBounds);
        var m := Meaning(ts[0].children, feed, inBounds, WorkerID);
        if m.Some? {
          AllFitPrepend(m.value, Meanings(ts[1..], feed, inBounds, WorkerID));
        }
      }
    }
  }

  lemma AllFitPrepend(v: Vehicle, vs: seq<Vehicle>)
    ensures (forall i :: 0 <= i < |[v] + vs| ==> DateFits(([v] + vs)[i]))
        <==> DateFits(v) && forall i :: 0 <= i < |vs| ==> DateFits(vs[i])
  {
    assert forall i :: 0 <= i < |vs| ==> ([v] + vs)[i + 1] == vs[i];
    assert ([v] + vs)[0] == v;
    hide DateFits;
  }

  lemma TailIsFeed(ts: seq<Tree>)
    requires FeedMessage(ts) && |ts| > 0
    ensures FeedMessage(ts[1..]) && (Matches(ts[0], 2, 2) ==> ts[0].Message?)
    ensures ts[0].Message? && ts[0].number == 2 ==> EntityMessage(ts[0].children)
  {
  }

  /** Which feeds decode: exactly those whose in-bounds identified vehicles have no timestamp or one of at
      most 8640000000000 seconds, the last a JavaScript date can hold. */
  lemma FeedDecodesIff(ts: seq<Tree>, feed: Feed, inBounds: BoundsCheck)
    requires FeedMessage(ts)
    ensures DecodeEntities(Fields(Encode(ts)), feed, inBounds).Ok?
        <==> forall v :: v in Meanings(ts, feed, inBounds, WorkerID) ==>
               v.timestamp == None || v.timestamp.value <= 8_640_000_000_000
  {
    hide FeedMessage, Meanings, DecodeEntities, Fields, Encode;
    FeedRoundTrip(ts, feed, inBounds);
  }

  /** An absent float is four zero bytes, and one cut short throws. */
  lemma FloatFieldIs(ts: seq<Tree>, number: nat, cut: Bytes)
    requires SoundTrees(ts) && |cut| < 4
    ensures (forall i :: 0 <= i < |ts| ==> !Matches(ts[i], number, 5)) ==>
      FloatField(Encode(ts), number) == Ok([0 as char, 0 as char, 0 as char, 0 as char])
    ensures FloatField(EncodeVarint(number * 8 + 5) + cut, number) == Throws
  {
    PayloadIsCut(number, 0, cut);
    hide Fields, EncodeVarint;
    if forall i :: 0 <= i < |ts| ==> !Matches(ts[i], number, 5) {
      FindIsLast(ts, number, 5);
      LastMatchAt(ts, number, 5);
    }
  }

  // ------------------------------------------------ worker against poller

  /** An in-bounds entity whose descriptor names nothing, though the entity has an id. */
  predicate Anonymous(t: Tree, inBounds: BoundsCheck) {
    t.Message? && t.number == 2 && MessageOf(t.children, 4).Some?
    && var vehicle := MessageOf(t.children, 4).value;
       MessageOf(vehicle, 2).Some? && MessageOf(vehicle, 8).Some?
       && var position, d := MessageOf(vehicle, 2).value, MessageOf(vehicle, 8).value;
          inBounds(FloatOf(position, 1), FloatOf(position, 2))
          && TextOf(d, 1) == "" && TextOf(d, 2) == "" && TextOf(t.children, 1) != ""
  }

  function AnonymousCount(ts: seq<Tree>, inBounds: BoundsCheck): nat {
    if |ts| == 0 then 0
    else (if Anonymous(ts[0], inBounds) then 1 else 0) + AnonymousCount(ts[1..], inBounds)
  }

  lemma EntityRules(t: Tree, feed: Feed, inBounds: BoundsCheck)
    requires t.Message? && t.number == 2
    ensures var w, p := Meaning(t.children, feed, inBounds, WorkerID), Meaning(t.children, feed, inBounds, PollerID);
            if Anonymous(t, inBounds) then w.None? && p.Some? else w == p
  {
  }

  /** A feed without its anonymous entities. */
  function Named(ts: seq<Tree>, inBounds: BoundsCheck): seq<Tree> {
    if |ts| == 0 then []
    else (if Anonymous(ts[0], inBounds) then [] else [ts[0]]) + Named(ts[1..], inBounds)
  }

  /** The worker keeps the poller's vehicles, in order, less the anonymous ones. */
  lemma {:induction false} WorkerDropsAnonymous(ts: seq<Tree>, feed: Feed, inBounds: BoundsCheck)
    ensures Meanings(ts, feed, inBounds, WorkerID) == Meanings(Named(ts, inBounds), feed, inBounds, PollerID)
    ensures |Meanings(ts, feed, inBounds, PollerID)|
         == |Meanings(ts, feed, inBounds, WorkerID)| + AnonymousCount(ts, inBounds)
    ensures AnonymousCount(ts, inBounds) == 0 ==>
      Meanings(ts, feed, inBounds, PollerID) == Meanings(ts, feed, inBounds, WorkerID)
  {
    hide Meaning, Anonymous;
    if |ts| > 0 {
      WorkerDropsAnonymous(ts[1..], feed, inBounds);
      var rest := Named(ts[1..], inBounds);
      assert ([ts[0]] + rest)[1..] == rest && [] + rest == rest;
      if ts[0].Message? && ts[0].number == 2 {
        EntityRules(ts[0], feed, inBounds);
      } else {
        NotAnonymous(ts[0], inBounds);
      }
    }
  }

  lemma NotAnonymous(t: Tree, inBounds: BoundsCheck)
    requires !(t.Message? && t.number == 2)
    ensures !Anonymous(t, inBounds)
  {
  }

  lemma {:induction false} NoneAnonymous(ts: seq<Tree>, inBounds: BoundsCheck)
    ensures AnonymousCount(ts, inBounds) == 0 <==> forall i :: 0 <= i < |ts| ==> !Anonymous(ts[i], inBounds)
  {
    hide Anonymous;
    if |ts| > 0 {
      NoneAnonymous(ts[1..], inBounds);
      assert forall i :: 0 <= i < |ts| - 1 ==> ts[1..][i] == ts[i + 1];
      if AnonymousCount(ts, inBounds) == 0 {
        forall i | 0 <= i < |ts| ensures !Anonymous(ts[i], inBounds) {
          assert i > 0 ==> ts[i] == ts[1..][i - 1];
        }
      } else if !Anonymous(ts[0], inBounds) {
        var i :| 0 <= i < |ts| - 1 && Anonymous(ts[1..][i], inBounds);
        assert Anonymous(ts[i + 1], inBounds);
      }
    }
  }

  /** The worker decodes what the poller's id rule yields if and only if no in-bounds entity is
      anonymous and every vehicle the poller keeps has a timestamp a date can hold. */
  lemma WorkerMatchesPollerIff(ts: seq<Tree>, feed: Feed, inBounds: BoundsCheck)
    requires FeedMessage(ts)
    ensures DecodeEntities(Fields(Encode(ts)), feed, inBounds) == Ok(Meanings(ts, feed, inBounds, PollerID))
        <==> (forall i :: 0 <= i < |ts| ==> !Anonymous(ts[i], inBounds))
             && forall v :: v in Meanings(ts, feed, inBounds, PollerID) ==> DateFits(v)
  {
    hide FeedMessage, Anonymous, Meanings, DecodeEntities, DateFits;
    FeedRoundTrip(ts, feed, inBounds);
    WorkerDropsAnonymous(ts, feed, inBounds);
    NoneAnonymous(ts, inBounds);
  }
}
