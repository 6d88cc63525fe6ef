/** clients/land/proto.js: parsing a buffer made of buffers, and what a decoder
    that names its fields sees of it. */
module LandFraming {
  import opened Basics
  import opened Wire
  import opened LandProto
  import opened LandRoundTrip

  /** The buffer ends where a record ends. `read` also accepts a buffer that ends
      inside a fixed-width field, because it steps over those unchecked. */
  predicate OnBoundary(s: seq<byte>)
    decreases |s|
  {
    s == [] || (Next(s).Ok? && Next(s).value.used <= |s| && OnBoundary(s[Next(s).value.used..]))
  }

  lemma {:induction false} VarintPrefix(a: seq<byte>, b: seq<byte>, k: nat)
    requires Varint(a, k).Ok?
    ensures Varint(a + b, k) == Varint(a, k)
    decreases |a|
  {
    if a[0] >= 128 {
      assert (a + b)[1..] == a[1..] + b;
      VarintPrefix(a[1..], b, k + 1);
    }
  }

  lemma NextPrefix(a: seq<byte>, b: seq<byte>)
    requires a != [] && Next(a).Ok?
    ensures Next(a + b) == Next(a)
  {
    VarintPrefix(a, b, 0);
    var j := Varint(a, 0).value.used;
    assert (a + b)[j..] == a[j..] + b;
    if Varint(a[j..], 0).Ok? { VarintPrefix(a[j..], b, 0); }
    if Next(a).value.record.Some? {
      var end := Next(a).value.used;
      assert (a + b)[..end] == a[..end];
      forall at | 0 <= at <= end ensures (a + b)[at..end] == a[at..end] { }
    }
  }

  /** Parsing two buffers joined is parsing the first and then the second. */
  lemma {:induction false} Framing(a: seq<byte>, b: seq<byte>)
    requires OnBoundary(a)
    ensures Parse(a).Ok? && Parse(a + b) == Continued(Parse(a).value, Parse(b))
    decreases |a|
  {
    if a == [] {
      assert a + b == b;
      if Parse(b).Ok? { assert [] + Parse(b).value == Parse(b).value; }
    } else {
      var step := Next(a).value;
      NextPrefix(a, b);
      assert (a + b)[step.used..] == a[step.used..] + b;
      Framing(a[step.used..], b);
      if Parse(b).Ok? { Assoc(Filed(step.record), Parse(a[step.used..]).value, Parse(b).value); }
    }
  }

  /** A buffer that ends inside a fixed-width field swallows what follows it. */
  lemma {:induction false} Swallows(a: seq<byte>)
    requires Parse(a).Ok? && !OnBoundary(a)
    ensures Parse(a + [8]) == Parse(a)
    decreases |a|
  {
    var used := Next(a).value.used;
    NextPrefix(a, [8]);
    if used <= |a| {
      assert (a + [8])[used..] == a[used..] + [8];
      Swallows(a[used..]);
    }
  }

  ghost predicate FramesWith(a: seq<byte>, b: seq<byte>)
    requires Parse(a).Ok?
  {
    Parse(a + b) == Continued(Parse(a).value, Parse(b))
  }

  /** Framing holds of an accepted buffer exactly when it ends on a record boundary. */
  lemma FramingExactly(a: seq<byte>)
    requires Parse(a).Ok?
    ensures OnBoundary(a) <==> forall b: seq<byte> :: FramesWith(a, b)
  {
    if OnBoundary(a) {
      forall b: seq<byte> ensures FramesWith(a, b) { Framing(a, b); }
    } else {
      UnframedWitness(a);
    }
  }

  lemma LoneKey()
    ensures Parse([8]) == Err(TruncatedVarint)
  {
    assert Varint([8], 0) == Ok(Taken(8, 1)) && Varint([8][1..], 0) == Err(TruncatedVarint);
  }

  lemma UnframedWitness(a: seq<byte>)
    requires Parse(a).Ok? && !OnBoundary(a)
    ensures !FramesWith(a, [8])
  {
    Swallows(a);
    LoneKey();
  }

  // ------------------------------------------------------------ unknown fields

  ghost predicate Avoids(records: seq<Record>, named: set<nat>) {
    forall i :: 0 <= i < |records| ==> records[i].field !in named
  }

  lemma {:induction false} AvoidedValues(records: seq<Record>, named: set<nat>, field: nat)
    requires Avoids(records, named) && field in named
    ensures Values(records, field) == []
  {
    if records != [] { AvoidedValues(records[1..], named, field); }
  }

  /** Whole records, none of them of a named field. */
  ghost predicate Unnamed(u: seq<byte>, named: set<nat>) {
    OnBoundary(u) && Parse(u).Ok? && Avoids(Parse(u).value, named)
  }

  lemma InertRecords(a: seq<Record>, u: seq<Record>, b: seq<Record>, named: set<nat>, field: nat)
    requires Avoids(u, named) && field in named
    ensures Values(a + (u + b), field) == Values(a + b, field)
  {
    ValuesConcat(a, u + b, field);
    ValuesConcat(u, b, field);
    ValuesConcat(a, b, field);
    AvoidedValues(u, named, field);
  }

  /** Fields nobody names, inserted between records, change no named field and
      neither cause nor hide a failure to parse. */
  lemma UnknownFieldsAreInert(a: seq<byte>, u: seq<byte>, b: seq<byte>, named: set<nat>)
    requires OnBoundary(a) && Unnamed(u, named)
    ensures Parse(a + u + b).Ok? == Parse(a + b).Ok?
    ensures Parse(a + b).Err? ==> Parse(a + u + b) == Parse(a + b)
    ensures Parse(a + b).Ok? ==>
      forall f :: f in named ==> Values(Parse(a + u + b).value, f) == Values(Parse(a + b).value, f)
  {
    Framing(a, b);
    Framing(u, b);
    Framing(a, u + b);
    Assoc(a, u, b);
    if Parse(b).Ok? {
      forall f | f in named ensures Values(Parse(a + u + b).value, f) == Values(Parse(a + b).value, f) {
        InertRecords(Parse(a).value, Parse(u).value, Parse(b).value, named, f);
      }
    }
  }

  // -------------------------------------------------------------- decodeParcel

  /** A decoded row: the first entry of each of its fields, or none. The scalar
      accessors are functions of that entry. */
  type Row = seq<Option<Value>>

  function Head(records: seq<Record>, field: nat): Option<Value> {
    var values := Values(records, field);
    if values == [] then None else Some(values[0])
  }

  /** `read(v)` of one entry. Handed a varint instead of bytes, `read` sees no
      length, enters no iteration and returns an empty Map. */
  function ReadEntry(v: Value): Result<seq<Record>> {
    if v.Raw? then Parse(v.bytes) else Ok([])
  }

  /** `subs(f, num, fn)` for a row of the given fields. */
  function Subs(values: seq<Value>, fields: seq<nat>): Result<seq<Row>> {
    if values == [] then Ok([]) else
    match ReadEntry(values[0])
    case Err(e) => Err(e)
    case Ok(records) =>
      match Subs(values[1..], fields)
      case Err(e) => Err(e)
      case Ok(rows) => Ok([ReadRow(records, fields)] + rows)
  }

  function ReadRow(records: seq<Record>, fields: seq<nat>): Row {
    seq(|fields|, i requires 0 <= i < |fields| => Head(records, fields[i]))
  }

  datatype Parcel = Parcel(row: Row, encumbrances: seq<Row>, deeds: seq<Row>, restrictions: seq<Row>, freezes: seq<Row>)

  const PARCEL_FIELDS: set<nat> := {1, 2, 3, 4, 5, 6, 7, 8, 9, 10, 11, 12}

  /** The fields a parcel's nested rows name: encumbrances 7, deeds 9, restrictions 10
      and freezes 12. */
  predicate IsRow(field: nat) {
    field == 7 || field == 9 || field == 10 || field == 12
  }

  function RowFields(field: nat): seq<nat>
    requires IsRow(field)
  {
    if field == 7 then [1, 2, 3, 4, 5] else if field == 12 then [1, 2, 3, 4, 5, 6, 7] else [1, 2, 3, 4, 5, 6]
  }

  function DecodeParcel(records: seq<Record>): Result<Parcel> {
    var row := [Head(records, 1), Head(records, 2), Head(records, 3), Head(records, 4), Head(records, 5),
                Head(records, 6), Head(records, 8), Head(records, 11)];
    match Subs(Values(records, 7), RowFields(7))
    case Err(e) => Err(e)
    case Ok(encumbrances) =>
      match Subs(Values(records, 9), RowFields(9))
      case Err(e) => Err(e)
      case Ok(deeds) =>
        match Subs(Values(records, 10), RowFields(10))
        case Err(e) => Err(e)
        case Ok(restrictions) =>
          match Subs(Values(records, 12), RowFields(12))
          case Err(e) => Err(e)
          case Ok(freezes) => Ok(Parcel(row, encumbrances, deeds, restrictions, freezes))
  }

  function ReadParcel(bytes: seq<byte>): Result<Parcel> {
    match Parse(bytes)
    case Err(e) => Err(e)
    case Ok(records) => DecodeParcel(records)
  }

  /** A node running newer code adds fields; the parcel around them is the same. */
  lemma ParcelIgnoresUnknownFields(a: seq<byte>, u: seq<byte>, b: seq<byte>)
    requires OnBoundary(a) && Unnamed(u, PARCEL_FIELDS)
    ensures ReadParcel(a + u + b) == ReadParcel(a + b)
  {
    UnknownFieldsAreInert(a, u, b, PARCEL_FIELDS);
  }

  // ------------------------------------------------ unknown fields in a row

  /** The two entries give the same row, or fail alike. */
  predicate SameRow(v: Value, w: Value, fields: seq<nat>) {
    ReadEntry(v) == ReadEntry(w) ||
    (ReadEntry(v).Ok? && ReadEntry(w).Ok? &&
     forall i :: 0 <= i < |fields| ==> Values(ReadEntry(v).value, fields[i]) == Values(ReadEntry(w).value, fields[i]))
  }

  lemma {:induction false} SubsAround(v: seq<Value>, x: Value, y: Value, w: seq<Value>, fields: seq<nat>)
    requires SameRow(x, y, fields)
    ensures Subs(v + [x] + w, fields) == Subs(v + [y] + w, fields)
    decreases |v|
  {
    if v == [] {
      assert ([] + [x] + w)[1..] == w && ([] + [y] + w)[1..] == w;
      if ReadEntry(x) != ReadEntry(y) { assert ReadRow(ReadEntry(x).value, fields) == ReadRow(ReadEntry(y).value, fields); }
    } else {
      assert (v + [x] + w)[1..] == v[1..] + [x] + w && (v + [y] + w)[1..] == v[1..] + [y] + w;
      SubsAround(v[1..], x, y, w, fields);
    }
  }

  lemma RecordAround(before: seq<Record>, r: Record, after: seq<Record>, field: nat)
    ensures Values(before + ([r] + after), field) ==
      if r.field == field then Values(before, field) + [r.value] + Values(after, field) else Values(before, field) + Values(after, field)
  {
    ValuesConcat(before, [r] + after, field);
    ValuesConcat([r], after, field);
    assert [r][1..] == [];
    if r.field == field { Assoc(Values(before, field), [r.value], Values(after, field)); }
  }

  /** One row of a parcel read from another entry that gives the same row. */
  lemma ParcelAround(before: seq<Record>, field: nat, x: Value, y: Value, after: seq<Record>)
    requires IsRow(field) && SameRow(x, y, RowFields(field))
    ensures DecodeParcel(before + ([Record(field, x)] + after)) == DecodeParcel(before + ([Record(field, y)] + after))
  {
    hide Subs, SameRow;
    var q, r := before + ([Record(field, x)] + after), before + ([Record(field, y)] + after);
    forall f: nat ensures f != field ==> Values(q, f) == Values(r, f) {
      RecordAround(before, Record(field, x), after, f);
      RecordAround(before, Record(field, y), after, f);
    }
    RecordAround(before, Record(field, x), after, field);
    RecordAround(before, Record(field, y), after, field);
    SubsAround(Values(before, field), x, y, Values(after, field), RowFields(field));
  }

  lemma RowWithUnknown(field: nat, x: seq<byte>, u: seq<byte>, y: seq<byte>)
    requires IsRow(field) && OnBoundary(x) && Unnamed(u, {1, 2, 3, 4, 5, 6, 7})
    ensures SameRow(Raw(x + u + y), Raw(x + y), RowFields(field))
  {
    hide Unnamed, OnBoundary, Parse;
    UnknownFieldsAreInert(x, u, y, {1, 2, 3, 4, 5, 6, 7});
  }

  /** Fields nobody names inside an encumbrance, a deed, a restriction or a freeze: the
      parcel is the same, rows and errors alike. */
  lemma RowsIgnoreUnknownFields(a: seq<byte>, field: nat, x: seq<byte>, u: seq<byte>, y: seq<byte>, b: seq<byte>)
    requires OnBoundary(a) && IsRow(field) && OnBoundary(x) && Unnamed(u, {1, 2, 3, 4, 5, 6, 7})
    requires |x + u + y| < TWO_TO_53
    ensures ReadParcel(a + (Framed(field, x + u + y) + b)) == ReadParcel(a + (Framed(field, x + y) + b))
  {
    hide DecodeParcel, Framed, SameRow, Unnamed, OnBoundary;
    RowWithUnknown(field, x, u, y);
    assert |x + y| <= |x + u + y|;
    RowRead(a, field, x + u + y, b);
    RowRead(a, field, x + y, b);
    if Parse(b).Ok? {
      ParcelAround(Parse(a).value, field, Raw(x + u + y), Raw(x + y), Parse(b).value);
    }
  }

  lemma RowRead(a: seq<byte>, field: nat, p: seq<byte>, b: seq<byte>)
    requires OnBoundary(a) && field < 0x1000_0000 && |p| < TWO_TO_53
    ensures Parse(a).Ok?
    ensures Parse(a + (Framed(field, p) + b)) ==
      if Parse(b).Ok? then Ok(Parse(a).value + ([Record(field, Raw(p))] + Parse(b).value)) else Parse(b)
  {
    hide Framed, Next;
    Framing(a, Framed(field, p) + b);
    FramedRead(field, p, b);
    Suffix(Framed(field, p), b);
  }

  /** A title's repeated entries are never collapsed: the encumbrances of two
      stretches of a parcel are those of the first and then those of the second. */
  lemma {:induction false} SubsConcat(v: seq<Value>, w: seq<Value>, fields: seq<nat>)
    requires Subs(v, fields).Ok? && Subs(w, fields).Ok?
    ensures Subs(v + w, fields) == Ok(Subs(v, fields).value + Subs(w, fields).value)
  {
    if v == [] {
      assert v + w == w;
      assert [] + Subs(w, fields).value == Subs(w, fields).value;
    } else {
      assert (v + w)[1..] == v[1..] + w;
      SubsConcat(v[1..], w, fields);
      Assoc([ReadRow(ReadEntry(v[0]).value, fields)], Subs(v[1..], fields).value, Subs(w, fields).value);
    }
  }

  lemma EncumbrancesAccumulate(a: seq<byte>, b: seq<byte>)
    requires OnBoundary(a) && ReadParcel(a).Ok? && ReadParcel(b).Ok?
    ensures ReadParcel(a + b).Ok?
    ensures ReadParcel(a + b).value.encumbrances == ReadParcel(a).value.encumbrances + ReadParcel(b).value.encumbrances
  {
    Framing(a, b);
    var ra, rb := Parse(a).value, Parse(b).value;
    forall f: nat ensures Values(ra + rb, f) == Values(ra, f) + Values(rb, f) { ValuesConcat(ra, rb, f); }
    SubsConcat(Values(ra, 7), Values(rb, 7), RowFields(7));
    SubsConcat(Values(ra, 9), Values(rb, 9), RowFields(9));
    SubsConcat(Values(ra, 10), Values(rb, 10), RowFields(10));
    SubsConcat(Values(ra, 12), Values(rb, 12), RowFields(12));
  }

  // ------------------------------------------------------------------ the tag

  /** q doubled k times. */
  function Double(k: nat, q: nat): nat {
    if k == 0 then q else 2 * Double(k - 1, q)
  }

  /** Dropping the k low bits r of a number whose other bits are q: whether half or
      more than half of the last place was dropped. */
  lemma {:induction false} DropBits(k: nat, q: nat, r: nat, h: bool, s: bool)
    requires k >= 1 && TWO_TO_53 / 2 <= q < TWO_TO_53 && r < Double(k, 1)
    ensures Rounded(Double(k, q) + r, h, s) ==
      Double(k, Rounded(q, r >= Double(k - 1, 1), h || s || (r != 0 && r != Double(k - 1, 1))))
  {
    DoubleGrows(k - 1, q);
    assert Rounded(Double(k, q) + r, h, s) == 2 * Rounded(Double(k - 1, q) + r / 2, r % 2 == 1, h || s);
    if k > 1 { DropBits(k - 1, q, r / 2, r % 2 == 1, h || s); }
  }

  lemma {:induction false} DoubleGrows(k: nat, q: nat)
    ensures Double(k, q) >= q
  {
    if k > 0 { DoubleGrows(k - 1, q); }
  }

  /** A 64-bit number is rounded to a multiple of 2048. */
  lemma RoundsTo2048(q: nat, r: nat)
    requires TWO_TO_53 / 2 <= q < TWO_TO_53 && r < 2048
    ensures ToNumber(2048 * q + r) == 2048 * (q + if r > 1024 || (r == 1024 && q % 2 == 1) then 1 else 0)
  {
    ElevenTimes(q);
    ElevenTimes(1);
    var up := Rounded(q, r >= 1024, r != 0 && r != 1024);
    ElevenTimes(up);
    DropBits(11, q, r, false, false);
  }

  lemma ElevenTimes(q: nat)
    ensures Double(11, q) == 2048 * q && Double(10, q) == 1024 * q
  {
    assert Double(3, q) == 8 * q by { assert Double(1, q) == 2 * q; }
    assert Double(6, q) == 64 * q by { assert Double(4, q) == 16 * q; }
    assert Double(9, q) == 512 * q by { assert Double(7, q) == 128 * q; }
  }

  /** A key of a tag from 2^28 on is rounded to a multiple of 2048. */
  lemma RoundedKey(field: nat, wire: nat, high: nat, low: nat)
    requires 0x10_0000 <= high < 0x20_0000 && low < 256 && field == 256 * high + low && (wire == 0 || wire == 2)
    ensures var key := TWO_TO_64 - TWO_TO_32 + 8 * field + wire;
      ToNumber(key) == TWO_TO_64 - TWO_TO_32 + 2048 * (if 8 * low + wire <= 1024 && (low != 128 || high % 2 == 0) then high else high + 1)
  {
    var q := 0x1F_FFFF_FFE0_0000 + high;
    assert TWO_TO_64 - TWO_TO_32 + 8 * field + wire == 2048 * q + (8 * low + wire);
    RoundsTo2048(q, 8 * low + wire);
  }

  lemma KeyOnTheWire(field: nat, wire: nat)
    requires 1 <= field < 0x2000_0000 && (wire == 0 || wire == 2)
    ensures Varint(VarintBytes(Tag(field, wire)), 0).Ok?
    ensures Varint(VarintBytes(Tag(field, wire)), 0).value.value ==
      8 * field + wire + if field < 0x1000_0000 then 0 else TWO_TO_64 - TWO_TO_32
  {
    BigShift();
    assert Written(Tag(field, wire)) == 8 * field + wire + if field < 0x1000_0000 then 0 else TWO_TO_64 - TWO_TO_32;
    GroupsRead(Written(Tag(field, wire)), 0, []);
    assert VarintBytes(Tag(field, wire)) + [] == VarintBytes(Tag(field, wire));
  }

  /** What the reader makes of the key of a tag. */
  function KeyRead(key: nat): (nat, nat) {
    (ToNumber(key) % TWO_TO_32 / 8, ToNumber(key) % 8)
  }

  /** The tag of a field number protobuf allows reads back exactly when the number
      is below 2^28, or is a multiple of 256 carrying a varint: from 2^28 on the
      32-bit shift goes negative, and the ten-byte key is rounded by Number(). */
  lemma TagReadsBack(field: nat, wire: nat)
    requires 1 <= field < 0x2000_0000 && (wire == 0 || wire == 2)
    ensures Varint(VarintBytes(Tag(field, wire)), 0).Ok?
    ensures KeyRead(Varint(VarintBytes(Tag(field, wire)), 0).value.value) == (field, wire)
      <==> field < 0x1000_0000 || (wire == 0 && field % 256 == 0)
  {
    KeyOnTheWire(field, wire);
    if field < 0x1000_0000 {
      LowKeyRead(field, wire);
    } else {
      HighKeyRead(field, wire, field / 256, field % 256);
    }
  }

  lemma LowKeyRead(field: nat, wire: nat)
    requires field < 0x1000_0000 && wire < 8
    ensures KeyRead(8 * field + wire) == (field, wire)
  {
  }

  lemma HighKeyRead(field: nat, wire: nat, high: nat, low: nat)
    requires 0x10_0000 <= high < 0x20_0000 && low < 256 && field == 256 * high + low && (wire == 0 || wire == 2)
    ensures KeyRead(TWO_TO_64 - TWO_TO_32 + 8 * field + wire) == (field, wire) <==> wire == 0 && low == 0
  {
    RoundedKey(field, wire, high, low);
    RoundedField(if 8 * low + wire <= 1024 && (low != 128 || high % 2 == 0) then high else high + 1);
  }

  lemma RoundedField(m: nat)
    requires 0x10_0000 <= m <= 0x20_0000
    ensures var number := TWO_TO_64 - TWO_TO_32 + 2048 * m;
      number % 8 == 0 && number % TWO_TO_32 / 8 == if m < 0x20_0000 then 256 * m else 0
  {
    var number := TWO_TO_64 - TWO_TO_32 + 2048 * m;
    assert number == 8 * (0x1FFF_FFFF_E000_0000 + 256 * m);
    if m < 0x20_0000 {
      assert number == TWO_TO_32 * 0xFFFF_FFFF + 2048 * m;
    } else {
      assert number == TWO_TO_32 * TWO_TO_32;
    }
  }
}
