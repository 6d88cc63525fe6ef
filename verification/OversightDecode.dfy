/** clients/oversight/proto.js: decoding a message against a schema. */
module OversightDecode {
  import opened Basics
  import opened Wire
  import opened OversightProto
  import F = LandFraming

  // --------------------------------------------------------------------- schemas

  /** What a field holds; an enum is read as a Uint64, and a string is its bytes. */
  datatype Kind = Uint64 | Int64 | Bool | Str | Bytes | Nested(schema: seq<Spec>)

  datatype Spec = Spec(number: nat, kind: Kind, repeated: bool)

  datatype Decoded = Integer(shown: Shown) | Truth(flag: bool) | Octets(bytes: seq<byte>) | Null | Object(cells: seq<Cell>)

  /** One decoded field, in the place its spec has in the schema. */
  datatype Cell = One(value: Decoded) | Many(values: seq<Decoded>)

  function Default(kind: Kind): Decoded {
    match kind
    case Nested(_) => Null
    case Str => Octets([])
    case Bytes => Octets([])
    case Bool => Truth(false)
    case _ => Integer(Number(0))
  }

  function Prefixed<T>(head: seq<T>, rest: Result<seq<T>>): Result<seq<T>> {
    match rest
    case Ok(tail) => Ok(head + tail)
    case Err(e) => Err(e)
  }

  // -------------------------------------------------------------------- decoding

  function ReadOne(v: Value, kind: Kind): Result<Decoded>
    decreases kind, 0
  {
    match kind
    case Nested(schema) =>
      if !v.Raw? then Err(ExpectedMessage) else
      (match Decode(v.bytes, schema)
       case Ok(cells) => Ok(Object(cells))
       case Err(e) => Err(e))
    case Uint64 => if v.Num? then Ok(Integer(ToNumberOrString(v.num))) else Err(ExpectedVarint)
    case Int64 => if v.Num? then Ok(Integer(AsSigned(v.num))) else Err(ExpectedVarint)
    case Bool => if v.Num? then Ok(Truth(v.num != 0)) else Err(ExpectedVarint)
    case Str => if v.Raw? then Ok(Octets(v.bytes)) else Err(ExpectedBytes)
    case Bytes => if v.Raw? then Ok(Octets(v.bytes)) else Err(ExpectedBytes)
  }

  function ReadAll(values: seq<Value>, kind: Kind): Result<seq<Decoded>>
    decreases kind, 1, |values|
  {
    if values == [] then Ok([]) else
    match ReadOne(values[0], kind)
    case Err(e) => Err(e)
    case Ok(v) => Prefixed([v], ReadAll(values[1..], kind))
  }

  function ReadCell(values: seq<Value>, spec: Spec): Result<Cell>
    decreases spec, 2
  {
    if spec.repeated then
      match ReadAll(values, spec.kind)
      case Ok(many) => Ok(Many(many))
      case Err(e) => Err(e)
    else if values == [] then Ok(One(Default(spec.kind)))
    else
      match ReadOne(values[|values| - 1], spec.kind)
      case Ok(one) => Ok(One(one))
      case Err(e) => Err(e)
  }

  function DecodeAll(records: seq<Record>, schema: seq<Spec>): Result<seq<Cell>>
    decreases schema, 3
  {
    if schema == [] then Ok([]) else
    match ReadCell(Values(records, schema[0].number), schema[0])
    case Err(e) => Err(e)
    case Ok(cell) => Prefixed([cell], DecodeAll(records, schema[1..]))
  }

  function Decode(s: seq<byte>, schema: seq<Spec>): Result<seq<Cell>>
    decreases schema, 4
  {
    match Parse(s)
    case Err(e) => Err(e)
    case Ok(records) => DecodeAll(records, schema)
  }

  lemma PrefixedTwice<T>(a: seq<T>, b: seq<T>, rest: Result<seq<T>>)
    ensures Prefixed(a, Prefixed(b, rest)) == Prefixed(a + b, rest)
  {
    if rest.Ok? { Assoc(a, b, rest.value); }
  }

  /** `readOne`. */
  method ReadEntryAs(v: Value, kind: Kind) returns (r: Result<Decoded>)
    ensures r == ReadOne(v, kind)
    decreases kind, 0
  {
    match kind {
      case Nested(schema) =>
        if !v.Raw? { return Err(ExpectedMessage); }
        var cells := DecodeMessage(v.bytes, schema);
        return if cells.Ok? then Ok(Object(cells.value)) else Err(cells.error);
      case Uint64 =>
        if !v.Num? { return Err(ExpectedVarint); }
        return Ok(Integer(ToNumberOrString(v.num)));
      case Int64 =>
        if !v.Num? { return Err(ExpectedVarint); }
        return Ok(Integer(AsSigned(v.num)));
      case Bool =>
        if !v.Num? { return Err(ExpectedVarint); }
        return Ok(Truth(v.num != 0));
      case Str =>
        if !v.Raw? { return Err(ExpectedBytes); }
        return Ok(Octets(v.bytes));
      case Bytes =>
        if !v.Raw? { return Err(ExpectedBytes); }
        return Ok(Octets(v.bytes));
    }
  }

  /** `entries.map((e) => readOne(e, kind))`. */
  method ReadEntries(values: seq<Value>, kind: Kind) returns (r: Result<seq<Decoded>>)
    ensures r == ReadAll(values, kind)
    decreases kind, 1
  {
    var read: seq<Decoded> := [];
    assert Prefixed([], ReadAll(values, kind)) == ReadAll(values, kind) by {
      if ReadAll(values, kind).Ok? { assert [] + ReadAll(values, kind).value == ReadAll(values, kind).value; }
    }
    for k := 0 to |values|
      invariant ReadAll(values, kind) == Prefixed(read, ReadAll(values[k..], kind))
    {
      var v := ReadEntryAs(values[k], kind);
      if v.Err? { return Err(v.error); }
      PrefixedTwice(read, [v.value], ReadAll(values[k + 1..], kind));
      assert values[k..][1..] == values[k + 1..];
      read := read + [v.value];
    }
    assert read + [] == read;
    return Ok(read);
  }

  method ReadField(values: seq<Value>, spec: Spec) returns (r: Result<Cell>)
    ensures r == ReadCell(values, spec)
    decreases spec, 2
  {
    if spec.repeated {
      var many := ReadEntries(values, spec.kind);
      return if many.Ok? then Ok(Many(many.value)) else Err(many.error);
    } else if values == [] {
      return Ok(One(Default(spec.kind)));
    } else {
      var one := ReadEntryAs(values[|values| - 1], spec.kind);
      return if one.Ok? then Ok(One(one.value)) else Err(one.error);
    }
  }

  /** `decode`. */
  method DecodeMessage(buf: seq<byte>, schema: seq<Spec>) returns (r: Result<seq<Cell>>)
    ensures r == Decode(buf, schema)
    decreases schema, 4
  {
    var fields := SplitFields(buf);
    if fields.Err? { return Err(fields.error); }
    ghost var records := Parse(buf).value;
    var out: seq<Cell> := [];
    assert Prefixed([], DecodeAll(records, schema)) == DecodeAll(records, schema) by {
      if DecodeAll(records, schema).Ok? { assert [] + DecodeAll(records, schema).value == DecodeAll(records, schema).value; }
    }
    for k := 0 to |schema|
      invariant DecodeAll(records, schema) == Prefixed(out, DecodeAll(records, schema[k..]))
    {
      AllDenotes(fields.value, records, schema[k].number);
      var cell := ReadField(All(fields.value, schema[k].number), schema[k]);
      if cell.Err? { return Err(cell.error); }
      PrefixedTwice(out, [cell.value], DecodeAll(records, schema[k + 1..]));
      assert schema[k..][1..] == schema[k + 1..];
      out := out + [cell.value];
    }
    assert out + [] == out;
    return Ok(out);
  }

  // -------------------------------------------------------------------- integers

  /** The console shows exactly w. */
  ghost predicate Shows(d: Decoded, w: int) {
    d.Integer? && if d.shown.Number? then d.shown.number == w else d.shown.digits == w
  }

  /** The int64 that two's complement puts on the wire as v. */
  function Signed(v: nat): int {
    if v >= TWO_TO_63 then v - TWO_TO_64 else v
  }

  /** A uint64 or enum is always shown exactly, as a Number or as its digits. An int64
      is shown exactly unless it is negative and no double: only large positive values
      become digits, so one below -2^53 is rounded. */
  lemma IntegersShown(v: nat)
    ensures var r := ReadOne(Num(v), Uint64); r.Ok? && Shows(r.value, v)
    ensures var r := ReadOne(Num(v), Int64);
      r.Ok? && (Shows(r.value, Signed(v)) <==> Signed(v) >= 0 || Representable(-Signed(v)))
  {
    if Signed(v) < 0 { ToNumberExactly(-Signed(v)); }
  }

  /** -2^53 - 1 is shown as -2^53. */
  lemma RoundedInt64()
    ensures var v := TWO_TO_64 - TWO_TO_53 - 1;
      Signed(v) == -TWO_TO_53 - 1 && ReadOne(Num(v), Int64) == Ok(Integer(Number(-TWO_TO_53)))
  {
    assert Rounded((TWO_TO_53 + 1) / 2, true, false) == TWO_TO_53 / 2;
  }

  // --------------------------------------------------------------------- framing

  /** The buffer ends where a record ends. */
  predicate Whole(s: seq<byte>)
    decreases |s|
  {
    s == [] || (Next(s).Ok? && Next(s).value.used <= |s| && Whole(s[Next(s).value.used..]))
  }

  lemma {:induction false} VarintPrefix(a: seq<byte>, b: seq<byte>, k: nat)
    requires Varint(a, k).Ok?
    ensures Varint(a + b, k) == Varint(a, k)
    decreases |a|
  {
    if a[0] >= 128 {
      assert (a + b)[1..] == a[1..] + b;
      VarintPrefix(a[1..], b, k + 1);
    }
  }

  lemma SlicePrefix(a: seq<byte>, b: seq<byte>, end: nat)
    requires end <= |a|
    ensures forall at | 0 <= at <= end :: (a + b)[at..end] == a[at..end]
  {
    forall at | 0 <= at <= end ensures (a + b)[at..end] == a[at..end] { }
  }

  lemma EntryPrefix(a: seq<byte>, b: seq<byte>, j: nat, field: nat, wire: nat)
    requires 1 <= j <= |a| && Entry(a, j, field, wire).Ok? && Entry(a, j, field, wire).value.used <= |a|
    ensures Entry(a + b, j, field, wire) == Entry(a, j, field, wire)
  {
    hide Varint, ToNumber;
    var end := Entry(a, j, field, wire).value.used;
    assert (a + b)[j..] == a[j..] + b;
    if wire == 0 || wire == 2 {
      VarintPrefix(a[j..], b, 0);
      SlicePrefix(a, b, end);
    } else {
      FixedPrefix(a, b, j, end);
    }
  }

  lemma FixedPrefix(a: seq<byte>, b: seq<byte>, from: nat, to: nat)
    requires from <= to <= |a|
    ensures Subarray(a + b, from, to) == Subarray(a, from, to)
  {
  }

  /** Parsing two buffers joined is parsing the first and then the second. */
  lemma {:induction false} Framing(a: seq<byte>, b: seq<byte>)
    requires Whole(a)
    ensures Parse(a).Ok? && Parse(a + b) == Continued(Parse(a).value, Parse(b))
    decreases |a|
  {
    hide Entry, Varint, ToNumber;
    if a == [] {
      assert a + b == b;
      if Parse(b).Ok? { assert [] + Parse(b).value == Parse(b).value; }
    } else {
      var step, tag := Next(a).value, Varint(a, 0).value;
      VarintPrefix(a, b, 0);
      EntryPrefix(a, b, tag.used, ToNumber(tag.value / 8), tag.value % 8);
      assert (a + b)[step.used..] == a[step.used..] + b;
      Framing(a[step.used..], b);
      ContinuedTwice(Filed(step.record), Parse(a[step.used..]).value, Parse(b));
    }
  }

  // ------------------------------------------------------------ joined messages

  lemma {:induction false} ReadAllConcat(v: seq<Value>, w: seq<Value>, kind: Kind)
    requires ReadAll(v, kind).Ok? && ReadAll(w, kind).Ok?
    ensures ReadAll(v + w, kind) == Ok(ReadAll(v, kind).value + ReadAll(w, kind).value)
    decreases |v|
  {
    if v == [] {
      assert v + w == w;
      assert [] + ReadAll(w, kind).value == ReadAll(w, kind).value;
    } else {
      assert (v + w)[1..] == v[1..] + w;
      ReadAllConcat(v[1..], w, kind);
      PrefixedTwice([ReadOne(v[0], kind).value], ReadAll(v[1..], kind).value, Ok(ReadAll(w, kind).value));
    }
  }

  /** What a field holds after a second message: a repeated field has the entries of
      both, a singular one those of the second where it occurs there. */
  function Joined(a: Cell, b: Cell, inSecond: bool): Cell {
    if a.Many? && b.Many? then Many(a.values + b.values) else if inSecond then b else a
  }

  lemma CellsJoin(v: seq<Value>, w: seq<Value>, spec: Spec)
    requires ReadCell(v, spec).Ok? && ReadCell(w, spec).Ok?
    ensures ReadCell(v + w, spec) == Ok(Joined(ReadCell(v, spec).value, ReadCell(w, spec).value, w != []))
  {
    if spec.repeated {
      ReadAllConcat(v, w, spec.kind);
    } else if w == [] {
      assert v + w == v;
    } else {
      assert (v + w)[|v + w| - 1] == w[|w| - 1];
    }
  }

  lemma {:induction false} DecodeCells(records: seq<Record>, schema: seq<Spec>)
    ensures DecodeAll(records, schema).Ok? <==> forall i :: 0 <= i < |schema| ==> ReadCell(Values(records, schema[i].number), schema[i]).Ok?
    ensures DecodeAll(records, schema).Ok? ==>
      |DecodeAll(records, schema).value| == |schema| &&
      forall i :: 0 <= i < |schema| ==> ReadCell(Values(records, schema[i].number), schema[i]) == Ok(DecodeAll(records, schema).value[i])
    decreases |schema|
  {
    hide ReadCell;
    if schema != [] {
      DecodeCells(records, schema[1..]);
      assert forall i :: 0 < i < |schema| ==> schema[i] == schema[1..][i - 1];
    }
  }

  /** Field by field, what decode gives for two messages joined. */
  ghost predicate DecodesJoined(joined: seq<Cell>, a: seq<Cell>, b: seq<Cell>, second: seq<Record>, schema: seq<Spec>) {
    |joined| == |a| == |b| == |schema| &&
    forall i :: 0 <= i < |schema| ==>
      (a[i].Many? <==> schema[i].repeated) && (b[i].Many? <==> schema[i].repeated) &&
      joined[i] == Joined(a[i], b[i], Values(second, schema[i].number) != [])
  }

  /** A singular field of a message that occurs twice takes the last value, a nested
      message too: it is replaced whole. A repeated field keeps every entry in order. */
  lemma LastOccurrenceWins(a: seq<byte>, b: seq<byte>, schema: seq<Spec>)
    requires Whole(a) && Decode(a, schema).Ok? && Decode(b, schema).Ok?
    ensures Decode(a + b, schema).Ok?
    ensures DecodesJoined(Decode(a + b, schema).value, Decode(a, schema).value, Decode(b, schema).value, Parse(b).value, schema)
  {
    Framing(a, b);
    var ra, rb := Parse(a).value, Parse(b).value;
    RecordsJoin(ra, rb, schema);
  }

  lemma RecordsJoin(ra: seq<Record>, rb: seq<Record>, schema: seq<Spec>)
    requires DecodeAll(ra, schema).Ok? && DecodeAll(rb, schema).Ok?
    ensures DecodeAll(ra + rb, schema).Ok?
    ensures DecodesJoined(DecodeAll(ra + rb, schema).value, DecodeAll(ra, schema).value, DecodeAll(rb, schema).value, rb, schema)
  {
    DecodeCells(ra, schema);
    DecodeCells(rb, schema);
    DecodeCells(ra + rb, schema);
    forall i | 0 <= i < |schema|
      ensures ReadCell(Values(ra + rb, schema[i].number), schema[i])
        == Ok(Joined(DecodeAll(ra, schema).value[i], DecodeAll(rb, schema).value[i], Values(rb, schema[i].number) != []))
      ensures (DecodeAll(ra, schema).value[i].Many? <==> schema[i].repeated) && (DecodeAll(rb, schema).value[i].Many? <==> schema[i].repeated)
    {
      ValuesConcat(ra, rb, schema[i].number);
      CellsJoin(Values(ra, schema[i].number), Values(rb, schema[i].number), schema[i]);
    }
  }

  // -------------------------------------------------------------- unknown fields

  ghost predicate Names(schema: seq<Spec>, field: nat) {
    exists i :: 0 <= i < |schema| && schema[i].number == field
  }

  lemma {:induction false} SameCells(r: seq<Record>, q: seq<Record>, schema: seq<Spec>)
    requires forall i :: 0 <= i < |schema| ==> Values(r, schema[i].number) == Values(q, schema[i].number)
    ensures DecodeAll(r, schema) == DecodeAll(q, schema)
    decreases |schema|
  {
    if schema != [] {
      assert forall i :: 0 <= i < |schema| - 1 ==> schema[1..][i] == schema[i + 1];
      SameCells(r, q, schema[1..]);
    }
  }

  /** Whole records of fields the schema does not name, put between two records,
      change nothing: the message decodes to the same value or the same error. */
  lemma UnknownFieldsAreSkipped(a: seq<byte>, u: seq<byte>, b: seq<byte>, schema: seq<Spec>)
    requires Whole(a) && Whole(u) && Parse(u).Ok?
    requires forall i :: 0 <= i < |Parse(u).value| ==> !Names(schema, Parse(u).value[i].field)
    ensures Decode(a + u + b, schema) == Decode(a + b, schema)
  {
    Framing(a, b);
    Framing(u, b);
    Framing(a, u + b);
    Assoc(a, u, b);
    if Parse(b).Ok? {
      var ra, ru, rb := Parse(a).value, Parse(u).value, Parse(b).value;
      forall i | 0 <= i < |schema| ensures Values(ra + (ru + rb), schema[i].number) == Values(ra + rb, schema[i].number) {
        F.InertRecords(ra, ru, rb, {schema[i].number}, schema[i].number);
      }
      SameCells(ra + (ru + rb), ra + rb, schema);
    }
  }

  /** The same named fields with the same values at every depth, whatever else is
      between them or in the nested messages among them. */
  predicate SameNamed(q: seq<Record>, r: seq<Record>, schema: seq<Spec>)
    decreases schema, 3
  {
    schema == [] ||
    (SameValues(Values(q, schema[0].number), Values(r, schema[0].number), schema[0]) && SameNamed(q, r, schema[1..]))
  }

  predicate SameValues(v: seq<Value>, w: seq<Value>, spec: Spec)
    decreases spec, 2, |v|
  {
    |v| == |w| && (v == [] || (SameValue(v[0], w[0], spec.kind) && SameValues(v[1..], w[1..], spec)))
  }

  predicate SameValue(v: Value, w: Value, kind: Kind)
    decreases kind, 0
  {
    v == w ||
    (kind.Nested? && v.Raw? && w.Raw? && Parse(v.bytes).Ok? && Parse(w.bytes).Ok? &&
     SameNamed(Parse(v.bytes).value, Parse(w.bytes).value, kind.schema))
  }

  lemma {:induction false} SameValueReads(v: Value, w: Value, kind: Kind)
    requires SameValue(v, w, kind)
    ensures ReadOne(v, kind) == ReadOne(w, kind)
    decreases kind, 0
  {
    if v != w { SameNamedDecodes(Parse(v.bytes).value, Parse(w.bytes).value, kind.schema); }
  }

  lemma {:induction false} SameValuesRead(v: seq<Value>, w: seq<Value>, spec: Spec)
    requires SameValues(v, w, spec)
    ensures ReadAll(v, spec.kind) == ReadAll(w, spec.kind)
    ensures v != [] ==> ReadOne(v[|v| - 1], spec.kind) == ReadOne(w[|w| - 1], spec.kind)
    decreases spec, 2, |v|
  {
    if v != [] {
      SameValueReads(v[0], w[0], spec.kind);
      SameValuesRead(v[1..], w[1..], spec);
    }
  }

  /** What decode makes of a message depends on its named fields alone, at every depth:
      fields nobody names, in it or in any message nested in it, change nothing. */
  lemma {:induction false} SameNamedDecodes(q: seq<Record>, r: seq<Record>, schema: seq<Spec>)
    requires SameNamed(q, r, schema)
    ensures DecodeAll(q, schema) == DecodeAll(r, schema)
    decreases schema, 3
  {
    if schema != [] {
      SameValuesRead(Values(q, schema[0].number), Values(r, schema[0].number), schema[0]);
      SameNamedDecodes(q, r, schema[1..]);
    }
  }

  lemma {:induction false} SameValuesThemselves(v: seq<Value>, spec: Spec)
    ensures SameValues(v, v, spec)
    decreases |v|
  {
    if v != [] { SameValuesThemselves(v[1..], spec); }
  }

  lemma {:induction false} EqualValuesAreSame(q: seq<Record>, r: seq<Record>, schema: seq<Spec>)
    requires forall i :: 0 <= i < |schema| ==> Values(q, schema[i].number) == Values(r, schema[i].number)
    ensures SameNamed(q, r, schema)
    decreases |schema|
  {
    if schema != [] {
      SameValuesThemselves(Values(q, schema[0].number), schema[0]);
      assert forall i :: 0 <= i < |schema| - 1 ==> schema[1..][i] == schema[i + 1];
      EqualValuesAreSame(q, r, schema[1..]);
    }
  }

  /** Where a stretch of whole records that nobody names is put into a message: between
      two of its records, or within the payload of one of them. */
  datatype Place =
    | Here(a: seq<byte>, u: seq<byte>, b: seq<byte>)
    | Within(before: seq<Record>, spec: Spec, place: Place, after: seq<Record>)

  /** t is s with such a stretch put in at this place. */
  ghost predicate Grown(t: seq<byte>, s: seq<byte>, place: Place, schema: seq<Spec>)
    decreases place
  {
    match place
    case Here(a, u, b) =>
      t == a + u + b && s == a + b && Whole(a) && Whole(u) && Parse(b).Ok? &&
      Parse(u).Ok? && forall i :: 0 <= i < |Parse(u).value| ==> !Names(schema, Parse(u).value[i].field)
    case Within(before, spec, inner, after) =>
      spec.kind.Nested? && (forall i :: 0 <= i < |schema| && schema[i].number == spec.number ==> schema[i].kind == spec.kind) &&
      exists x, y ::
        Grown(x, y, inner, spec.kind.schema) &&
        Parse(t) == Ok(before + [Record(spec.number, Raw(x))] + after) && Parse(s) == Ok(before + [Record(spec.number, Raw(y))] + after)
  }

  lemma {:induction false} SameAround(v: seq<Value>, x: Value, y: Value, w: seq<Value>, spec: Spec)
    requires SameValue(x, y, spec.kind)
    ensures SameValues(v + [x] + w, v + [y] + w, spec)
    decreases |v|
  {
    if v == [] {
      assert [] + [x] + w == [x] + w && [] + [y] + w == [y] + w;
      assert ([x] + w)[1..] == w && ([y] + w)[1..] == w;
      SameValuesThemselves(w, spec);
    } else {
      assert (v + [x] + w)[1..] == v[1..] + [x] + w && (v + [y] + w)[1..] == v[1..] + [y] + w;
      SameAround(v[1..], x, y, w, spec);
    }
  }

  lemma ValuesAround(before: seq<Record>, r: Record, after: seq<Record>, field: nat)
    ensures Values(before + [r] + after, field) ==
      if r.field == field then Values(before, field) + [r.value] + Values(after, field) else Values(before, field) + Values(after, field)
  {
    ValuesConcat(before + [r], after, field);
    ValuesConcat(before, [r], field);
    assert [r][1..] == [];
    assert Values(before, field) + [] == Values(before, field);
  }

  lemma {:induction false} OneGrown(before: seq<Record>, x: Record, y: Record, after: seq<Record>, schema: seq<Spec>)
    requires x.field == y.field
    requires forall i :: 0 <= i < |schema| && schema[i].number == x.field ==> SameValue(x.value, y.value, schema[i].kind)
    ensures SameNamed(before + [x] + after, before + [y] + after, schema)
    decreases |schema|
  {
    if schema != [] {
      var n := schema[0].number;
      ValuesAround(before, x, after, n);
      ValuesAround(before, y, after, n);
      if n == x.field {
        SameAround(Values(before, n), x.value, y.value, Values(after, n), schema[0]);
      } else {
        SameValuesThemselves(Values(before + [x] + after, n), schema[0]);
      }
      assert forall i :: 0 <= i < |schema| - 1 ==> schema[1..][i] == schema[i + 1];
      OneGrown(before, x, y, after, schema[1..]);
    }
  }

  lemma {:induction false} GrownIsSame(t: seq<byte>, s: seq<byte>, place: Place, schema: seq<Spec>)
    requires Grown(t, s, place, schema)
    ensures Parse(t).Ok? && Parse(s).Ok? && SameNamed(Parse(t).value, Parse(s).value, schema)
    decreases place
  {
    match place
    case Here(a, u, b) =>
      Framing(a, b);
      Framing(u, b);
      Framing(a, u + b);
      Assoc(a, u, b);
      var ra, ru, rb := Parse(a).value, Parse(u).value, Parse(b).value;
      forall i | 0 <= i < |schema| ensures Values(ra + (ru + rb), schema[i].number) == Values(ra + rb, schema[i].number) {
        F.InertRecords(ra, ru, rb, {schema[i].number}, schema[i].number);
      }
      EqualValuesAreSame(ra + (ru + rb), ra + rb, schema);
    case Within(before, spec, inner, after) =>
      var x, y :|
        Grown(x, y, inner, spec.kind.schema) &&
        Parse(t) == Ok(before + [Record(spec.number, Raw(x))] + after) && Parse(s) == Ok(before + [Record(spec.number, Raw(y))] + after);
      GrownIsSame(x, y, inner, spec.kind.schema);
      OneGrown(before, Record(spec.number, Raw(x)), Record(spec.number, Raw(y)), after, schema);
  }

  /** Fields a newer node adds, at any depth, change nothing of what is decoded. */
  lemma UnknownFieldsAtAnyDepth(t: seq<byte>, s: seq<byte>, place: Place, schema: seq<Spec>)
    requires Grown(t, s, place, schema)
    ensures Decode(t, schema) == Decode(s, schema)
  {
    GrownIsSame(t, s, place, schema);
    SameNamedDecodes(Parse(t).value, Parse(s).value, schema);
  }
}
