/** clients/oversight/proto.js beside a decoder that merges, as the Protocol Buffers
    Encoding guide asks in its section "Last One Wins": where a singular field of a
    nested message occurs more than once, the message is what all its payloads joined
    decode to. `decode` keeps the last payload alone. */
module Merging {
  import opened Basics
  import opened Wire
  import opened OversightProto
  import opened OversightDecode
  import E = OversightEncode

  // ------------------------------------------------------------------ the reference

  /** The records of these payloads, one after another. */
  function Payloads(values: seq<Value>): Result<seq<Record>> {
    if values == [] then Ok([])
    else if !values[0].Raw? then Err(ExpectedMessage)
    else match Parse(values[0].bytes)
      case Err(e) => Err(e)
      case Ok(records) => Prefixed(records, Payloads(values[1..]))
  }

  /** One nested message out of all these payloads. */
  function MergeOne(values: seq<Value>, kind: Kind): Result<Decoded>
    requires kind.Nested?
    decreases kind, 0
  {
    match Payloads(values)
    case Err(e) => Err(e)
    case Ok(records) =>
      match MergeAll(records, kind.schema)
      case Ok(cells) => Ok(Object(cells))
      case Err(e) => Err(e)
  }

  function MergeEach(values: seq<Value>, kind: Kind): Result<seq<Decoded>>
    requires kind.Nested?
    decreases kind, 1, |values|
  {
    if values == [] then Ok([]) else
    match MergeOne([values[0]], kind)
    case Err(e) => Err(e)
    case Ok(v) => Prefixed([v], MergeEach(values[1..], kind))
  }

  function MergeCell(values: seq<Value>, spec: Spec): Result<Cell>
    decreases spec, 2
  {
    if !spec.kind.Nested? then ReadCell(values, spec)
    else if spec.repeated then
      match MergeEach(values, spec.kind)
      case Ok(many) => Ok(Many(many))
      case Err(e) => Err(e)
    else if values == [] then Ok(One(Null))
    else
      match MergeOne(values, spec.kind)
      case Ok(one) => Ok(One(one))
      case Err(e) => Err(e)
  }

  /** What a decoder that merges makes of a message. */
  function MergeAll(records: seq<Record>, schema: seq<Spec>): Result<seq<Cell>>
    decreases schema, 3
  {
    if schema == [] then Ok([]) else
    match MergeCell(Values(records, schema[0].number), schema[0])
    case Err(e) => Err(e)
    case Ok(cell) => Prefixed([cell], MergeAll(records, schema[1..]))
  }

  // ------------------------------------------------------------------ the condition

  /** Dropping the records before and keeping only `kept` loses nothing, field by
      field: what was dropped of a repeated field is nothing, of a scalar is given
      again or is the default, of a nested message is nothing, or again loses nothing
      within it. */
  predicate LosesNothing(before: seq<Record>, kept: seq<Record>, schema: seq<Spec>)
    decreases schema, 3
  {
    schema == [] ||
    (FieldLosesNothing(Values(before, schema[0].number), Values(kept, schema[0].number), schema[0]) &&
     LosesNothing(before, kept, schema[1..]))
  }

  predicate FieldLosesNothing(before: seq<Value>, kept: seq<Value>, spec: Spec)
    decreases spec, 2
  {
    if spec.repeated then before == [] && (spec.kind.Nested? ==> EachLosesNothing(kept, spec.kind))
    else if !spec.kind.Nested? then kept != [] || before == [] || ReadCell(before, spec) == Ok(One(Default(spec.kind)))
    else if kept == [] then before == []
    else PayloadLosesNothing(before + kept[..|kept| - 1], kept[|kept| - 1], spec.kind)
  }

  predicate PayloadLosesNothing(before: seq<Value>, kept: Value, kind: Kind)
    requires kind.Nested?
    decreases kind, 0
  {
    Payloads(before).Ok? && Payloads([kept]).Ok? &&
    LosesNothing(Payloads(before).value, Payloads([kept]).value, kind.schema)
  }

  predicate EachLosesNothing(values: seq<Value>, kind: Kind)
    requires kind.Nested?
    decreases kind, 1, |values|
  {
    values == [] || (PayloadLosesNothing([], values[0], kind) && EachLosesNothing(values[1..], kind))
  }

  // ---------------------------------------------------------------------- the proof

  lemma {:induction false} PayloadsConcat(a: seq<Value>, b: seq<Value>)
    requires Payloads(a + b).Ok?
    ensures Payloads(a).Ok? && Payloads(b).Ok? && Payloads(a + b).value == Payloads(a).value + Payloads(b).value
    decreases |a|
  {
    if a == [] {
      assert a + b == b;
    } else {
      assert (a + b)[1..] == a[1..] + b;
      PayloadsConcat(a[1..], b);
      Assoc(Parse(a[0].bytes).value, Payloads(a[1..]).value, Payloads(b).value);
    }
  }

  lemma OnePayload(v: Value)
    requires v.Raw? && Parse(v.bytes).Ok?
    ensures Payloads([v]) == Parse(v.bytes)
  {
    assert [v][1..] == [];
    assert Parse(v.bytes).value + [] == Parse(v.bytes).value;
  }

  lemma ConsEqual<T>(x: T, s: seq<T>, y: T, t: seq<T>)
    ensures [x] + s == [y] + t <==> x == y && s == t
  {
    if [x] + s == [y] + t {
      assert ([x] + s)[0] == ([y] + t)[0];
      assert ([x] + s)[1..] == s && ([y] + t)[1..] == t;
    }
  }

  lemma {:induction false} SizeOfAll(values: seq<Value>, kind: Kind)
    requires ReadAll(values, kind).Ok?
    ensures |ReadAll(values, kind).value| == |values|
    decreases |values|
  {
    if values != [] { SizeOfAll(values[1..], kind); }
  }

  lemma {:induction false} SizeOfEach(values: seq<Value>, kind: Kind)
    requires kind.Nested? && MergeEach(values, kind).Ok?
    ensures |MergeEach(values, kind).value| == |values|
    decreases |values|
  {
    if values != [] { SizeOfEach(values[1..], kind); }
  }

  lemma {:induction false} PayloadExactly(before: seq<Value>, kept: Value, kind: Kind)
    requires kind.Nested? && ReadOne(kept, kind).Ok? && MergeOne(before + [kept], kind).Ok?
    ensures ReadOne(kept, kind) == MergeOne(before + [kept], kind) <==> PayloadLosesNothing(before, kept, kind)
    decreases kind, 0
  {
    PayloadsConcat(before, [kept]);
    OnePayload(kept);
    RecordsExactly(Payloads(before).value, Payloads([kept]).value, kind.schema);
  }

  lemma {:induction false} EachExactly(values: seq<Value>, kind: Kind)
    requires kind.Nested? && ReadAll(values, kind).Ok? && MergeEach(values, kind).Ok?
    ensures ReadAll(values, kind) == MergeEach(values, kind) <==> EachLosesNothing(values, kind)
    decreases kind, 1, |values|
  {
    if values != [] {
      assert [] + [values[0]] == [values[0]];
      PayloadExactly([], values[0], kind);
      EachExactly(values[1..], kind);
      ConsEqual(ReadOne(values[0], kind).value, ReadAll(values[1..], kind).value,
                MergeOne([values[0]], kind).value, MergeEach(values[1..], kind).value);
    }
  }

  lemma {:induction false} FieldExactly(before: seq<Value>, kept: seq<Value>, spec: Spec)
    requires ReadCell(kept, spec).Ok? && MergeCell(before + kept, spec).Ok?
    ensures ReadCell(kept, spec) == MergeCell(before + kept, spec) <==> FieldLosesNothing(before, kept, spec)
    decreases spec, 2
  {
    if before == [] { assert before + kept == kept; }
    if spec.repeated {
      SizeOfAll(kept, spec.kind);
      if spec.kind.Nested? {
        SizeOfEach(before + kept, spec.kind);
        if before == [] { EachExactly(kept, spec.kind); }
      } else {
        SizeOfAll(before + kept, spec.kind);
      }
    } else if kept == [] {
      assert before + kept == before;
    } else if spec.kind.Nested? {
      var last := kept[|kept| - 1];
      assert before + kept == before + kept[..|kept| - 1] + [last];
      PayloadExactly(before + kept[..|kept| - 1], last, spec.kind);
    } else {
      assert (before + kept)[|before + kept| - 1] == kept[|kept| - 1];
    }
  }

  /** Keeping only the later records decodes to the same as merging all of them exactly
      when that loses nothing. */
  lemma {:induction false} RecordsExactly(before: seq<Record>, kept: seq<Record>, schema: seq<Spec>)
    requires DecodeAll(kept, schema).Ok? && MergeAll(before + kept, schema).Ok?
    ensures DecodeAll(kept, schema) == MergeAll(before + kept, schema) <==> LosesNothing(before, kept, schema)
    decreases schema, 3
  {
    if schema != [] {
      var n := schema[0].number;
      ValuesConcat(before, kept, n);
      FieldExactly(Values(before, n), Values(kept, n), schema[0]);
      RecordsExactly(before, kept, schema[1..]);
      ConsEqual(ReadCell(Values(kept, n), schema[0]).value, DecodeAll(kept, schema[1..]).value,
                MergeCell(Values(before + kept, n), schema[0]).value, MergeAll(before + kept, schema[1..]).value);
    }
  }

  // ---------------------------------------------------------------- what is accepted

  lemma {:induction false} ReadRest(a: seq<Value>, b: seq<Value>, kind: Kind)
    requires ReadAll(a + b, kind).Ok?
    ensures ReadAll(b, kind).Ok?
    decreases |a|
  {
    if a == [] {
      assert a + b == b;
    } else {
      assert (a + b)[1..] == a[1..] + b;
      ReadRest(a[1..], b, kind);
    }
  }

  lemma {:induction false} MergeRest(a: seq<Value>, b: seq<Value>, kind: Kind)
    requires kind.Nested? && MergeEach(a + b, kind).Ok?
    ensures MergeEach(b, kind).Ok?
    decreases |a|
  {
    if a == [] {
      assert a + b == b;
    } else {
      assert (a + b)[1..] == a[1..] + b;
      MergeRest(a[1..], b, kind);
    }
  }

  lemma {:induction false} LastPayloadReads(before: seq<Value>, kept: Value, kind: Kind)
    requires kind.Nested? && MergeOne(before + [kept], kind).Ok?
    ensures ReadOne(kept, kind).Ok?
    decreases kind, 0
  {
    PayloadsConcat(before, [kept]);
    OnePayload(kept);
    KeptDecodes(Payloads(before).value, Payloads([kept]).value, kind.schema);
  }

  lemma {:induction false} EachReads(values: seq<Value>, kind: Kind)
    requires kind.Nested? && MergeEach(values, kind).Ok?
    ensures ReadAll(values, kind).Ok?
    decreases kind, 1, |values|
  {
    if values != [] {
      assert [] + [values[0]] == [values[0]];
      LastPayloadReads([], values[0], kind);
      EachReads(values[1..], kind);
    }
  }

  lemma {:induction false} KeptCellReads(before: seq<Value>, kept: seq<Value>, spec: Spec)
    requires MergeCell(before + kept, spec).Ok?
    ensures ReadCell(kept, spec).Ok?
    decreases spec, 2
  {
    if spec.repeated {
      if spec.kind.Nested? {
        MergeRest(before, kept, spec.kind);
        EachReads(kept, spec.kind);
      } else {
        ReadRest(before, kept, spec.kind);
      }
    } else if kept != [] {
      var last := kept[|kept| - 1];
      assert before + kept == before + kept[..|kept| - 1] + [last];
      if spec.kind.Nested? { LastPayloadReads(before + kept[..|kept| - 1], last, spec.kind); }
    }
  }

  /** What merges decodes: keeping less of it never brings in an error. */
  lemma {:induction false} KeptDecodes(before: seq<Record>, kept: seq<Record>, schema: seq<Spec>)
    requires MergeAll(before + kept, schema).Ok?
    ensures DecodeAll(kept, schema).Ok?
    decreases schema, 3
  {
    if schema != [] {
      ValuesConcat(before, kept, schema[0].number);
      KeptCellReads(Values(before, schema[0].number), Values(kept, schema[0].number), schema[0]);
      KeptDecodes(before, kept, schema[1..]);
    }
  }

  /** Every message that a merging decoder takes, decode takes; and it decodes to the
      same exactly when, wherever in it a nested message occurs more than once, the last
      payload alone loses nothing. */
  lemma MergesExactly(s: seq<byte>, schema: seq<Spec>)
    requires Parse(s).Ok? && MergeAll(Parse(s).value, schema).Ok?
    ensures Decode(s, schema).Ok?
    ensures Decode(s, schema) == MergeAll(Parse(s).value, schema) <==> LosesNothing([], Parse(s).value, schema)
  {
    assert [] + Parse(s).value == Parse(s).value;
    KeptDecodes([], Parse(s).value, schema);
    RecordsExactly([], Parse(s).value, schema);
  }

  // -------------------------------------------------------------------- an instance

  const PAIR: seq<Spec> := [Spec(1, Uint64, false), Spec(2, Uint64, false)]
  const HOLDER: seq<Spec> := [Spec(1, Nested(PAIR), false)]

  function Shown(n: int): Cell {
    One(Integer(Number(n)))
  }

  lemma OneNumber(field: nat, n: nat)
    requires 1 <= field < 16 && n < 128
    ensures Parse([8 * field, n]) == Ok([Record(field, Num(n))])
  {
    var s: seq<byte> := [8 * field, n];
    assert s[1..] == [n] && s[2..] == [];
    assert Varint(s, 0) == Ok(Taken(8 * field, 1)) && Varint(s[1..], 0) == Ok(Taken(n, 1));
    assert Next(s) == Ok(Step(Some(Record(field, Num(n))), 2));
    assert Drop(s, 2) == [] && [Record(field, Num(n))] + [] == [Record(field, Num(n))];
  }

  lemma PairOf(records: seq<Record>, a: nat, b: nat)
    requires a < TWO_TO_53 && b < TWO_TO_53
    requires Values(records, 1) == (if a == 0 then [] else [Num(a)]) && Values(records, 2) == (if b == 0 then [] else [Num(b)])
    ensures DecodeAll(records, PAIR) == Ok([Shown(a), Shown(b)]) && MergeAll(records, PAIR) == Ok([Shown(a), Shown(b)])
  {
    var rest := PAIR[1..];
    assert rest == [Spec(2, Uint64, false)] && rest[1..] == [];
    assert ReadCell(Values(records, 1), PAIR[0]) == Ok(Shown(a)) && ReadCell(Values(records, 2), rest[0]) == Ok(Shown(b));
    assert [Shown(b)] + [] == [Shown(b)] && [Shown(a)] + [Shown(b)] == [Shown(a), Shown(b)];
    assert DecodeAll(records, rest) == Ok([Shown(b)]) && MergeAll(records, rest) == Ok([Shown(b)]);
  }

  /** {1: 1} and then {2: 2} in the one field: merged they are {1: 1, 2: 2}, and decode
      keeps {2: 2} alone. */
  lemma ReplacedWhereMerged()
    ensures var s := E.Encode([E.Member(1, E.Payload([8, 1])), E.Member(1, E.Payload([16, 2]))]);
      s.Ok? && Parse(s.value).Ok? &&
      Decode(s.value, HOLDER) == Ok([One(Object([Shown(0), Shown(2)]))]) &&
      MergeAll(Parse(s.value).value, HOLDER) == Ok([One(Object([Shown(1), Shown(2)]))])
  {
    var request := [E.Member(1, E.Payload([8, 1])), E.Member(1, E.Payload([16, 2]))];
    E.RequestReadsBack(request);
    var records := E.SentAll(request);
    assert request[1..] == [request[1]] && request[1..][1..] == [];
    assert records == [Record(1, Raw([8, 1])), Record(1, Raw([16, 2]))];
    TwoPayloads(records);
  }

  lemma TwoPayloads(records: seq<Record>)
    requires records == [Record(1, Raw([8, 1])), Record(1, Raw([16, 2]))]
    ensures DecodeAll(records, HOLDER) == Ok([One(Object([Shown(0), Shown(2)]))])
    ensures MergeAll(records, HOLDER) == Ok([One(Object([Shown(1), Shown(2)]))])
  {
    hide Parse;
    OneNumber(1, 1);
    OneNumber(2, 2);
    var one, two := Record(1, Num(1)), Record(2, Num(2));
    assert records[1..] == [records[1]] && records[1..][1..] == [];
    assert Values(records[1..], 1) == [Raw([16, 2])];
    var values := Values(records, 1);
    assert values == [Raw([8, 1]), Raw([16, 2])];
    assert [one][1..] == [] && [two][1..] == [] && [one, two][1..] == [two];
    PairOf([two], 0, 2);
    PairOf([one, two], 1, 2);
    OnePayload(values[1]);
    assert values[1..] == [values[1]];
    assert [one] + [two] == [one, two] && [two] + [] == [two];
    assert Payloads(values[1..]) == Ok([two]);
    assert Payloads(values) == Ok([one, two]);
    assert HOLDER[1..] == [];
    var last, both := One(Object([Shown(0), Shown(2)])), One(Object([Shown(1), Shown(2)]));
    assert [last] + [] == [last] && [both] + [] == [both];
    assert ReadCell(values, HOLDER[0]) == Ok(last) && MergeCell(values, HOLDER[0]) == Ok(both);
  }
}
