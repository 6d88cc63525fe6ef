/** One message as the two consoles show it: clients/land/proto.js by its accessors,
    clients/oversight/proto.js by `decode`. The fields are given by one schema; land's
    decoders spell out the same accessor calls one by one. */
module TwoConsoles {
  import opened Basics
  import opened Wire
  import opened TwoParsers
  import L = LandProto
  import R = LandRoundTrip
  import O = OversightProto
  import D = OversightDecode
  import E = OversightEncode

  // ----------------------------------------------------------------- what is shown

  /** A value as a reader sees it, whether it is held as a Number, a BigInt or digits. */
  datatype Seen = Whole(value: int) | Truth(flag: bool) | Octets(bytes: seq<byte>) | Nothing | Message(fields: seq<Look>)

  datatype Look = Single(seen: Seen) | List(items: seq<Seen>)

  function SeenOf(d: D.Decoded): Seen
    decreases d
  {
    match d
    case Integer(shown) => Whole(if shown.Number? then shown.number else shown.digits)
    case Truth(b) => Truth(b)
    case Octets(s) => Octets(s)
    case Null => Nothing
    case Object(cells) => Message(LooksOf(cells))
  }

  function SeenOfAll(ds: seq<D.Decoded>): (r: seq<Seen>)
    ensures |r| == |ds|
    decreases ds
  {
    if ds == [] then [] else [SeenOf(ds[0])] + SeenOfAll(ds[1..])
  }

  function LookOf(cell: D.Cell): Look
    decreases cell
  {
    match cell
    case One(d) => Single(SeenOf(d))
    case Many(ds) => List(SeenOfAll(ds))
  }

  function LooksOf(cells: seq<D.Cell>): seq<Look>
    decreases cells
  {
    if cells == [] then [] else [LookOf(cells[0])] + LooksOf(cells[1..])
  }

  // -------------------------------------------------------------- land's accessors

  /** What `u64`, `bool`, `str`, `bytes` and `sub` give for an absent field. */
  function Absent(kind: D.Kind): Seen {
    match kind
    case Nested(_) => Nothing
    case Str => Octets([])
    case Bytes => Octets([])
    case Bool => Truth(false)
    case _ => Whole(0)
  }

  /** One entry as land reads it: integers as they are on the wire, unsigned, and a
      nested message by `read` of its bytes. An entry of another wire type, which
      JavaScript would coerce, is not taken. */
  function LandOne(v: Value, kind: D.Kind): Result<Seen>
    decreases kind, 0
  {
    match kind
    case Nested(schema) =>
      if !v.Raw? then Err(ExpectedMessage) else
      (match LandView(v.bytes, schema)
       case Ok(fields) => Ok(Message(fields))
       case Err(e) => Err(e))
    case Uint64 => if v.Num? then Ok(Whole(v.num)) else Err(ExpectedVarint)
    case Int64 => if v.Num? then Ok(Whole(v.num)) else Err(ExpectedVarint)
    case Bool => if v.Num? then Ok(Truth(v.num != 0)) else Err(ExpectedVarint)
    case Str => if v.Raw? then Ok(Octets(v.bytes)) else Err(ExpectedBytes)
    case Bytes => if v.Raw? then Ok(Octets(v.bytes)) else Err(ExpectedBytes)
  }

  /** `subs` and `strs`: every entry, in wire order. */
  function LandEach(values: seq<Value>, kind: D.Kind): Result<seq<Seen>>
    decreases kind, 1, |values|
  {
    if values == [] then Ok([]) else
    match LandOne(values[0], kind)
    case Err(e) => Err(e)
    case Ok(v) => D.Prefixed([v], LandEach(values[1..], kind))
  }

  /** A singular field is its first entry. */
  function LandLook(values: seq<Value>, spec: D.Spec): Result<Look>
    decreases spec, 2
  {
    if spec.repeated then
      match LandEach(values, spec.kind)
      case Ok(items) => Ok(List(items))
      case Err(e) => Err(e)
    else if values == [] then Ok(Single(Absent(spec.kind)))
    else
      match LandOne(values[0], spec.kind)
      case Ok(seen) => Ok(Single(seen))
      case Err(e) => Err(e)
  }

  function LandLooks(records: seq<Record>, schema: seq<D.Spec>): Result<seq<Look>>
    decreases schema, 3
  {
    if schema == [] then Ok([]) else
    match LandLook(Values(records, schema[0].number), schema[0])
    case Err(e) => Err(e)
    case Ok(look) => D.Prefixed([look], LandLooks(records, schema[1..]))
  }

  /** What land shows of a message. */
  function LandView(s: seq<byte>, schema: seq<D.Spec>): Result<seq<Look>>
    decreases schema, 4
  {
    match L.Parse(s)
    case Err(e) => Err(e)
    case Ok(records) => LandLooks(records, schema)
  }

  /** What oversight shows of it. */
  function OversightView(s: seq<byte>, schema: seq<D.Spec>): Result<seq<Look>> {
    match D.Decode(s, schema)
    case Err(e) => Err(e)
    case Ok(cells) => Ok(LooksOf(cells))
  }

  // -------------------------------------------------------------- the condition

  function LastOr(values: seq<Value>, dflt: Value): Value {
    if values == [] then dflt else values[|values| - 1]
  }

  /** The entry that stands for an absent scalar. */
  function Zero(kind: D.Kind): Value {
    if kind.Str? || kind.Bytes? then Raw([]) else Num(0)
  }

  /** Two scalar entries that come to the same: land takes an integer as it is, and
      oversight an int64 by its sign. */
  predicate SameScalar(l: Value, o: Value, kind: D.Kind) {
    match kind
    case Uint64 => l.Num? && o.Num? && l.num == o.num
    case Int64 => l.Num? && o.Num? && l.num == D.Signed(o.num)
    case Bool => l.Num? && o.Num? && (l.num != 0 <==> o.num != 0)
    case _ => l.Raw? && o.Raw? && l.bytes == o.bytes
  }

  predicate SameEntry(l: Value, o: Value, kind: D.Kind)
    decreases kind, 0
  {
    if kind.Nested? then
      l.Raw? && o.Raw? && L.Parse(l.bytes).Ok? && O.Parse(o.bytes).Ok? &&
      SameFields(L.Parse(l.bytes).value, O.Parse(o.bytes).value, kind.schema)
    else SameScalar(l, o, kind)
  }

  predicate SameEntries(l: seq<Value>, o: seq<Value>, kind: D.Kind)
    decreases kind, 1, |l|
  {
    |l| == |o| && (l == [] || (SameEntry(l[0], o[0], kind) && SameEntries(l[1..], o[1..], kind)))
  }

  /** The first entry that land has and the last that oversight has. */
  predicate SameField(l: seq<Value>, o: seq<Value>, spec: D.Spec)
    decreases spec, 2
  {
    if spec.repeated then SameEntries(l, o, spec.kind)
    else if spec.kind.Nested? then (l == [] <==> o == []) && (l != [] && o != [] ==> SameEntry(l[0], o[|o| - 1], spec.kind))
    else SameScalar(R.FirstOr(l, Zero(spec.kind)), LastOr(o, Zero(spec.kind)), spec.kind)
  }

  predicate SameFields(l: seq<Record>, o: seq<Record>, schema: seq<D.Spec>)
    decreases schema, 3
  {
    schema == [] ||
    (SameField(Values(l, schema[0].number), Values(o, schema[0].number), schema[0]) && SameFields(l, o, schema[1..]))
  }

  // ---------------------------------------------------------------------- the proof

  lemma ConsEqual<T>(x: T, s: seq<T>, y: T, t: seq<T>)
    ensures [x] + s == [y] + t <==> x == y && s == t
  {
    if [x] + s == [y] + t {
      assert ([x] + s)[0] == ([y] + t)[0];
      assert ([x] + s)[1..] == s && ([y] + t)[1..] == t;
    }
  }

  lemma ScalarExactly(l: Value, o: Value, kind: D.Kind)
    requires !kind.Nested? && LandOne(l, kind).Ok? && D.ReadOne(o, kind).Ok?
    ensures LandOne(l, kind).value == SeenOf(D.ReadOne(o, kind).value) <==> SameScalar(l, o, kind)
  {
    if o.Num? { ShownInteger(o.num); }
  }

  /** A negative integer is shown as a negative one, however rounded. */
  lemma ShownInteger(v: nat)
    ensures SeenOf(D.ReadOne(Num(v), D.Uint64).value) == Whole(v)
    ensures D.Signed(v) >= 0 ==> SeenOf(D.ReadOne(Num(v), D.Int64).value) == Whole(D.Signed(v))
    ensures D.Signed(v) < 0 ==> SeenOf(D.ReadOne(Num(v), D.Int64).value).value < 0
  {
    D.IntegersShown(v);
    if D.Signed(v) < 0 { NumberOfPositive(-D.Signed(v)); }
  }

  lemma {:induction false} NumberOfPositive(v: nat)
    requires v > 0
    ensures ToNumber(v) > 0
  {
    RoundedPositive(v, false, false);
  }

  lemma {:induction false} RoundedPositive(v: nat, h: bool, s: bool)
    requires v > 0
    ensures Rounded(v, h, s) > 0
  {
    if v >= TWO_TO_53 { RoundedPositive(v / 2, v % 2 == 1, h || s); }
  }

  lemma {:induction false} EntryExactly(l: Value, o: Value, kind: D.Kind)
    requires LandOne(l, kind).Ok? && D.ReadOne(o, kind).Ok?
    ensures LandOne(l, kind).value == SeenOf(D.ReadOne(o, kind).value) <==> SameEntry(l, o, kind)
    decreases kind, 0
  {
    if kind.Nested? {
      FieldsExactly(L.Parse(l.bytes).value, O.Parse(o.bytes).value, kind.schema);
    } else {
      ScalarExactly(l, o, kind);
    }
  }

  lemma {:induction false} SizeOfEach(values: seq<Value>, kind: D.Kind)
    ensures LandEach(values, kind).Ok? ==> |LandEach(values, kind).value| == |values|
    ensures D.ReadAll(values, kind).Ok? ==> |D.ReadAll(values, kind).value| == |values|
    decreases |values|
  {
    if values != [] { SizeOfEach(values[1..], kind); }
  }

  lemma SeenCons(d: D.Decoded, ds: seq<D.Decoded>)
    ensures SeenOfAll([d] + ds) == [SeenOf(d)] + SeenOfAll(ds)
  {
    assert ([d] + ds)[1..] == ds;
  }

  lemma LooksCons(c: D.Cell, cs: seq<D.Cell>)
    ensures LooksOf([c] + cs) == [LookOf(c)] + LooksOf(cs)
  {
    assert ([c] + cs)[1..] == cs;
  }

  lemma {:induction false} EachExactly(l: seq<Value>, o: seq<Value>, kind: D.Kind)
    requires LandEach(l, kind).Ok? && D.ReadAll(o, kind).Ok?
    ensures LandEach(l, kind).value == SeenOfAll(D.ReadAll(o, kind).value) <==> SameEntries(l, o, kind)
    decreases kind, 1, |l|
  {
    SizeOfEach(l, kind);
    SizeOfEach(o, kind);
    if |l| == |o| && l != [] {
      EntryExactly(l[0], o[0], kind);
      EachExactly(l[1..], o[1..], kind);
      SeenCons(D.ReadOne(o[0], kind).value, D.ReadAll(o[1..], kind).value);
      ConsEqual(LandOne(l[0], kind).value, LandEach(l[1..], kind).value,
                SeenOf(D.ReadOne(o[0], kind).value), SeenOfAll(D.ReadAll(o[1..], kind).value));
    }
  }

  lemma {:induction false} FieldExactly(l: seq<Value>, o: seq<Value>, spec: D.Spec)
    requires LandLook(l, spec).Ok? && D.ReadCell(o, spec).Ok?
    ensures LandLook(l, spec).value == LookOf(D.ReadCell(o, spec).value) <==> SameField(l, o, spec)
    decreases spec, 2
  {
    if spec.repeated {
      EachExactly(l, o, spec.kind);
    } else if spec.kind.Nested? {
      if l != [] && o != [] { EntryExactly(l[0], o[|o| - 1], spec.kind); }
    } else {
      AbsentScalar(spec.kind);
      ScalarExactly(R.FirstOr(l, Zero(spec.kind)), LastOr(o, Zero(spec.kind)), spec.kind);
    }
  }

  lemma AbsentScalar(kind: D.Kind)
    requires !kind.Nested?
    ensures LandOne(Zero(kind), kind) == Ok(Absent(kind)) && D.ReadOne(Zero(kind), kind) == Ok(D.Default(kind))
  {
  }

  lemma {:induction false} FieldsExactly(l: seq<Record>, o: seq<Record>, schema: seq<D.Spec>)
    requires LandLooks(l, schema).Ok? && D.DecodeAll(o, schema).Ok?
    ensures LandLooks(l, schema).value == LooksOf(D.DecodeAll(o, schema).value) <==> SameFields(l, o, schema)
    decreases schema, 3
  {
    if schema != [] {
      var n := schema[0].number;
      FieldExactly(Values(l, n), Values(o, n), schema[0]);
      FieldsExactly(l, o, schema[1..]);
      LooksCons(D.ReadCell(Values(o, n), schema[0]).value, D.DecodeAll(o, schema[1..]).value);
      ConsEqual(LandLook(Values(l, n), schema[0]).value, LandLooks(l, schema[1..]).value,
                LookOf(D.ReadCell(Values(o, n), schema[0]).value), LooksOf(D.DecodeAll(o, schema[1..]).value));
    }
  }

  /** Of a message both consoles take they show the same exactly when, field by field at
      every depth, land's first entry and oversight's last come to the same. */
  lemma ViewsAgreeExactly(s: seq<byte>, schema: seq<D.Spec>)
    requires LandView(s, schema).Ok? && OversightView(s, schema).Ok?
    ensures LandView(s, schema) == OversightView(s, schema) <==> SameFields(L.Parse(s).value, O.Parse(s).value, schema)
  {
    FieldsExactly(L.Parse(s).value, O.Parse(s).value, schema);
  }

  // ------------------------------------------------------------- when they agree

  /** The message, and every nested one that the schema names, has tags that the two
      parsers read alike, no singular field twice and no negative int64. */
  predicate Settled(s: seq<byte>, schema: seq<D.Spec>)
    decreases schema, 4
  {
    SmallTags(s) && O.Parse(s).Ok? && SettledFields(O.Parse(s).value, schema)
  }

  predicate SettledFields(o: seq<Record>, schema: seq<D.Spec>)
    decreases schema, 3
  {
    schema == [] || (SettledField(Values(o, schema[0].number), schema[0]) && SettledFields(o, schema[1..]))
  }

  predicate SettledField(values: seq<Value>, spec: D.Spec)
    decreases spec, 2
  {
    (!spec.repeated ==> |values| <= 1) && SettledEntries(values, spec.kind)
  }

  predicate SettledEntries(values: seq<Value>, kind: D.Kind)
    decreases kind, 1, |values|
  {
    values == [] || (SettledEntry(values[0], kind) && SettledEntries(values[1..], kind))
  }

  predicate SettledEntry(v: Value, kind: D.Kind)
    decreases kind, 0
  {
    (kind.Nested? && v.Raw? ==> Settled(v.bytes, kind.schema)) && (kind.Int64? && v.Num? ==> v.num < TWO_TO_63)
  }

  lemma {:induction false} EntryAgrees(v: Value, kind: D.Kind)
    requires SettledEntry(v, kind) && D.ReadOne(v, kind).Ok?
    ensures LandOne(v, kind) == Ok(SeenOf(D.ReadOne(v, kind).value)) && !v.Fixed?
    decreases kind, 0
  {
    if kind.Nested? {
      hide LandView, OversightView, D.Decode, Settled;
      DecodedView(v.bytes, kind.schema);
      SettledAgree(v.bytes, kind.schema);
    } else {
      ScalarAgrees(v, kind);
    }
  }

  lemma DecodedView(s: seq<byte>, schema: seq<D.Spec>)
    ensures D.Decode(s, schema).Ok? ==> OversightView(s, schema) == Ok(LooksOf(D.Decode(s, schema).value))
  {
  }

  lemma ScalarAgrees(v: Value, kind: D.Kind)
    requires !kind.Nested? && SettledEntry(v, kind) && D.ReadOne(v, kind).Ok?
    ensures LandOne(v, kind) == Ok(SeenOf(D.ReadOne(v, kind).value)) && !v.Fixed?
  {
    if v.Num? { ShownInteger(v.num); }
  }

  lemma {:induction false} EntriesAgree(values: seq<Value>, kind: D.Kind)
    requires SettledEntries(values, kind) && D.ReadAll(values, kind).Ok?
    ensures LandEach(values, kind) == Ok(SeenOfAll(D.ReadAll(values, kind).value)) && Plain(values) == values
    decreases kind, 1, |values|
  {
    hide LandOne, D.ReadOne, SettledEntry, SeenOf;
    if values != [] {
      EntryAgrees(values[0], kind);
      EntriesAgree(values[1..], kind);
      SeenCons(D.ReadOne(values[0], kind).value, D.ReadAll(values[1..], kind).value);
    }
  }

  lemma {:induction false} FieldAgrees(values: seq<Value>, spec: D.Spec)
    requires SettledField(values, spec) && D.ReadCell(values, spec).Ok?
    ensures LandLook(values, spec) == Ok(LookOf(D.ReadCell(values, spec).value)) && Plain(values) == values
    decreases spec, 2
  {
    if spec.repeated {
      EntriesAgree(values, spec.kind);
    } else if values != [] {
      EntryAgrees(values[0], spec.kind);
      assert values[1..] == [];
    }
  }

  lemma {:induction false} FieldsSettle(l: seq<Record>, o: seq<Record>, schema: seq<D.Spec>)
    requires l == Kept(o) && SettledFields(o, schema) && D.DecodeAll(o, schema).Ok?
    ensures LandLooks(l, schema) == Ok(LooksOf(D.DecodeAll(o, schema).value))
    decreases schema, 3
  {
    if schema != [] {
      KeptValues(o, schema[0].number);
      FieldAgrees(Values(o, schema[0].number), schema[0]);
      FieldsSettle(l, o, schema[1..]);
      LooksCons(D.ReadCell(Values(o, schema[0].number), schema[0]).value, D.DecodeAll(o, schema[1..]).value);
    }
  }

  /** For every schema: a settled message that oversight takes, land takes too, and both
      show the same of it. */
  lemma {:induction false} SettledAgree(s: seq<byte>, schema: seq<D.Spec>)
    requires Settled(s, schema) && OversightView(s, schema).Ok?
    ensures LandView(s, schema) == OversightView(s, schema)
    decreases schema, 4
  {
    ParsersAgree(s);
    FieldsSettle(L.Parse(s).value, O.Parse(s).value, schema);
  }

  // ----------------------------------------------------------------- when they do not

  /** Both consoles take the message and do not show the same. */
  ghost predicate ShownApart(s: seq<byte>, schema: seq<D.Spec>) {
    LandView(s, schema).Ok? && OversightView(s, schema).Ok? && LandView(s, schema) != OversightView(s, schema)
  }

  /** A message of these records and no others, read by both parsers. */
  ghost predicate ReadBy(s: seq<byte>, records: seq<Record>) {
    L.Parse(s) == Ok(records) && O.Parse(s) == Ok(records)
  }

  lemma {:induction false} NothingFixed(records: seq<Record>)
    requires forall i :: 0 <= i < |records| ==> !records[i].value.Fixed?
    ensures Kept(records) == records
  {
    if records != [] { NothingFixed(records[1..]); }
  }

  lemma {:induction false} SentIsPlain(request: seq<E.Member>)
    ensures Kept(E.SentAll(request)) == E.SentAll(request)
  {
    if request != [] {
      SentIsPlain(request[1..]);
      KeptConcat(E.Sent(request[0]), E.SentAll(request[1..]));
      NothingFixed(E.Sent(request[0]));
    }
  }

  lemma {:induction false} RequestFits(request: seq<E.Member>)
    requires forall i :: 0 <= i < |request| ==> E.Readable(request[i])
    ensures R.AllFit(E.AsNodes(request)) && AllStrictly(E.AsNodes(request))
  {
    R.BigShift();
    if request != [] {
      var nodes := E.AsNodes(request);
      assert nodes[1..] == E.AsNodes(request[1..]) && nodes[0] == E.AsNode(request[0]);
      assert E.Readable(request[0]);
      assert forall i :: 0 <= i < |request| - 1 ==> request[1..][i] == request[i + 1];
      RequestFits(request[1..]);
    }
  }

  /** What oversight's encoder writes, both parsers read as what was sent. */
  lemma RequestReadBy(request: seq<E.Member>)
    requires forall i :: 0 <= i < |request| ==> E.Readable(request[i])
    ensures E.Encode(request).Ok? && ReadBy(E.Encode(request).value, E.SentAll(request)) && SmallTags(E.Encode(request).value)
  {
    hide E.Encode, E.SentAll, E.AsNodes, R.AllFit, AllStrictly, SmallTags, Strict, L.EncodeAll, O.Parse, L.Parse, D.Whole;
    E.RequestReadsBack(request);
    E.EncodersAgree(request);
    RequestFits(request);
    WrittenIsStrict(E.AsNodes(request));
    ParsersAgree(E.Encode(request).value);
    SentIsPlain(request);
  }

  function Number(field: nat): seq<D.Spec> {
    [D.Spec(field, D.Uint64, false)]
  }

  /** The number 1 under one field k - 1 times, and then 2. */
  function Again(field: nat, k: nat): (request: seq<E.Member>)
    requires k >= 1
    ensures |request| == k && forall i :: 0 <= i < k ==> request[i] == E.Member(field, E.Amount(if i == k - 1 then 2 else 1))
  {
    if k == 1 then [E.Member(field, E.Amount(2))] else [E.Member(field, E.Amount(1))] + Again(field, k - 1)
  }

  lemma {:induction false} AgainSent(field: nat, k: nat)
    requires k >= 1
    ensures var values := Values(E.SentAll(Again(field, k)), field);
      |values| == k && forall i :: 0 <= i < k ==> values[i] == Num(if i == k - 1 then 2 else 1)
  {
    var request := Again(field, k);
    var m := request[0];
    assert E.Sent(m)[1..] == [];
    ValuesConcat(E.Sent(m), E.SentAll(request[1..]), field);
    if k == 1 {
      assert request[1..] == [];
    } else {
      assert request[1..] == Again(field, k - 1);
      AgainSent(field, k - 1);
    }
  }

  lemma NumberView(records: seq<Record>, field: nat, first: nat, last: nat)
    requires first < TWO_TO_53 && last < TWO_TO_53
    requires var v := Values(records, field); v != [] && v[0] == Num(first) && v[|v| - 1] == Num(last)
    ensures LandLooks(records, Number(field)) == Ok([Single(Whole(first))])
    ensures D.DecodeAll(records, Number(field)) == Ok([D.One(D.Integer(O.Number(last)))])
  {
    var v, schema := Values(records, field), Number(field);
    assert schema[1..] == [];
    assert [Single(Whole(first))] + [] == [Single(Whole(first))];
    assert LandLook(v, schema[0]) == Ok(Single(Whole(first)));
    assert D.ReadCell(v, schema[0]) == Ok(D.One(D.Integer(O.Number(last))));
    assert [D.One(D.Integer(O.Number(last)))] + [] == [D.One(D.Integer(O.Number(last)))];
  }

  /** A number sent k times, k at least two, and last as another one. */
  lemma AgainApart(field: nat, k: nat)
    requires 1 <= field < 0x1000_0000 && k >= 2
    ensures E.Encode(Again(field, k)).Ok? && SmallTags(E.Encode(Again(field, k)).value)
    ensures ReadBy(E.Encode(Again(field, k)).value, E.SentAll(Again(field, k)))
    ensures ShownApart(E.Encode(Again(field, k)).value, Number(field))
  {
    hide E.Encode, E.SentAll, L.Parse, O.Parse, LandLooks, D.DecodeAll, SmallTags, Again;
    R.BigShift();
    RequestReadBy(Again(field, k));
    AgainSent(field, k);
    NumberView(E.SentAll(Again(field, k)), field, 1, 2);
    assert [D.One(D.Integer(O.Number(2)))][1..] == [];
    assert LooksOf([D.One(D.Integer(O.Number(2)))])[0] == Single(Whole(2));
  }

  /** Among the messages oversight takes in which a number occurs k times, all that the
      parsers read alike are shown the same exactly when k is at most one. */
  lemma SingularExactly(field: nat, k: nat)
    requires 1 <= field < 0x1000_0000
    ensures (forall s: seq<byte> :: Occurring(s, field, k) ==> LandView(s, Number(field)) == OversightView(s, Number(field))) <==> k <= 1
  {
    if k <= 1 {
      forall s: seq<byte> | Occurring(s, field, k) ensures LandView(s, Number(field)) == OversightView(s, Number(field)) {
        OnceIsSettled(s, field);
        SettledAgree(s, Number(field));
      }
    } else {
      AgainApart(field, k);
      AgainSent(field, k);
      assert Occurring(E.Encode(Again(field, k)).value, field, k);
    }
  }

  ghost predicate Occurring(s: seq<byte>, field: nat, k: nat) {
    SmallTags(s) && OversightView(s, Number(field)).Ok? && |Values(O.Parse(s).value, field)| == k
  }

  lemma NothingToSettle(records: seq<Record>)
    ensures SettledFields(records, [])
  {
  }

  lemma OnceIsSettled(s: seq<byte>, field: nat)
    requires SmallTags(s) && O.Parse(s).Ok? && |Values(O.Parse(s).value, field)| <= 1
    ensures Settled(s, Number(field))
  {
    var values := Values(O.Parse(s).value, field);
    var schema := Number(field);
    assert schema[1..] == [];
    assert values != [] ==> values[1..] == [];
    assert values != [] ==> SettledEntry(values[0], D.Uint64) && SettledEntries(values[1..], D.Uint64);
    assert SettledField(values, schema[0]);
    NothingToSettle(O.Parse(s).value);
    assert SettledFields(O.Parse(s).value, schema);
  }

  // --------------------------------------------------------------------- at depth

  /** The schema of a number in a message in field 1 of a message, n deep. */
  function Deep(n: nat): seq<D.Spec> {
    if n == 0 then Number(1) else [D.Spec(1, D.Nested(Deep(n - 1)), false)]
  }

  /** The message whose field 1 is these bytes. */
  function Holder(inner: seq<byte>): seq<E.Member> {
    [E.Member(1, E.Payload(inner))]
  }

  /** The number sent as 1 and again as 2, n deep; everything around it occurs once. */
  function Buried(n: nat): seq<byte> {
    var request := if n == 0 then Again(1, 2) else Holder(Buried(n - 1));
    if E.Encode(request).Ok? then E.Encode(request).value else []
  }

  lemma HolderSent(inner: seq<byte>)
    requires inner != []
    ensures E.SentAll(Holder(inner)) == [Record(1, Raw(inner))]
  {
    assert Holder(inner)[1..] == [];
    assert [Record(1, Raw(inner))] + [] == [Record(1, Raw(inner))];
  }

  lemma HolderGrows(inner: seq<byte>)
    ensures E.Encode(Holder(inner)).Ok? && |E.Encode(Holder(inner)).value| >= |inner|
  {
    assert Holder(inner)[1..] == [];
    E.TagSign(1, 2);
  }

  lemma HolderViews(records: seq<Record>, inner: seq<byte>, schema: seq<D.Spec>)
    requires records == [Record(1, Raw(inner))] && LandView(inner, schema).Ok? && D.Decode(inner, schema).Ok?
    ensures var held := [D.Spec(1, D.Nested(schema), false)];
      LandLooks(records, held) == Ok([Single(Message(LandView(inner, schema).value))]) &&
      D.DecodeAll(records, held) == Ok([D.One(D.Object(D.Decode(inner, schema).value))])
  {
    hide LandView, D.Decode;
    var held := [D.Spec(1, D.Nested(schema), false)];
    assert held[1..] == [] && records[1..] == [];
    assert Values(records, 1) == [Raw(inner)];
    var look, cell := Single(Message(LandView(inner, schema).value)), D.One(D.Object(D.Decode(inner, schema).value));
    assert LandLook(Values(records, 1), held[0]) == Ok(look) && D.ReadCell(Values(records, 1), held[0]) == Ok(cell);
    assert [look] + [] == [look] && [cell] + [] == [cell];
  }

  lemma ObjectSeen(cells: seq<D.Cell>)
    ensures LooksOf([D.One(D.Object(cells))]) == [Single(Message(LooksOf(cells)))]
  {
    var cell := D.One(D.Object(cells));
    assert [cell][1..] == [];
    assert LookOf(cell) == Single(SeenOf(D.Object(cells)));
    assert LooksOf([cell]) == [LookOf(cell)] + LooksOf([]);
  }

  lemma SingleTells(a: seq<Look>, b: seq<Look>)
    requires a != b
    ensures [Single(Message(a))] != [Single(Message(b))]
  {
    assert [Single(Message(a))][0] != [Single(Message(b))][0];
  }

  /** What is shown apart stays so inside another message. */
  lemma HeldApart(inner: seq<byte>, schema: seq<D.Spec>)
    requires ShownApart(inner, schema) && 0 < |inner| < TWO_TO_53
    ensures E.Encode(Holder(inner)).Ok? && ShownApart(E.Encode(Holder(inner)).value, [D.Spec(1, D.Nested(schema), false)])
  {
    hide E.Encode, E.SentAll, L.Parse, O.Parse, LandLooks, D.DecodeAll, SmallTags;
    R.BigShift();
    RequestReadBy(Holder(inner));
    HolderSent(inner);
    HolderViews(E.SentAll(Holder(inner)), inner, schema);
    ObjectSeen(D.Decode(inner, schema).value);
    assert LandView(inner, schema).value != LooksOf(D.Decode(inner, schema).value);
    SingleTells(LandView(inner, schema).value, LooksOf(D.Decode(inner, schema).value));
  }

  /** At every depth that a buffer can hold, one singular field that occurs twice is
      enough for the consoles to show the message apart. */
  lemma {:induction false} ApartAtDepth(n: nat)
    requires |Buried(n)| < TWO_TO_53
    ensures Buried(n) != [] && ShownApart(Buried(n), Deep(n))
  {
    hide E.Encode, ShownApart;
    if n == 0 {
      AgainApart(1, 2);
      AgainSent(1, 2);
      L.ParseNothing();
    } else {
      HolderGrows(Buried(n - 1));
      ApartAtDepth(n - 1);
      HeldApart(Buried(n - 1), Deep(n - 1));
    }
  }

  // ------------------------------------------------------------- negative integers

  /** Every negative int64 that land's Writer writes is shown apart: land shows it moved
      up by 2^64. */
  lemma NegativeApart(field: nat, v: int)
    requires 1 <= field < 0x1000_0000 && -TWO_TO_63 <= v < 0
    ensures ShownApart(L.EncodeAll([L.NumField(field, v)]), [D.Spec(field, D.Int64, false)])
  {
    hide L.EncodeAll, L.Parse, O.Parse, R.AllFit, AllStrictly;
    var ns := [L.NumField(field, v)];
    OneNegative(field, v);
    R.RoundTrip(ns);
    OversightReadsWritten(ns);
    OneRecord(L.Parse(L.EncodeAll(ns)).value, O.Parse(L.EncodeAll(ns)).value, field, v);
    NegativeViews([Record(field, Num(v + TWO_TO_64))], field, v);
  }

  lemma OneNegative(field: nat, v: int)
    requires 1 <= field < 0x1000_0000 && -TWO_TO_63 <= v < 0
    ensures R.AllFit([L.NumField(field, v)]) && AllStrictly([L.NumField(field, v)])
  {
    R.BigShift();
    var nodes := [L.NumField(field, v)];
    assert nodes[1..] == [] && R.Fits(nodes[0]) && Strictly(nodes[0]);
  }

  /** A message of one negative number, as either parser reads it. */
  lemma OneRecord(l: seq<Record>, o: seq<Record>, field: nat, v: int)
    requires -TWO_TO_63 <= v < 0 && R.Match(l, [L.NumField(field, v)]) && Match(o, [L.NumField(field, v)])
    ensures l == o == [Record(field, Num(v + TWO_TO_64))]
  {
    var ns := [L.NumField(field, v)];
    assert ns[1..] == [];
    assert R.Match(l[1..], ns[1..]) && Match(o[1..], ns[1..]);
    assert R.Holds(l[0].value, ns[0]) && Holds(o[0].value, ns[0]);
  }

  lemma NegativeViews(records: seq<Record>, field: nat, v: int)
    requires -TWO_TO_63 <= v < 0 && records == [Record(field, Num(v + TWO_TO_64))]
    ensures var schema := [D.Spec(field, D.Int64, false)];
      LandLooks(records, schema).Ok? && D.DecodeAll(records, schema).Ok? &&
      LandLooks(records, schema).value != LooksOf(D.DecodeAll(records, schema).value)
  {
    var schema := [D.Spec(field, D.Int64, false)];
    assert schema[1..] == [] && records[1..] == [];
    assert Values(records, field) == [Num(v + TWO_TO_64)];
    NegativeCell(Values(records, field), schema[0], v);
    FieldsExactly(records, records, schema);
  }

  lemma NegativeCell(values: seq<Value>, spec: D.Spec, v: int)
    requires -TWO_TO_63 <= v < 0 && values == [Num(v + TWO_TO_64)] && spec.kind == D.Int64 && !spec.repeated
    ensures LandLook(values, spec).Ok? && D.ReadCell(values, spec).Ok? && !SameField(values, values, spec)
  {
  }
}
