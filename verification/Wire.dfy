/** The protobuf wire format, as both hand-written codecs use it: bytes, base-128
    varints, JavaScript's conversion of a BigInt to a Number, and parsed records.

    The JavaScript bit operations are stated as arithmetic on integers:
    `b & 0x7f` is `b % 128`, `v >> 7` is the floor of `v / 128` (also for a negative
    BigInt), and `result |= x << shift` is an addition because `result` stays
    below `2^shift` (stated as a loop invariant of the readers). */
module Wire {
  import opened Basics

  type byte = b: int | 0 <= b < 256

  datatype Error =
    | TruncatedVarint | VarintTooLong | TruncatedField | FieldZero | UnsupportedWireType(wire: nat)
    | ExpectedMessage | ExpectedVarint | ExpectedBytes | NegativeVarint

  datatype Result<+T> = Ok(value: T) | Err(error: Error)

  const TWO_TO_32: int := 0x1_0000_0000
  const TWO_TO_63: int := 0x8000_0000_0000_0000
  const TWO_TO_64: int := 0x1_0000_0000_0000_0000
  /** Number.MAX_SAFE_INTEGER + 1: below it a Number holds every integer exactly. */
  const TWO_TO_53: int := 0x20_0000_0000_0000

  /** v shifted left by k groups of seven bits. */
  function Shift(k: nat, v: nat): (s: nat)
    ensures s >= v
  {
    if k == 0 then v else 128 * Shift(k - 1, v)
  }

  lemma {:induction false} ShiftAdd(k: nat, v: nat, w: nat)
    ensures Shift(k, v + w) == Shift(k, v) + Shift(k, w)
    ensures Shift(k, 128 * v) == Shift(k + 1, v)
  {
    if k > 0 { ShiftAdd(k - 1, v, w); }
  }

  lemma ShiftBound(k: nat, low: nat)
    requires low < 128
    ensures Shift(k, low) + Shift(k, 1) <= Shift(k + 1, 1)
  {
    ShiftAdd(k, low, 127 - low);
    ShiftAdd(k, 127, 1);
    ShiftAdd(k, 1, 0);
  }

  // ------------------------------------------------------------------ varints

  /** The next byte of a varint: seven bits, and whether anything is left. */
  function Group(v: int): byte {
    if v / 128 > 0 then v % 128 + 128 else v % 128
  }

  /** The bytes of a BigInt, least significant group first, the way the writers'
      loops push them: the loop stops as soon as the shifted value is not positive,
      so any integer, even a negative one, yields some bytes. */
  function Groups(v: int): (s: seq<byte>)
    ensures s != []
    decreases if v > 0 then v else 0, 1
  {
    [Group(v)] + Remaining(v / 128)
  }

  function Remaining(v: int): seq<byte>
    decreases if v > 0 then v else 0, if v > 0 then 2 else 0
  {
    if v > 0 then Groups(v) else []
  }

  /** A decoded varint and how many bytes it took. */
  datatype Taken = Taken(value: nat, used: nat)

  /** The outcome of the varint loop after k groups have put `result` together. */
  function Resumed(result: nat, k: nat, rest: Result<Taken>): Result<Taken> {
    match rest
    case Ok(v) => Ok(Taken(result + Shift(k, v.value), k + v.used))
    case Err(e) => Err(e)
  }

  /** A group with more to come: what the rest gives, one group up. */
  function More(low: nat, rest: Result<Taken>): Result<Taken> {
    match rest
    case Ok(t) => Ok(Taken(low + 128 * t.value, t.used + 1))
    case Err(e) => Err(e)
  }

  lemma ResumedOnce(result: nat, k: nat, low: nat, rest: Result<Taken>)
    requires low < 128 && result < Shift(k, 1)
    ensures result + Shift(k, low) < Shift(k + 1, 1)
    ensures Resumed(result, k, More(low, rest)) == Resumed(result + Shift(k, low), k + 1, rest)
  {
    ShiftBound(k, low);
    if rest.Ok? {
      var t := rest.value.value;
      ShiftAdd(k, low, 128 * t);
      ShiftAdd(k, t, 0);
    }
  }

  lemma ResumedAtStart(rest: Result<Taken>)
    ensures Resumed(0, 0, rest) == rest && Shift(0, 1) == 1
  {
  }

  // ---------------------------------------------- BigInt to Number conversion

  /** The double nearest to an integer: bits are dropped until 53 are left, which
      then take one more if more than half was dropped, or half of an odd number. */
  function Rounded(v: nat, half: bool, more: bool): nat {
    if v < TWO_TO_53 then v + (if half && (more || v % 2 == 1) then 1 else 0)
    else 2 * Rounded(v / 2, v % 2 == 1, half || more)
  }

  /** Number(v): exact below 2^53. */
  function ToNumber(v: nat): (n: nat)
    ensures v < TWO_TO_53 ==> n == v
  {
    Rounded(v, false, false)
  }

  /** A double holds v exactly: below the 53 bits it keeps, none is set. */
  predicate Representable(v: nat) {
    v < TWO_TO_53 || (v % 2 == 0 && Representable(v / 2))
  }

  lemma {:induction false} ToNumberExactly(v: nat)
    ensures ToNumber(v) == v <==> Representable(v)
  {
    if v >= TWO_TO_53 && v % 2 == 0 { ToNumberExactly(v / 2); }
  }

  /** ToInt32, which `<<` applies to its left operand and its result. */
  function ToInt32(n: int): (r: int)
    ensures -0x8000_0000 <= r < 0x8000_0000
    ensures -0x8000_0000 <= n < 0x8000_0000 ==> r == n
  {
    var m := n % TWO_TO_32;
    if m < 0x8000_0000 then m else m - TWO_TO_32
  }

  // ------------------------------------------------------------------ records

  /** What one field entry holds. Only the oversight parser keeps fixed-width
      entries; the land parser steps over them. */
  datatype Value = Num(num: nat) | Raw(bytes: seq<byte>) | Fixed(width: nat, bits: seq<byte>)

  datatype Record = Record(field: nat, value: Value)

  /** One parsed record, if it is kept, and how far the parser moves. The move
      may pass the end of the buffer: fixed-width fields are skipped unchecked. */
  datatype Step = Step(record: Option<Record>, used: nat)

  function Filed(record: Option<Record>): seq<Record> {
    match record
    case Some(r) => [r]
    case None => []
  }

  function Drop<T>(s: seq<T>, n: nat): seq<T> {
    if n <= |s| then s[n..] else []
  }

  /** The outcome of a parse that has filed `records` and has `rest` to go. */
  function Continued(records: seq<Record>, rest: Result<seq<Record>>): Result<seq<Record>> {
    match rest
    case Ok(more) => Ok(records + more)
    case Err(e) => Err(e)
  }

  lemma ContinuedTwice(a: seq<Record>, b: seq<Record>, rest: Result<seq<Record>>)
    ensures Continued(a, Continued(b, rest)) == Continued(a + b, rest)
  {
    if rest.Ok? { Assoc(a, b, rest.value); }
  }

  lemma ContinuedFromNothing(rest: Result<seq<Record>>)
    ensures Continued([], rest) == rest
  {
    if rest.Ok? { assert [] + rest.value == rest.value; }
  }

  lemma ContinuedFailure(records: seq<Record>, e: Error)
    ensures Continued(records, Err(e)) == Err(e)
  {
  }

  lemma ContinuedToEnd(records: seq<Record>)
    ensures Continued(records, Ok([])) == Ok(records)
  {
    assert records + [] == records;
  }

  /** Slicing from a start and slicing again. */
  lemma SliceFrom<T>(s: seq<T>, start: nat, i: nat, j: nat)
    requires start + i <= start + j <= |s|
    ensures s[start..][i..] == s[start + i..] && s[start..][i..j] == s[start + i..start + j]
  {
  }

  /** The entries a parse filed under one field number, in wire order. */
  function Values(records: seq<Record>, field: nat): seq<Value> {
    if records == [] then []
    else if records[0].field == field then [records[0].value] + Values(records[1..], field)
    else Values(records[1..], field)
  }

  lemma {:induction false} ValuesConcat(a: seq<Record>, b: seq<Record>, field: nat)
    ensures Values(a + b, field) == Values(a, field) + Values(b, field)
  {
    if a == [] {
      assert a + b == b;
    } else {
      assert (a + b)[1..] == a[1..] + b;
      ValuesConcat(a[1..], b, field);
    }
  }

  /** The Map of field number to entry list that both parsers build. */
  type Fields = map<nat, seq<Value>>

  ghost predicate Denotes(fields: Fields, records: seq<Record>) {
    forall n: nat :: if n in fields then fields[n] == Values(records, n) != [] else Values(records, n) == []
  }

  lemma NothingDenoted()
    ensures Denotes(map[], [])
  {
  }

  /** `put`: append to the list under the number, starting one if there is none. */
  function Put(fields: Fields, r: Record): Fields {
    fields[r.field := (if r.field in fields then fields[r.field] else []) + [r.value]]
  }

  lemma PutDenotes(fields: Fields, records: seq<Record>, r: Record)
    requires Denotes(fields, records)
    ensures Denotes(Put(fields, r), records + [r])
  {
    forall n: nat
      ensures Values(records + [r], n) == Values(records, n) + if n == r.field then [r.value] else []
    {
      ValuesConcat(records, [r], n);
      assert [r][1..] == [];
    }
  }

  function File(fields: Fields, record: Option<Record>): Fields {
    if record.Some? then Put(fields, record.value) else fields
  }

  lemma FileDenotes(fields: Fields, records: seq<Record>, record: Option<Record>)
    requires Denotes(fields, records)
    ensures Denotes(File(fields, record), records + Filed(record))
  {
    if record.Some? {
      PutDenotes(fields, records, record.value);
    } else {
      assert records + Filed(record) == records;
    }
  }

  /** `f.get(num) ?? []`. */
  function All(fields: Fields, field: nat): seq<Value> {
    if field in fields then fields[field] else []
  }

  lemma AllDenotes(fields: Fields, records: seq<Record>, field: nat)
    requires Denotes(fields, records)
    ensures All(fields, field) == Values(records, field)
  {
  }
}
