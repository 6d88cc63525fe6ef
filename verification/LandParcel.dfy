/** clients/land/proto.js: a parcel written out as parcel.proto numbers its fields, and
    what decodeParcel makes of it. */
module LandParcel {
  import opened Basics
  import opened Wire
  import opened LandProto
  import opened LandRoundTrip
  import opened LandFraming

  /** A scalar of a record. */
  datatype Cell = Whole(value: nat) | Flag(on: bool) | Text(bytes: seq<byte>)

  function CellNode(field: nat, c: Cell): Node {
    match c
    case Whole(v) => NumField(field, v)
    case Flag(b) => BoolField(field, b)
    case Text(s) => BytesField(field, s)
  }

  /** What a decoder finds of it: nothing where it is the default. */
  function CellEntry(c: Cell): Option<Value> {
    match c
    case Whole(v) => if v == 0 then None else Some(Num(v))
    case Flag(b) => if b then Some(Num(1)) else None
    case Text(s) => if s == [] then None else Some(Raw(s))
  }

  /** Cells in consecutive fields. */
  function CellNodes(cells: seq<Cell>, first: nat): (ns: seq<Node>)
    ensures |ns| == |cells|
    decreases |cells|
  {
    if cells == [] then [] else [CellNode(first, cells[0])] + CellNodes(cells[1..], first + 1)
  }

  function CellEntries(cells: seq<Cell>): (row: Row)
    ensures |row| == |cells|
  {
    seq(|cells|, i requires 0 <= i < |cells| => CellEntry(cells[i]))
  }

  /** Rows in one repeated field, each a message of its cells from field 1 on. */
  function RowNodes(rows: seq<seq<Cell>>, field: nat): seq<Node> {
    if rows == [] then [] else [MsgField(field, CellNodes(rows[0], 1))] + RowNodes(rows[1..], field)
  }

  /** The rows that are transmitted: those that are not all defaults. */
  function RowsSent(rows: seq<seq<Cell>>): seq<Row> {
    if rows == [] then []
    else (if AllDefault(CellNodes(rows[0], 1)) then [] else [CellEntries(rows[0])]) + RowsSent(rows[1..])
  }

  /** A parcel: id, geometry_hash, cadastral_ref, holder, authority and status, in fields 1
      to 6, registered_at in 8 and vehicle_id in 11; encumbrances in 7, deeds in 9,
      restrictions in 10 and freezes in 12. */
  datatype Title = Title(cells: seq<Cell>, registeredAt: Cell, vehicleId: Cell, encumbrances: seq<seq<Cell>>, deeds: seq<seq<Cell>>,
                         restrictions: seq<seq<Cell>>, freezes: seq<seq<Cell>>)

  /** Every record has the columns its message has. */
  ghost predicate Shaped(t: Title) {
    |t.cells| == 6 &&
    (forall i :: 0 <= i < |t.encumbrances| ==> |t.encumbrances[i]| == 5) &&
    (forall i :: 0 <= i < |t.deeds| ==> |t.deeds[i]| == 6) &&
    (forall i :: 0 <= i < |t.restrictions| ==> |t.restrictions[i]| == 6) &&
    (forall i :: 0 <= i < |t.freezes| ==> |t.freezes[i]| == 7)
  }

  function TitleNodes(t: Title): seq<Node> {
    CellNodes(t.cells, 1) + (RowNodes(t.encumbrances, 7) + ([CellNode(8, t.registeredAt)] + (RowNodes(t.deeds, 9) +
    (RowNodes(t.restrictions, 10) + ([CellNode(11, t.vehicleId)] + RowNodes(t.freezes, 12))))))
  }

  // ---------------------------------------------------------------- what is sent

  lemma {:induction false} SentCells(cells: seq<Cell>, first: nat, field: nat)
    ensures var sent := Sent(CellNodes(cells, first), field);
      if first <= field < first + |cells| && CellEntry(cells[field - first]).Some?
      then sent == [CellNode(field, cells[field - first])] else sent == []
    decreases |cells|
  {
    if cells != [] { SentCells(cells[1..], first + 1, field); }
  }

  lemma {:induction false} SentRows(rows: seq<seq<Cell>>, field: nat, other: nat)
    ensures field != other ==> Sent(RowNodes(rows, field), other) == []
    ensures forall i :: 0 <= i < |Sent(RowNodes(rows, field), field)| ==> Sent(RowNodes(rows, field), field)[i].MsgField?
  {
    if rows != [] { SentRows(rows[1..], field, other); }
  }

  lemma SentOne(field: nat, c: Cell, other: nat)
    ensures Sent([CellNode(field, c)], other) == if field == other && CellEntry(c).Some? then [CellNode(field, c)] else []
  {
    assert CellNodes([c], field) == [CellNode(field, c)] by { assert [c][1..] == []; }
    SentCells([c], field, other);
  }

  lemma SentOfTitle(t: Title, f: nat)
    requires |t.cells| == 6
    ensures var sent := Sent(TitleNodes(t), f);
      sent ==
        if f == 7 then Sent(RowNodes(t.encumbrances, 7), 7)
        else if f == 9 then Sent(RowNodes(t.deeds, 9), 9)
        else if f == 10 then Sent(RowNodes(t.restrictions, 10), 10)
        else if f == 12 then Sent(RowNodes(t.freezes, 12), 12)
        else if f == 8 then Sent([CellNode(8, t.registeredAt)], 8)
        else if f == 11 then Sent([CellNode(11, t.vehicleId)], 11)
        else Sent(CellNodes(t.cells, 1), f)
  {
    hide Sent, RowNodes, CellNodes, CellNode;
    var g := RowNodes(t.freezes, 12);
    var h := [CellNode(11, t.vehicleId)] + g;
    var i := RowNodes(t.restrictions, 10) + h;
    var j := RowNodes(t.deeds, 9) + i;
    var k := [CellNode(8, t.registeredAt)] + j;
    var l := RowNodes(t.encumbrances, 7) + k;
    SentConcat(CellNodes(t.cells, 1), l, f);
    SentConcat(RowNodes(t.encumbrances, 7), k, f);
    SentConcat([CellNode(8, t.registeredAt)], j, f);
    SentConcat(RowNodes(t.deeds, 9), i, f);
    SentConcat(RowNodes(t.restrictions, 10), h, f);
    SentConcat([CellNode(11, t.vehicleId)], g, f);
    SentCells(t.cells, 1, f);
    SentOne(8, t.registeredAt, f);
    SentOne(11, t.vehicleId, f);
    SentRows(t.encumbrances, 7, f);
    SentRows(t.deeds, 9, f);
    SentRows(t.restrictions, 10, f);
    SentRows(t.freezes, 12, f);
  }

  // ----------------------------------------------------------------- what is read

  /** Entries that hold what was sent on one field. */
  ghost predicate HoldsAll(values: seq<Value>, sent: seq<Node>) {
    |values| == |sent| && forall i :: 0 <= i < |sent| ==> Holds(values[i], sent[i])
  }

  lemma CellHeld(field: nat, c: Cell, values: seq<Value>)
    requires HoldsAll(values, if CellEntry(c).Some? then [CellNode(field, c)] else [])
    ensures (if values == [] then None else Some(values[0])) == CellEntry(c)
  {
    if CellEntry(c).Some? { assert Holds(values[0], CellNode(field, c)); }
  }

  lemma FieldHeld(records: seq<Record>, ns: seq<Node>, field: nat)
    requires Match(records, ns)
    ensures HoldsAll(Values(records, field), Sent(ns, field))
  {
    FieldMatch(records, ns, field);
  }

  lemma ColumnHeld(records: seq<Record>, cells: seq<Cell>, i: nat)
    requires Match(records, CellNodes(cells, 1)) && i < |cells|
    ensures Head(records, i + 1) == CellEntry(cells[i])
  {
    hide Match, Sent;
    FieldHeld(records, CellNodes(cells, 1), i + 1);
    SentCells(cells, 1, i + 1);
    CellHeld(i + 1, cells[i], Values(records, i + 1));
  }

  lemma MessageHeld(v: Value, field: nat, children: seq<Node>)
    requires Holds(v, MsgField(field, children))
    ensures v.Raw? && Parse(v.bytes).Ok? && Match(Parse(v.bytes).value, children)
  {
  }

  /** A row is read as its cells. */
  lemma RowHeld(records: seq<Record>, cells: seq<Cell>, fields: seq<nat>)
    requires Match(records, CellNodes(cells, 1)) && |fields| == |cells|
    requires forall i :: 0 <= i < |fields| ==> fields[i] == i + 1
    ensures ReadRow(records, fields) == CellEntries(cells)
  {
    hide Match, CellNodes, Head, CellEntry;
    forall i | 0 <= i < |cells| ensures Head(records, fields[i]) == CellEntry(cells[i]) {
      ColumnHeld(records, cells, i);
    }
  }

  /** And the rows of one field as those that were sent. */
  lemma {:induction false} RowsHeld(values: seq<Value>, rows: seq<seq<Cell>>, field: nat, fields: seq<nat>)
    requires HoldsAll(values, Sent(RowNodes(rows, field), field))
    requires forall i :: 0 <= i < |rows| ==> |rows[i]| == |fields|
    requires forall i :: 0 <= i < |fields| ==> fields[i] == i + 1
    ensures Subs(values, fields) == Ok(RowsSent(rows))
    decreases |rows|
  {
    hide Holds, Match, Parse, CellNodes, CellEntries, ReadRow;
    if rows != [] {
      var node := MsgField(field, CellNodes(rows[0], 1));
      assert RowNodes(rows, field)[0] == node && RowNodes(rows, field)[1..] == RowNodes(rows[1..], field);
      assert forall i :: 0 <= i < |rows| - 1 ==> rows[1..][i] == rows[i + 1];
      if AllDefault(node.children) {
        RowsHeld(values, rows[1..], field, fields);
        assert [] + RowsSent(rows[1..]) == RowsSent(rows[1..]);
      } else {
        assert Sent(RowNodes(rows, field), field)[1..] == Sent(RowNodes(rows[1..], field), field);
        assert Holds(values[0], node);
        MessageHeld(values[0], field, node.children);
        RowHeld(Parse(values[0].bytes).value, rows[0], fields);
        assert forall i :: 0 <= i < |values| - 1 ==> values[1..][i] == values[i + 1];
        RowsHeld(values[1..], rows[1..], field, fields);
      }
    }
  }

  lemma Heads(records: seq<Record>, t: Title)
    requires |t.cells| == 6 && Match(records, TitleNodes(t))
    ensures [Head(records, 1), Head(records, 2), Head(records, 3), Head(records, 4), Head(records, 5), Head(records, 6), Head(records, 8), Head(records, 11)]
         == CellEntries(t.cells) + [CellEntry(t.registeredAt), CellEntry(t.vehicleId)]
  {
    hide Match, Sent, TitleNodes, CellEntry, CellNode, CellNodes;
    forall i | 0 <= i < 6 ensures Head(records, i + 1) == CellEntry(t.cells[i]) {
      FieldHeld(records, TitleNodes(t), i + 1);
      SentOfTitle(t, i + 1);
      SentCells(t.cells, 1, i + 1);
      CellHeld(i + 1, t.cells[i], Values(records, i + 1));
    }
    assert Head(records, 0 + 1) == CellEntry(t.cells[0]);
    FieldHeld(records, TitleNodes(t), 8);
    SentOfTitle(t, 8);
    SentOne(8, t.registeredAt, 8);
    CellHeld(8, t.registeredAt, Values(records, 8));
    FieldHeld(records, TitleNodes(t), 11);
    SentOfTitle(t, 11);
    SentOne(11, t.vehicleId, 11);
    CellHeld(11, t.vehicleId, Values(records, 11));
  }

  lemma Rows(records: seq<Record>, t: Title)
    requires Shaped(t) && Match(records, TitleNodes(t))
    ensures Subs(Values(records, 7), [1, 2, 3, 4, 5]) == Ok(RowsSent(t.encumbrances))
    ensures Subs(Values(records, 9), [1, 2, 3, 4, 5, 6]) == Ok(RowsSent(t.deeds))
    ensures Subs(Values(records, 10), [1, 2, 3, 4, 5, 6]) == Ok(RowsSent(t.restrictions))
    ensures Subs(Values(records, 12), [1, 2, 3, 4, 5, 6, 7]) == Ok(RowsSent(t.freezes))
  {
    hide Match, Sent, TitleNodes, Subs, RowNodes, HoldsAll, RowsSent;
    FieldHeld(records, TitleNodes(t), 7);
    SentOfTitle(t, 7);
    RowsHeld(Values(records, 7), t.encumbrances, 7, [1, 2, 3, 4, 5]);
    FieldHeld(records, TitleNodes(t), 9);
    SentOfTitle(t, 9);
    RowsHeld(Values(records, 9), t.deeds, 9, [1, 2, 3, 4, 5, 6]);
    FieldHeld(records, TitleNodes(t), 10);
    SentOfTitle(t, 10);
    RowsHeld(Values(records, 10), t.restrictions, 10, [1, 2, 3, 4, 5, 6]);
    FieldHeld(records, TitleNodes(t), 12);
    SentOfTitle(t, 12);
    RowsHeld(Values(records, 12), t.freezes, 12, [1, 2, 3, 4, 5, 6, 7]);
  }

  /** A parcel written and read back is the parcel, each list under its own name, but for
      rows that are all defaults, which are not transmitted. */
  lemma ParcelReadsBack(t: Title)
    requires Shaped(t) && AllFit(TitleNodes(t))
    ensures ReadParcel(EncodeAll(TitleNodes(t))) ==
      Ok(Parcel(CellEntries(t.cells) + [CellEntry(t.registeredAt), CellEntry(t.vehicleId)],
                RowsSent(t.encumbrances), RowsSent(t.deeds), RowsSent(t.restrictions), RowsSent(t.freezes)))
  {
    hide Match, Subs, TitleNodes, EncodeAll, AllFit, Parse, CellEntry, RowsSent, Shaped;
    RoundTrip(TitleNodes(t));
    TitleRead(Parse(EncodeAll(TitleNodes(t))).value, t);
  }

  lemma TitleRead(records: seq<Record>, t: Title)
    requires Shaped(t) && Match(records, TitleNodes(t))
    ensures DecodeParcel(records) ==
      Ok(Parcel(CellEntries(t.cells) + [CellEntry(t.registeredAt), CellEntry(t.vehicleId)],
                RowsSent(t.encumbrances), RowsSent(t.deeds), RowsSent(t.restrictions), RowsSent(t.freezes)))
  {
    hide Match, Subs, TitleNodes, RowsSent, Head;
    Heads(records, t);
    Rows(records, t);
  }
}
