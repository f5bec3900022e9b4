/** The two-level list as a map: which integer of which OID is known, and who holds it. */
module IndexMap {
  import opened Basics
  import opened IndexSpec

  /** A known integer: held by a session, or released and remembered. */
  datatype Slot = Slot(held: bool, session: Session)

  /** The row of a name, or the empty row. */
  function RowOf(rows: seq<Row>, name: Oid): Row {
    var r := FindRow(rows, name);
    if r < |rows| && RowName(rows[r]) == name then rows[r] else []
  }

  function SlotIn(row: Row, n: int): Option<Slot> {
    if row == [] || row[0].kind != Integer then None
    else
      var c := First(row, (e: Entry) => e.value == IntVal(n));
      if c < |row| then Some(Slot(row[c].held, row[c].session)) else None
  }

  /** The map from (OID, integer) to owner. */
  function SlotAt(rows: seq<Row>, name: Oid, n: int): Option<Slot> { SlotIn(RowOf(rows, name), n) }

  predicate IsHeld(s: Option<Slot>) { s.Some? && s.value.held }

  predicate IsFree(s: Option<Slot>) { s.Some? && !s.value.held }

  predicate IntegerRow(row: Row) { row == [] || row[0].kind == Integer }

  // ---------------------------------------------------------------- rows of a changed list

  lemma RowOfIs(rows: seq<Row>, r: nat)
    requires WellFormed(rows) && r < |rows|
    ensures RowOf(rows, RowName(rows[r])) == rows[r]
  {
    RowFound(rows, RowName(rows[r]));
  }

  lemma RowOfNone(rows: seq<Row>, name: Oid)
    requires forall r :: 0 <= r < |rows| ==> RowName(rows[r]) != name
    ensures RowOf(rows, name) == []
  {
  }

  lemma RowOfGood(rows: seq<Row>, name: Oid)
    requires WellFormed(rows)
    ensures RowOf(rows, name) != [] ==> GoodRow(RowOf(rows, name)) && RowName(RowOf(rows, name)) == name
  {
  }

  /** Two lists with the same rows but for one name agree on every other name. */
  lemma RowOfTransfer(rows: seq<Row>, rows': seq<Row>, name: Oid)
    requires WellFormed(rows) && WellFormed(rows')
    requires forall r :: 0 <= r < |rows| && RowName(rows[r]) == name ==> rows[r] in rows'
    requires forall r :: 0 <= r < |rows'| && RowName(rows'[r]) == name ==> rows'[r] in rows
    ensures RowOf(rows', name) == RowOf(rows, name)
  {
    if r :| 0 <= r < |rows| && RowName(rows[r]) == name {
      RowOfIs(rows, r);
      var s :| 0 <= s < |rows'| && rows'[s] == rows[r];
      RowOfIs(rows', s);
    } else {
      RowOfNone(rows, name);
      RowOfNone(rows', name);
    }
  }

  lemma RowOfReplaced(rows: seq<Row>, r: nat, row: Row, name: Oid)
    requires WellFormed(rows) && r < |rows| && GoodRow(row) && RowName(row) == RowName(rows[r])
    ensures RowOf(rows[r := row], name) == if name == RowName(row) then row else RowOf(rows, name)
  {
    var rows' := rows[r := row];
    RowReplaced(rows, r, row);
    RowOfIs(rows', r);
    if name != RowName(row) {
      forall i | 0 <= i < |rows| && RowName(rows[i]) == name ensures rows[i] in rows' {
        assert rows'[i] == rows[i];
      }
      RowOfTransfer(rows, rows', name);
    }
  }

  lemma InsertedMembers<T>(xs: seq<T>, f: nat, x: T)
    requires f <= |xs|
    ensures forall y :: y in xs[..f] + [x] + xs[f..] <==> y in xs || y == x
  {
    assert xs == xs[..f] + xs[f..];
  }

  lemma RowOfInserted(rows: seq<Row>, e: Entry, name: Oid)
    requires WellFormed(rows) && Typed(e.kind, e.value) && RowOf(rows, e.name) == []
    ensures RowOf(InsertRow(rows, FindRow(rows, e.name), e), name) == if name == e.name then [e] else RowOf(rows, name)
  {
    var f := FindRow(rows, e.name);
    if f < |rows| { assert GoodRow(rows[f]); }
    InsertRowKeeps(rows, e);
    var rows' := InsertRow(rows, f, e);
    if name == e.name {
      assert rows'[f] == [e];
      RowOfIs(rows', f);
    } else {
      InsertedMembers(rows, f, [e]);
      RowOfTransfer(rows, rows', name);
    }
  }

  lemma RowOfRemoved(rows: seq<Row>, r: nat, name: Oid)
    requires WellFormed(rows) && r < |rows|
    ensures RowOf(rows[..r] + rows[r + 1..], name) == if name == RowName(rows[r]) then [] else RowOf(rows, name)
  {
    var rows' := rows[..r] + rows[r + 1..];
    RowRemoved(rows, r);
    forall i | 0 <= i < |rows'| ensures rows'[i] == rows[if i < r then i else i + 1] {
    }
    if name == RowName(rows[r]) {
      forall i | 0 <= i < |rows'| ensures RowName(rows'[i]) != name {
        var j := if i < r then i else i + 1;
        assert RowLess(rows[if j < r then j else r], rows[if j < r then r else j]);
      }
      RowOfNone(rows', name);
    } else {
      forall i | 0 <= i < |rows| && RowName(rows[i]) == name ensures rows[i] in rows' {
        assert rows'[if i < r then i else i - 1] == rows[i];
      }
      RowOfTransfer(rows, rows', name);
    }
  }

  // ---------------------------------------------------------------- slots of a changed row

  function SlotOf(e: Entry): Slot { Slot(e.held, e.session) }

  lemma SlotInIs(row: Row, c: nat)
    requires GoodRow(row) && row[0].kind == Integer && c < |row|
    ensures SlotIn(row, row[c].value.n) == Some(SlotOf(row[c]))
  {
    FirstIs(row, (e: Entry) => e.value == IntVal(row[c].value.n), c);
  }

  lemma SlotInSome(row: Row, n: int) returns (c: nat)
    requires GoodRow(row) && SlotIn(row, n).Some?
    ensures c < |row| && row[c].value == IntVal(n) && SlotIn(row, n) == Some(SlotOf(row[c]))
  {
    c := First(row, (e: Entry) => e.value == IntVal(n));
  }

  lemma SlotInNone(row: Row, n: int)
    requires forall c :: 0 <= c < |row| ==> row[c].value != IntVal(n)
    ensures SlotIn(row, n) == None
  {
  }

  /** Two rows with the same entries but for the value m agree on every other value. */
  lemma SlotTransfer(row: Row, row': Row, n: int)
    requires GoodRow(row) && GoodRow(row') && row[0].kind == row'[0].kind == Integer
    requires forall c :: 0 <= c < |row| && row[c].value.n == n ==> row[c] in row'
    requires forall c :: 0 <= c < |row'| && row'[c].value.n == n ==> row'[c] in row
    ensures SlotIn(row', n) == SlotIn(row, n)
  {
    if SlotIn(row, n).Some? {
      var c := SlotInSome(row, n);
      var d :| 0 <= d < |row'| && row'[d] == row[c];
      SlotInIs(row', d);
    } else if SlotIn(row', n).Some? {
      var d := SlotInSome(row', n);
      var c :| 0 <= c < |row| && row[c] == row'[d];
      SlotInIs(row, c);
    }
  }

  lemma SlotsUpdated(row: Row, c: nat, e: Entry, n: int)
    requires GoodRow(row) && row[0].kind == Integer && c < |row|
    requires e.name == row[c].name && e.kind == row[c].kind && e.value == row[c].value
    ensures SlotIn(row[c := e], n) == if n == e.value.n then Some(SlotOf(e)) else SlotIn(row, n)
  {
    var row' := row[c := e];
    UpdateInRow(row, c, e);
    SlotInIs(row', c);
    if n != e.value.n {
      forall d | 0 <= d < |row| && row[d].value.n == n ensures row[d] in row' {
        assert row'[d] == row[d];
      }
      SlotTransfer(row, row', n);
    }
  }

  lemma SlotsInserted(row: Row, c: nat, e: Entry, n: int)
    requires GoodRow(row) && row[0].kind == Integer && c <= |row|
    requires e.name == row[0].name && e.kind == Integer && InRange(e.value)
    requires forall d :: 0 <= d < c ==> row[d].value.n < e.value.n
    requires forall d :: c <= d < |row| ==> e.value.n < row[d].value.n
    ensures SlotIn(row[..c] + [e] + row[c..], n) == if n == e.value.n then Some(SlotOf(e)) else SlotIn(row, n)
  {
    var row' := row[..c] + [e] + row[c..];
    InsertInRow(row, c, e);
    assert row'[c] == e;
    SlotInIs(row', c);
    if n != e.value.n {
      forall d | 0 <= d < |row| ensures row[d] in row' {
        assert row'[if d < c then d else d + 1] == row[d];
      }
      SlotTransfer(row, row', n);
    }
  }

  lemma SlotsRemoved(row: Row, c: nat, n: int)
    requires GoodRow(row) && row[0].kind == Integer && c < |row| && |row| > 1
    ensures SlotIn(row[..c] + row[c + 1..], n) == if n == row[c].value.n then None else SlotIn(row, n)
  {
    var row' := row[..c] + row[c + 1..];
    RemoveFromRow(row, c);
    forall d | 0 <= d < |row'| ensures row'[d] == row[if d < c then d else d + 1] {
    }
    if n == row[c].value.n {
      SlotInNone(row', n);
    } else {
      forall d | 0 <= d < |row| && row[d].value.n == n ensures row[d] in row' {
        assert row'[if d < c then d else d - 1] == row[d];
      }
      SlotTransfer(row, row', n);
    }
  }

  // ---------------------------------------------------------------- registering

  /** The map with one value changed. */
  ghost predicate OneSlotChanged(rows: seq<Row>, rows': seq<Row>, name: Oid, n: int, slot: Option<Slot>) {
    forall x: Oid, m: int :: SlotAt(rows', x, m) == if x == name && m == n then slot else SlotAt(rows, x, m)
  }

  /** One row changed, and in it one value. */
  lemma RowChanged(rows: seq<Row>, rows': seq<Row>, name: Oid, row': Row, n: int, slot: Option<Slot>)
    requires forall x :: RowOf(rows', x) == if x == name then row' else RowOf(rows, x)
    requires forall m :: SlotIn(row', m) == if m == n then slot else SlotIn(RowOf(rows, name), m)
    ensures OneSlotChanged(rows, rows', name, n, slot)
  {
    forall x: Oid, m: int ensures SlotAt(rows', x, m) == if x == name && m == n then slot else SlotAt(rows, x, m) {
      assert RowOf(rows', x) == if x == name then row' else RowOf(rows, x);
    }
  }

  lemma UpdateChanges(rows: seq<Row>, r: nat, c: nat, e: Entry)
    requires WellFormed(rows) && r < |rows| && c < |rows[r]| && rows[r][0].kind == Integer
    requires e.name == rows[r][c].name && e.kind == rows[r][c].kind && e.value == rows[r][c].value
    ensures OneSlotChanged(rows, Update(rows, r, c, e), RowName(rows[r]), e.value.n, Some(SlotOf(e)))
  {
    var row' := rows[r][c := e];
    UpdateInRow(rows[r], c, e);
    RowOfIs(rows, r);
    forall x { RowOfReplaced(rows, r, row', x); }
    forall m ensures SlotIn(row', m) == if m == e.value.n then Some(SlotOf(e)) else SlotIn(rows[r], m) {
      SlotsUpdated(rows[r], c, e, m);
    }
    RowChanged(rows, Update(rows, r, c, e), RowName(rows[r]), row', e.value.n, Some(SlotOf(e)));
  }

  lemma InsertChanges(rows: seq<Row>, r: nat, c: nat, e: Entry)
    requires WellFormed(rows) && r < |rows| && c <= |rows[r]| && rows[r][0].kind == Integer
    requires e.name == RowName(rows[r]) && e.kind == Integer && InRange(e.value)
    requires forall d :: 0 <= d < c ==> rows[r][d].value.n < e.value.n
    requires forall d :: c <= d < |rows[r]| ==> e.value.n < rows[r][d].value.n
    ensures OneSlotChanged(rows, Insert(rows, r, c, e), e.name, e.value.n, Some(SlotOf(e)))
  {
    var row' := rows[r][..c] + [e] + rows[r][c..];
    InsertInRow(rows[r], c, e);
    RowOfIs(rows, r);
    forall x { RowOfReplaced(rows, r, row', x); }
    forall m { SlotsInserted(rows[r], c, e, m); }
    RowChanged(rows, Insert(rows, r, c, e), e.name, row', e.value.n, Some(SlotOf(e)));
  }

  lemma SlotInSingle(e: Entry, m: int)
    requires e.kind == Integer && InRange(e.value)
    ensures SlotIn([e], m) == if m == e.value.n then Some(SlotOf(e)) else None
  {
    if m == e.value.n { SlotInIs([e], 0); } else { SlotInNone([e], m); }
  }

  lemma NewRowChanges(rows: seq<Row>, e: Entry)
    requires WellFormed(rows) && e.kind == Integer && InRange(e.value) && RowOf(rows, e.name) == []
    ensures OneSlotChanged(rows, InsertRow(rows, FindRow(rows, e.name), e), e.name, e.value.n, Some(SlotOf(e)))
  {
    forall x { RowOfInserted(rows, e, x); }
    forall m { SlotInSingle(e, m); }
    RowChanged(rows, InsertRow(rows, FindRow(rows, e.name), e), e.name, [e], e.value.n, Some(SlotOf(e)));
  }

  lemma RemoveRowChanges(rows: seq<Row>, r: nat)
    requires WellFormed(rows) && r < |rows| && |rows[r]| == 1 && rows[r][0].kind == Integer
    ensures OneSlotChanged(rows, Remove(rows, r, 0), RowName(rows[r]), rows[r][0].value.n, None)
  {
    assert GoodRow(rows[r]) && rows[r] == [rows[r][0]];
    RowOfIs(rows, r);
    forall x { RowOfRemoved(rows, r, x); }
    forall m { SlotInSingle(rows[r][0], m); }
    RowChanged(rows, Remove(rows, r, 0), RowName(rows[r]), [], rows[r][0].value.n, None);
  }

  lemma RemoveChanges(rows: seq<Row>, r: nat, c: nat)
    requires WellFormed(rows) && r < |rows| && c < |rows[r]| && rows[r][0].kind == Integer
    ensures OneSlotChanged(rows, Remove(rows, r, c), RowName(rows[r]), rows[r][c].value.n, None)
  {
    if |rows[r]| == 1 {
      RemoveRowChanges(rows, r);
    } else {
      var row' := rows[r][..c] + rows[r][c + 1..];
      RemoveFromRow(rows[r], c);
      RowOfIs(rows, r);
      forall x { RowOfReplaced(rows, r, row', x); }
      forall m { SlotsRemoved(rows[r], c, m); }
      RowChanged(rows, Remove(rows, r, c), RowName(rows[r]), row', rows[r][c].value.n, None);
    }
  }

  /** The row of the name, if any, is of another kind: nothing can be registered there. */
  lemma WrongKind(rows: seq<Row>, q: Request, mode: Mode, ss: Session, rollover: Value)
    requires WellFormed(rows) && RowOf(rows, q.name) != [] && RowOf(rows, q.name)[0].kind != q.kind
    ensures Register(rows, q, mode, ss, rollover) == (None, rows)
  {
  }

  lemma RegisterThisInRow(rows: seq<Row>, r: nat, q: Request, ss: Session)
    requires WellFormed(rows) && r < |rows| && RowName(rows[r]) == q.name && rows[r][0].kind == q.kind == Integer
    requires InRange(q.value) && FairScan(rows[r], q.value)
    ensures var (v, rows') := RegisterInRow(rows, r, q, This, ss, q.value);
      && (v.Some? <==> !IsHeld(SlotIn(rows[r], q.value.n)))
      && (v.Some? ==> v.value == q.value && OneSlotChanged(rows, rows', q.name, q.value.n, Some(Slot(true, ss))))
      && (v.None? ==> rows' == rows)
  {
    var row := rows[r];
    var c := FindValue(row, Integer, q.value);
    ValuePlace(row, q.value);
    if c < |row| && row[c].value == q.value {
      SlotInIs(row, c);
      if !row[c].held { UpdateChanges(rows, r, c, Claimed(row[c], ss)); }
    } else {
      SlotInNone(row, q.value.n);
      InsertChanges(rows, r, c, Entry(q.name, q.kind, q.value, true, ss));
    }
  }

  /** ALLOCATE_THIS_INDEX succeeds exactly when nobody holds the value, and then the session holds it. */
  lemma RegisterThis(rows: seq<Row>, q: Request, ss: Session, rollover: Value)
    requires WellFormed(rows) && q.kind == Integer && InRange(q.value) && IntegerRow(RowOf(rows, q.name))
    requires FairSearch(rows, q)
    ensures var (v, rows') := Register(rows, q, This, ss, rollover);
      && (v.Some? <==> !IsHeld(SlotAt(rows, q.name, q.value.n)))
      && (v.Some? ==> v.value == q.value && OneSlotChanged(rows, rows', q.name, q.value.n, Some(Slot(true, ss))))
      && (v.None? ==> rows' == rows)
  {
    RowOfGood(rows, q.name);
    var r := FindRow(rows, q.name);
    if RowOf(rows, q.name) != [] {
      RegisterThisInRow(rows, r, q, ss);
    } else {
      NewRowChanges(rows, Entry(q.name, q.kind, q.value, true, ss));
    }
  }

  /** The search stops at a held value that the program takes for the one asked for, and that one is held too. */
  predicate RefusedAnyway(rows: seq<Row>, q: Request)
    requires q.value.IntVal?
  {
    var row := RowOf(rows, q.name);
    var c := FindValue(row, Integer, q.value);
    c < |row| && Compare(Integer, q.value, row[c].value) == 0 && row[c].held && IsHeld(SlotIn(row, q.value.n))
  }

  /** The list stays well formed, only the value asked for is registered, and only a held one is refused. */
  ghost predicate RightlyRegistered(rows: seq<Row>, q: Request, v: Option<Value>, rows': seq<Row>)
    requires q.value.IntVal?
  {
    WellFormed(rows') && (v.Some? ==> v.value == q.value) && (v.None? ==> IsHeld(SlotAt(rows, q.name, q.value.n)))
  }

  /** A search that does not stop where the value belongs puts it where it does not belong, or takes another value for
      it. */
  lemma UnfairlyRegistered(rows: seq<Row>, r: nat, q: Request, ss: Session)
    requires WellFormed(rows) && r < |rows| && RowName(rows[r]) == q.name && rows[r][0].kind == q.kind == Integer
    requires InRange(q.value) && !StopsRight(rows[r], q.value)
    ensures var (v, rows') := RegisterInRow(rows, r, q, This, ss, q.value);
      RightlyRegistered(rows, q, v, rows') ==> RefusedAnyway(rows, q)
  {
    var row := rows[r];
    var c := FindValue(row, Integer, q.value);
    RowOfIs(rows, r);
    if c == |row| || Compare(Integer, q.value, row[c].value) != 0 {
      var e := Entry(q.name, q.kind, q.value, true, ss);
      var rows' := Insert(rows, r, c, e);
      MisplacedRow(row, c, e);
      assert rows'[r] == row[..c] + [e] + row[c..];
    }
  }

  lemma MisplacedRow(row: Row, c: nat, e: Entry)
    requires GoodRow(row) && row[0].kind == e.kind == Integer
    requires e.value.IntVal? && c == FindValue(row, Integer, e.value)
    requires !StopsRight(row, e.value) && (c < |row| ==> Compare(Integer, e.value, row[c].value) != 0)
    ensures !GoodRow(row[..c] + [e] + row[c..])
  {
    var row' := row[..c] + [e] + row[c..];
    assert row'[c] == e && row'[0].kind == Integer;
    if d :| 0 <= d < c && row[d].value.n >= e.value.n {
      assert row'[d] == row[d];
    } else {
      assert row'[c + 1] == row[c];
    }
  }

  /** ALLOCATE_THIS_INDEX does what it is for exactly when the search is fair, or refuses for the wrong reason a value
      that is held. */
  lemma RegisterThisExactly(rows: seq<Row>, q: Request, ss: Session, rollover: Value)
    requires WellFormed(rows) && q.kind == Integer && InRange(q.value) && IntegerRow(RowOf(rows, q.name))
    ensures var (v, rows') := Register(rows, q, This, ss, rollover);
      RightlyRegistered(rows, q, v, rows') <==> FairSearch(rows, q) || RefusedAnyway(rows, q)
  {
    var r := FindRow(rows, q.name);
    if FairSearch(rows, q) {
      RegisterThis(rows, q, ss, rollover);
      RegisterKeeps(rows, q, This, ss, rollover);
    } else if !RefusedAnyway(rows, q) {
      FairExactly(rows[r], q.value);
      UnfairlyRegistered(rows, r, q, ss);
    }
  }

  /** A search can be unfair: after the greatest int, -2 goes behind it, because the difference does not fit an int. */
  lemma FarValueMisplaced(name: Oid, ss: Session, rollover: Value)
    ensures var first := Entry(name, Integer, IntVal(INT_MAX), true, ss);
      var (v, rows') := Register([[first]], Request(name, Integer, IntVal(-2)), This, ss, rollover);
      && WellFormed([[first]]) && v == Some(IntVal(-2)) && !WellFormed(rows')
      && rows' == [[first, Entry(name, Integer, IntVal(-2), true, ss)]]
  {
    var first, last := Entry(name, Integer, IntVal(INT_MAX), true, ss), Entry(name, Integer, IntVal(-2), true, ss);
    var rows, row := [[first]], [first, last];
    assert RowName(rows[0]) == name && GoodRow(rows[0]) && WellFormed(rows);
    RowFound(rows, name);
    assert Compare(Integer, IntVal(-2), first.value) == INT_MAX;
    FirstIs([first], (e: Entry) => Compare(Integer, IntVal(-2), e.value) <= 0, 1);
    assert Insert(rows, 0, 1, last) == [row] by {
      assert [first][..1] + [last] + [first][1..] == row;
    }
    assert row[0].value.n > row[1].value.n && row[0].kind == Integer && !GoodRow(row);
    assert [row][0] == row;
  }

  /** n is above every known value of the name, and no more than one above. */
  ghost predicate JustAbove(rows: seq<Row>, name: Oid, n: int) {
    && (forall m :: SlotAt(rows, name, m).Some? ==> m < n)
    && (SlotAt(rows, name, n - 1).Some? || (n == 1 && forall m :: SlotAt(rows, name, m).None?))
  }

  lemma LastIsGreatest(row: Row)
    requires GoodRow(row) && row[0].kind == Integer
    ensures SlotIn(row, row[|row| - 1].value.n).Some?
    ensures forall m :: SlotIn(row, m).Some? ==> m <= row[|row| - 1].value.n
  {
    SlotInIs(row, |row| - 1);
    forall m | SlotIn(row, m).Some? ensures m <= row[|row| - 1].value.n {
      var c := SlotInSome(row, m);
    }
  }

  lemma NextIsJustAbove(rows: seq<Row>, name: Oid, rollover: Value)
    requires WellFormed(rows) && IntegerRow(RowOf(rows, name))
    ensures var v := NextValue(Integer, RowOf(rows, name), rollover);
      v.Some? && v.value.IntVal? && JustAbove(rows, name, v.value.n)
  {
    RowOfGood(rows, name);
    if RowOf(rows, name) != [] {
      LastIsGreatest(RowOf(rows, name));
    }
  }

  lemma RegisterAtEnd(rows: seq<Row>, q: Request, mode: Mode, ss: Session, rollover: Value)
    requires WellFormed(rows) && q.kind == Integer && IntegerRow(RowOf(rows, q.name))
    requires HasRoom(rows, q, rollover) && mode != This
    requires mode == Any ==> FindFree(RowOf(rows, q.name)) == |RowOf(rows, q.name)|
    ensures var (v, rows') := Register(rows, q, mode, ss, rollover);
      && v.Some? && v.value.IntVal? && JustAbove(rows, q.name, v.value.n)
      && OneSlotChanged(rows, rows', q.name, v.value.n, Some(Slot(true, ss)))
  {
    RowOfGood(rows, q.name);
    NextIsJustAbove(rows, q.name, rollover);
    var row := RowOf(rows, q.name);
    var v := NextValue(Integer, row, rollover).value;
    var e := Entry(q.name, q.kind, v, true, ss);
    var r := FindRow(rows, q.name);
    if row == [] {
      NewRowChanges(rows, e);
    } else {
      InsertChanges(rows, r, |row|, e);
    }
  }

  /** ALLOCATE_NEW_INDEX goes just above every value ever remembered. */
  lemma RegisterNew(rows: seq<Row>, q: Request, ss: Session, rollover: Value)
    requires WellFormed(rows) && q.kind == Integer && IntegerRow(RowOf(rows, q.name)) && HasRoom(rows, q, rollover)
    ensures var (v, rows') := Register(rows, q, New, ss, rollover);
      && v.Some? && v.value.IntVal? && JustAbove(rows, q.name, v.value.n)
      && OneSlotChanged(rows, rows', q.name, v.value.n, Some(Slot(true, ss)))
  {
    RegisterAtEnd(rows, q, New, ss, rollover);
  }

  /** A free value of a row is no smaller than the first one that the search finds. */
  lemma FirstFree(row: Row, m: int)
    requires row != [] ==> GoodRow(row) && row[0].kind == Integer
    requires IsFree(SlotIn(row, m))
    ensures FindFree(row) < |row| && row[FindFree(row)].value.n <= m
  {
    var d := SlotInSome(row, m);
  }

  /** Any value: a row with a free value. */
  lemma RegisterFree(rows: seq<Row>, q: Request, ss: Session, rollover: Value)
    requires WellFormed(rows) && q.kind == Integer && IntegerRow(RowOf(rows, q.name))
    requires FindFree(RowOf(rows, q.name)) < |RowOf(rows, q.name)|
    ensures var (v, rows') := Register(rows, q, Any, ss, rollover);
      var row := RowOf(rows, q.name);
      && v == Some(row[FindFree(row)].value) && v.value.IntVal?
      && OneSlotChanged(rows, rows', q.name, v.value.n, Some(Slot(true, ss)))
      && IsFree(SlotAt(rows, q.name, v.value.n))
  {
    RowOfGood(rows, q.name);
    var row := RowOf(rows, q.name);
    var r, c := FindRow(rows, q.name), FindFree(row);
    SlotInIs(row, c);
    UpdateChanges(rows, r, c, Claimed(row[c], ss));
  }

  /** ALLOCATE_ANY_INDEX takes the smallest released value, or goes just above all when there is none. */
  lemma RegisterAny(rows: seq<Row>, q: Request, ss: Session, rollover: Value)
    requires WellFormed(rows) && q.kind == Integer && IntegerRow(RowOf(rows, q.name))
    requires Acceptable(rows, q, Any, rollover)
    ensures var (v, rows') := Register(rows, q, Any, ss, rollover);
      && v.Some? && v.value.IntVal?
      && OneSlotChanged(rows, rows', q.name, v.value.n, Some(Slot(true, ss)))
      && (if exists m :: IsFree(SlotAt(rows, q.name, m)) then
            IsFree(SlotAt(rows, q.name, v.value.n)) && forall m :: IsFree(SlotAt(rows, q.name, m)) ==> v.value.n <= m
          else JustAbove(rows, q.name, v.value.n))
  {
    RowOfGood(rows, q.name);
    var row := RowOf(rows, q.name);
    forall m | IsFree(SlotAt(rows, q.name, m)) ensures FindFree(row) < |row| && row[FindFree(row)].value.n <= m {
      FirstFree(row, m);
    }
    if FindFree(row) < |row| {
      RegisterFree(rows, q, ss, rollover);
    } else {
      RegisterAtEnd(rows, q, Any, ss, rollover);
    }
  }

  // ---------------------------------------------------------------- unregistering

  /** No smaller known value comes later in the order of bytes, so the search by bytes does not stop
      before it reaches n. */
  ghost predicate Reachable(rows: seq<Row>, name: Oid, n: int) {
    forall m :: SlotAt(rows, name, m).Some? && m < n ==> CompareRaw(IntVal(n), IntVal(m)) > 0
  }

  /** unregister_index finds a value that the session holds exactly when the search by bytes reaches it. */
  lemma UnregisterFinds(rows: seq<Row>, q: Request, remember: bool, ss: Session)
    requires WellFormed(rows) && q.kind == Integer && InRange(q.value) && IntegerRow(RowOf(rows, q.name))
    ensures var (err, rows') := Unregister(rows, q, remember, ss);
      var slot := SlotAt(rows, q.name, q.value.n);
      && (err == NoError <==> slot == Some(Slot(true, ss)) && Reachable(rows, q.name, q.value.n))
      && (err == WrongSession <==> IsHeld(slot) && slot.value.session != ss && Reachable(rows, q.name, q.value.n))
      && err != WrongType
      && (err == NoError ==>
            OneSlotChanged(rows, rows', q.name, q.value.n, if remember then Some(Slot(false, 0)) else None))
      && (err != NoError ==> rows' == rows)
  {
    RowOfGood(rows, q.name);
    var row := RowOf(rows, q.name);
    var r, c := FindRow(rows, q.name), FindRaw(row, q.value);
    if row != [] {
      SearchByBytes(rows, q.name, q.value.n);
      if c < |row| && row[c].value == q.value {
        if remember {
          UpdateChanges(rows, r, c, Released(row[c]));
        } else {
          RemoveChanges(rows, r, c);
        }
      }
    }
  }

  lemma SearchByBytes(rows: seq<Row>, name: Oid, n: int)
    requires WellFormed(rows) && InRange(IntVal(n)) && RowOf(rows, name) != [] && IntegerRow(RowOf(rows, name))
    ensures var row := RowOf(rows, name);
      var c := FindRaw(row, IntVal(n));
      && (c < |row| ==> (CompareRaw(IntVal(n), row[c].value) == 0 <==> row[c].value == IntVal(n)))
      && (c < |row| && row[c].value == IntVal(n) <==> SlotIn(row, n).Some? && Reachable(rows, name, n))
      && (c < |row| && row[c].value == IntVal(n) ==> SlotIn(row, n) == Some(SlotOf(row[c])))
  {
    RowOfGood(rows, name);
    var row := RowOf(rows, name);
    var c := FindRaw(row, IntVal(n));
    if c < |row| {
      RawEqual(IntVal(n), row[c].value);
      if row[c].value == IntVal(n) {
        SlotInIs(row, c);
        FoundIsReachable(rows, name, n);
      }
    }
    if SlotIn(row, n).Some? && Reachable(rows, name, n) {
      ReachableIsFound(rows, name, n);
    }
  }

  lemma FoundIsReachable(rows: seq<Row>, name: Oid, n: int)
    requires WellFormed(rows) && RowOf(rows, name) != [] && IntegerRow(RowOf(rows, name))
    requires var row, c := RowOf(rows, name), FindRaw(RowOf(rows, name), IntVal(n));
      c < |row| && row[c].value == IntVal(n)
    ensures Reachable(rows, name, n)
  {
    RowOfGood(rows, name);
    var row := RowOf(rows, name);
    forall m | SlotIn(row, m).Some? && m < n ensures CompareRaw(IntVal(n), IntVal(m)) > 0 {
      var d := SlotInSome(row, m);
    }
  }

  lemma ReachableIsFound(rows: seq<Row>, name: Oid, n: int)
    requires WellFormed(rows) && InRange(IntVal(n)) && RowOf(rows, name) != [] && IntegerRow(RowOf(rows, name))
    requires SlotIn(RowOf(rows, name), n).Some? && Reachable(rows, name, n)
    ensures var row, c := RowOf(rows, name), FindRaw(RowOf(rows, name), IntVal(n));
      c < |row| && row[c].value == IntVal(n)
  {
    RowOfGood(rows, name);
    var row := RowOf(rows, name);
    var d := SlotInSome(row, n);
    RawEqual(IntVal(n), row[d].value);
    forall j | 0 <= j < d ensures CompareRaw(IntVal(n), row[j].value) > 0 {
      SlotInIs(row, j);
      assert row[j].value == IntVal(row[j].value.n);
    }
    FirstIs(row, (e: Entry) => CompareRaw(IntVal(n), e.value) <= 0, d);
  }

  lemma LowByteDecides(n: nat, m: nat)
    requires n % 256 != m % 256
    ensures CompareRaw(IntVal(n), IntVal(m)) == if n % 256 < m % 256 then -1 else 1
  {
    var x, y := LongBytes(n, 8), LongBytes(m, 8);
    assert x[0] == n % 256 && y[0] == m % 256;
  }

  lemma SmallOrder(n: nat, m: nat)
    requires m < n < 256
    ensures CompareRaw(IntVal(n), IntVal(m)) > 0
  {
    LowByteDecides(n, m);
  }

  /** Below 256 the two orders agree. */
  lemma SmallValuesReachable(rows: seq<Row>, name: Oid, n: int)
    requires 0 <= n < 256 && forall m :: SlotAt(rows, name, m).Some? ==> 0 <= m
    ensures Reachable(rows, name, n)
  {
    forall m | SlotAt(rows, name, m).Some? && m < n ensures CompareRaw(IntVal(n), IntVal(m)) > 0 {
      SmallOrder(n, m);
    }
  }

  /** In general they do not: 256 is held, and cannot be unregistered because 1 is known. */
  lemma HeldButNotFound(name: Oid, ss: Session)
    ensures var rows := [[Entry(name, Integer, IntVal(1), true, ss), Entry(name, Integer, IntVal(256), true, ss)]];
      && WellFormed(rows) && SlotAt(rows, name, 256) == Some(Slot(true, ss))
      && Unregister(rows, Request(name, Integer, IntVal(256)), false, ss) == (NotAllocated, rows)
  {
    var row := [Entry(name, Integer, IntVal(1), true, ss), Entry(name, Integer, IntVal(256), true, ss)];
    var rows := [row];
    assert GoodRow(row);
    RowOfIs(rows, 0);
    SlotInIs(row, 0);
    SlotInIs(row, 1);
    UnregisterFinds(rows, Request(name, Integer, IntVal(256)), false, ss);
    LowByteDecides(256, 1);
    assert !Reachable(rows, name, 256);
  }

  // ---------------------------------------------------------------- session drop and count

  lemma DropRow(row: Row, ss: Session, m: int)
    requires GoodRow(row) && row[0].kind == Integer
    ensures SlotIn(DropInRow(row, ss), m) ==
      if SlotIn(row, m).Some? && SlotIn(row, m).value.session == ss then Some(Slot(false, 0)) else SlotIn(row, m)
  {
    var row' := DropInRow(row, ss);
    assert GoodRow(row');
    if SlotIn(row, m).Some? {
      var c := SlotInSome(row, m);
      SlotInIs(row', c);
    } else if SlotIn(row', m).Some? {
      var c := SlotInSome(row', m);
      SlotInIs(row, c);
    }
  }

  /** unregister_index_by_session releases what the session holds, and nothing else. */
  lemma DropReleases(rows: seq<Row>, ss: Session, name: Oid, m: int)
    requires WellFormed(rows) && IntegerRow(RowOf(rows, name))
    ensures SlotAt(DropSession(rows, ss), name, m) ==
      if SlotAt(rows, name, m).Some? && SlotAt(rows, name, m).value.session == ss then Some(Slot(false, 0))
      else SlotAt(rows, name, m)
  {
    var rows' := DropSession(rows, ss);
    DropKeeps(rows, ss);
    forall r | 0 <= r < |rows| ensures RowName(rows'[r]) == RowName(rows[r]) {
      assert GoodRow(rows[r]);
    }
    var r := FindRow(rows, name);
    if RowOf(rows, name) != [] {
      RowOfIs(rows', r);
      DropRow(rows[r], ss, m);
    } else if r' :| 0 <= r' < |rows'| && RowName(rows'[r']) == name {
      RowOfIs(rows, r');
      assert false;
    }
  }

  /** The values of a row that are held, or all of them. */
  function Known(row: Row, all: bool): set<int> {
    set e | e in row && e.value.IntVal? && (e.held || all) :: e.value.n
  }

  predicate ValueLess(e: Entry, f: Entry) { e.value.IntVal? && f.value.IntVal? && e.value.n < f.value.n }

  lemma KnownLast(row: Row, all: bool)
    requires row != [] && SortedBy(row, ValueLess) && row[|row| - 1].value.IntVal?
    ensures var most, e := row[..|row| - 1], row[|row| - 1];
      var more := if e.held || all then {e.value.n} else {};
      Known(row, all) == Known(most, all) + more && Known(most, all) !! more
  {
    var most, e := row[..|row| - 1], row[|row| - 1];
    assert row == most + [e];
    forall x | x in most ensures ValueLess(x, e) {
      var i :| 0 <= i < |most| && most[i] == x;
      assert ValueLess(row[i], row[|row| - 1]);
    }
  }

  lemma {:induction false} CountRowKnown(row: Row, all: bool)
    requires SortedBy(row, ValueLess) && (|row| == 1 ==> row[0].value.IntVal?)
    ensures CountRow(row, all) == |Known(row, all)|
  {
    if row != [] {
      var most := row[..|row| - 1];
      if |row| > 1 { assert ValueLess(row[0], row[|row| - 1]); }
      CountRowKnown(most, all);
      KnownLast(row, all);
    }
  }

  lemma {:induction false} CountsNothing(rows: seq<Row>, name: Oid, all: bool)
    requires forall r :: 0 <= r < |rows| ==> RowName(rows[r]) != name
    ensures Count(rows, name, all) == 0
  {
    if rows != [] {
      CountsNothing(rows[..|rows| - 1], name, all);
    }
  }

  lemma {:induction false} CountIsRow(rows: seq<Row>, name: Oid, all: bool, r: nat)
    requires SortedBy(rows, RowLess) && r < |rows| && RowName(rows[r]) == name
    ensures Count(rows, name, all) == CountRow(rows[r], all)
  {
    var most, last := rows[..|rows| - 1], |rows| - 1;
    if r == last {
      forall i | 0 <= i < |most| ensures RowName(most[i]) != name {
        assert RowLess(rows[i], rows[last]);
      }
      CountsNothing(most, name, all);
    } else {
      assert RowLess(rows[r], rows[last]);
      CountIsRow(most, name, all, r);
    }
  }

  lemma KnownIsSlot(row: Row, all: bool, n: int)
    requires GoodRow(row) && row[0].kind == Integer
    ensures n in Known(row, all) <==> SlotIn(row, n).Some? && (SlotIn(row, n).value.held || all)
  {
    if n in Known(row, all) {
      var e :| e in row && e.value.IntVal? && (e.held || all) && e.value.n == n;
      var c :| 0 <= c < |row| && row[c] == e;
      SlotInIs(row, c);
    }
    if SlotIn(row, n).Some? {
      var c := SlotInSome(row, n);
      assert row[c] in row;
    }
  }

  /** count_indexes is the number of values known under the name, or of those held. */
  lemma CountsKnown(rows: seq<Row>, name: Oid, all: bool)
    requires WellFormed(rows) && IntegerRow(RowOf(rows, name))
    ensures Count(rows, name, all) == |Known(RowOf(rows, name), all)|
    ensures forall n ::
      n in Known(RowOf(rows, name), all) <==> SlotAt(rows, name, n).Some? && (SlotAt(rows, name, n).value.held || all)
  {
    RowOfGood(rows, name);
    var row := RowOf(rows, name);
    if row == [] {
      forall r | 0 <= r < |rows| ensures RowName(rows[r]) != name {
        RowOfIs(rows, r);
        assert GoodRow(rows[r]);
      }
      CountsNothing(rows, name, all);
      assert Known(row, all) == {};
    } else {
      CountIsRow(rows, name, all, FindRow(rows, name));
      CountRowKnown(row, all);
      forall n { KnownIsSlot(row, all, n); }
    }
  }
}
