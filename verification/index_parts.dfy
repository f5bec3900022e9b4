/** Unregistering strings and object identifiers: which entry the search by bytes stops at, said part by
    part, without the bytes. */
module IndexParts {
  import opened Basics
  import opened IndexSpec

  /** The parts agree as far as the shorter one goes. */
  predicate Alike(xs: seq<nat>, ys: seq<nat>) { forall i :: 0 <= i < |xs| && i < |ys| ==> xs[i] == ys[i] }

  /** Of the low bytes of two numbers, counted from the least significant one, the first that differs is
      greater in x. */
  predicate Above(x: nat, y: nat, bytes: nat) {
    bytes > 0 && (x % 256 > y % 256 || (x % 256 == y % 256 && Above(x / 256, y / 256, bytes - 1)))
  }

  /** A character is compared as it is, a part of an identifier from its least significant byte on. */
  predicate PartAbove(kind: Kind, x: nat, y: nat) { if kind == ObjectId then Above(x, y, 8) else x > y }

  /** The first part that differs is above. */
  predicate Passes(kind: Kind, xs: seq<nat>, ys: seq<nat>) {
    exists i :: 0 <= i < |xs| && i < |ys| && xs[..i] == ys[..i] && PartAbove(kind, xs[i], ys[i])
  }

  function Parts(v: Value): seq<nat> {
    match v
    case StrVal(bytes) => bytes
    case OidVal(oid) => oid
    case IntVal(_) => []
  }

  // ---------------------------------------------------------------- the comparison of bytes

  lemma {:induction false} NotAboveItself(x: nat, bytes: nat)
    ensures !Above(x, x, bytes)
  {
    if bytes > 0 {
      NotAboveItself(x / 256, bytes - 1);
    }
  }

  lemma {:induction false} BytesAbove(x: nat, y: nat, bytes: nat)
    ensures MemCompare(LongBytes(x, bytes), LongBytes(y, bytes)) > 0 <==> Above(x, y, bytes)
  {
    if bytes > 0 {
      BytesAbove(x / 256, y / 256, bytes - 1);
    }
  }

  lemma PassesRest(kind: Kind, xs: seq<nat>, ys: seq<nat>)
    requires xs != [] && ys != [] && xs[0] == ys[0] && Passes(kind, xs, ys)
    ensures Passes(kind, xs[1..], ys[1..])
  {
    var i :| 0 <= i < |xs| && i < |ys| && xs[..i] == ys[..i] && PartAbove(kind, xs[i], ys[i]);
    NotAboveItself(xs[0], 8);
    assert xs[1..][..i - 1] == xs[..i][1..] && ys[1..][..i - 1] == ys[..i][1..];
    assert PartAbove(kind, xs[1..][i - 1], ys[1..][i - 1]);
  }

  lemma PassesLonger(kind: Kind, xs: seq<nat>, ys: seq<nat>)
    requires xs != [] && ys != [] && xs[0] == ys[0] && Passes(kind, xs[1..], ys[1..])
    ensures Passes(kind, xs, ys)
  {
    var u, v := xs[1..], ys[1..];
    var i :| 0 <= i < |u| && i < |v| && u[..i] == v[..i] && PartAbove(kind, u[i], v[i]);
    assert xs[..i + 1] == [xs[0]] + u[..i] && ys[..i + 1] == [ys[0]] + v[..i];
    assert PartAbove(kind, xs[i + 1], ys[i + 1]);
  }

  /** The first parts decide, unless they are the same. */
  lemma PassesFirst(kind: Kind, xs: seq<nat>, ys: seq<nat>)
    requires xs != [] && ys != []
    ensures Passes(kind, xs, ys) <==>
      if xs[0] == ys[0] then Passes(kind, xs[1..], ys[1..]) else PartAbove(kind, xs[0], ys[0])
    ensures Alike(xs, ys) <==> xs[0] == ys[0] && Alike(xs[1..], ys[1..])
  {
    AlikeFirst(xs, ys);
    if xs[0] == ys[0] {
      if Passes(kind, xs, ys) { PassesRest(kind, xs, ys); }
      if Passes(kind, xs[1..], ys[1..]) { PassesLonger(kind, xs, ys); }
    } else {
      assert xs[..0] == ys[..0];
      assert forall i :: 0 < i && i < |xs| && i < |ys| ==> xs[..i][0] != ys[..i][0];
    }
  }

  lemma AlikeFirst(xs: seq<nat>, ys: seq<nat>)
    requires xs != [] && ys != []
    ensures Alike(xs, ys) <==> xs[0] == ys[0] && Alike(xs[1..], ys[1..])
  {
    if xs[0] == ys[0] && Alike(xs[1..], ys[1..]) {
      forall i | 0 <= i < |xs| && i < |ys| ensures xs[i] == ys[i] {
        assert i > 0 ==> xs[1..][i - 1] == ys[1..][i - 1];
      }
    }
  }

  /** Names are ordered as in a dictionary: by the first part that differs, or else the shorter one first. */
  lemma {:induction false} OidOrder(a: Oid, b: Oid)
    ensures OidCompare(a, b) < 0 <==> a < b || Passes(OctetString, b, a)
  {
    if a != [] && b != [] {
      PassesFirst(OctetString, b, a);
      if a[0] == b[0] {
        OidOrder(a[1..], b[1..]);
        assert a == [a[0]] + a[1..] && b == [b[0]] + b[1..];
      }
    }
  }

  /** memcmp on strings. */
  lemma {:induction false} BytesExactly(xs: seq<nat>, ys: seq<nat>)
    ensures MemCompare(xs, ys) == 0 <==> Alike(xs, ys)
    ensures MemCompare(xs, ys) > 0 <==> Passes(OctetString, xs, ys)
  {
    if xs != [] && ys != [] {
      PassesFirst(OctetString, xs, ys);
      BytesExactly(xs[1..], ys[1..]);
    }
  }

  lemma {:induction false} CompareInFront(x: seq<nat>, y: seq<nat>, u: seq<nat>, v: seq<nat>)
    requires |x| == |y|
    ensures MemCompare(x + u, y + v) == if MemCompare(x, y) != 0 then MemCompare(x, y) else MemCompare(u, v)
  {
    if x == [] {
      assert x + u == u && y + v == v;
    } else {
      assert (x + u)[1..] == x[1..] + u && (y + v)[1..] == y[1..] + v;
      CompareInFront(x[1..], y[1..], u, v);
    }
  }

  /** memcmp on identifiers. */
  lemma {:induction false} OidBytesExactly(a: Oid, b: Oid)
    requires Longs(a) && Longs(b)
    ensures MemCompare(OidBytes(a), OidBytes(b)) == 0 <==> Alike(a, b)
    ensures MemCompare(OidBytes(a), OidBytes(b)) > 0 <==> Passes(ObjectId, a, b)
  {
    if a != [] && b != [] {
      PassesFirst(ObjectId, a, b);
      OidBytesExactly(a[1..], b[1..]);
      CompareInFront(LongBytes(a[0], 8), LongBytes(b[0], 8), OidBytes(a[1..]), OidBytes(b[1..]));
      EightBytes();
      LongBytesEqual(a[0], b[0], 8);
      BytesAbove(a[0], b[0], 8);
    }
  }

  /** The comparison of unregister_index. */
  lemma RawExactly(kind: Kind, v: Value, w: Value)
    requires HasOrder(kind) && Typed(kind, v) && Typed(kind, w)
    ensures CompareRaw(v, w) == 0 <==> Alike(Parts(v), Parts(w))
    ensures CompareRaw(v, w) > 0 <==> Passes(kind, Parts(v), Parts(w))
  {
    if kind == ObjectId {
      OidBytesExactly(v.oid, w.oid);
    } else {
      BytesExactly(v.bytes, w.bytes);
    }
  }

  // ---------------------------------------------------------------- unregistering

  /** The search goes past every entry before c. */
  predicate Reaches(row: Row, v: Value, c: nat)
    requires c <= |row|
  {
    forall d :: 0 <= d < c ==> Passes(row[d].kind, Parts(v), Parts(row[d].value))
  }

  /** What becomes of the entry that is concerned. */
  function Outcome(rows: seq<Row>, r: nat, c: nat, remember: bool, ss: Session): (Error, seq<Row>)
    requires r < |rows| && c < |rows[r]|
  {
    if !rows[r][c].held then (NotAllocated, rows)
    else if rows[r][c].session != ss then (WrongSession, rows)
    else (NoError, if remember then Update(rows, r, c, Released(rows[r][c])) else Remove(rows, r, c))
  }

  /** The search by bytes, by parts. */
  lemma RawSearch(row: Row, v: Value)
    requires GoodRow(row) && HasOrder(row[0].kind) && Typed(row[0].kind, v)
    ensures var c := FindRaw(row, v);
      && Reaches(row, v, c)
      && (c < |row| ==> !Passes(row[0].kind, Parts(v), Parts(row[c].value)))
      && (c < |row| ==> (CompareRaw(v, row[c].value) == 0 <==> Alike(Parts(v), Parts(row[c].value))))
  {
    forall d | 0 <= d < |row|
      ensures CompareRaw(v, row[d].value) > 0 <==> Passes(row[0].kind, Parts(v), Parts(row[d].value))
      ensures CompareRaw(v, row[d].value) == 0 <==> Alike(Parts(v), Parts(row[d].value))
    {
      RawExactly(row[0].kind, v, row[d].value);
    }
  }

  /** Unregistering concerns the first entry that the search does not go past, if that agrees with the value
      as far as the shorter one goes, and nothing else. */
  lemma UnregisterParts(rows: seq<Row>, r: nat, q: Request, remember: bool, ss: Session)
    requires WellFormed(rows) && r < |rows| && q.name == RowName(rows[r]) && q.kind == rows[r][0].kind
    requires HasOrder(q.kind) && Typed(q.kind, q.value)
    ensures var (row, result) := (rows[r], Unregister(rows, q, remember, ss));
      && (forall c :: 0 <= c < |row| && Reaches(row, q.value, c)
                      && !Passes(q.kind, Parts(q.value), Parts(row[c].value)) ==>
            result == if Alike(Parts(q.value), Parts(row[c].value)) then Outcome(rows, r, c, remember, ss)
                      else (NotAllocated, rows))
      && (Reaches(row, q.value, |row|) ==> result == (NotAllocated, rows))
  {
    var row := rows[r];
    var f := FindRaw(row, q.value);
    RowFound(rows, q.name);
    RawSearch(row, q.value);
    forall c | 0 <= c < |row| && Reaches(row, q.value, c) && !Passes(q.kind, Parts(q.value), Parts(row[c].value))
      ensures c == f
    {
    }
  }

  /** The entry concerned, whenever there is one, agrees with the value as far as the shorter one goes. */
  lemma ConcernedAgrees(rows: seq<Row>, r: nat, q: Request, remember: bool, ss: Session) returns (c: nat)
    requires WellFormed(rows) && r < |rows| && q.name == RowName(rows[r]) && q.kind == rows[r][0].kind
    requires HasOrder(q.kind) && Typed(q.kind, q.value)
    requires Unregister(rows, q, remember, ss).0 != NotAllocated
    ensures c < |rows[r]| && rows[r][c].held && Alike(Parts(q.value), Parts(rows[r][c].value))
    ensures Unregister(rows, q, remember, ss) == Outcome(rows, r, c, remember, ss)
  {
    c := FindRaw(rows[r], q.value);
    RowFound(rows, q.name);
    RawSearch(rows[r], q.value);
  }

  lemma AlikeItself(kind: Kind, xs: seq<nat>)
    ensures Alike(xs, xs) && !Passes(kind, xs, xs)
  {
    forall i | 0 <= i < |xs| ensures !PartAbove(kind, xs[i], xs[i]) {
      NotAboveItself(xs[i], 8);
    }
  }

  /** A value that the session holds is released exactly when the search reaches it; c is its first entry. */
  lemma PartsFound(rows: seq<Row>, r: nat, c: nat, q: Request, remember: bool, ss: Session)
    requires WellFormed(rows) && r < |rows| && c < |rows[r]| && HasOrder(q.kind)
    requires q == Request(RowName(rows[r]), rows[r][0].kind, rows[r][c].value)
    requires rows[r][c].held && rows[r][c].session == ss
    requires forall d :: 0 <= d < c ==> rows[r][d].value != q.value
    ensures Unregister(rows, q, remember, ss) == Outcome(rows, r, c, remember, ss) <==> Reaches(rows[r], q.value, c)
  {
    UnregisterParts(rows, r, q, remember, ss);
    AlikeItself(q.kind, Parts(q.value));
    if !Reaches(rows[r], q.value, c) {
      StopsShort(rows, r, c, q, remember, ss);
    }
  }

  /** A search that stops before c does not do what is meant for c. */
  lemma StopsShort(rows: seq<Row>, r: nat, c: nat, q: Request, remember: bool, ss: Session)
    requires WellFormed(rows) && r < |rows| && c < |rows[r]| && HasOrder(q.kind)
    requires q == Request(RowName(rows[r]), rows[r][0].kind, rows[r][c].value)
    requires rows[r][c].held && rows[r][c].session == ss && !Reaches(rows[r], q.value, c)
    requires forall d :: 0 <= d < c ==> rows[r][d].value != q.value
    ensures Unregister(rows, q, remember, ss) != Outcome(rows, r, c, remember, ss)
  {
    RowFound(rows, q.name);
    RawSearch(rows[r], q.value);
    var f := FindRaw(rows[r], q.value);
    OutcomesDiffer(rows, r, f, c, remember, ss);
  }

  lemma OutcomesDiffer(rows: seq<Row>, r: nat, f: nat, c: nat, remember: bool, ss: Session)
    requires r < |rows| && f < c < |rows[r]| && rows[r][c].held && rows[r][c].session == ss
    requires rows[r][c - 1].value != rows[r][c].value
    ensures Outcome(rows, r, f, remember, ss) != Outcome(rows, r, c, remember, ss)
  {
    var row := rows[r];
    if remember {
      assert Update(rows, r, c, Released(row[c]))[r][c] == Released(row[c]);
      assert Update(rows, r, f, Released(row[f]))[r][c] == row[c];
    } else {
      assert Remove(rows, r, c)[r][c - 1] == row[c - 1];
      assert Remove(rows, r, f)[r][c - 1] == row[c];
    }
  }

  // ---------------------------------------------------------------- registering

  /** The values are the same for register_index: identifiers when they are equal, strings when they agree as far
      as the shorter one goes. */
  predicate Clash(kind: Kind, v: Value, w: Value) {
    if kind == ObjectId then v == w else Alike(Parts(v), Parts(w))
  }

  lemma ClashExactly(kind: Kind, v: Value, w: Value)
    requires HasOrder(kind) && Typed(kind, v) && Typed(kind, w)
    ensures Compare(kind, v, w) == 0 <==> Clash(kind, v, w)
  {
    if kind == OctetString { BytesExactly(v.bytes, w.bytes); }
  }

  predicate FirstClash(row: Row, v: Value, c: nat) {
    && c < |row| && Clash(row[c].kind, v, row[c].value)
    && forall d :: 0 <= d < c ==> !Clash(row[d].kind, v, row[d].value)
  }

  lemma SearchStops(row: Row, v: Value, c: nat)
    requires GoodRow(row) && SortedRow(row) && HasOrder(row[0].kind) && Typed(row[0].kind, v) && c < |row|
    ensures FirstClash(row, v, c) <==>
      c == FindValue(row, row[0].kind, v) && Compare(row[0].kind, v, row[c].value) == 0
  {
    var kind, f := row[0].kind, FindValue(row, row[0].kind, v);
    forall d | 0 <= d < |row| ensures Compare(kind, v, row[d].value) == 0 <==> Clash(kind, v, row[d].value) {
      ClashExactly(kind, v, row[d].value);
    }
    if f < c && Compare(kind, v, row[f].value) < 0 {
      assert ValueLess(row[f], row[c]);
      CompareTransitive(kind, v, row[f].value, row[c].value);
    }
  }

  /** Asking for a string or an identifier in a sorted row: if there is the same value already, that one is
      claimed, or nothing happens when it is held; otherwise the value is entered, held by the session.  No other
      entry changes. */
  lemma RegisterParts(rows: seq<Row>, r: nat, q: Request, ss: Session, rollover: Value)
    requires WellFormed(rows) && r < |rows| && q.name == RowName(rows[r]) && q.kind == rows[r][0].kind
    requires HasOrder(q.kind) && Typed(q.kind, q.value) && SortedRow(rows[r])
    ensures var (row, result) := (rows[r], Register(rows, q, This, ss, rollover));
      && (forall c :: 0 <= c < |row| && FirstClash(row, q.value, c) ==>
            result == if row[c].held then (None, rows)
                      else (Some(row[c].value), Update(rows, r, c, row[c].(held := true, session := ss))))
      && ((forall c :: 0 <= c < |row| ==> !Clash(q.kind, q.value, row[c].value)) ==>
            exists c :: 0 <= c <= |row| && result
              == (Some(q.value), Insert(rows, r, c, Entry(q.name, q.kind, q.value, true, ss))))
  {
    var row, f := rows[r], FindValue(rows[r], q.kind, q.value);
    RowFound(rows, q.name);
    forall c | 0 <= c < |row| ensures FirstClash(row, q.value, c) <==>
      c == f && Compare(q.kind, q.value, row[c].value) == 0
    {
      SearchStops(row, q.value, c);
    }
    if f < |row| {
      ClashExactly(q.kind, q.value, row[f].value);
    }
  }

  /** Asking for any value of a row: the first released one is claimed.  Without one, or when a new one is asked for,
      the value that was made up goes to the end of a row of strings or identifiers, and nothing happens in a row of
      another kind.  No other entry changes. */
  lemma RegisterMadeUp(rows: seq<Row>, r: nat, q: Request, mode: Mode, ss: Session, rollover: Value)
    requires WellFormed(rows) && r < |rows| && q.name == RowName(rows[r]) && q.kind == rows[r][0].kind
    requires q.kind != Integer && mode != This
    ensures var (row, result) := (rows[r], Register(rows, q, mode, ss, rollover));
      && (forall c :: 0 <= c < |row| && mode == Any && !row[c].held && (forall d :: 0 <= d < c ==> row[d].held) ==>
            result == (Some(row[c].value), Update(rows, r, c, row[c].(held := true, session := ss))))
      && (mode == New || (forall c :: 0 <= c < |row| ==> row[c].held) ==>
            result == if HasOrder(q.kind)
                      then (Some(rollover), rows[r := row + [Entry(q.name, q.kind, rollover, true, ss)]])
                      else (None, rows))
  {
    RowFound(rows, q.name);
    var row, e := rows[r], Entry(q.name, q.kind, rollover, true, ss);
    assert row[..|row|] + [e] + row[|row|..] == row + [e];
    forall c | 0 <= c < |rows[r]| && !rows[r][c].held && forall d :: 0 <= d < c ==> rows[r][d].held
      ensures FindFree(rows[r]) == c
    {
    }
  }

  /** A value of another kind is registered only when it is asked for under a new name. */
  lemma OtherKinds(rows: seq<Row>, q: Request, mode: Mode, ss: Session, rollover: Value)
    requires WellFormed(rows) && q.kind == Other
    ensures var known := exists r :: 0 <= r < |rows| && RowName(rows[r]) == q.name;
      var result := Register(rows, q, mode, ss, rollover);
      && (known && mode == This ==> result == (None, rows))
      && (!known && mode != This ==> result == (None, rows))
      && (!known && mode == This ==> result.0 == Some(q.value))
  {
    RowFound(rows, q.name);
  }

  // ---------------------------------------------------------------- sorted rows

  predicate Bytewise(oid: Oid) { forall i :: 0 <= i < |oid| ==> oid[i] < 256 }

  lemma SmallAbove(x: nat, y: nat)
    requires x < 256 && y < 256
    ensures Above(x, y, 8) <==> x > y
  {
    NotAboveItself(0, 7);
  }

  /** Of two identifiers with small parts, the search goes past the lesser one unless it begins the greater one. */
  lemma {:induction false} SmallPasses(a: Oid, b: Oid)
    requires Bytewise(a) && Bytewise(b) && OidCompare(b, a) < 0
    ensures Passes(ObjectId, a, b) <==> !Alike(a, b)
  {
    if b != [] {
      PassesFirst(ObjectId, a, b);
      SmallAbove(a[0], b[0]);
      if a[0] == b[0] {
        SmallPasses(a[1..], b[1..]);
      }
    }
  }

  /** In a sorted row of identifiers with small parts, a held identifier is found exactly when no known one
      begins it. */
  lemma SmallIdentifiersFound(rows: seq<Row>, r: nat, c: nat, q: Request, remember: bool, ss: Session)
    requires WellFormed(rows) && r < |rows| && c < |rows[r]| && SortedRow(rows[r])
    requires q == Request(RowName(rows[r]), ObjectId, rows[r][c].value) && rows[r][0].kind == ObjectId
    requires rows[r][c].held && rows[r][c].session == ss
    requires forall d :: 0 <= d < |rows[r]| ==> Bytewise(rows[r][d].value.oid)
    ensures Unregister(rows, q, remember, ss) == Outcome(rows, r, c, remember, ss) <==>
      forall d :: 0 <= d < c ==> !(rows[r][d].value.oid <= q.value.oid)
  {
    var row := rows[r];
    forall d | 0 <= d < c
      ensures row[d].value != q.value
      ensures Passes(ObjectId, q.value.oid, row[d].value.oid) <==> !(row[d].value.oid <= q.value.oid)
    {
      assert ValueLess(row[d], row[c]);
      SmallPasses(q.value.oid, row[d].value.oid);
      LessAlike(row[d].value.oid, q.value.oid);
    }
    PartsFound(rows, r, c, q, remember, ss);
  }

  lemma {:induction false} LessAlike(b: Oid, a: Oid)
    requires OidCompare(b, a) < 0
    ensures Alike(a, b) <==> b <= a
  {
    if b != [] {
      AlikeFirst(a, b);
      if a[0] == b[0] {
        LessAlike(b[1..], a[1..]);
        assert b == [b[0]] + b[1..] && a == [a[0]] + a[1..];
      }
    }
  }

  lemma PrefixNotPassed(a: Oid, b: Oid)
    requires a <= b
    ensures Alike(b, a) && !Passes(ObjectId, b, a)
  {
    forall i | 0 <= i < |a| ensures !Above(b[i], a[i], 8) {
      NotAboveItself(b[i], 8);
    }
  }

  /** Of two identifiers that are held, the one begins the other: unregistering the longer one releases the
      shorter one, though the list is well formed and sorted. */
  lemma PrefixReleased(rows: seq<Row>, name: Oid, a: Oid, b: Oid, ss: Session)
    requires a < b && Longs(b)
    requires rows == [[Entry(name, ObjectId, OidVal(a), true, ss), Entry(name, ObjectId, OidVal(b), true, ss)]]
    ensures WellFormed(rows) && SortedRow(rows[0])
    ensures Unregister(rows, Request(name, ObjectId, OidVal(b)), true, ss)
         == (NoError, [[Released(rows[0][0]), rows[0][1]]])
  {
    OidOrder(a, b);
    PrefixNotPassed(a, b);
    assert ValueLess(rows[0][0], rows[0][1]);
    assert GoodRow(rows[0]) by { assert forall i :: 0 <= i < |a| ==> a[i] == b[i]; }
    UnregisterParts(rows, 0, Request(name, ObjectId, OidVal(b)), true, ss);
    assert Reaches(rows[0], OidVal(b), 0);
    var row' := rows[0][0 := Released(rows[0][0])];
    assert row' == [Released(rows[0][0]), rows[0][1]] && rows[0 := row'] == [row'];
  }
}
