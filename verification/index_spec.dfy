/** Index allocation on values: what each operation makes of the two-level list, written as rows of
    entries, and what that means for the map from (OID, integer) to owner. */
module IndexSpec {
  import opened Basics

  type Oid = seq<nat>

  datatype Kind = Integer | OctetString | ObjectId | Other

  datatype Value = IntVal(n: int) | StrVal(bytes: seq<nat>) | OidVal(oid: Oid)

  /** A session; 0 is the null session. */
  type Session = nat

  datatype Entry = Entry(name: Oid, kind: Kind, value: Value, held: bool, session: Session)

  type Row = seq<Entry>

  datatype Request = Request(name: Oid, kind: Kind, value: Value)

  datatype Mode = This | Any | New

  datatype Error = NoError | WrongType | NotAllocated | WrongSession

  // ---------------------------------------------------------------- comparisons

  /** snmp_oid_compare. */
  function OidCompare(a: Oid, b: Oid): (r: int)
    ensures -1 <= r <= 1
    ensures r == 0 <==> a == b
  {
    if a == [] && b == [] then 0
    else if a == [] then -1
    else if b == [] then 1
    else if a[0] < b[0] then -1
    else if a[0] > b[0] then 1
    else
      assert a == b <==> a[1..] == b[1..] by { assert a == [a[0]] + a[1..] && b == [b[0]] + b[1..]; }
      OidCompare(a[1..], b[1..])
  }

  lemma {:induction false} OidCompareFlip(a: Oid, b: Oid)
    ensures OidCompare(a, b) == -OidCompare(b, a)
  {
    if a != [] && b != [] && a[0] == b[0] {
      OidCompareFlip(a[1..], b[1..]);
    }
  }

  lemma {:induction false} OidCompareTransitive(a: Oid, b: Oid, c: Oid)
    requires OidCompare(a, b) < 0 && OidCompare(b, c) < 0
    ensures OidCompare(a, c) < 0
  {
    if a != [] && b != [] && c != [] && a[0] == b[0] == c[0] {
      OidCompareTransitive(a[1..], b[1..], c[1..]);
    }
  }

  /** memcmp over the shorter length: the sign of the first difference. */
  function MemCompare(x: seq<nat>, y: seq<nat>): (r: int)
    ensures -1 <= r <= 1
  {
    if x == [] || y == [] then 0
    else if x[0] < y[0] then -1
    else if x[0] > y[0] then 1
    else MemCompare(x[1..], y[1..])
  }

  /** The difference of two longs, stored in a 32-bit int. */
  function ToInt32(x: int): int { (x + 0x8000_0000) % 0x1_0000_0000 - 0x8000_0000 }

  const LONG_MAX := 0x7fff_ffff_ffff_ffff
  const ULONG_MAX := 0xffff_ffff_ffff_ffff

  /** Integers are longs of 64 bits. */
  predicate InRange(v: Value) { v.IntVal? && -LONG_MAX - 1 <= v.n <= LONG_MAX }

  /** The parts of an identifier are unsigned longs. */
  predicate Longs(oid: Oid) { forall i :: 0 <= i < |oid| ==> oid[i] <= ULONG_MAX }

  predicate Typed(kind: Kind, v: Value) {
    match kind
    case Integer => InRange(v)
    case OctetString => v.StrVal?
    case ObjectId => v.OidVal? && Longs(v.oid)
    case Other => true
  }

  /** The comparison that register_index uses. */
  function Compare(kind: Kind, v: Value, w: Value): int {
    match kind
    case Integer => if v.IntVal? && w.IntVal? then ToInt32(v.n - w.n) else 0
    case OctetString => if v.StrVal? && w.StrVal? then MemCompare(v.bytes, w.bytes) else 0
    case ObjectId => if v.OidVal? && w.OidVal? then OidCompare(v.oid, w.oid) else 0
    case Other => 0
  }

  /** The comparison of two integers has the sign of their difference. */
  predicate Honest(v: Value, w: Value)
    requires v.IntVal? && w.IntVal?
  {
    (Compare(Integer, v, w) < 0 <==> v.n < w.n) && (Compare(Integer, v, w) == 0 <==> v.n == w.n)
  }

  /** It has when the difference fits the int that holds it. */
  lemma CompareInts(v: Value, w: Value)
    requires v.IntVal? && w.IntVal? && -INT_MAX - 1 <= v.n - w.n <= INT_MAX
    ensures Compare(Integer, v, w) == v.n - w.n && Honest(v, w)
  {
  }

  /** The eight bytes of a long, least significant first. */
  function LongBytes(x: nat, count: nat): (bs: seq<nat>)
    ensures |bs| == count
  {
    if count == 0 then [] else [x % 256] + LongBytes(x / 256, count - 1)
  }

  function OidBytes(oid: Oid): seq<nat> {
    if oid == [] then [] else LongBytes(oid[0], 8) + OidBytes(oid[1..])
  }

  /** A long as the unsigned number with the same bits. */
  function Unsigned(n: int): nat { if n >= 0 then n else n % 0x1_0000_0000_0000_0000 }

  /** What unregister_index compares: the bytes of the value, whatever its kind. */
  function RawBytes(v: Value): seq<nat> {
    match v
    case IntVal(n) => LongBytes(Unsigned(n), 8)
    case StrVal(bytes) => bytes
    case OidVal(oid) => OidBytes(oid)
  }

  function CompareRaw(v: Value, w: Value): int { MemCompare(RawBytes(v), RawBytes(w)) }

  /** 256 to the count. */
  function Bytes(count: nat): nat { if count == 0 then 1 else 256 * Bytes(count - 1) }

  /** Equal bytes are equal numbers. */
  lemma {:induction false} SameLongBytes(x: nat, y: nat, count: nat)
    requires MemCompare(LongBytes(x, count), LongBytes(y, count)) == 0
    requires x < Bytes(count) && y < Bytes(count)
    ensures x == y
  {
    if count > 0 {
      SameLongBytes(x / 256, y / 256, count - 1);
    }
  }

  lemma {:induction false} SameBytesCompare(bs: seq<nat>)
    ensures MemCompare(bs, bs) == 0
  {
    if bs != [] {
      SameBytesCompare(bs[1..]);
    }
  }

  lemma LongFits(n: int)
    requires InRange(IntVal(n))
    ensures Unsigned(n) < Bytes(8)
  {
    EightBytes();
  }

  lemma EightBytes()
    ensures Bytes(8) == ULONG_MAX + 1
  {
    assert Bytes(2) == 0x1_0000;
    assert Bytes(4) == 0x1_0000_0000;
    assert Bytes(6) == 0x1_0000_0000_0000;
  }

  lemma UnsignedDiffer(n: int, m: int)
    requires InRange(IntVal(n)) && InRange(IntVal(m))
    ensures Unsigned(n) == Unsigned(m) <==> n == m
  {
  }

  lemma LongBytesEqual(x: nat, y: nat, count: nat)
    requires x < Bytes(count) && y < Bytes(count)
    ensures MemCompare(LongBytes(x, count), LongBytes(y, count)) == 0 <==> x == y
  {
    SameBytesCompare(LongBytes(x, count));
    if MemCompare(LongBytes(x, count), LongBytes(y, count)) == 0 {
      SameLongBytes(x, y, count);
    }
  }

  /** On longs the raw comparison is zero for equal values only. */
  lemma RawEqual(v: Value, w: Value)
    requires InRange(v) && InRange(w)
    ensures CompareRaw(v, w) == 0 <==> v == w
  {
    LongFits(v.n);
    LongFits(w.n);
    UnsignedDiffer(v.n, w.n);
    LongBytesEqual(Unsigned(v.n), Unsigned(w.n), 8);
  }

  // ---------------------------------------------------------------- searching

  /** The first index whose element satisfies p, or the length. */
  function First<T>(xs: seq<T>, p: T -> bool): (i: nat)
    ensures i <= |xs|
    ensures i < |xs| ==> p(xs[i])
    ensures forall j :: 0 <= j < i ==> !p(xs[j])
  {
    if xs == [] || p(xs[0]) then 0
    else
      var i := First(xs[1..], p);
      assert forall j :: 1 <= j < |xs| ==> xs[j] == xs[1..][j - 1];
      i + 1
  }

  lemma FirstIs<T>(xs: seq<T>, p: T -> bool, i: nat)
    requires i <= |xs| && (i < |xs| ==> p(xs[i])) && forall j :: 0 <= j < i ==> !p(xs[j])
    ensures First(xs, p) == i
  {
  }

  function RowName(row: Row): Oid { if row == [] then [] else row[0].name }

  /** The row of a name, or the place for it. */
  function FindRow(rows: seq<Row>, name: Oid): nat {
    First(rows, (row: Row) => OidCompare(name, RowName(row)) <= 0)
  }

  function FindFree(row: Row): nat { First(row, (e: Entry) => !e.held) }

  function FindValue(row: Row, kind: Kind, v: Value): nat { First(row, (e: Entry) => Compare(kind, v, e.value) <= 0) }

  function FindRaw(row: Row, v: Value): nat { First(row, (e: Entry) => CompareRaw(v, e.value) <= 0) }

  /** The first entry of a row at which a comparison stops being positive. */
  function FindBy(row: Row, cmp: Value -> int): nat { First(row, (e: Entry) => cmp(e.value) <= 0) }

  lemma FindByValue(row: Row, kind: Kind, v: Value)
    ensures FindBy(row, w => Compare(kind, v, w)) == FindValue(row, kind, v)
  {
    FirstIs(row, (e: Entry) => Compare(kind, v, e.value) <= 0, FindBy(row, w => Compare(kind, v, w)));
  }

  lemma FindByRaw(row: Row, v: Value)
    ensures FindBy(row, w => CompareRaw(v, w)) == FindRaw(row, v)
  {
    FirstIs(row, (e: Entry) => CompareRaw(v, e.value) <= 0, FindBy(row, w => CompareRaw(v, w)));
  }

  // ---------------------------------------------------------------- the operations

  function Claimed(e: Entry, ss: Session): Entry { e.(held := true, session := ss) }

  function Released(e: Entry): Entry { e.(held := false, session := 0) }

  function Update<T>(rows: seq<seq<T>>, r: nat, c: nat, e: T): seq<seq<T>>
    requires r < |rows| && c < |rows[r]|
  {
    rows[r := rows[r][c := e]]
  }

  /** A new element goes before column c of row r; the list may hold entries or the nodes that carry them. */
  function Insert<T>(rows: seq<seq<T>>, r: nat, c: nat, e: T): seq<seq<T>>
    requires r < |rows| && c <= |rows[r]|
  {
    rows[r := rows[r][..c] + [e] + rows[r][c..]]
  }

  /** A new row of one element goes before row r. */
  function InsertRow<T>(rows: seq<seq<T>>, r: nat, e: T): seq<seq<T>>
    requires r <= |rows|
  {
    rows[..r] + [[e]] + rows[r..]
  }

  /** An element goes; its row goes with its last element. */
  function Remove<T>(rows: seq<seq<T>>, r: nat, c: nat): seq<seq<T>>
    requires r < |rows| && c < |rows[r]|
  {
    if |rows[r]| == 1 then rows[..r] + rows[r + 1..]
    else rows[r := rows[r][..c] + rows[r][c + 1..]]
  }

  /** The value of a new entry that was not asked for: one above the last one of the row, or 1.  For the
      other kinds it is what the caller's `rollover` says. */
  function NextValue(kind: Kind, row: Row, rollover: Value): Option<Value> {
    match kind
    case Integer =>
      if row == [] then Some(IntVal(1))
      else if row[|row| - 1].value.IntVal? then Some(IntVal(row[|row| - 1].value.n + 1)) else None
    case Other => None
    case _ => Some(rollover)
  }

  /** register_index: the value allocated, if any, and the new list. */
  function Register(rows: seq<Row>, q: Request, mode: Mode, ss: Session, rollover: Value): (Option<Value>, seq<Row>) {
    var r := FindRow(rows, q.name);
    if r < |rows| && rows[r] != [] && RowName(rows[r]) == q.name then
      RegisterInRow(rows, r, q, mode, ss, rollover)
    else RegisterNewRow(rows, r, q, mode, ss, rollover)
  }

  function RegisterNewRow(rows: seq<Row>, r: nat, q: Request, mode: Mode, ss: Session, rollover: Value)
    : (Option<Value>, seq<Row>)
    requires r <= |rows|
  {
    match if mode == This then Some(q.value) else NextValue(q.kind, [], rollover)
    case None => (None, rows)
    case Some(v) => (Some(v), InsertRow(rows, r, Entry(q.name, q.kind, v, true, ss)))
  }

  function RegisterInRow(rows: seq<Row>, r: nat, q: Request, mode: Mode, ss: Session, rollover: Value)
    : (Option<Value>, seq<Row>)
    requires r < |rows| && rows[r] != []
  {
    var row := rows[r];
    if q.kind != row[0].kind then (None, rows)
    else if mode == This then
      var c := FindValue(row, q.kind, q.value);
      if q.kind == Other then (None, rows)
      else if c < |row| && Compare(q.kind, q.value, row[c].value) == 0 then
        if row[c].held then (None, rows) else (Some(row[c].value), Update(rows, r, c, Claimed(row[c], ss)))
      else (Some(q.value), Insert(rows, r, c, Entry(q.name, q.kind, q.value, true, ss)))
    else
      var c := FindFree(row);
      if mode == Any && c < |row| then (Some(row[c].value), Update(rows, r, c, Claimed(row[c], ss)))
      else
        match NextValue(q.kind, row, rollover)
        case None => (None, rows)
        case Some(v) => (Some(v), Insert(rows, r, |row|, Entry(q.name, q.kind, v, true, ss)))
  }

  /** unregister_index. */
  function Unregister(rows: seq<Row>, q: Request, remember: bool, ss: Session): (Error, seq<Row>) {
    var r := FindRow(rows, q.name);
    if r < |rows| && rows[r] != [] && RowName(rows[r]) == q.name then UnregisterInRow(rows, r, q, remember, ss)
    else (NotAllocated, rows)
  }

  function UnregisterInRow(rows: seq<Row>, r: nat, q: Request, remember: bool, ss: Session): (Error, seq<Row>)
    requires r < |rows| && rows[r] != []
  {
    var row := rows[r];
    if q.kind != row[0].kind then (WrongType, rows)
    else
      var c := FindRaw(row, q.value);
      if c == |row| || CompareRaw(q.value, row[c].value) != 0 || !row[c].held then (NotAllocated, rows)
      else if row[c].session != ss then (WrongSession, rows)
      else (NoError, if remember then Update(rows, r, c, Released(row[c])) else Remove(rows, r, c))
  }

  function DropInRow(row: Row, ss: Session): Row {
    seq(|row|, c requires 0 <= c < |row| => if row[c].session == ss then Released(row[c]) else row[c])
  }

  /** unregister_index_by_session. */
  function DropSession(rows: seq<Row>, ss: Session): seq<Row> {
    seq(|rows|, r requires 0 <= r < |rows| => DropInRow(rows[r], ss))
  }

  function CountRow(row: Row, all: bool): nat {
    if row == [] then 0
    else CountRow(row[..|row| - 1], all) + (if row[|row| - 1].held || all then 1 else 0)
  }

  /** count_indexes. */
  function Count(rows: seq<Row>, name: Oid, all: bool): nat {
    if rows == [] then 0
    else
      var row := rows[|rows| - 1];
      Count(rows[..|rows| - 1], name, all) + (if RowName(row) == name then CountRow(row, all) else 0)
  }

  // ---------------------------------------------------------------- well-formed lists

  /** One name and one kind; in an integer row the values are in range and strictly increasing. */
  ghost predicate GoodRow(row: Row) {
    && row != []
    && (forall c :: 0 <= c < |row| ==> row[c].name == row[0].name && row[c].kind == row[0].kind
                                       && Typed(row[c].kind, row[c].value))
    && (row[0].kind == Integer ==> forall c, d :: 0 <= c < d < |row| ==> row[c].value.n < row[d].value.n)
  }

  predicate RowLess(x: Row, y: Row) { OidCompare(RowName(x), RowName(y)) < 0 }

  /** Every element is related to every later one. */
  ghost predicate SortedBy<T>(xs: seq<T>, less: (T, T) -> bool) {
    forall i, j :: 0 <= i < j < |xs| ==> less(xs[i], xs[j])
  }

  lemma InsertSorted<T>(xs: seq<T>, f: nat, e: T, less: (T, T) -> bool)
    requires SortedBy(xs, less) && f <= |xs|
    requires forall i :: 0 <= i < f ==> less(xs[i], e)
    requires forall i :: f <= i < |xs| ==> less(e, xs[i])
    ensures SortedBy(xs[..f] + [e] + xs[f..], less)
  {
    var ys := xs[..f] + [e] + xs[f..];
    forall i, j | 0 <= i < j < |ys| ensures less(ys[i], ys[j]) {
      if j == f {
        assert ys[i] == xs[i];
      } else if i == f {
        assert ys[j] == xs[j - 1];
      } else {
        var i', j' := if i < f then i else i - 1, if j < f then j else j - 1;
        assert ys[i] == xs[i'] && ys[j] == xs[j'];
      }
    }
  }

  /** Rows strictly increasing by name. */
  ghost predicate WellFormed(rows: seq<Row>) {
    && (forall r :: 0 <= r < |rows| ==> GoodRow(rows[r]))
    && SortedBy(rows, RowLess)
  }

  lemma RowFound(rows: seq<Row>, name: Oid)
    requires WellFormed(rows)
    ensures forall r :: 0 <= r < |rows| && RowName(rows[r]) == name ==> FindRow(rows, name) == r
  {
    forall r | 0 <= r < |rows| && RowName(rows[r]) == name ensures FindRow(rows, name) == r {
      var f := FindRow(rows, name);
      if f < r {
        OidCompareFlip(name, RowName(rows[f]));
      }
    }
  }

  /** The place found for a name keeps the rows sorted. */
  lemma RowPlace(rows: seq<Row>, name: Oid)
    requires WellFormed(rows)
    ensures var f := FindRow(rows, name);
      && (forall r :: 0 <= r < f ==> OidCompare(RowName(rows[r]), name) < 0)
      && (f < |rows| && RowName(rows[f]) != name ==>
            forall r :: f <= r < |rows| ==> OidCompare(name, RowName(rows[r])) < 0)
  {
    var f := FindRow(rows, name);
    forall r | 0 <= r < f ensures OidCompare(RowName(rows[r]), name) < 0 {
      OidCompareFlip(name, RowName(rows[r]));
    }
    if f < |rows| && RowName(rows[f]) != name {
      forall r | f <= r < |rows| ensures OidCompare(name, RowName(rows[r])) < 0 {
        if r > f { OidCompareTransitive(name, RowName(rows[f]), RowName(rows[r])); }
      }
    }
  }

  lemma GoodInserted(rows: seq<Row>, f: nat, row: Row)
    requires f <= |rows| && GoodRow(row) && forall r :: 0 <= r < |rows| ==> GoodRow(rows[r])
    ensures forall r :: 0 <= r <= |rows| ==> GoodRow((rows[..f] + [row] + rows[f..])[r])
  {
    var rows' := rows[..f] + [row] + rows[f..];
    forall r | 0 <= r <= |rows| ensures GoodRow(rows'[r]) {
      assert rows'[r] == (if r < f then rows[r] else if r == f then row else rows[r - 1]);
    }
  }

  lemma InsertRowKeeps(rows: seq<Row>, e: Entry)
    requires WellFormed(rows) && Typed(e.kind, e.value)
    requires var f := FindRow(rows, e.name); f == |rows| || RowName(rows[f]) != e.name
    ensures WellFormed(InsertRow(rows, FindRow(rows, e.name), e))
  {
    RowPlace(rows, e.name);
    GoodInserted(rows, FindRow(rows, e.name), [e]);
    InsertSorted(rows, FindRow(rows, e.name), [e], RowLess);
  }

  /** Replacing a row by a good one with the same name keeps the list well formed. */
  lemma RowReplaced(rows: seq<Row>, r: nat, row: Row)
    requires WellFormed(rows) && r < |rows| && GoodRow(row) && RowName(row) == RowName(rows[r])
    ensures WellFormed(rows[r := row])
  {
  }

  lemma RowRemoved(rows: seq<Row>, r: nat)
    requires WellFormed(rows) && r < |rows|
    ensures WellFormed(rows[..r] + rows[r + 1..])
  {
    var rows' := rows[..r] + rows[r + 1..];
    forall i ensures 0 <= i < |rows'| ==> rows'[i] == (if i < r then rows[i] else rows[i + 1]) {
    }
  }

  lemma InsertInRow(row: Row, c: nat, e: Entry)
    requires GoodRow(row) && c <= |row| && e.name == row[0].name && e.kind == row[0].kind && Typed(e.kind, e.value)
    requires e.kind == Integer ==> (forall d :: 0 <= d < c ==> row[d].value.n < e.value.n)
    requires e.kind == Integer ==> (forall d :: c <= d < |row| ==> e.value.n < row[d].value.n)
    ensures GoodRow(row[..c] + [e] + row[c..])
  {
    var row' := row[..c] + [e] + row[c..];
    forall d ensures 0 <= d < |row'| ==> row'[d] == (if d < c then row[d] else if d == c then e else row[d - 1]) {
    }
  }

  lemma RemoveFromRow(row: Row, c: nat)
    requires GoodRow(row) && c < |row| && |row| > 1
    ensures GoodRow(row[..c] + row[c + 1..]) && RowName(row[..c] + row[c + 1..]) == RowName(row)
  {
    var row' := row[..c] + row[c + 1..];
    forall d ensures 0 <= d < |row'| ==> row'[d] == (if d < c then row[d] else row[d + 1]) {
    }
  }

  lemma UpdateInRow(row: Row, c: nat, e: Entry)
    requires GoodRow(row) && c < |row| && e.name == row[c].name && e.kind == row[c].kind && e.value == row[c].value
    ensures GoodRow(row[c := e]) && RowName(row[c := e]) == RowName(row)
  {
  }

  predicate Integers(row: Row) { forall d :: 0 <= d < |row| ==> row[d].value.IntVal? }

  predicate FairAt(row: Row, v: Value, d: nat)
    requires v.IntVal? && Integers(row) && d < |row|
  {
    (d == 0 || row[d - 1].value.n < v.n) ==> Honest(v, row[d].value)
  }

  /** The search compares v honestly with the values below v and with the first one that is not. */
  predicate FairScan(row: Row, v: Value)
    requires v.IntVal? && Integers(row)
  {
    forall d :: 0 <= d < |row| ==> FairAt(row, v, d)
  }

  /** So it does when all differences fit an int. */
  lemma NearValues(row: Row, v: Value)
    requires GoodRow(row) && row[0].kind == Integer && InRange(v)
    requires forall d :: 0 <= d < |row| ==> -INT_MAX - 1 <= v.n - row[d].value.n <= INT_MAX
    ensures FairScan(row, v)
  {
    forall d | 0 <= d < |row| ensures FairAt(row, v, d) {
      CompareInts(v, row[d].value);
    }
  }

  /** The place where the search stops is the one where the integer is or belongs. */
  predicate StopsRight(row: Row, v: Value)
    requires v.IntVal? && Integers(row)
  {
    var c := FindValue(row, Integer, v);
    && (forall d :: 0 <= d < c ==> row[d].value.n < v.n)
    && (c < |row| ==> v.n <= row[c].value.n && (Compare(Integer, v, row[c].value) == 0 <==> row[c].value == v))
  }

  lemma FairExactly(row: Row, v: Value)
    requires GoodRow(row) && row[0].kind == Integer && InRange(v)
    ensures FairScan(row, v) <==> StopsRight(row, v)
  {
    var c := FindValue(row, Integer, v);
    if FairScan(row, v) {
      FairStops(row, v, c);
    }
    if StopsRight(row, v) {
      forall d | 0 <= d < |row| ensures FairAt(row, v, d) {
        if d > c {
          assert row[c].value.n <= row[d - 1].value.n;
        } else if d < c {
          assert Compare(Integer, v, row[d].value) > 0;
        } else {
          assert row[c].value == v <==> row[c].value.n == v.n;
        }
      }
    }
  }

  lemma {:induction false} FairStops(row: Row, v: Value, n: nat)
    requires GoodRow(row) && row[0].kind == Integer && InRange(v) && FairScan(row, v)
    requires n <= FindValue(row, Integer, v)
    ensures forall d :: 0 <= d < n ==> row[d].value.n < v.n
    ensures n < |row| ==> Honest(v, row[n].value)
  {
    if n > 0 {
      FairStops(row, v, n - 1);
      assert Compare(Integer, v, row[n - 1].value) > 0;
    }
    if n < |row| {
      assert FairAt(row, v, n);
    }
  }

  /** Where an integer that is not in the row belongs. */
  lemma ValuePlace(row: Row, v: Value)
    requires GoodRow(row) && row[0].kind == Integer && InRange(v) && FairScan(row, v)
    ensures var c := FindValue(row, Integer, v);
      && (forall d :: 0 <= d < c ==> row[d].value.n < v.n)
      && (c < |row| ==> (Compare(Integer, v, row[c].value) == 0 <==> row[c].value == v))
      && (c < |row| && row[c].value != v ==> forall d :: c <= d < |row| ==> v.n < row[d].value.n)
      && (c == |row| || row[c].value != v ==> forall d :: 0 <= d < |row| ==> row[d].value != v)
  {
    FairExactly(row, v);
  }

  /** The value that Any and New would create fits the kind: an integer row does not end at the greatest long. */
  predicate HasRoom(rows: seq<Row>, q: Request, rollover: Value) {
    var r := FindRow(rows, q.name);
    var row := if r < |rows| && RowName(rows[r]) == q.name then rows[r] else [];
    match NextValue(q.kind, row, rollover)
    case Some(v) => Typed(q.kind, v)
    case None => true
  }

  /** The row of the name has a value that nobody holds. */
  predicate HasFree(rows: seq<Row>, name: Oid) {
    var r := FindRow(rows, name);
    r < |rows| && RowName(rows[r]) == name && FindFree(rows[r]) < |rows[r]|
  }

  /** The search for the integer that is asked for is fair. */
  predicate FairSearch(rows: seq<Row>, q: Request)
    requires Typed(q.kind, q.value)
  {
    var r := FindRow(rows, q.name);
    q.kind == Integer && r < |rows| && RowName(rows[r]) == q.name && Integers(rows[r]) ==> FairScan(rows[r], q.value)
  }

  /** A value that is asked for fits its kind and is searched fairly, and one that has to be made up fits its kind. */
  predicate Acceptable(rows: seq<Row>, q: Request, mode: Mode, rollover: Value) {
    match mode
    case This => Typed(q.kind, q.value) && FairSearch(rows, q)
    case Any => HasFree(rows, q.name) || HasRoom(rows, q, rollover)
    case New => HasRoom(rows, q, rollover)
  }

  lemma ThisKeeps(rows: seq<Row>, r: nat, q: Request, ss: Session)
    requires WellFormed(rows) && r < |rows| && RowName(rows[r]) == q.name
    requires q.kind == rows[r][0].kind && q.kind != Other && Typed(q.kind, q.value)
    requires q.kind == Integer ==> FairScan(rows[r], q.value)
    ensures WellFormed(RegisterInRow(rows, r, q, This, ss, q.value).1)
  {
    var row := rows[r];
    var c := FindValue(row, q.kind, q.value);
    if q.kind == Integer { ValuePlace(row, q.value); }
    if c < |row| && Compare(q.kind, q.value, row[c].value) == 0 {
      UpdateInRow(row, c, Claimed(row[c], ss));
      RowReplaced(rows, r, row[c := Claimed(row[c], ss)]);
    } else {
      var e := Entry(q.name, q.kind, q.value, true, ss);
      InsertInRow(row, c, e);
      RowReplaced(rows, r, row[..c] + [e] + row[c..]);
    }
  }

  lemma AnyKeeps(rows: seq<Row>, r: nat, q: Request, mode: Mode, ss: Session, rollover: Value)
    requires WellFormed(rows) && r < |rows| && RowName(rows[r]) == q.name && mode != This
    requires q.kind == rows[r][0].kind
    requires (mode == Any && FindFree(rows[r]) < |rows[r]|) || NextValue(q.kind, rows[r], rollover).None?
      || Typed(q.kind, NextValue(q.kind, rows[r], rollover).value)
    ensures WellFormed(RegisterInRow(rows, r, q, mode, ss, rollover).1)
  {
    var row := rows[r];
    var c := FindFree(row);
    if mode == Any && c < |row| {
      UpdateInRow(row, c, Claimed(row[c], ss));
      RowReplaced(rows, r, row[c := Claimed(row[c], ss)]);
    } else if NextValue(q.kind, row, rollover).Some? {
      var e := Entry(q.name, q.kind, NextValue(q.kind, row, rollover).value, true, ss);
      InsertInRow(row, |row|, e);
      RowReplaced(rows, r, row[..|row|] + [e] + row[|row|..]);
    }
  }

  /** Every registration of an acceptable value keeps the list well formed. */
  lemma RegisterKeeps(rows: seq<Row>, q: Request, mode: Mode, ss: Session, rollover: Value)
    requires WellFormed(rows)
    ensures Acceptable(rows, q, mode, rollover) ==> WellFormed(Register(rows, q, mode, ss, rollover).1)
  {
    var r := FindRow(rows, q.name);
    if !Acceptable(rows, q, mode, rollover) {
    } else if r < |rows| && RowName(rows[r]) == q.name {
      if q.kind == rows[r][0].kind {
        RowFound(rows, q.name);
        if mode != This {
          AnyKeeps(rows, r, q, mode, ss, rollover);
        } else if q.kind != Other {
          ThisKeeps(rows, r, q, ss);
        }
      }
    } else {
      NewRowKeeps(rows, q, mode, ss, rollover);
    }
  }

  lemma NewRowKeeps(rows: seq<Row>, q: Request, mode: Mode, ss: Session, rollover: Value)
    requires WellFormed(rows) && Acceptable(rows, q, mode, rollover)
    requires var f := FindRow(rows, q.name); f == |rows| || RowName(rows[f]) != q.name
    ensures WellFormed(RegisterNewRow(rows, FindRow(rows, q.name), q, mode, ss, rollover).1)
  {
    var v := if mode == This then Some(q.value) else NextValue(q.kind, [], rollover);
    if v.Some? {
      InsertRowKeeps(rows, Entry(q.name, q.kind, v.value, true, ss));
    }
  }

  lemma UpdateKeeps(rows: seq<Row>, r: nat, c: nat, e: Entry)
    requires WellFormed(rows) && r < |rows| && c < |rows[r]|
    requires e.name == rows[r][c].name && e.kind == rows[r][c].kind && e.value == rows[r][c].value
    ensures WellFormed(Update(rows, r, c, e))
  {
    UpdateInRow(rows[r], c, e);
    RowReplaced(rows, r, rows[r][c := e]);
  }

  lemma RemoveKeeps(rows: seq<Row>, r: nat, c: nat)
    requires WellFormed(rows) && r < |rows| && c < |rows[r]|
    ensures WellFormed(Remove(rows, r, c))
  {
    if |rows[r]| == 1 {
      RowRemoved(rows, r);
    } else {
      RemoveFromRow(rows[r], c);
      RowReplaced(rows, r, rows[r][..c] + rows[r][c + 1..]);
    }
  }

  /** Every unregistration keeps the list well formed. */
  lemma UnregisterKeeps(rows: seq<Row>, q: Request, remember: bool, ss: Session)
    requires WellFormed(rows)
    ensures WellFormed(Unregister(rows, q, remember, ss).1)
  {
    if Unregister(rows, q, remember, ss).0 == NoError {
      var r := FindRow(rows, q.name);
      var c := FindRaw(rows[r], q.value);
      if remember {
        UpdateKeeps(rows, r, c, Released(rows[r][c]));
      } else {
        RemoveKeeps(rows, r, c);
      }
    }
  }

  lemma DropKeeps(rows: seq<Row>, ss: Session)
    requires WellFormed(rows)
    ensures WellFormed(DropSession(rows, ss))
  {
    var rows' := DropSession(rows, ss);
    forall r | 0 <= r < |rows'| ensures GoodRow(rows'[r]) && RowName(rows'[r]) == RowName(rows[r]) {
      assert GoodRow(rows[r]);
    }
  }

  // ---------------------------------------------------------------- rows of object identifiers and strings

  predicate HasOrder(kind: Kind) { kind == ObjectId || kind == OctetString }

  lemma {:induction false} MemCompareFlip(x: seq<nat>, y: seq<nat>)
    ensures MemCompare(x, y) == -MemCompare(y, x)
  {
    if x != [] && y != [] && x[0] == y[0] {
      MemCompareFlip(x[1..], y[1..]);
    }
  }

  lemma {:induction false} MemCompareTransitive(x: seq<nat>, y: seq<nat>, z: seq<nat>)
    requires MemCompare(x, y) < 0 && MemCompare(y, z) < 0
    ensures MemCompare(x, z) < 0
  {
    if x[0] == y[0] == z[0] {
      MemCompareTransitive(x[1..], y[1..], z[1..]);
    }
  }

  lemma CompareFlip(kind: Kind, v: Value, w: Value)
    requires HasOrder(kind) && Typed(kind, v) && Typed(kind, w)
    ensures Compare(kind, v, w) == -Compare(kind, w, v)
  {
    if kind == ObjectId { OidCompareFlip(v.oid, w.oid); } else { MemCompareFlip(v.bytes, w.bytes); }
  }

  lemma CompareTransitive(kind: Kind, u: Value, v: Value, w: Value)
    requires HasOrder(kind) && Typed(kind, u) && Typed(kind, v) && Typed(kind, w)
    requires Compare(kind, u, v) < 0 && Compare(kind, v, w) < 0
    ensures Compare(kind, u, w) < 0
  {
    if kind == ObjectId {
      OidCompareTransitive(u.oid, v.oid, w.oid);
    } else {
      MemCompareTransitive(u.bytes, v.bytes, w.bytes);
    }
  }

  predicate ValueLess(x: Entry, y: Entry) { Compare(x.kind, x.value, y.value) < 0 }

  /** Strictly sorted by the comparison of register_index; so no two strings of a row begin alike as far as the shorter
      one goes. */
  ghost predicate SortedRow(row: Row) { SortedBy(row, ValueLess) }

  /** Where a value that is not in a sorted row belongs. */
  lemma SortedPlace(row: Row, v: Value)
    requires GoodRow(row) && SortedRow(row) && HasOrder(row[0].kind) && Typed(row[0].kind, v)
    ensures var kind, c := row[0].kind, FindValue(row, row[0].kind, v);
      && (forall d :: 0 <= d < c ==> Compare(kind, row[d].value, v) < 0)
      && (c < |row| && Compare(kind, v, row[c].value) != 0 ==>
            forall d :: c <= d < |row| ==> Compare(kind, v, row[d].value) < 0)
  {
    var kind, c := row[0].kind, FindValue(row, row[0].kind, v);
    forall d | 0 <= d < c ensures Compare(kind, row[d].value, v) < 0 {
      CompareFlip(kind, v, row[d].value);
    }
    if c < |row| && Compare(kind, v, row[c].value) != 0 {
      forall d | c <= d < |row| ensures Compare(kind, v, row[d].value) < 0 {
        if c < d {
          assert ValueLess(row[c], row[d]);
          CompareTransitive(kind, v, row[c].value, row[d].value);
        }
      }
    }
  }

  /** A row of object identifiers or strings stays strictly sorted when a value is asked for.  (Values that the registry
      makes up go to the end, wherever they belong.) */
  lemma ThisKeepsSorted(rows: seq<Row>, r: nat, q: Request, ss: Session)
    requires WellFormed(rows) && r < |rows| && RowName(rows[r]) == q.name && rows[r][0].kind == q.kind
    requires HasOrder(q.kind) && Typed(q.kind, q.value) && SortedRow(rows[r])
    ensures var rows' := RegisterInRow(rows, r, q, This, ss, q.value).1;
      r < |rows'| && SortedRow(rows'[r]) && forall k :: 0 <= k < |rows| && k != r ==> rows'[k] == rows[k]
  {
    var row := rows[r];
    var c := FindValue(row, q.kind, q.value);
    SortedPlace(row, q.value);
    if c < |row| && Compare(q.kind, q.value, row[c].value) == 0 {
      var row' := row[c := Claimed(row[c], ss)];
      forall i, j | 0 <= i < j < |row'| ensures ValueLess(row'[i], row'[j]) {
        assert ValueLess(row[i], row[j]);
      }
    } else {
      InsertSorted(row, c, Entry(q.name, q.kind, q.value, true, ss), ValueLess);
    }
  }

  /** For strings, unregister_index compares as register_index does: in a sorted row every value is found. */
  lemma StringFound(rows: seq<Row>, r: nat, c: nat, q: Request, remember: bool, ss: Session)
    requires WellFormed(rows) && r < |rows| && c < |rows[r]|
    requires q == Request(RowName(rows[r]), OctetString, rows[r][c].value)
    requires rows[r][0].kind == OctetString && SortedRow(rows[r])
    ensures Unregister(rows, q, remember, ss) ==
      if !rows[r][c].held then (NotAllocated, rows)
      else if rows[r][c].session != ss then (WrongSession, rows)
      else (NoError, if remember then Update(rows, r, c, Released(rows[r][c])) else Remove(rows, r, c))
  {
    var row := rows[r];
    RowFound(rows, q.name);
    SameBytesCompare(q.value.bytes);
    forall d | 0 <= d < c ensures CompareRaw(q.value, row[d].value) > 0 {
      assert ValueLess(row[d], row[c]);
      CompareFlip(OctetString, row[d].value, q.value);
    }
    FirstIs(row, (e: Entry) => CompareRaw(q.value, e.value) <= 0, c);
  }
}
