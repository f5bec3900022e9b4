/** The index registry on the heap: OID rows joined by `nextOid`, the values of a row joined by
    `nextIdx`, and every node of a row carrying the head of the next row.  Each operation is proved
    against the one of the same name in module IndexSpec. */
module IndexRegistry {
  import opened Basics
  import opened IndexSpec

  class Node {
    const name: Oid
    const kind: Kind
    const value: Value
    var held: bool
    var session: Session
    var nextOid: Node?
    var nextIdx: Node?

    constructor (e: Entry)
      ensures AsEntry() == e && nextOid == null && nextIdx == null
    {
      name, kind, value, held, session := e.name, e.kind, e.value, e.held, e.session;
      nextOid, nextIdx := null, null;
    }

    function AsEntry(): Entry
      reads this
    {
      Entry(name, kind, value, held, session)
    }

    ghost function Holds(): Content
      reads this
    {
      Content(AsEntry(), nextIdx, nextOid)
    }
  }

  /** The element in row r and column c; a name for the pair of subscripts. */
  ghost function At<T>(grid: seq<seq<T>>, r: nat, c: nat): T
    requires r < |grid| && c < |grid[r]|
  {
    grid[r][c]
  }

  ghost predicate Inside<T>(grid: seq<seq<T>>, r: int, c: int) {
    0 <= r < |grid| && 0 <= c < |grid[r]|
  }

  /** The first node of row r; null behind the last row. */
  ghost function Head(nodes: seq<seq<Node>>, r: nat): Node? {
    if r < |nodes| && nodes[r] != [] then nodes[r][0] else null
  }

  /** Where the walk for a free value of a row stops: at the first released one, if any value will do. */
  function FreePlace(row: Row, any: bool): nat { if any then FindFree(row) else |row| }

  /** The node behind column c of a row. */
  ghost function Next(row: seq<Node>, c: nat): Node? {
    if c + 1 < |row| then row[c + 1] else null
  }

  /** No node is in two places. */
  ghost predicate Apart(nodes: seq<seq<Node>>) {
    forall r, c, s, d :: Inside(nodes, r, c) && Inside(nodes, s, d) && At(nodes, r, c) == At(nodes, s, d)
      ==> r == s && c == d
  }

  ghost predicate Within(nodes: seq<seq<Node>>, repr: set<Node>) {
    forall r, c :: Inside(nodes, r, c) ==> At(nodes, r, c) in repr
  }

  ghost predicate NonEmpty<T>(grid: seq<seq<T>>) {
    forall r :: 0 <= r < |grid| ==> grid[r] != []
  }

  ghost predicate SameShape<T, U>(a: seq<seq<T>>, b: seq<seq<U>>) {
    |a| == |b| && forall r :: 0 <= r < |a| ==> |a[r]| == |b[r]|
  }

  lemma InsertShape<T, U>(a: seq<seq<T>>, b: seq<seq<U>>, r: nat, c: nat, x: T, y: U)
    requires SameShape(a, b) && r < |a| && c <= |a[r]| && NonEmpty(a)
    ensures SameShape(Insert(a, r, c, x), Insert(b, r, c, y)) && NonEmpty(Insert(a, r, c, x))
  {
  }

  lemma InsertRowShape<T, U>(a: seq<seq<T>>, b: seq<seq<U>>, r: nat, x: T, y: U)
    requires SameShape(a, b) && r <= |a| && NonEmpty(a)
    ensures SameShape(InsertRow(a, r, x), InsertRow(b, r, y)) && NonEmpty(InsertRow(a, r, x))
  {
  }

  lemma RemoveShape<T, U>(a: seq<seq<T>>, b: seq<seq<U>>, r: nat, c: nat)
    requires SameShape(a, b) && r < |a| && c < |a[r]| && NonEmpty(a)
    ensures SameShape(Remove(a, r, c), Remove(b, r, c)) && NonEmpty(Remove(a, r, c))
  {
  }

  /** What a node holds. */
  datatype Content = Content(entry: Entry, nextIdx: Node?, nextOid: Node?)

  /** What the node in row r and column c should hold. */
  ghost function Wanted(nodes: seq<seq<Node>>, rows: seq<Row>, r: nat, c: nat): Content
    requires Inside(nodes, r, c) && Inside(rows, r, c)
  {
    Content(At(rows, r, c), Next(nodes[r], c), Head(nodes, r + 1))
  }

  // Where the elements of a changed list were before, and what their nodes should hold now.

  lemma InsertAt<T>(grid: seq<seq<T>>, r: nat, c: nat, x: T, s: int, d: int)
    requires r < |grid| && c <= |grid[r]| && Inside(Insert(grid, r, c, x), s, d)
    ensures s == r && d == c ==> At(Insert(grid, r, c, x), s, d) == x
    ensures var d' := if s == r && d > c then d - 1 else d;
      !(s == r && d == c) ==> Inside(grid, s, d') && At(Insert(grid, r, c, x), s, d) == At(grid, s, d')
  {
  }

  lemma InsertWanted(nodes: seq<seq<Node>>, rows: seq<Row>, r: nat, c: nat, n: Node, e: Entry, s: int, d: int)
    requires SameShape(nodes, rows) && NonEmpty(nodes) && r < |nodes| && c <= |nodes[r]|
    requires Inside(Insert(nodes, r, c, n), s, d)
    ensures Inside(Insert(rows, r, c, e), s, d)
    ensures s == r && d == c ==>
      Wanted(Insert(nodes, r, c, n), Insert(rows, r, c, e), s, d)
        == Content(e, if c < |nodes[r]| then nodes[r][c] else null, Head(nodes, r + 1))
    ensures var d' := if s == r && d > c then d - 1 else d;
      !(s == r && d == c) ==>
        && Inside(nodes, s, d') && Inside(rows, s, d')
        && var was := Wanted(nodes, rows, s, d');
        && Wanted(Insert(nodes, r, c, n), Insert(rows, r, c, e), s, d) ==
             Content(was.entry, if s == r && d + 1 == c then n else was.nextIdx,
                     if s + 1 == r && c == 0 then n else was.nextOid)
  {
    InsertAt(nodes, r, c, n, s, d);
    InsertAt(rows, r, c, e, s, d);
  }

  lemma InsertRowAt<T>(grid: seq<seq<T>>, r: nat, x: T, s: int, d: int)
    requires r <= |grid| && Inside(InsertRow(grid, r, x), s, d)
    ensures s == r ==> d == 0 && At(InsertRow(grid, r, x), s, d) == x
    ensures var s' := if s < r then s else s - 1;
      s != r ==> Inside(grid, s', d) && At(InsertRow(grid, r, x), s, d) == At(grid, s', d)
  {
  }

  lemma InsertRowWanted(nodes: seq<seq<Node>>, rows: seq<Row>, r: nat, n: Node, e: Entry, s: int, d: int)
    requires SameShape(nodes, rows) && NonEmpty(nodes) && r <= |nodes| && Inside(InsertRow(nodes, r, n), s, d)
    ensures Inside(InsertRow(rows, r, e), s, d)
    ensures s == r ==> Wanted(InsertRow(nodes, r, n), InsertRow(rows, r, e), s, d) == Content(e, null, Head(nodes, r))
    ensures var s' := if s < r then s else s - 1;
      s != r ==>
        && Inside(nodes, s', d) && Inside(rows, s', d)
        && var was := Wanted(nodes, rows, s', d);
        && Wanted(InsertRow(nodes, r, n), InsertRow(rows, r, e), s, d) ==
             Content(was.entry, was.nextIdx, if s + 1 == r then n else was.nextOid)
  {
    InsertRowAt(nodes, r, n, s, d);
    InsertRowAt(rows, r, e, s, d);
  }

  lemma RemoveAt<T>(grid: seq<seq<T>>, r: nat, c: nat, s: int, d: int)
    requires r < |grid| && c < |grid[r]| && |grid[r]| > 1 && Inside(Remove(grid, r, c), s, d)
    ensures var d' := if s == r && d >= c then d + 1 else d;
      Inside(grid, s, d') && At(Remove(grid, r, c), s, d) == At(grid, s, d')
  {
  }

  lemma RemoveRowAt<T>(grid: seq<seq<T>>, r: nat, s: int, d: int)
    requires r < |grid| && |grid[r]| == 1 && Inside(Remove(grid, r, 0), s, d)
    ensures var s' := if s < r then s else s + 1;
      Inside(grid, s', d) && At(Remove(grid, r, 0), s, d) == At(grid, s', d)
  {
  }

  lemma RemoveWanted(nodes: seq<seq<Node>>, rows: seq<Row>, r: nat, c: nat, s: int, d: int)
    requires SameShape(nodes, rows) && NonEmpty(nodes) && r < |nodes| && c < |nodes[r]| && |nodes[r]| > 1
    requires Inside(Remove(nodes, r, c), s, d)
    ensures var d' := if s == r && d >= c then d + 1 else d;
      && Inside(Remove(rows, r, c), s, d) && Inside(nodes, s, d') && Inside(rows, s, d')
      && var was := Wanted(nodes, rows, s, d');
      && Wanted(Remove(nodes, r, c), Remove(rows, r, c), s, d) ==
           Content(was.entry, if s == r && d + 1 == c then Next(nodes[r], c) else was.nextIdx,
                   if s + 1 == r && c == 0 then Next(nodes[r], 0) else was.nextOid)
  {
    RemoveAt(nodes, r, c, s, d);
    RemoveAt(rows, r, c, s, d);
  }

  lemma RemoveRowWanted(nodes: seq<seq<Node>>, rows: seq<Row>, r: nat, s: int, d: int)
    requires SameShape(nodes, rows) && NonEmpty(nodes) && r < |nodes| && |nodes[r]| == 1
    requires Inside(Remove(nodes, r, 0), s, d)
    ensures var s' := if s < r then s else s + 1;
      && Inside(Remove(rows, r, 0), s, d) && Inside(nodes, s', d) && Inside(rows, s', d)
      && var was := Wanted(nodes, rows, s', d);
      && Wanted(Remove(nodes, r, 0), Remove(rows, r, 0), s, d) ==
           Content(was.entry, was.nextIdx, if s + 1 == r then Head(nodes, r + 1) else was.nextOid)
  {
    RemoveRowAt(nodes, r, s, d);
    RemoveRowAt(rows, r, s, d);
  }

  // The nodes of a changed list are in different places, and in its footprint.

  lemma InsertApart(nodes: seq<seq<Node>>, r: nat, c: nat, n: Node, repr: set<Node>)
    requires r < |nodes| && c <= |nodes[r]| && Apart(nodes) && Within(nodes, repr) && n !in repr
    ensures Apart(Insert(nodes, r, c, n)) && Within(Insert(nodes, r, c, n), repr + {n})
  {
    var nodes' := Insert(nodes, r, c, n);
    forall s, d, t, e | Inside(nodes', s, d) && Inside(nodes', t, e) && At(nodes', s, d) == At(nodes', t, e)
      ensures s == t && d == e {
      InsertAt(nodes, r, c, n, s, d);
      InsertAt(nodes, r, c, n, t, e);
    }
    forall s, d | Inside(nodes', s, d) ensures At(nodes', s, d) in repr + {n} {
      InsertAt(nodes, r, c, n, s, d);
    }
  }

  lemma InsertRowApart(nodes: seq<seq<Node>>, r: nat, n: Node, repr: set<Node>)
    requires r <= |nodes| && Apart(nodes) && Within(nodes, repr) && n !in repr
    ensures Apart(InsertRow(nodes, r, n)) && Within(InsertRow(nodes, r, n), repr + {n})
  {
    var nodes' := InsertRow(nodes, r, n);
    forall s, d, t, e | Inside(nodes', s, d) && Inside(nodes', t, e) && At(nodes', s, d) == At(nodes', t, e)
      ensures s == t && d == e {
      InsertRowAt(nodes, r, n, s, d);
      InsertRowAt(nodes, r, n, t, e);
    }
    forall s, d | Inside(nodes', s, d) ensures At(nodes', s, d) in repr + {n} {
      InsertRowAt(nodes, r, n, s, d);
    }
  }

  lemma RemoveApart(nodes: seq<seq<Node>>, r: nat, c: nat, repr: set<Node>)
    requires r < |nodes| && c < |nodes[r]| && |nodes[r]| > 1 && Apart(nodes) && Within(nodes, repr)
    ensures Apart(Remove(nodes, r, c)) && Within(Remove(nodes, r, c), repr)
  {
    var nodes' := Remove(nodes, r, c);
    forall s, d, t, e | Inside(nodes', s, d) && Inside(nodes', t, e) && At(nodes', s, d) == At(nodes', t, e)
      ensures s == t && d == e {
      RemoveAt(nodes, r, c, s, d);
      RemoveAt(nodes, r, c, t, e);
    }
    forall s, d | Inside(nodes', s, d) ensures At(nodes', s, d) in repr {
      RemoveAt(nodes, r, c, s, d);
    }
  }

  lemma RemoveRowApart(nodes: seq<seq<Node>>, r: nat, repr: set<Node>)
    requires r < |nodes| && |nodes[r]| == 1 && Apart(nodes) && Within(nodes, repr)
    ensures Apart(Remove(nodes, r, 0)) && Within(Remove(nodes, r, 0), repr)
  {
    var nodes' := Remove(nodes, r, 0);
    forall s, d, t, e | Inside(nodes', s, d) && Inside(nodes', t, e) && At(nodes', s, d) == At(nodes', t, e)
      ensures s == t && d == e {
      RemoveRowAt(nodes, r, s, d);
      RemoveRowAt(nodes, r, t, e);
    }
    forall s, d | Inside(nodes', s, d) ensures At(nodes', s, d) in repr {
      RemoveRowAt(nodes, r, s, d);
    }
  }

  // When the links of the old nodes have been changed as an insertion asks, all links of the new list are right.

  lemma RowLinkedIn(nodes: seq<seq<Node>>, rows: seq<Row>, r: nat, n: Node, e: Entry)
    requires SameShape(nodes, rows) && NonEmpty(nodes) && r <= |nodes| && n.Holds() == Content(e, null, Head(nodes, r))
    requires forall s, d :: Inside(nodes, s, d) ==>
      var was := Wanted(nodes, rows, s, d);
      At(nodes, s, d).Holds() == if s + 1 == r then was.(nextOid := n) else was
    ensures var nodes', rows' := InsertRow(nodes, r, n), InsertRow(rows, r, e);
      forall s, d :: Inside(nodes', s, d) ==>
        Inside(rows', s, d) && At(nodes', s, d).Holds() == Wanted(nodes', rows', s, d)
  {
    var nodes', rows' := InsertRow(nodes, r, n), InsertRow(rows, r, e);
    forall s, d | Inside(nodes', s, d)
      ensures Inside(rows', s, d) && At(nodes', s, d).Holds() == Wanted(nodes', rows', s, d)
    {
      InsertRowAt(nodes, r, n, s, d);
      InsertRowWanted(nodes, rows, r, n, e, s, d);
    }
  }

  lemma NodeLinkedIn(nodes: seq<seq<Node>>, rows: seq<Row>, r: nat, c: nat, n: Node, e: Entry)
    requires SameShape(nodes, rows) && NonEmpty(nodes) && r < |nodes| && c <= |nodes[r]|
    requires n.Holds() == Content(e, if c < |nodes[r]| then nodes[r][c] else null, Head(nodes, r + 1))
    requires forall s, d :: Inside(nodes, s, d) ==>
      var was := Wanted(nodes, rows, s, d);
      At(nodes, s, d).Holds() ==
        if s == r && d + 1 == c then was.(nextIdx := n) else if s + 1 == r && c == 0 then was.(nextOid := n) else was
    ensures var nodes', rows' := Insert(nodes, r, c, n), Insert(rows, r, c, e);
      forall s, d :: Inside(nodes', s, d) ==>
        Inside(rows', s, d) && At(nodes', s, d).Holds() == Wanted(nodes', rows', s, d)
  {
    var nodes', rows' := Insert(nodes, r, c, n), Insert(rows, r, c, e);
    forall s, d | Inside(nodes', s, d)
      ensures Inside(rows', s, d) && At(nodes', s, d).Holds() == Wanted(nodes', rows', s, d)
    {
      InsertAt(nodes, r, c, n, s, d);
      InsertWanted(nodes, rows, r, c, n, e, s, d);
    }
  }

  class Registry {
    var head: Node?
    ghost var nodes: seq<seq<Node>>
    ghost var rows: seq<Row>
    ghost var Repr: set<Node>

    /** Node (r, c) holds the entry and the two links that its place asks for. */
    ghost predicate Linked(r: nat, c: nat)
      requires Inside(nodes, r, c) && Inside(rows, r, c)
      reads this, nodes[r][c]
    {
      At(nodes, r, c).Holds() == Wanted(nodes, rows, r, c)
    }

    /** The links are those of a list of rows, with no node in two places. */
    ghost predicate Struct()
      reads this, Repr
    {
      && SameShape(nodes, rows)
      && NonEmpty(nodes)
      && Within(nodes, Repr)
      && Apart(nodes)
      && (forall r, c :: Inside(nodes, r, c) ==> Linked(r, c))
      && head == Head(nodes, 0)
    }

    ghost predicate Valid()
      reads this, Repr
    {
      Struct() && WellFormed(rows)
    }

    constructor ()
      ensures Valid() && rows == [] && fresh(Repr)
    {
      head, nodes, rows, Repr := null, [], [], {};
    }

    /** The search for the row of a name: the row before it, the row at its place, and the comparison. */
    method FindOid(name: Oid) returns (prev: Node?, idx: Node?, res: int, ghost r: nat)
      requires Struct()
      ensures r == FindRow(rows, name) && idx == Head(nodes, r)
      ensures prev == if r == 0 then null else nodes[r - 1][0]
      ensures (res == 0 && idx != null) <==> (r < |rows| && RowName(rows[r]) == name)
      ensures idx == null <==> r == |rows|
      ensures idx == null ==> res > 0
    {
      prev, idx, res, r := null, head, 1, 0;
      while idx != null
        invariant 0 <= r <= |nodes| && idx == Head(nodes, r)
        invariant prev == if r == 0 then null else nodes[r - 1][0]
        invariant forall j :: 0 <= j < r ==> OidCompare(name, RowName(rows[j])) > 0
        invariant res > 0
        decreases |nodes| - r
      {
        assert Inside(nodes, r, 0) && idx == At(nodes, r, 0) && Linked(r, 0);
        res := OidCompare(name, idx.name);
        if res <= 0 {
          break;
        }
        prev, idx, r := idx, idx.nextOid, r + 1;
      }
      FirstIs(rows, (row: Row) => OidCompare(name, RowName(row)) <= 0, r);
    }

    /** The walk along a row to its end, or, when any value will do, to the first released one. */
    method FindFreeNode(first: Node, any: bool, ghost r: nat) returns (prev: Node?, idx: Node?, ghost c: nat)
      requires Struct() && r < |nodes| && first == nodes[r][0]
      ensures c == FreePlace(rows[r], any) && c <= |nodes[r]|
      ensures var p := FreePlace(rows[r], any);
        prev == (if p == 0 then null else nodes[r][p - 1]) && idx == if p < |nodes[r]| then nodes[r][p] else null
    {
      prev, idx, c := null, first, 0;
      while idx != null
        invariant 0 <= c <= |nodes[r]| && idx == (if c < |nodes[r]| then nodes[r][c] else null)
        invariant prev == if c == 0 then null else nodes[r][c - 1]
        invariant any ==> forall j :: 0 <= j < c ==> rows[r][j].held
        decreases |nodes[r]| - c
      {
        assert Inside(nodes, r, c) && idx == At(nodes, r, c) && Linked(r, c);
        if any && !idx.held {
          break;
        }
        prev, idx, c := idx, idx.nextIdx, c + 1;
      }
      if any {
        FirstIs(rows[r], (e: Entry) => !e.held, c);
      }
    }

    /** The search of a row for a value; the caller gives the comparison with it. */
    method FindNode(first: Node, cmp: Value -> int, ghost r: nat)
      returns (prev: Node?, idx: Node?, res: int, ghost c: nat)
      requires Struct() && r < |nodes| && first == nodes[r][0]
      ensures c == FindBy(rows[r], cmp) && c <= |nodes[r]|
      ensures prev == (if c == 0 then null else nodes[r][c - 1]) && idx == if c < |nodes[r]| then nodes[r][c] else null
      ensures if idx == null then res > 0 else res == cmp(idx.value)
    {
      prev, idx, res, c := null, first, 1, 0;
      while idx != null
        invariant 0 <= c <= |nodes[r]| && idx == (if c < |nodes[r]| then nodes[r][c] else null)
        invariant prev == if c == 0 then null else nodes[r][c - 1]
        invariant forall j :: 0 <= j < c ==> cmp(rows[r][j].value) > 0
        invariant res > 0
        decreases |nodes[r]| - c
      {
        assert Inside(nodes, r, c) && idx == At(nodes, r, c) && Linked(r, c);
        res := cmp(idx.value);
        if res <= 0 {
          break;
        }
        prev, idx, c := idx, idx.nextIdx, c + 1;
      }
      FirstIs(rows[r], (e: Entry) => cmp(e.value) <= 0, c);
    }

    /** Marking a node as held or released. */
    method Mark(n: Node, held: bool, session: Session, ghost r: nat, ghost c: nat)
      requires Struct() && Inside(nodes, r, c) && n == nodes[r][c]
      modifies this`rows, n`held, n`session
      ensures Struct()
      ensures rows == Update(old(rows), r, c, old(rows)[r][c].(held := held, session := session))
    {
      assert n == At(nodes, r, c) && Linked(r, c);
      n.held, n.session := held, session;
      rows := Update(rows, r, c, rows[r][c].(held := held, session := session));
      forall s, d | Inside(nodes, s, d) ensures Linked(s, d) {
        assert old(Linked(s, d));
        assert At(nodes, s, d) == n ==> s == r && d == c;
      }
    }

    /** Pointing every node of a row at the head of another row. */
    static method RedirectRow(ghost row: seq<Node>, first: Node?, target: Node?)
      requires first == if row == [] then null else row[0]
      requires forall c :: 0 <= c < |row| ==> row[c].nextIdx == Next(row, c)
      modifies row`nextOid
      ensures forall c :: 0 <= c < |row| ==> row[c].nextOid == target
    {
      var p := first;
      ghost var c := 0;
      while p != null
        invariant 0 <= c <= |row| && p == if c < |row| then row[c] else null
        invariant forall d :: 0 <= d < c ==> row[d].nextOid == target
        decreases |row| - c
      {
        p.nextOid := target;
        p, c := p.nextIdx, c + 1;
      }
    }

    /** Pointing whatever leads to row r - every node of the row before, or the list's head - elsewhere. */
    method RedirectBefore(prev: Node?, target: Node?, ghost r: nat)
      requires Struct() && r <= |nodes| && prev == if r == 0 then null else nodes[r - 1][0]
      modifies this`head, Repr`nextOid
      ensures head == if r == 0 then target else old(head)
      ensures forall s, d :: Inside(nodes, s, d) ==>
        var was := old(At(nodes, s, d).Holds());
        At(nodes, s, d).Holds() == if s + 1 == r then was.(nextOid := target) else was
    {
      if prev == null {
        head := target;
      } else {
        ghost var row := nodes[r - 1];
        forall c | 0 <= c < |row| ensures row[c].nextIdx == Next(row, c) && row[c] in Repr {
          assert Inside(nodes, r - 1, c) && Linked(r - 1, c) && At(nodes, r - 1, c) in Repr;
        }
        forall s, d | Inside(nodes, s, d) && s + 1 != r ensures At(nodes, s, d) !in row {
          forall c | 0 <= c < |row| ensures row[c] != At(nodes, s, d) {
            assert Inside(nodes, r - 1, c) && row[c] == At(nodes, r - 1, c);
          }
        }
        RedirectRow(row, prev, target);
      }
    }

    /** A new row of one node before row r. */
    method LinkRow(prev: Node?, idx: Node?, e: Entry, ghost r: nat)
      requires Struct() && r <= |nodes| && idx == Head(nodes, r)
      requires prev == if r == 0 then null else nodes[r - 1][0]
      modifies this, Repr
      ensures Struct() && rows == InsertRow(old(rows), r, e) && fresh(Repr - old(Repr))
    {
      var n := new Node(e);
      n.nextIdx, n.nextOid := null, idx;
      RedirectBefore(prev, n, r);
      forall s, d | Inside(nodes, s, d)
        ensures var was := Wanted(nodes, rows, s, d);
          At(nodes, s, d).Holds() == if s + 1 == r then was.(nextOid := n) else was
      {
        assert old(Linked(s, d));
      }
      RowLinkedIn(nodes, rows, r, n, e);
      InsertRowApart(nodes, r, n, Repr);
      InsertRowShape(nodes, rows, r, n, e);
      nodes, rows, Repr := InsertRow(nodes, r, n), InsertRow(rows, r, e), Repr + {n};
    }

    /** A new node in front of row r, to which whatever led to row r now leads. */
    method AddFront(prev: Node?, idx: Node, e: Entry, ghost r: nat) returns (n: Node)
      requires Struct() && r < |nodes| && idx == nodes[r][0]
      requires prev == if r == 0 then null else nodes[r - 1][0]
      modifies this`head, Repr`nextOid
      ensures fresh(n) && n.Holds() == Content(e, nodes[r][0], Head(nodes, r + 1))
      ensures head == if r == 0 then n else old(head)
      ensures forall s, d :: Inside(nodes, s, d) ==>
        var was := Wanted(nodes, rows, s, d);
        At(nodes, s, d).Holds() == if s + 1 == r then was.(nextOid := n) else was
    {
      assert Inside(nodes, r, 0) && Linked(r, 0);
      n := new Node(e);
      n.nextIdx, n.nextOid := idx, idx.nextOid;
      RedirectBefore(prev, n, r);
      forall s, d | Inside(nodes, s, d)
        ensures var was := Wanted(nodes, rows, s, d);
          At(nodes, s, d).Holds() == if s + 1 == r then was.(nextOid := n) else was
      {
        assert old(Linked(s, d));
      }
    }

    /** A new node before the first of row r. */
    method LinkFirst(prev: Node?, idx: Node, e: Entry, ghost r: nat)
      requires Struct() && r < |nodes| && idx == nodes[r][0]
      requires prev == if r == 0 then null else nodes[r - 1][0]
      modifies this, Repr
      ensures Struct() && rows == Insert(old(rows), r, 0, e) && fresh(Repr - old(Repr))
    {
      var n := AddFront(prev, idx, e, r);
      NodeLinkedIn(nodes, rows, r, 0, n, e);
      InsertApart(nodes, r, 0, n, Repr);
      InsertShape(nodes, rows, r, 0, n, e);
      nodes, rows, Repr := Insert(nodes, r, 0, n), Insert(rows, r, 0, e), Repr + {n};
    }

    /** A new node behind another one. */
    method LinkAfter(prev: Node, e: Entry, ghost r: nat, ghost c: nat)
      requires Struct() && 0 < c && Inside(nodes, r, c - 1) && prev == nodes[r][c - 1]
      modifies this, Repr
      ensures Struct() && rows == Insert(old(rows), r, c, e) && fresh(Repr - old(Repr))
    {
      assert Linked(r, c - 1) && prev == At(nodes, r, c - 1);
      var n := new Node(e);
      n.nextIdx, n.nextOid := prev.nextIdx, prev.nextOid;
      prev.nextIdx := n;
      forall s, d | Inside(nodes, s, d)
        ensures var was := Wanted(nodes, rows, s, d);
          At(nodes, s, d).Holds() == if s == r && d + 1 == c then was.(nextIdx := n) else was
      {
        assert old(Linked(s, d));
      }
      NodeLinkedIn(nodes, rows, r, c, n, e);
      InsertApart(nodes, r, c, n, Repr);
      InsertShape(nodes, rows, r, c, n, e);
      nodes, rows, Repr := Insert(nodes, r, c, n), Insert(rows, r, c, e), Repr + {n};
    }

    /** Taking out the node behind another one of its row. */
    method UnlinkAfter(prev: Node, n: Node, ghost r: nat, ghost c: nat)
      requires Struct() && 0 < c && Inside(nodes, r, c) && n == nodes[r][c] && prev == nodes[r][c - 1]
      modifies this`nodes, this`rows, prev
      ensures Struct() && rows == Remove(old(rows), r, c)
    {
      assert Linked(r, c) && n == At(nodes, r, c);
      assert Inside(nodes, r, c - 1) && Linked(r, c - 1) && prev == At(nodes, r, c - 1);
      prev.nextIdx := n.nextIdx;
      RemoveApart(nodes, r, c, Repr);
      RemoveShape(nodes, rows, r, c);
      nodes, rows := Remove(nodes, r, c), Remove(rows, r, c);
      forall s, d | Inside(nodes, s, d) ensures Linked(s, d) {
        RemoveAt(old(nodes), r, c, s, d);
        RemoveWanted(old(nodes), old(rows), r, c, s, d);
        assert old(Linked(s, if s == r && d >= c then d + 1 else d));
      }
    }

    /** Taking out the first node of a row that has another one, which takes its place. */
    method UnlinkFirst(prev: Node?, n: Node, ghost r: nat)
      requires Struct() && r < |nodes| && n == nodes[r][0] && |nodes[r]| > 1
      requires prev == if r == 0 then null else nodes[r - 1][0]
      modifies this`head, this`nodes, this`rows, Repr
      ensures Struct() && rows == Remove(old(rows), r, 0)
    {
      assert Inside(nodes, r, 0) && Linked(r, 0) && n == At(nodes, r, 0);
      RedirectBefore(prev, n.nextIdx, r);
      RemoveApart(nodes, r, 0, Repr);
      RemoveShape(nodes, rows, r, 0);
      nodes, rows := Remove(nodes, r, 0), Remove(rows, r, 0);
      forall s, d | Inside(nodes, s, d) ensures Linked(s, d) {
        RemoveAt(old(nodes), r, 0, s, d);
        RemoveWanted(old(nodes), old(rows), r, 0, s, d);
        assert old(Linked(s, if s == r then d + 1 else d));
      }
    }

    /** Taking out the only node of a row: the next row takes its place. */
    method UnlinkRow(prev: Node?, n: Node, ghost r: nat)
      requires Struct() && r < |nodes| && nodes[r] == [n]
      requires prev == if r == 0 then null else nodes[r - 1][0]
      modifies this`head, this`nodes, this`rows, Repr
      ensures Struct() && rows == Remove(old(rows), r, 0)
    {
      assert Inside(nodes, r, 0) && Linked(r, 0) && n == At(nodes, r, 0);
      RedirectBefore(prev, n.nextOid, r);
      RemoveRowApart(nodes, r, Repr);
      RemoveShape(nodes, rows, r, 0);
      nodes, rows := Remove(nodes, r, 0), Remove(rows, r, 0);
      forall s, d | Inside(nodes, s, d) ensures Linked(s, d) {
        RemoveRowAt(old(nodes), r, s, d);
        RemoveRowWanted(old(nodes), old(rows), r, s, d);
        assert old(Linked(if s < r then s else s + 1, d));
      }
    }

    /** Linking a new entry in, wherever the searches have found its place. */
    method Link(prevOid: Node?, idx: Node?, prevIdx: Node?, found: bool, e: Entry, ghost r: nat, ghost c: nat)
      requires Struct() && r <= |nodes| && idx == Head(nodes, r) && (found ==> r < |nodes| && c <= |nodes[r]|)
      requires prevOid == if r == 0 then null else nodes[r - 1][0]
      requires prevIdx == if found && c > 0 then nodes[r][c - 1] else null
      modifies this, Repr
      ensures Struct() && fresh(Repr - old(Repr))
      ensures rows == if found then Insert(old(rows), r, c, e) else InsertRow(old(rows), r, e)
    {
      if prevIdx != null {
        LinkAfter(prevIdx, e, r, c);
      } else if found {
        LinkFirst(prevOid, idx, e, r);
      } else {
        LinkRow(prevOid, idx, e, r);
      }
    }

    /** The value of a new entry behind a node of its row, or in a new row. */
    method NewValue(prevIdx: Node?, kind: Kind, rollover: Value, ghost row: Row) returns (v: Option<Value>)
      requires row != [] ==> GoodRow(row) && row[0].kind == kind
      requires row == [] ==> prevIdx == null
      requires row != [] ==> prevIdx != null && prevIdx.AsEntry() == row[|row| - 1]
      ensures v == NextValue(kind, row, rollover)
    {
      match kind
      case Integer =>
        v := Some(if prevIdx != null then IntVal(prevIdx.value.n + 1) else IntVal(1));
      case Other =>
        v := None;
      case _ =>
        v := Some(rollover);
    }

    /** register_index, for a name that has a row and a value that was asked for. */
    method RegisterThis(prevOid: Node?, idx: Node, q: Request, ss: Session, ghost r: nat) returns (rv: Option<Value>)
      requires Struct() && r < |nodes| && idx == nodes[r][0] && q.kind == rows[r][0].kind
      requires prevOid == if r == 0 then null else nodes[r - 1][0]
      modifies this, Repr
      ensures Struct() && fresh(Repr - old(Repr))
      ensures forall rollover :: (rv, rows) == RegisterInRow(old(rows), r, q, This, ss, rollover)
    {
      if q.kind == Other {
        return None;
      }
      var prevIdx, idx2, res, c := FindNode(idx, w => Compare(q.kind, q.value, w), r);
      FindByValue(rows[r], q.kind, q.value);
      if idx2 != null && res == 0 {
        assert Inside(nodes, r, c) && Linked(r, c) && idx2 == At(nodes, r, c);
        if idx2.held {
          return None;
        }
        Mark(idx2, true, ss, r, c);
        return Some(idx2.value);
      }
      assert idx2 != null ==> Inside(nodes, r, c) && Linked(r, c) && idx2 == At(nodes, r, c);
      Link(prevOid, idx, prevIdx, true, Entry(q.name, q.kind, q.value, true, ss), r, c);
      return Some(q.value);
    }

    /** register_index, for a name that has a row and a value that the registry chooses. */
    method RegisterAny(prevOid: Node?, idx: Node, q: Request, mode: Mode, ss: Session, rollover: Value, ghost r: nat)
      returns (rv: Option<Value>)
      requires Struct() && r < |nodes| && idx == nodes[r][0] && q.kind == rows[r][0].kind && mode != This
      requires prevOid == (if r == 0 then null else nodes[r - 1][0]) && GoodRow(rows[r])
      modifies this, Repr
      ensures Struct() && fresh(Repr - old(Repr))
      ensures (rv, rows) == RegisterInRow(old(rows), r, q, mode, ss, rollover)
    {
      var prevIdx, idx2, c := FindFreeNode(idx, mode == Any, r);
      if idx2 != null {
        assert Inside(nodes, r, c) && Linked(r, c) && idx2 == At(nodes, r, c);
        Mark(idx2, true, ss, r, c);
        return Some(idx2.value);
      }
      assert Inside(nodes, r, c - 1) && Linked(r, c - 1) && prevIdx == At(nodes, r, c - 1);
      rv := NewValue(prevIdx, q.kind, rollover, rows[r]);
      if rv.Some? {
        Link(prevOid, idx, prevIdx, true, Entry(q.name, q.kind, rv.value, true, ss), r, c);
      }
    }

    /** register_index, for a name that has a row. */
    method RegisterFound(prevOid: Node?, idx: Node, q: Request, mode: Mode, ss: Session, rollover: Value, ghost r: nat)
      returns (rv: Option<Value>)
      requires Struct() && r < |nodes| && idx == nodes[r][0] && GoodRow(rows[r])
      requires prevOid == if r == 0 then null else nodes[r - 1][0]
      modifies this, Repr
      ensures Struct() && fresh(Repr - old(Repr))
      ensures (rv, rows) == RegisterInRow(old(rows), r, q, mode, ss, rollover)
    {
      assert Inside(nodes, r, 0) && Linked(r, 0) && idx == At(nodes, r, 0);
      if q.kind != idx.kind {
        return None;
      }
      if mode == This {
        rv := RegisterThis(prevOid, idx, q, ss, r);
      } else {
        rv := RegisterAny(prevOid, idx, q, mode, ss, rollover, r);
      }
    }

    /** register_index.  The list stays sorted if the search for an integer that is asked for is fair, and a value that
        is made up fits its kind. */
    method Register(q: Request, mode: Mode, ss: Session, rollover: Value) returns (rv: Option<Value>)
      requires Valid()
      modifies this, Repr
      ensures Struct() && fresh(Repr - old(Repr)) && (old(Acceptable(rows, q, mode, rollover)) ==> Valid())
      ensures (rv, rows) == IndexSpec.Register(old(rows), q, mode, ss, rollover)
    {
      RegisterKeeps(rows, q, mode, ss, rollover);
      var prevOid, idx, res, r := FindOid(q.name);
      if res == 0 && idx != null {
        rv := RegisterFound(prevOid, idx, q, mode, ss, rollover, r);
      } else {
        rv := RegisterAbsent(prevOid, idx, q, mode, ss, rollover, r);
      }
    }

    /** register_index, for a name that has no row. */
    method RegisterAbsent(prevOid: Node?, idx: Node?, q: Request, mode: Mode, ss: Session, rollover: Value,
                          ghost r: nat)
      returns (rv: Option<Value>)
      requires Struct() && r <= |nodes| && idx == Head(nodes, r)
      requires prevOid == if r == 0 then null else nodes[r - 1][0]
      modifies this, Repr
      ensures Struct() && fresh(Repr - old(Repr))
      ensures (rv, rows) == RegisterNewRow(old(rows), r, q, mode, ss, rollover)
    {
      rv := Some(q.value);
      if mode != This {
        rv := NewValue(null, q.kind, rollover, []);
      }
      if rv.Some? {
        Link(prevOid, idx, null, false, Entry(q.name, q.kind, rv.value, true, ss), r, 0);
      }
    }

    /** Taking out a node, wherever the searches have found it. */
    method Unlink(prevOid: Node?, prevIdx: Node?, n: Node, ghost r: nat, ghost c: nat)
      requires Struct() && Inside(nodes, r, c) && n == nodes[r][c]
      requires prevOid == if r == 0 then null else nodes[r - 1][0]
      requires prevIdx == if c == 0 then null else nodes[r][c - 1]
      modifies this, Repr
      ensures Struct() && Repr == old(Repr) && rows == Remove(old(rows), r, c)
    {
      if prevIdx != null {
        assert Inside(nodes, r, c - 1) && At(nodes, r, c - 1) in Repr;
        UnlinkAfter(prevIdx, n, r, c);
      } else {
        assert Inside(nodes, r, 0) && Linked(r, 0) && n == At(nodes, r, 0);
        if n.nextIdx != null {
          UnlinkFirst(prevOid, n, r);
        } else {
          UnlinkRow(prevOid, n, r);
        }
      }
    }

    /** unregister_index, for a name that has a row. */
    method UnregisterFound(prevOid: Node?, idx: Node, q: Request, remember: bool, ss: Session, ghost r: nat)
      returns (err: Error)
      requires Struct() && r < |nodes| && idx == nodes[r][0]
      requires prevOid == if r == 0 then null else nodes[r - 1][0]
      modifies this, Repr
      ensures Struct() && Repr == old(Repr) && (err, rows) == UnregisterInRow(old(rows), r, q, remember, ss)
    {
      assert Inside(nodes, r, 0) && Linked(r, 0) && idx == At(nodes, r, 0);
      if q.kind != idx.kind {
        return WrongType;
      }
      var prevIdx, idx2, res, c := FindNode(idx, w => CompareRaw(q.value, w), r);
      FindByRaw(rows[r], q.value);
      if idx2 == null {
        return NotAllocated;
      }
      assert Inside(nodes, r, c) && Linked(r, c) && idx2 == At(nodes, r, c);
      if res != 0 || !idx2.held {
        return NotAllocated;
      }
      if ss != idx2.session {
        return WrongSession;
      }
      if remember {
        Mark(idx2, false, 0, r, c);
      } else {
        Unlink(prevOid, prevIdx, idx2, r, c);
      }
      return NoError;
    }

    /** unregister_index. */
    method Unregister(q: Request, remember: bool, ss: Session) returns (err: Error)
      requires Valid()
      modifies this, Repr
      ensures Valid() && Repr == old(Repr)
      ensures (err, rows) == IndexSpec.Unregister(old(rows), q, remember, ss)
    {
      UnregisterKeeps(rows, q, remember, ss);
      var prevOid, idx, res, r := FindOid(q.name);
      if res != 0 {
        return NotAllocated;
      }
      err := UnregisterFound(prevOid, idx, q, remember, ss, r);
    }

    /** The inner loop of unregister_index_by_session. */
    method DropRow(first: Node, ss: Session, ghost r: nat)
      requires Struct() && r < |nodes| && first == nodes[r][0]
      modifies this`rows, Repr`held, Repr`session
      ensures Struct() && rows == old(rows)[r := DropInRow(old(rows)[r], ss)]
    {
      var idx: Node? := first;
      ghost var c := 0;
      ghost var row := rows[r];
      while idx != null
        invariant Struct() && 0 <= c <= |row| == |rows[r]| && idx == if c < |row| then nodes[r][c] else null
        invariant rows == old(rows)[r := rows[r]]
        invariant forall d :: 0 <= d < |row| ==> rows[r][d] == if d < c then DropInRow(row, ss)[d] else row[d]
        decreases |row| - c
      {
        assert Inside(nodes, r, c) && Linked(r, c) && idx == At(nodes, r, c) && idx in Repr;
        if idx.session == ss {
          Mark(idx, false, 0, r, c);
        }
        assert Linked(r, c);
        idx, c := idx.nextIdx, c + 1;
      }
      assert rows[r] == DropInRow(row, ss);
    }

    /** unregister_index_by_session. */
    method DropSession(ss: Session)
      requires Valid()
      modifies this`rows, Repr`held, Repr`session
      ensures Valid() && rows == IndexSpec.DropSession(old(rows), ss)
    {
      DropKeeps(rows, ss);
      var idx := head;
      ghost var r := 0;
      while idx != null
        invariant Struct() && 0 <= r <= |nodes| && |rows| == |old(rows)| && idx == Head(nodes, r)
        invariant forall s :: 0 <= s < |rows| ==> rows[s] == if s < r then DropInRow(old(rows)[s], ss) else old(rows)[s]
        decreases |nodes| - r
      {
        DropRow(idx, ss, r);
        assert Inside(nodes, r, 0) && Linked(r, 0) && idx == At(nodes, r, 0);
        idx, r := idx.nextOid, r + 1;
      }
      assert rows == IndexSpec.DropSession(old(rows), ss);
    }

    /** The inner loop of count_indexes. */
    method CountFrom(first: Node, all: bool, ghost r: nat) returns (n: nat)
      requires Struct() && r < |nodes| && first == nodes[r][0]
      ensures n == CountRow(rows[r], all)
    {
      var idx: Node? := first;
      ghost var c := 0;
      n := 0;
      while idx != null
        invariant 0 <= c <= |nodes[r]| && idx == (if c < |nodes[r]| then nodes[r][c] else null)
        invariant n == CountRow(rows[r][..c], all)
        decreases |nodes[r]| - c
      {
        assert Inside(nodes, r, c) && Linked(r, c) && idx == At(nodes, r, c);
        assert rows[r][..c + 1][..c] == rows[r][..c];
        if idx.held || all {
          n := n + 1;
        }
        idx, c := idx.nextIdx, c + 1;
      }
      assert rows[r][..c] == rows[r];
    }

    /** count_indexes. */
    method Count(name: Oid, all: bool) returns (n: nat)
      requires Valid()
      ensures n == IndexSpec.Count(rows, name, all)
    {
      var idx := head;
      ghost var r := 0;
      n := 0;
      while idx != null
        invariant 0 <= r <= |nodes| && idx == Head(nodes, r)
        invariant n == IndexSpec.Count(rows[..r], name, all)
        decreases |nodes| - r
      {
        assert Inside(nodes, r, 0) && Linked(r, 0) && idx == At(nodes, r, 0);
        assert rows[..r + 1][..r] == rows[..r];
        if idx.name == name {
          var more := CountFrom(idx, all, r);
          n := n + more;
        }
        idx, r := idx.nextOid, r + 1;
      }
      assert rows[..r] == rows;
    }
  }
}
