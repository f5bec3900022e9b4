/** The server's side of an STS message, statement by statement on the database, with sectors and
    clients as values of any type.

    A SELECT returns the rows in an order the program does not control, and the program's maps are
    iterated in key order; here both orders are left open, so what is proved holds for every order. */
module OldiServer {
  import opened Collections
  import opened OldiText
  import opened OldiTable

  /** A row of one client: its sector and status. */
  datatype Entry<N> = Entry(sector: N, status: int)

  // ---------------------------------------------------------------- SQL statements

  /** The INSERTs of a client's sectors up to the first one that fails: did all succeed, and the table. */
  function Insertion<N(==)>(db0: Table<N>, client: N, sectors: seq<N>): (bool, Table<N>) {
    if sectors == [] then (true, db0)
    else
      var (ok, db) := Insertion(db0, client, sectors[..|sectors| - 1]);
      var s := sectors[|sectors| - 1];
      if !ok || s in db then (false, db) else (true, db[s := Row(client, if |sectors| == 1 then 1 else 2)])
  }

  /** The INSERT loop of a claim; it stops at the first sector that is taken. */
  method InsertRows<N(==)>(db0: Table<N>, c: Claim<N>) returns (ok: bool, db: Table<N>)
    requires c.client !in Owners(db0)
    ensures ok == Insertable(db0, c)
    ensures ok ==> db == db0 + Rows(c)
    ensures WithoutClient(db, c.client) == db0
  {
    InsertionResult(db0, c.client, c.sectors);
    db := db0;
    ok := true;
    var i := 0;
    while i < |c.sectors| && ok
      invariant 0 <= i <= |c.sectors|
      invariant (ok, db) == Insertion(db0, c.client, c.sectors[..i])
      decreases |c.sectors| - i, ok
    {
      assert c.sectors[..i + 1][..i] == c.sectors[..i];
      if c.sectors[i] in db {
        ok := false;
      } else {
        db := db[c.sectors[i] := Row(c.client, if i == 0 then 1 else 2)];
      }
      i := i + 1;
    }
    InsertionStuck(db0, c.client, c.sectors, i);
    assert c.sectors[..|c.sectors|] == c.sectors;
  }

  lemma {:induction false} InsertionStuck<N>(db0: Table<N>, client: N, sectors: seq<N>, i: nat)
    requires i <= |sectors|
    ensures !Insertion(db0, client, sectors[..i]).0 ==>
      Insertion(db0, client, sectors) == Insertion(db0, client, sectors[..i])
    decreases |sectors|
  {
    if i < |sectors| {
      var most := sectors[..|sectors| - 1];
      InsertionStuck(db0, client, most, i);
      assert most[..i] == sectors[..i];
    } else {
      assert sectors[..i] == sectors;
    }
  }

  lemma {:induction false} InsertionMeans<N>(db0: Table<N>, client: N, sectors: seq<N>)
    ensures Insertion(db0, client, sectors).0 == Insertable(db0, Claim(client, sectors))
    ensures Insertable(db0, Claim(client, sectors)) ==>
      Insertion(db0, client, sectors).1 == db0 + Rows(Claim(client, sectors))
  {
    if sectors != [] {
      var n := |sectors| - 1;
      var most := sectors[..n];
      InsertionMeans(db0, client, most);
      assert sectors[..n + 1] == sectors;
      if Insertable(db0, Claim(client, most)) {
        if sectors[n] in db0 + Rows(Claim(client, most)) {
          CollisionFound(db0, Claim(client, sectors), n);
        } else {
          InsertOneMore(db0, Claim(client, sectors), n);
        }
      } else {
        PrefixInsertable(db0, client, sectors, n);
      }
    }
  }

  lemma PrefixInsertable<N>(db0: Table<N>, client: N, sectors: seq<N>, n: nat)
    requires n <= |sectors|
    ensures Insertable(db0, Claim(client, sectors)) ==> Insertable(db0, Claim(client, sectors[..n]))
  {
  }

  lemma {:induction false} InsertionOwn<N>(db0: Table<N>, client: N, sectors: seq<N>)
    requires client !in Owners(db0)
    ensures WithoutClient(Insertion(db0, client, sectors).1, client) == db0
  {
    NoRows(db0, client);
    if sectors != [] {
      InsertionOwn(db0, client, sectors[..|sectors| - 1]);
    }
  }

  lemma InsertionResult<N>(db0: Table<N>, client: N, sectors: seq<N>)
    requires client !in Owners(db0)
    ensures var (ok, db) := Insertion(db0, client, sectors);
      && ok == Insertable(db0, Claim(client, sectors))
      && (ok ==> db == db0 + Rows(Claim(client, sectors)))
      && WithoutClient(db, client) == db0
  {
    InsertionMeans(db0, client, sectors);
    InsertionOwn(db0, client, sectors);
  }

  /** A sector that is taken, by another client or earlier in the claim, makes the claim fail. */
  lemma CollisionFound<N>(db0: Table<N>, c: Claim<N>, i: nat)
    requires i < |c.sectors| && c.sectors[i] in db0 + Rows(Claim(c.client, c.sectors[..i]))
    ensures !Insertable(db0, c)
  {
    assert c.sectors[i] in c.sectors;
  }

  lemma StillInsertable<N>(db0: Table<N>, c: Claim<N>, i: nat)
    requires i < |c.sectors| && Insertable(db0, Claim(c.client, c.sectors[..i]))
    requires c.sectors[i] !in db0 && c.sectors[i] !in c.sectors[..i]
    ensures Insertable(db0, Claim(c.client, c.sectors[..i + 1]))
  {
    var longer := c.sectors[..i + 1];
    assert longer == c.sectors[..i] + [c.sectors[i]];
    forall j, k | 0 <= j < k < |longer| ensures longer[j] != longer[k] {
      assert longer[j] == c.sectors[..i][j];
      if k < i { assert longer[k] == c.sectors[..i][k]; }
    }
  }

  lemma UpdateOfSum<N>(t: Table<N>, x: Table<N>, s: N, row: Row<N>)
    ensures t + x[s := row] == (t + x)[s := row]
  {
  }

  lemma InsertOneMore<N>(db0: Table<N>, c: Claim<N>, i: nat)
    requires i < |c.sectors| && Insertable(db0, Claim(c.client, c.sectors[..i]))
    requires c.sectors[i] !in db0 + Rows(Claim(c.client, c.sectors[..i]))
    ensures Insertable(db0, Claim(c.client, c.sectors[..i + 1]))
    ensures db0 + Rows(Claim(c.client, c.sectors[..i + 1]))
         == (db0 + Rows(Claim(c.client, c.sectors[..i])))[c.sectors[i] := Row(c.client, if i == 0 then 1 else 2)]
  {
    var done := Claim(c.client, c.sectors[..i]);
    assert Rows(done).Keys == Elements(done.sectors);
    StillInsertable(db0, c, i);
    RowsAppend(c, i);
    UpdateOfSum(db0, Rows(done), c.sectors[i], Row(c.client, if i == 0 then 1 else 2));
  }

  lemma NoRows<N>(t: Table<N>, client: N)
    requires client !in Owners(t)
    ensures forall s :: s in t ==> t[s].client != client
  {
    forall s | s in t ensures t[s].client != client {
      assert t[s].client in Owners(t);
    }
  }

  lemma RowsAppend<N>(c: Claim<N>, i: nat)
    requires i < |c.sectors| && c.sectors[i] !in c.sectors[..i]
    ensures Rows(Claim(c.client, c.sectors[..i + 1]))
         == Rows(Claim(c.client, c.sectors[..i]))[c.sectors[i] := Row(c.client, if i == 0 then 1 else 2)]
  {
    assert c.sectors[..i + 1] == c.sectors[..i] + [c.sectors[i]];
  }

  /** SELECT of the whole table ORDER BY status. */
  method SelectByStatus<N(==)>(db: Table<N>) returns (sectors: seq<N>)
    ensures Distinct(sectors) && Elements(sectors) == db.Keys
    ensures forall i, j :: 0 <= i < j < |sectors| ==> db[sectors[i]].status <= db[sectors[j]].status
  {
    sectors := [];
    var left := db.Keys;
    while left != {}
      invariant Distinct(sectors) && left <= db.Keys
      invariant forall s :: s in sectors <==> s in db.Keys && s !in left
      invariant forall i, j :: 0 <= i < j < |sectors| ==> db[sectors[i]].status <= db[sectors[j]].status
      invariant forall i, s :: 0 <= i < |sectors| && s in left ==> db[sectors[i]].status <= db[s].status
    {
      var s := LeastStatus(db, left);
      left := left - {s};
      sectors := sectors + [s];
    }
  }

  method LeastStatus<N(==)>(db: Table<N>, left: set<N>) returns (least: N)
    requires left != {} && left <= db.Keys
    ensures least in left && forall s :: s in left ==> db[least].status <= db[s].status
  {
    least :| least in left;
    var rest := left - {least};
    while rest != {}
      invariant rest <= left && least in left
      invariant forall s :: s in left && s !in rest ==> db[least].status <= db[s].status
    {
      var s :| s in rest;
      rest := rest - {s};
      if db[s].status < db[least].status {
        least := s;
      }
    }
  }

  // ---------------------------------------------------------------- the forced takeover

  /** The rows of one client among the sectors seen so far, each once. */
  ghost predicate Lists<N(!new)>(db: Table<N>, seen: set<N>, client: N, list: seq<Entry<N>>) {
    && (forall i, j :: 0 <= i < j < |list| ==> list[i] != list[j])
    && (forall e :: e in list <==> e.sector in seen && e.sector in db && db[e.sector] == Row(client, e.status))
  }

  /** No entry has a lesser status than the first one. */
  predicate LeastFirst<N>(list: seq<Entry<N>>) {
    forall i :: 0 <= i < |list| ==> list[0].status <= list[i].status
  }

  /** A new entry goes to the front if the first one has a greater status, and to the end otherwise. */
  function Placed<N(==)>(list: seq<Entry<N>>, e: Entry<N>): (longer: seq<Entry<N>>)
    ensures LeastFirst(list) ==> LeastFirst(longer)
  {
    if |list| > 0 && list[0].status > e.status then [e] + list else list + [e]
  }

  ghost predicate Grouped<N(!new)>(db: Table<N>, seen: set<N>, byClient: map<N, seq<Entry<N>>>) {
    && (forall c :: c in byClient ==> Lists(db, seen, c, byClient[c]))
    && (forall c :: c in byClient ==> LeastFirst(byClient[c]))
    && (forall s :: s in seen && s in db ==> db[s].client in byClient)
    && byClient.Keys <= Owners(db)
  }

  /** The rows of each client, one with the least status first. */
  method GroupByClient<N(==,!new)>(db: Table<N>) returns (byClient: map<N, seq<Entry<N>>>)
    ensures Grouped(db, db.Keys, byClient)
  {
    var sectors := Enumerate(db.Keys);
    byClient := map[];
    var i := 0;
    while i < |sectors|
      invariant 0 <= i <= |sectors|
      invariant Grouped(db, Elements(sectors[..i]), byClient)
    {
      var s := sectors[i];
      NextSector(db, sectors, i);
      var client, e := db[s].client, Entry(s, db[s].status);
      var list := if client in byClient then byClient[client] else [];
      GroupedOneMore(db, Elements(sectors[..i]), byClient, list, e);
      byClient := byClient[client := Placed(list, e)];
      i := i + 1;
    }
    assert sectors[..i] == sectors;
  }

  lemma NextSector<N>(db: Table<N>, sectors: seq<N>, i: nat)
    requires Distinct(sectors) && Elements(sectors) == db.Keys && i < |sectors|
    ensures sectors[i] in db && sectors[i] !in Elements(sectors[..i])
    ensures Elements(sectors[..i + 1]) == Elements(sectors[..i]) + {sectors[i]}
  {
    assert sectors[i] in Elements(sectors);
    assert sectors[..i + 1] == sectors[..i] + [sectors[i]];
  }

  lemma GroupedOneMore<N(!new)>(db: Table<N>, seen: set<N>, byClient: map<N, seq<Entry<N>>>, list: seq<Entry<N>>,
                                e: Entry<N>)
    requires Grouped(db, seen, byClient) && e.sector in db && e.sector !in seen
    requires e.status == db[e.sector].status
    requires list == if db[e.sector].client in byClient then byClient[db[e.sector].client] else []
    ensures Grouped(db, seen + {e.sector}, byClient[db[e.sector].client := Placed(list, e)])
  {
    var client, longer := db[e.sector].client, Placed(list, e);
    ListsOneMore(db, seen, client, list, e, longer);
    assert client in Owners(db);
    forall c | c in byClient && c != client ensures Lists(db, seen + {e.sector}, c, byClient[c]) {
      assert Lists(db, seen, c, byClient[c]);
    }
  }

  lemma ListsOneMore<N(!new)>(db: Table<N>, seen: set<N>, client: N, list: seq<Entry<N>>, e: Entry<N>,
                              longer: seq<Entry<N>>)
    requires (list == [] && forall s :: s in seen && s in db ==> db[s].client != client)
      || Lists(db, seen, client, list)
    requires e.sector in db && e.sector !in seen && db[e.sector] == Row(client, e.status)
    requires longer == [e] + list || longer == list + [e]
    ensures Lists(db, seen + {e.sector}, client, longer)
  {
    assert forall x :: x in longer <==> x == e || x in list;
    assert e !in list;
    forall i, j | 0 <= i < j < |longer| ensures longer[i] != longer[j] {
    }
  }

  /** A primary row of the list is asked for. */
  predicate Hit<N(==)>(list: seq<Entry<N>>, asked: seq<N>) {
    exists e :: e in list && e.sector in asked && e.status == 1
  }

  lemma InEither<T>(list: seq<T>, lost: seq<T>, kept: seq<T>, e: T)
    requires multiset(lost) + multiset(kept) == multiset(list)
    ensures e in list <==> e in lost || e in kept
  {
    assert e in list <==> e in multiset(list);
    assert e in multiset(list) <==> e in multiset(lost) || e in multiset(kept);
  }

  lemma MovedOver<T>(lost: seq<T>, kept: seq<T>, i: nat)
    requires i < |kept|
    ensures multiset(lost + [kept[i]]) + multiset(kept[..i] + kept[i + 1..]) == multiset(lost) + multiset(kept)
  {
    assert kept == kept[..i] + [kept[i]] + kept[i + 1..];
  }

  /** The loop over one client's rows that erases what is asked for, and everything once a primary
      row is asked for. */
  method StripClient<N(==)>(list: seq<Entry<N>>, asked: seq<N>) returns (lost: seq<Entry<N>>, kept: seq<Entry<N>>)
    ensures multiset(lost) + multiset(kept) == multiset(list)
    ensures forall e :: e in lost ==> e.sector in asked || Hit(list, asked)
    ensures forall e :: e in kept ==> e.sector !in asked && !Hit(list, asked)
  {
    lost, kept := [], list;
    var i := 0;
    while i < |kept|
      invariant 0 <= i <= |kept|
      invariant multiset(lost) + multiset(kept) == multiset(list)
      invariant forall j :: 0 <= j < i ==> kept[j].sector !in asked
      invariant forall e :: e in lost ==> e.sector in asked || Hit(list, asked)
      invariant kept != [] ==> forall e :: e in lost ==> e.status != 1
      decreases |kept| - i
    {
      if kept[i].sector in asked {
        if kept[i].status == 1 {
          InEither(list, lost, kept, kept[i]);
          lost := lost + kept;
          kept := [];
          i := 0;
        } else {
          MovedOver(lost, kept, i);
          lost := lost + [kept[i]];
          kept := kept[..i] + kept[i + 1..];
        }
      } else {
        i := i + 1;
      }
    }
    if kept != [] && Hit(list, asked) {
      var h :| h in list && h.sector in asked && h.status == 1;
      InEither(list, lost, kept, h);
      assert false;
    }
  }

  /** A row to delete. */
  datatype Loss<N> = Loss(client: N, sector: N, status: int)

  predicate IsLoss<N(==)>(db: Table<N>, asked: seq<N>, l: Loss<N>) {
    l.sector in Lost(db, asked) && db[l.sector] == Row(l.client, l.status)
  }

  /** The rows that the given clients lose, each once. */
  ghost predicate Losses<N(!new)>(db: Table<N>, asked: seq<N>, clients: set<N>, losses: seq<Loss<N>>) {
    && (forall l :: l in losses <==> IsLoss(db, asked, l) && l.client in clients)
    && (forall i, j :: 0 <= i < j < |losses| ==> losses[i] != losses[j])
  }

  lemma HitIsStripped<N(!new)>(db: Table<N>, client: N, list: seq<Entry<N>>, asked: seq<N>)
    requires Lists(db, db.Keys, client, list)
    ensures Hit(list, asked) <==> Stripped(db, client, asked)
  {
    if Stripped(db, client, asked) {
      var p :| p in asked && IsPrimary(db, p, client);
      assert Entry(p, 1) in list;
    }
  }

  lemma LostOfClient<N(!new)>(db: Table<N>, client: N, list: seq<Entry<N>>, asked: seq<N>,
                              lost: seq<Entry<N>>, kept: seq<Entry<N>>)
    requires Lists(db, db.Keys, client, list) && multiset(lost) + multiset(kept) == multiset(list)
    requires forall e :: e in lost ==> e.sector in asked || Hit(list, asked)
    requires forall e :: e in kept ==> e.sector !in asked && !Hit(list, asked)
    ensures forall e :: e in lost ==> e.sector in Lost(db, asked) && db[e.sector] == Row(client, e.status)
    ensures forall s :: s in Lost(db, asked) && db[s].client == client ==> Entry(s, db[s].status) in lost
    ensures forall i, j :: 0 <= i < j < |lost| ==> lost[i] != lost[j]
  {
    HitIsStripped(db, client, list, asked);
    forall e | e in lost ensures e.sector in Lost(db, asked) && db[e.sector] == Row(client, e.status) {
      InEither(list, lost, kept, e);
    }
    forall s | s in Lost(db, asked) && db[s].client == client ensures Entry(s, db[s].status) in lost {
      var e := Entry(s, db[s].status);
      assert e in list;
      InEither(list, lost, kept, e);
    }
    OnceInPart(list, lost, kept);
  }

  lemma CountsTwice<T>(xs: seq<T>, i: nat, j: nat)
    requires i < j < |xs| && xs[i] == xs[j]
    ensures multiset(xs)[xs[i]] >= 2
  {
    assert xs == xs[..i] + [xs[i]] + xs[i + 1..j] + [xs[j]] + xs[j + 1..];
  }

  lemma OnceInPart<N(!new)>(list: seq<Entry<N>>, lost: seq<Entry<N>>, kept: seq<Entry<N>>)
    requires forall i, j :: 0 <= i < j < |list| ==> list[i] != list[j]
    requires multiset(lost) + multiset(kept) == multiset(list)
    ensures forall i, j :: 0 <= i < j < |lost| ==> lost[i] != lost[j]
  {
    forall i, j | 0 <= i < j < |lost| ensures lost[i] != lost[j] {
      AtMostOnce(list, lost[i]);
      if lost[i] == lost[j] {
        CountsTwice(lost, i, j);
        assert false;
      }
    }
  }

  lemma {:induction false} AtMostOnce<N(!new)>(list: seq<N>, e: N)
    requires forall i, j :: 0 <= i < j < |list| ==> list[i] != list[j]
    ensures multiset(list)[e] <= 1
  {
    if list != [] {
      var rest := list[1..];
      AtMostOnce(rest, e);
      assert list == [list[0]] + rest;
      if list[0] == e {
        assert e !in rest;
        assert e !in multiset(rest);
      }
    }
  }

  function LossesOf<N>(client: N, rows: seq<Entry<N>>): (ls: seq<Loss<N>>)
    ensures |ls| == |rows| && forall i :: 0 <= i < |rows| ==> ls[i] == Loss(client, rows[i].sector, rows[i].status)
  {
    seq(|rows|, i requires 0 <= i < |rows| => Loss(client, rows[i].sector, rows[i].status))
  }

  lemma LossesOneMore<N(!new)>(db: Table<N>, asked: seq<N>, clients: set<N>, losses: seq<Loss<N>>,
                               client: N, list: seq<Entry<N>>, lost: seq<Entry<N>>, kept: seq<Entry<N>>)
    requires Losses(db, asked, clients, losses) && client !in clients
    requires Lists(db, db.Keys, client, list) && multiset(lost) + multiset(kept) == multiset(list)
    requires forall e :: e in lost ==> e.sector in asked || Hit(list, asked)
    requires forall e :: e in kept ==> e.sector !in asked && !Hit(list, asked)
    ensures Losses(db, asked, clients + {client}, losses + LossesOf(client, lost))
  {
    var more := LossesOf(client, lost);
    LostOfClient(db, client, list, asked, lost, kept);
    forall l | l in more ensures IsLoss(db, asked, l) && l.client == client {
      var i :| 0 <= i < |more| && more[i] == l;
      assert lost[i] in lost;
    }
    forall l | IsLoss(db, asked, l) && l.client == client ensures l in more {
      var i :| 0 <= i < |lost| && lost[i] == Entry(l.sector, l.status);
      assert more[i] == l;
    }
    forall i, j | 0 <= i < j < |more| ensures more[i] != more[j] {
      assert lost[i] != lost[j];
    }
  }

  /** The loop over all clients: what each one loses, and from whom. */
  method CollectLosses<N(==,!new)>(ghost db: Table<N>, byClient: map<N, seq<Entry<N>>>, asked: seq<N>)
    returns (forDel: seq<Loss<N>>)
    requires Grouped(db, db.Keys, byClient)
    ensures Losses(db, asked, byClient.Keys, forDel)
  {
    forDel := [];
    var left := byClient.Keys;
    while left != {}
      invariant left <= byClient.Keys
      invariant Losses(db, asked, byClient.Keys - left, forDel)
    {
      var client :| client in left;
      assert Lists(db, db.Keys, client, byClient[client]);
      var lost, kept := StripClient(byClient[client], asked);
      LossesOneMore(db, asked, byClient.Keys - left, forDel, client, byClient[client], lost, kept);
      forDel := forDel + LossesOf(client, lost);
      assert byClient.Keys - (left - {client}) == byClient.Keys - left + {client};
      left := left - {client};
    }
    assert byClient.Keys - left == byClient.Keys;
  }

  // ---------------------------------------------------------------- messages to be sent

  /** What the server puts into its outgoing map: an announcement of a client's sectors, the
      acknowledgement of the request, or an error. */
  datatype Payload<N> = Announce(claim: Claim<N>, priority: nat) | Lam | Err

  type Outbox<N(==)> = map<Key<N>, Payload<N>>

  /** The number of a message sent j places after number n. */
  function Nth(n: nat, j: nat): (r: nat)
    ensures r < 1000
  {
    (n + j) % 1000
  }

  lemma NthSteps(n: nat, j: nat)
    ensures (Nth(n, j) + 1) % 1000 == Nth(n, j + 1)
  {
  }

  /** The numbers in use are among the next `used` ones after n. */
  ghost predicate Numbered<N(!new)>(out: Outbox<N>, n: nat, used: nat) {
    forall k :: k in out ==> exists j :: 1 <= j <= used && k.num == Nth(n, j)
  }

  /** The outgoing map closes exactly the given clients. */
  ghost predicate Closes<N(!new)>(out: Outbox<N>, owner: N, clients: set<N>) {
    && (forall k :: k in out ==> k.from == owner && k.to in clients && out[k] == Announce(Claim(k.to, []), 1))
    && (forall x :: x in clients ==> exists k :: k in out && k.to == x)
  }

  /** What the DELETEs of the given rows leave. */
  function Erase<N(==)>(db: Table<N>, losses: seq<Loss<N>>): Table<N> {
    map s | s in db && Loss(db[s].client, s, db[s].status) !in losses :: db[s]
  }

  /** How many of the rows are primary, and the closing message of each. */
  function CloseCount<N>(losses: seq<Loss<N>>): nat {
    if losses == [] then 0
    else CloseCount(losses[..|losses| - 1]) + (if losses[|losses| - 1].status == 1 then 1 else 0)
  }

  function CloseMessages<N(==)>(losses: seq<Loss<N>>, owner: N, n: nat): Outbox<N> {
    if losses == [] then map[]
    else
      var l, out := losses[|losses| - 1], CloseMessages(losses[..|losses| - 1], owner, n);
      if l.status == 1 then out[Key(Nth(n, CloseCount(losses)), owner, l.client) := Announce(Claim(l.client, []), 1)]
      else out
  }

  lemma EraseOneMore<N>(db0: Table<N>, losses: seq<Loss<N>>, i: nat)
    requires i < |losses|
    ensures var l, db := losses[i], Erase(db0, losses[..i]);
      Erase(db0, losses[..i + 1]) ==
        if l.sector in db && db[l.sector] == Row(l.client, l.status) then db - {l.sector} else db
  {
    assert losses[..i + 1] == losses[..i] + [losses[i]];
  }

  function Losers<N(==)>(losses: seq<Loss<N>>): set<N> { set l | l in losses :: l.client }

  lemma LosersOneMore<N>(losses: seq<Loss<N>>, i: nat)
    requires i < |losses|
    ensures Losers(losses[..i + 1]) == Losers(losses[..i]) + {losses[i].client}
  {
    var l := losses[i];
    assert losses[..i + 1] == losses[..i] + [l];
    assert l in losses[..i + 1];
    assert forall x :: x in losses[..i + 1] <==> x in losses[..i] || x == l;
  }

  /** The loop that deletes rows and closes their clients. */
  method DeleteLost<N(==,!new)>(db0: Table<N>, losses: seq<Loss<N>>, owner: N, n0: nat)
    returns (db: Table<N>, n: nat, out: Outbox<N>, updated: set<N>)
    requires n0 < 1000
    ensures db == Erase(db0, losses)
    ensures n == Nth(n0, CloseCount(losses)) && out == CloseMessages(losses, owner, n0)
    ensures updated == Losers(losses)
  {
    db, n, out, updated := db0, n0, map[], {};
    var i := 0;
    while i < |losses|
      invariant 0 <= i <= |losses|
      invariant db == Erase(db0, losses[..i])
      invariant n == Nth(n0, CloseCount(losses[..i])) && out == CloseMessages(losses[..i], owner, n0)
      invariant updated == Losers(losses[..i])
    {
      var l := losses[i];
      EraseOneMore(db0, losses, i);
      LosersOneMore(losses, i);
      CloseNext(losses, owner, n0, i);
      updated := updated + {l.client};
      if l.sector in db && db[l.sector] == Row(l.client, l.status) {
        db := db - {l.sector};
      }
      if l.status == 1 {
        n := (n + 1) % 1000;
        out := out[Key(n, owner, l.client) := Announce(Claim(l.client, []), 1)];
      }
      i := i + 1;
    }
    assert losses[..i] == losses;
  }

  lemma CloseNext<N>(losses: seq<Loss<N>>, owner: N, n: nat, i: nat)
    requires i < |losses|
    ensures var before, after, l := losses[..i], losses[..i + 1], losses[i];
      var num := (Nth(n, CloseCount(before)) + 1) % 1000;
      if l.status == 1 then
        && Nth(n, CloseCount(after)) == num
        && CloseMessages(after, owner, n)
           == CloseMessages(before, owner, n)[Key(num, owner, l.client) := Announce(Claim(l.client, []), 1)]
      else
        CloseCount(after) == CloseCount(before) && CloseMessages(after, owner, n) == CloseMessages(before, owner, n)
  {
    assert losses[..i + 1][..i] == losses[..i];
    NthSteps(n, CloseCount(losses[..i]));
  }

  lemma EraseLosses<N(!new)>(db: Table<N>, asked: seq<N>, losses: seq<Loss<N>>)
    requires Losses(db, asked, Owners(db), losses)
    ensures Erase(db, losses) == db - Lost(db, asked)
  {
    forall s | s in db ensures Loss(db[s].client, s, db[s].status) in losses <==> s in Lost(db, asked) {
      var l := Loss(db[s].client, s, db[s].status);
      assert IsLoss(db, asked, l) <==> s in Lost(db, asked);
      assert db[s].client in Owners(db);
    }
  }

  /** The clients whose primary row is among the losses. */
  function Closing<N(==)>(losses: seq<Loss<N>>): set<N> { set l | l in losses && l.status == 1 :: l.client }

  lemma ClosingLast<N(!new)>(losses: seq<Loss<N>>)
    requires losses != []
    ensures var l := losses[|losses| - 1];
      Closing(losses) == Closing(losses[..|losses| - 1]) + (if l.status == 1 then {l.client} else {})
  {
    var most, l := losses[..|losses| - 1], losses[|losses| - 1];
    assert forall x :: x in losses <==> x in most || x == l by {
      assert losses == most + [l];
    }
  }

  lemma {:induction false} CloseMessagesClose<N(!new)>(losses: seq<Loss<N>>, owner: N, n: nat)
    ensures Closes(CloseMessages(losses, owner, n), owner, Closing(losses))
    ensures Numbered(CloseMessages(losses, owner, n), n, CloseCount(losses))
  {
    if losses != [] {
      var most, l := losses[..|losses| - 1], losses[|losses| - 1];
      CloseMessagesClose(most, owner, n);
      ClosingLast(losses);
      CloseOneMore(CloseMessages(most, owner, n), owner, Closing(most), l.client, n, CloseCount(most));
    }
  }

  lemma CloseOneMore<N(!new)>(out: Outbox<N>, owner: N, clients: set<N>, client: N, n: nat, used: nat)
    requires Closes(out, owner, clients) && Numbered(out, n, used)
    ensures var out' := out[Key(Nth(n, used + 1), owner, client) := Announce(Claim(client, []), 1)];
      Closes(out', owner, clients + {client}) && Numbered(out', n, used + 1)
  {
    var key := Key(Nth(n, used + 1), owner, client);
    var out' := out[key := Announce(Claim(client, []), 1)];
    forall x | x in clients + {client} ensures exists k :: k in out' && k.to == x {
      if x == client {
        assert key in out' && key.to == x;
      } else {
        var k :| k in out && k.to == x;
        assert k in out';
      }
    }
    forall k | k in out' ensures exists j :: 1 <= j <= used + 1 && k.num == Nth(n, j) {
      if k in out {
        var j :| 1 <= j <= used && k.num == Nth(n, j);
      }
    }
  }

  ghost function StrippedClients<N(!new)>(db: Table<N>, asked: seq<N>): set<N> {
    set x | x in Owners(db) && Stripped(db, x, asked)
  }

  lemma ClosingIsStripped<N(!new)>(db: Table<N>, asked: seq<N>, losses: seq<Loss<N>>)
    requires Losses(db, asked, Owners(db), losses) && WellOwned(db)
    ensures Closing(losses) == StrippedClients(db, asked)
  {
    forall x | x in Closing(losses) ensures x in StrippedClients(db, asked) {
      var l :| l in losses && l.status == 1 && l.client == x;
      assert IsLoss(db, asked, l);
      assert IsPrimary(db, l.sector, x);
    }
    forall x | x in StrippedClients(db, asked) ensures x in Closing(losses) {
      var p :| p in asked && IsPrimary(db, p, x);
      var l := Loss(x, p, 1);
      assert IsLoss(db, asked, l);
      assert l in losses;
    }
  }

  /** No client is closed twice, so at most one number per client is used up. */
  lemma {:induction false} CloseCountBound<N(!new)>(db: Table<N>, losses: seq<Loss<N>>)
    requires WellOwned(db)
    requires forall l :: l in losses ==> l.sector in db && db[l.sector] == Row(l.client, l.status)
    requires forall i, j :: 0 <= i < j < |losses| ==> losses[i] != losses[j]
    ensures CloseCount(losses) == |Closing(losses)|
  {
    if losses != [] {
      var most, l := losses[..|losses| - 1], losses[|losses| - 1];
      CloseCountBound(db, most);
      ClosingLast(losses);
      if l.status == 1 && l.client in Closing(most) {
        var m :| m in most && m.status == 1 && m.client == l.client;
        assert m in losses && l in losses;
        assert IsPrimary(db, m.sector, l.client) && IsPrimary(db, l.sector, l.client);
        assert false;
      }
    }
  }

  /** The rows to insert: what was lost and what was asked for as secondary, the first one asked for,
      last of all, as primary. */
  method RowsToInsert<N(==)>(c: Claim<N>, forAdd: set<N>) returns (status: map<N, int>)
    requires c.sectors != []
    ensures status == map s | s in forAdd + Elements(c.sectors) :: if s == c.sectors[0] then 1 else 2
  {
    status := map s | s in forAdd :: 2;
    var i := 1;
    while i < |c.sectors|
      invariant 1 <= i <= |c.sectors|
      invariant status == map s | s in forAdd + Elements(c.sectors[1..i]) :: 2
    {
      TailNext(c.sectors, i);
      status := status[c.sectors[i] := 2];
      i := i + 1;
    }
    TailAll(c.sectors);
    assert c.sectors[1..i] == c.sectors[1..];
    status := status[c.sectors[0] := 1];
  }

  lemma TailNext<N>(sectors: seq<N>, i: nat)
    requires 1 <= i < |sectors|
    ensures Elements(sectors[1..i + 1]) == Elements(sectors[1..i]) + {sectors[i]}
  {
    assert sectors[1..i + 1] == sectors[1..i] + [sectors[i]];
  }

  lemma TailAll<N>(sectors: seq<N>)
    requires sectors != []
    ensures Elements(sectors) == {sectors[0]} + Elements(sectors[1..])
  {
    assert sectors == [sectors[0]] + sectors[1..];
  }

  /** The forced INSERTs: none of them meets a sector that is taken. */
  method InsertForced<N(==)>(db0: Table<N>, client: N, status: map<N, int>) returns (db: Table<N>)
    requires status.Keys !! db0.Keys
    ensures db == db0 + map s | s in status :: Row(client, status[s])
  {
    db := db0;
    var left := status.Keys;
    while left != {}
      invariant left <= status.Keys && left !! db.Keys
      invariant db == db0 + map s | s in status.Keys - left :: Row(client, status[s])
    {
      var s :| s in left;
      assert s !in db;
      db := db[s := Row(client, status[s])];
      left := left - {s};
    }
    assert status.Keys - left == status.Keys;
  }

  lemma TakeoverRows<N>(base: Table<N>, c: Claim<N>, status: map<N, int>)
    requires c.sectors != []
    requires status == map s | s in Lost(base, c.sectors) + Elements(c.sectors) :: if s == c.sectors[0] then 1 else 2
    ensures status.Keys !! (base - Lost(base, c.sectors)).Keys
    ensures base - Lost(base, c.sectors) + (map s | s in status :: Row(c.client, status[s])) == Takeover(base, c)
  {
    forall s | s in status ensures s !in base - Lost(base, c.sectors) {
      if s in base && s in c.sectors { assert s in Lost(base, c.sectors); }
    }
  }

  lemma GroupedAll<N(!new)>(db: Table<N>, byClient: map<N, seq<Entry<N>>>)
    requires Grouped(db, db.Keys, byClient)
    ensures byClient.Keys == Owners(db)
  {
    forall x | x in Owners(db) ensures x in byClient {
      var s :| s in db && db[s].client == x;
    }
  }

  lemma LossesEffect<N(!new)>(db: Table<N>, asked: seq<N>, losses: seq<Loss<N>>, owner: N, n: nat)
    requires Losses(db, asked, Owners(db), losses) && WellOwned(db)
    ensures Erase(db, losses) == db - Lost(db, asked)
    ensures Closes(CloseMessages(losses, owner, n), owner, StrippedClients(db, asked))
    ensures Numbered(CloseMessages(losses, owner, n), n, CloseCount(losses))
    ensures CloseCount(losses) == |StrippedClients(db, asked)| <= |Owners(db)|
  {
    EraseLosses(db, asked, losses);
    CloseMessagesClose(losses, owner, n);
    ClosingIsStripped(db, asked, losses);
    forall l | l in losses ensures l.sector in db && db[l.sector] == Row(l.client, l.status) {
      assert IsLoss(db, asked, l);
    }
    CloseCountBound(db, losses);
    SubsetSize(StrippedClients(db, asked), Owners(db));
  }

  /** The takeover as the program does it: load, group, strip, delete and close, insert. */
  method ForceTakeover<N(==,!new)>(base: Table<N>, c: Claim<N>, owner: N, n0: nat)
    returns (db: Table<N>, n: nat, out: Outbox<N>, updated: set<N>, ghost used: nat)
    requires WellOwned(base) && c.sectors != [] && n0 < 1000
    ensures db == Takeover(base, c)
    ensures used == |StrippedClients(base, c.sectors)| <= |Owners(base)|
    ensures n == Nth(n0, used) && Numbered(out, n0, used)
    ensures Closes(out, owner, StrippedClients(base, c.sectors))
    ensures updated == Losing(base, c.sectors) + {c.client}
  {
    var byClient := GroupByClient(base);
    GroupedAll(base, byClient);
    var forDel := CollectLosses(base, byClient, c.sectors);
    LossesEffect(base, c.sectors, forDel, owner, n0);
    used := CloseCount(forDel);
    db, n, out, updated := DeleteLost(base, forDel, owner, n0);
    updated := updated + {c.client};
    LostSectors(base, c.sectors, forDel);
    LosersLose(base, c.sectors, forDel);
    var status := RowsToInsert(c, set l | l in forDel :: l.sector);
    TakeoverRows(base, c, status);
    db := InsertForced(db, c.client, status);
  }

  /** The clients that lose something to a forced claim. */
  function Losing<N(==)>(db: Table<N>, asked: seq<N>): set<N> { set s | s in Lost(db, asked) :: db[s].client }

  lemma LosersLose<N(!new)>(db: Table<N>, asked: seq<N>, losses: seq<Loss<N>>)
    requires Losses(db, asked, Owners(db), losses)
    ensures Losers(losses) == Losing(db, asked)
  {
    forall x | x in Losing(db, asked) ensures x in Losers(losses) {
      var s :| s in Lost(db, asked) && db[s].client == x;
      assert IsLoss(db, asked, Loss(x, s, db[s].status)) && x in Owners(db);
      assert Loss(x, s, db[s].status) in losses;
    }
    forall l | l in losses ensures l.client in Losing(db, asked) {
      assert IsLoss(db, asked, l);
    }
  }

  lemma LostSectors<N(!new)>(db: Table<N>, asked: seq<N>, losses: seq<Loss<N>>)
    requires Losses(db, asked, Owners(db), losses)
    ensures (set l | l in losses :: l.sector) == Lost(db, asked)
  {
    forall s | s in Lost(db, asked) ensures exists l :: l in losses && l.sector == s {
      var l := Loss(db[s].client, s, db[s].status);
      assert IsLoss(db, asked, l) && db[s].client in Owners(db);
      assert l in losses;
    }
    forall l | l in losses ensures l.sector in Lost(db, asked) {
      assert IsLoss(db, asked, l);
    }
  }

  // ---------------------------------------------------------------- CheckSTSMes

  lemma OwnedWithoutClient<N(!new)>(t: Table<N>, client: N)
    requires WellOwned(t)
    ensures WellOwned(WithoutClient(t, client)) && client !in Owners(WithoutClient(t, client))
  {
    var base := WithoutClient(t, client);
    forall x | x in Owners(base) ensures HasPrimary(base, x) {
      assert x in Owners(t);
      var p :| IsPrimary(t, p, x);
      assert IsPrimary(base, p, x);
    }
    forall p, q, x | IsPrimary(base, p, x) && IsPrimary(base, q, x) ensures p == q {
      assert IsPrimary(t, p, x) && IsPrimary(t, q, x);
    }
  }

  /** The workstation's DELETE for every sector of the claim. */
  method DeleteSectors<N(==)>(db0: Table<N>, sectors: seq<N>) returns (db: Table<N>)
    ensures db == db0 - Elements(sectors)
  {
    db := db0;
    var i := 0;
    while i < |sectors|
      invariant 0 <= i <= |sectors|
      invariant db == db0 - Elements(sectors[..i])
    {
      assert sectors[..i + 1] == sectors[..i] + [sectors[i]];
      assert Elements(sectors[..i + 1]) == Elements(sectors[..i]) + {sectors[i]};
      db := db - {sectors[i]};
      i := i + 1;
    }
    assert sectors[..i] == sectors;
  }

  lemma WorkstationInserts<N>(r: Table<N>, c: Claim<N>)
    ensures c.client !in Owners(WithoutClient(r, c.client) - Elements(c.sectors))
    ensures Insertable(WithoutClient(r, c.client) - Elements(c.sectors), c) <==> Distinct(c.sectors)
  {
    forall s | s in c.sectors ensures s !in WithoutClient(r, c.client) - Elements(c.sectors) {
      assert s in Elements(c.sectors);
    }
  }

  /** The clients a claim strips. */
  ghost function StrippedBy<N(!new)>(t: Table<N>, c: Claim<N>, priority: nat): set<N> {
    if Judge(t, c, priority) == Forced then StrippedClients(WithoutClient(t, c.client), c.sectors) else {}
  }

  /** What the check of a claim leaves behind: the table, committed or rolled back, the messages to
      send, and the number of the last one. */
  datatype Checked<N> = Checked(ok: bool, table: Table<N>, out: Outbox<N>, num: nat, updated: set<N>)

  /** The clients whose sectors a takeover changes; the others are told of them without urgency. */
  function Updated<N(==)>(t: Table<N>, c: Claim<N>, priority: nat): set<N> {
    if Judge(t, c, priority) == Forced then Losing(WithoutClient(t, c.client), c.sectors) + {c.client} else {}
  }

  /** What the check of a claim on the server comes to. */
  ghost predicate CheckedBy<N(!new)>(r: Checked<N>, used: nat, t: Table<N>, c: Claim<N>, priority: nat, owner: N,
                                     replyFrom: N, replyTo: N, n0: nat) {
    var verdict := Judge(t, c, priority);
    && r.table == After(t, c, priority) && (r.ok <==> verdict != Refused) && r.updated == Updated(t, c, priority)
    && r.num == Nth(n0, used)
    && (verdict != Refused ==> used == |StrippedBy(t, c, priority)| && Numbered(r.out, n0, used)
                               && Closes(r.out, owner, StrippedBy(t, c, priority)))
    && (verdict != Refused && verdict != Forced ==> r.out == map[])
    && (verdict == Refused ==> used == 1 && r.out == map[Key(r.num, replyFrom, replyTo) := Err])
  }

  predicate GetsAll<N(==)>(t: Table<N>, c: Claim<N>) { forall s :: s in c.sectors ==> Owns(t, c.client, s) }

  /** A claim with a conflict: a normal one changes nothing and is answered with one error, a forced
      one gets all it asks for, and one of any other priority changes nothing and stays unanswered. */
  ghost predicate Resolved<N(!new)>(r: Checked<N>, t: Table<N>, c: Claim<N>, priority: nat,
                                    replyFrom: N, replyTo: N, n0: nat) {
    && (priority == 0 ==>
          !r.ok && r.table == t && r.num == (n0 + 1) % 1000 && r.out == map[Key(r.num, replyFrom, replyTo) := Err])
    && (priority == 1 ==> r.ok && GetsAll(r.table, c))
    && (priority >= 2 ==> r.ok && r.table == t && r.num == n0 && r.out == map[])
  }

  lemma Decided<N(!new)>(t: Table<N>, c: Claim<N>, priority: nat)
    ensures Insertable(WithoutClient(t, c.client), c) <==> !Conflicts(t, c)
    ensures !Conflicts(t, c) || priority == 1 ==> GetsAll(After(t, c, priority), c)
  {
    JudgeExactly(t, c, priority);
    ClaimDecided(t, c, priority);
  }

  /** CheckSTSMes on the server, when an INSERT has failed: db has the claimant's rows inserted before that. */
  method ResolveConflict<N(==,!new)>(t: Table<N>, db0: Table<N>, c: Claim<N>, priority: nat, owner: N,
                                     replyFrom: N, replyTo: N, n0: nat)
    returns (r: Checked<N>, ghost used: nat)
    requires n0 < 1000 && WellOwned(t) && !Insertable(WithoutClient(t, c.client), c)
    requires WithoutClient(db0, c.client) == WithoutClient(t, c.client)
    ensures r.table == After(t, c, priority) && (r.ok <==> Judge(t, c, priority) != Refused)
    ensures CheckedBy(r, used, t, c, priority, owner, replyFrom, replyTo, n0)
    ensures Resolved(r, t, c, priority, replyFrom, replyTo, n0)
  {
    Decided(t, c, priority);
    used := 0;
    if priority != 0 {
      if priority == 1 {
        OwnedWithoutClient(t, c.client);
        var db := WithoutClient(db0, c.client);
        var n, out, updated;
        db, n, out, updated, used := ForceTakeover(db, c, owner, n0);
        return Checked(true, db, out, n, updated), used;
      }
    } else {
      used := 1;
      var n := (n0 + 1) % 1000;
      return Checked(false, t, map[Key(n, replyFrom, replyTo) := Err], n, {}), used;
    }
    return Checked(true, t, map[], n0, {}), used;
  }

  /** CheckSTSMes, from the first DELETE on; `reply` is whom to answer, and as whom. */
  method CheckClaim<N(==,!new)>(t: Table<N>, isFdp: bool, c: Claim<N>, priority: nat, owner: N,
                                replyFrom: N, replyTo: N, n0: nat)
    returns (r: Checked<N>, ghost used: nat)
    requires n0 < 1000 && (isFdp ==> WellOwned(t))
    ensures isFdp ==> CheckedBy(r, used, t, c, priority, owner, replyFrom, replyTo, n0)
    ensures isFdp && Conflicts(t, c) ==> Resolved(r, t, c, priority, replyFrom, replyTo, n0)
    ensures isFdp && !Conflicts(t, c) ==> r.ok && r.num == n0 && r.out == map[] && GetsAll(r.table, c)
    ensures !isFdp ==> r.table == Replay(t, c) && r.ok && r.num == n0 && r.out == map[]
  {
    Decided(t, c, priority);
    used := 0;
    var db := WithoutClient(t, c.client);
    if isFdp {
      OwnedWithoutClient(t, c.client);
    } else {
      WorkstationInserts(t, c);
      db := DeleteSectors(db, c.sectors);
    }
    var ok;
    ok, db := InsertRows(db, c);
    if !ok {
      if isFdp {
        r, used := ResolveConflict(t, db, c, priority, owner, replyFrom, replyTo, n0);
        return;
      }
      return Checked(true, t, map[], n0, {}), used;
    }
    return Checked(true, db, map[], n0, {}), used;
  }

  // ---------------------------------------------------------------- the broadcast

  /** The sectors of one client among the rows read so far, in the order read. */
  function OfClient<N(==,!new)>(db: Table<N>, rows: seq<N>, client: N): (xs: seq<N>)
    ensures forall s :: s in xs <==> s in rows && Owns(db, client, s)
  {
    if rows == [] then []
    else
      var most, s := rows[..|rows| - 1], rows[|rows| - 1];
      assert rows == most + [s];
      OfClient(db, most, client) + (if Owns(db, client, s) then [s] else [])
  }

  lemma {:induction false} OfClientDistinct<N(!new)>(db: Table<N>, rows: seq<N>, client: N)
    requires Distinct(rows)
    ensures Distinct(OfClient(db, rows, client))
  {
    if rows != [] {
      var most, s := rows[..|rows| - 1], rows[|rows| - 1];
      OfClientDistinct(db, most, client);
      assert s !in most;
      assert s !in OfClient(db, most, client);
    }
  }

  lemma {:induction false} OfClientFirst<N(!new)>(db: Table<N>, rows: seq<N>, client: N, s: N)
    requires forall x :: x in rows ==> x in db
    requires forall i, j :: 0 <= i < j < |rows| ==> db[rows[i]].status <= db[rows[j]].status
    requires s in OfClient(db, rows, client)
    ensures db[OfClient(db, rows, client)[0]].status <= db[s].status
  {
    var most, last := rows[..|rows| - 1], rows[|rows| - 1];
    assert rows == most + [last];
    var xs := OfClient(db, most, client);
    if s in xs {
      OfClientFirst(db, most, client, s);
    } else if xs != [] {
      assert xs[0] in xs;
      assert xs[0] in most;
    }
  }

  lemma ListDescribes<N(!new)>(db: Table<N>, rows: seq<N>, client: N)
    requires WellOwned(db) && Distinct(rows) && Elements(rows) == db.Keys && client in Owners(db)
    requires forall i, j :: 0 <= i < j < |rows| ==> db[rows[i]].status <= db[rows[j]].status
    ensures Describes(db, Claim(client, OfClient(db, rows, client)))
  {
    var xs := OfClient(db, rows, client);
    OfClientDistinct(db, rows, client);
    assert forall x :: x in rows <==> x in Elements(rows);
    assert HasPrimary(db, client);
    var p :| IsPrimary(db, p, client);
    assert p in xs;
    OfClientFirst(db, rows, client, p);
    assert xs[0] in xs;
    assert Elements(xs) == (set s | s in db && db[s].client == client);
  }

  /** The rows read so far, appended client by client. */
  function ListsOf<N(==)>(db: Table<N>, rows: seq<N>): map<N, seq<N>>
    requires forall i :: 0 <= i < |rows| ==> rows[i] in db
  {
    if rows == [] then map[]
    else
      var lists, s := ListsOf(db, rows[..|rows| - 1]), rows[|rows| - 1];
      var client := db[s].client;
      lists[client := (if client in lists then lists[client] else []) + [s]]
  }

  lemma {:induction false} ListsOfEach<N(!new)>(db: Table<N>, rows: seq<N>, x: N)
    requires forall i :: 0 <= i < |rows| ==> rows[i] in db
    ensures x in ListsOf(db, rows) <==> OfClient(db, rows, x) != []
    ensures x in ListsOf(db, rows) ==> ListsOf(db, rows)[x] == OfClient(db, rows, x)
  {
    if rows != [] {
      ListsOfEach(db, rows[..|rows| - 1], x);
    }
  }

  /** The server's view of its table, client by client, primary sectors first. */
  method ListsByClient<N(==,!new)>(db: Table<N>) returns (lists: map<N, seq<N>>)
    requires WellOwned(db)
    ensures lists.Keys == Owners(db)
    ensures forall x :: x in lists ==> Describes(db, Claim(x, lists[x]))
  {
    var rows := SelectByStatus(db);
    lists := map[];
    var i := 0;
    RowsInTable(db, rows);
    while i < |rows|
      invariant 0 <= i <= |rows|
      invariant lists == ListsOf(db, rows[..i])
    {
      var s := rows[i];
      var client := db[s].client;
      ListsOfNext(db, rows, i);
      lists := lists[client := (if client in lists then lists[client] else []) + [s]];
      i := i + 1;
    }
    assert rows[..i] == rows;
    ListsDescribe(db, rows);
  }

  lemma ListsOfNext<N(!new)>(db: Table<N>, rows: seq<N>, i: nat)
    requires i < |rows| && forall j :: 0 <= j < |rows| ==> rows[j] in db
    ensures var lists, client := ListsOf(db, rows[..i]), db[rows[i]].client;
      ListsOf(db, rows[..i + 1]) == lists[client := (if client in lists then lists[client] else []) + [rows[i]]]
  {
    assert rows[..i + 1][..i] == rows[..i];
  }

  lemma RowsInTable<N>(db: Table<N>, rows: seq<N>)
    requires Elements(rows) == db.Keys
    ensures forall i :: 0 <= i < |rows| ==> rows[i] in db
  {
    assert forall i :: 0 <= i < |rows| ==> rows[i] in Elements(rows);
  }

  lemma ListsDescribe<N(!new)>(db: Table<N>, rows: seq<N>)
    requires WellOwned(db) && Distinct(rows) && Elements(rows) == db.Keys
    requires forall i :: 0 <= i < |rows| ==> rows[i] in db
    requires forall i, j :: 0 <= i < j < |rows| ==> db[rows[i]].status <= db[rows[j]].status
    ensures ListsOf(db, rows).Keys == Owners(db)
    ensures forall x :: x in ListsOf(db, rows) ==> Describes(db, Claim(x, ListsOf(db, rows)[x]))
  {
    forall x ensures x in ListsOf(db, rows) <==> x in Owners(db)
      ensures x in ListsOf(db, rows) ==> Describes(db, Claim(x, ListsOf(db, rows)[x]))
    {
      ListsOfEach(db, rows, x);
      if x in ListsOf(db, rows) {
        assert OfClient(db, rows, x)[0] in OfClient(db, rows, x);
      }
      if x in Owners(db) {
        ListDescribes(db, rows, x);
      }
    }
  }

  // ---------------------------------------------------------------- the announcements

  /** The priority of an announcement: 1 for a client's own sectors when they have changed hands. */
  function Urgency<N(==)>(claim: Claim<N>, updated: set<N>, y: N): nat {
    if claim.client == y && y in updated then 1 else 0
  }

  /** One client's list is sent to each client. */
  function AnnounceTo<N(==)>(out: Outbox<N>, num: nat, owner: N, claim: Claim<N>, updated: set<N>, ys: seq<N>)
    : Outbox<N>
  {
    if ys == [] then out
    else
      var y := ys[|ys| - 1];
      AnnounceTo(out, num, owner, claim, updated, ys[..|ys| - 1])
        [Key(num, owner, y) := Announce(claim, Urgency(claim, updated, y))]
  }

  /** Every client's list is sent to every client, under a new number each. */
  function AnnounceAll<N(==)>(out: Outbox<N>, n: nat, owner: N, lists: map<N, seq<N>>, updated: set<N>,
                              xs: seq<N>, ys: seq<N>): Outbox<N>
    requires forall i :: 0 <= i < |xs| ==> xs[i] in lists
  {
    if xs == [] then out
    else
      var x := xs[|xs| - 1];
      AnnounceTo(AnnounceAll(out, n, owner, lists, updated, xs[..|xs| - 1], ys), Nth(n, |xs|), owner,
                 Claim(x, lists[x]), updated, ys)
  }

  /** The message under key k announces something to y. */
  predicate Tells<N(==)>(out: Outbox<N>, k: Key<N>, y: N) { k in out && k.to == y && out[k].Announce? }

  lemma NthDistinct(n: nat, i: nat, j: nat)
    requires i < j < i + 1000
    ensures Nth(n, i) != Nth(n, j)
  {
  }

  predicate SentTo<N(==)>(k: Key<N>, num: nat, owner: N, ys: seq<N>) {
    k.num == num && k.from == owner && k.to in ys
  }

  lemma {:induction false} AnnounceToAt<N>(out: Outbox<N>, num: nat, owner: N, claim: Claim<N>, updated: set<N>,
                                           ys: seq<N>, k: Key<N>)
    ensures var r := AnnounceTo(out, num, owner, claim, updated, ys);
      && (k in r <==> k in out || SentTo(k, num, owner, ys))
      && (SentTo(k, num, owner, ys) ==> r[k] == Announce(claim, Urgency(claim, updated, k.to)))
      && (k in out && !SentTo(k, num, owner, ys) ==> r[k] == out[k])
  {
    if ys != [] {
      var most, y := ys[..|ys| - 1], ys[|ys| - 1];
      assert ys == most + [y];
      AnnounceToAt(out, num, owner, claim, updated, most, k);
    }
  }

  /** Key k of the announcements holds a client's list, or what it held before. */
  lemma {:induction false} AnnounceAllAt<N>(out: Outbox<N>, n: nat, owner: N, lists: map<N, seq<N>>, updated: set<N>,
                                            xs: seq<N>, ys: seq<N>, k: Key<N>)
    requires forall i :: 0 <= i < |xs| ==> xs[i] in lists
    ensures var r := AnnounceAll(out, n, owner, lists, updated, xs, ys);
      && (k in out ==> k in r)
      && (k in r && !(k in out && r[k] == out[k]) ==>
            && k.from == owner && k.to in ys && r[k].Announce? && r[k].claim.client in xs
            && r[k].claim == Claim(r[k].claim.client, lists[r[k].claim.client])
            && r[k].priority == Urgency(r[k].claim, updated, k.to))
      && (k in out && (k.to !in ys || k.from != owner) ==> r[k] == out[k])
  {
    if xs != [] {
      var most, x := xs[..|xs| - 1], xs[|xs| - 1];
      assert xs == most + [x];
      AnnounceAllAt(out, n, owner, lists, updated, most, ys, k);
      AnnounceToAt(AnnounceAll(out, n, owner, lists, updated, most, ys), Nth(n, |xs|), owner, Claim(x, lists[x]),
                   updated, ys, k);
    }
  }

  lemma NthAgain(n: nat, i: nat)
    ensures Nth(n, i + 1000) == Nth(n, i)
  {
  }

  /** No announcement overwrites one of the 1000 before it: the last 1000 lists reach each client. */
  lemma {:induction false} AnnounceAllReaches<N>(out: Outbox<N>, n: nat, owner: N, lists: map<N, seq<N>>,
                                                 updated: set<N>, xs: seq<N>, ys: seq<N>, i: nat, y: N)
    requires forall i :: 0 <= i < |xs| ==> xs[i] in lists
    requires i < |xs| <= i + 1000 && y in ys
    ensures var r := AnnounceAll(out, n, owner, lists, updated, xs, ys);
      var k := Key(Nth(n, i + 1), owner, y);
      k in r && r[k].Announce? && r[k].claim == Claim(xs[i], lists[xs[i]])
  {
    var most, x := xs[..|xs| - 1], xs[|xs| - 1];
    var k := Key(Nth(n, i + 1), owner, y);
    AnnounceToAt(AnnounceAll(out, n, owner, lists, updated, most, ys), Nth(n, |xs|), owner, Claim(x, lists[x]),
                 updated, ys, k);
    if i < |most| {
      AnnounceAllReaches(out, n, owner, lists, updated, most, ys, i, y);
      NthDistinct(n, i + 1, |xs|);
    }
  }

  /** The others have been overwritten: what is announced is one of the last 1000 lists. */
  lemma {:induction false} AnnouncedLate<N>(out: Outbox<N>, n: nat, owner: N, lists: map<N, seq<N>>,
                                            updated: set<N>, xs: seq<N>, ys: seq<N>, k: Key<N>) returns (i: nat)
    requires forall i :: 0 <= i < |xs| ==> xs[i] in lists
    requires !Tells(out, k, k.to) && Tells(AnnounceAll(out, n, owner, lists, updated, xs, ys), k, k.to)
    ensures i < |xs| <= i + 1000 && SentTo(k, Nth(n, i + 1), owner, ys)
    ensures AnnounceAll(out, n, owner, lists, updated, xs, ys)[k].claim == Claim(xs[i], lists[xs[i]])
  {
    var most, x := xs[..|xs| - 1], xs[|xs| - 1];
    AnnounceToAt(AnnounceAll(out, n, owner, lists, updated, most, ys), Nth(n, |xs|), owner, Claim(x, lists[x]),
                 updated, ys, k);
    if SentTo(k, Nth(n, |xs|), owner, ys) {
      i := |xs| - 1;
    } else {
      i := AnnouncedLate(out, n, owner, lists, updated, most, ys, k);
      NthAgain(n, i + 1);
    }
  }

  /** A key under which something is announced keeps an announcement. */
  lemma {:induction false} AnnouncedStays<N>(out: Outbox<N>, n: nat, owner: N, lists: map<N, seq<N>>, updated: set<N>,
                                             xs: seq<N>, ys: seq<N>, i: nat, y: N)
    requires forall i :: 0 <= i < |xs| ==> xs[i] in lists
    requires i < |xs| && y in ys
    ensures Tells(AnnounceAll(out, n, owner, lists, updated, xs, ys), Key(Nth(n, i + 1), owner, y), y)
  {
    var most, x := xs[..|xs| - 1], xs[|xs| - 1];
    AnnounceToAt(AnnounceAll(out, n, owner, lists, updated, most, ys), Nth(n, |xs|), owner, Claim(x, lists[x]),
                 updated, ys, Key(Nth(n, i + 1), owner, y));
    if i < |most| {
      AnnouncedStays(out, n, owner, lists, updated, most, ys, i, y);
    }
  }

  /** Messages under other numbers stay. */
  lemma {:induction false} AnnounceAllKeeps<N>(out: Outbox<N>, n: nat, owner: N, lists: map<N, seq<N>>,
                                               updated: set<N>, xs: seq<N>, ys: seq<N>, k: Key<N>)
    requires forall i :: 0 <= i < |xs| ==> xs[i] in lists
    requires k in out && forall j :: 1 <= j <= |xs| ==> k.num != Nth(n, j)
    ensures var r := AnnounceAll(out, n, owner, lists, updated, xs, ys); k in r && r[k] == out[k]
  {
    if xs != [] {
      var most, x := xs[..|xs| - 1], xs[|xs| - 1];
      AnnounceAllKeeps(out, n, owner, lists, updated, most, ys, k);
      AnnounceToAt(AnnounceAll(out, n, owner, lists, updated, most, ys), Nth(n, |xs|), owner, Claim(x, lists[x]),
                   updated, ys, k);
    }
  }

  /** Numbers below 1000 and priorities 0 or 1: what the message text has room for. */
  ghost predicate Modest<N(!new)>(out: Outbox<N>) {
    forall k :: k in out ==> k.num < 1000 && (out[k].Announce? ==> out[k].priority <= 1)
  }

  lemma {:induction false} AnnounceToModest<N(!new)>(out: Outbox<N>, num: nat, owner: N, claim: Claim<N>,
                                                     updated: set<N>, ys: seq<N>)
    requires Modest(out) && num < 1000
    ensures Modest(AnnounceTo(out, num, owner, claim, updated, ys))
  {
    if ys != [] {
      AnnounceToModest(out, num, owner, claim, updated, ys[..|ys| - 1]);
    }
  }

  lemma {:induction false} AnnounceAllModest<N(!new)>(out: Outbox<N>, n: nat, owner: N, lists: map<N, seq<N>>,
                                                      updated: set<N>, xs: seq<N>, ys: seq<N>)
    requires Modest(out) && forall i :: 0 <= i < |xs| ==> xs[i] in lists
    ensures Modest(AnnounceAll(out, n, owner, lists, updated, xs, ys))
  {
    if xs != [] {
      var most, x := xs[..|xs| - 1], xs[|xs| - 1];
      AnnounceAllModest(out, n, owner, lists, updated, most, ys);
      AnnounceToModest(AnnounceAll(out, n, owner, lists, updated, most, ys), Nth(n, |xs|), owner, Claim(x, lists[x]),
                       updated, ys);
    }
  }

  lemma ClosesModest<N(!new)>(out: Outbox<N>, owner: N, clients: set<N>, n: nat, used: nat, lam: Key<N>)
    requires Closes(out, owner, clients) && Numbered(out, n, used) && lam.num < 1000
    ensures Modest(out[lam := Lam])
  {
    forall k | k in out ensures k.num < 1000 {
      var j :| 1 <= j <= used && k.num == Nth(n, j);
    }
  }

  /** The nested loops over the clients. */
  method SendLists<N(==,!new)>(out0: Outbox<N>, n0: nat, owner: N, lists: map<N, seq<N>>, updated: set<N>,
                               xs: seq<N>, ys: seq<N>)
    returns (out: Outbox<N>, n: nat)
    requires n0 < 1000 && forall i :: 0 <= i < |xs| ==> xs[i] in lists
    ensures out == AnnounceAll(out0, n0, owner, lists, updated, xs, ys) && n == Nth(n0, |xs|)
  {
    out, n := out0, n0;
    var i := 0;
    while i < |xs|
      invariant 0 <= i <= |xs|
      invariant out == AnnounceAll(out0, n0, owner, lists, updated, xs[..i], ys) && n == Nth(n0, i)
    {
      var x := xs[i];
      n := (n + 1) % 1000;
      NthSteps(n0, i);
      assert xs[..i + 1][..i] == xs[..i];
      out := SendTo(out, n, owner, Claim(x, lists[x]), updated, ys);
      i := i + 1;
    }
    assert xs[..i] == xs;
  }

  method SendTo<N(==)>(out0: Outbox<N>, num: nat, owner: N, claim: Claim<N>, updated: set<N>, ys: seq<N>)
    returns (out: Outbox<N>)
    ensures out == AnnounceTo(out0, num, owner, claim, updated, ys)
  {
    out := out0;
    var j := 0;
    while j < |ys|
      invariant 0 <= j <= |ys|
      invariant out == AnnounceTo(out0, num, owner, claim, updated, ys[..j])
    {
      var y := ys[j];
      assert ys[..j + 1][..j] == ys[..j];
      out := out[Key(num, owner, y) := Announce(claim, Urgency(claim, updated, y))];
      j := j + 1;
    }
    assert ys[..j] == ys;
  }

  // ---------------------------------------------------------------- who is told what

  /** Client y is told a list of x. */
  ghost predicate ToldOf<N(!new)>(out: Outbox<N>, y: N, x: N) {
    exists k :: Tells(out, k, y) && out[k].claim.client == x
  }

  /** Client y is told lists of clients of t only, from the server, and the list of each of them. */
  ghost predicate ToldAll<N(!new)>(out: Outbox<N>, owner: N, t: Table<N>, updated: set<N>, y: N) {
    && (forall k :: Tells(out, k, y) ==>
          k.from == owner && Describes(t, out[k].claim) && out[k].priority == Urgency(out[k].claim, updated, y))
    && (forall x :: x in Owners(t) ==> ToldOf(out, y, x))
  }

  /** The claim has been carried out against others, and y has lost a sector to it or is the claimant. */
  predicate ChangedHands<N(==)>(t: Table<N>, c: Claim<N>, priority: nat, y: N) {
    && Conflicts(t, c) && priority == 1
    && (y == c.client || exists s :: s in t && Owns(t, y, s) && !Owns(After(t, c, priority), y, s))
  }

  lemma LosersLost<N>(t: Table<N>, c: Claim<N>, y: N)
    requires Judge(t, c, 1) == Forced && y != c.client
    ensures y in Losing(WithoutClient(t, c.client), c.sectors) <==>
      exists s :: s in t && Owns(t, y, s) && !Owns(After(t, c, 1), y, s)
  {
    var base := WithoutClient(t, c.client);
    StrippedOfOthers(t, c.client, y, c.sectors);
    forall s | s in t && Owns(t, y, s) ensures s in Lost(base, c.sectors) <==> !Owns(After(t, c, 1), y, s) {
      AfterAt(t, c, 1, s);
    }
  }

  /** A client is told its own list with priority 1 exactly when its sectors have changed hands, and every other list
      with priority 0. */
  lemma OwnListUrgent<N(!new)>(out: Outbox<N>, owner: N, t: Table<N>, c: Claim<N>, priority: nat, y: N, k: Key<N>)
    requires ToldAll(out, owner, After(t, c, priority), Updated(t, c, priority), y) && Tells(out, k, y)
    ensures out[k].priority <= 1
    ensures out[k].priority == 1 <==> out[k].claim.client == y && ChangedHands(t, c, priority, y)
  {
    JudgeExactly(t, c, priority);
    if Judge(t, c, priority) == Forced && y != c.client {
      LosersLost(t, c, y);
    }
  }

  /** Client y is told one claim, and nothing else. */
  ghost predicate ToldOnly<N(!new)>(out: Outbox<N>, owner: N, c: Claim<N>, priority: nat, y: N) {
    && (forall k :: Tells(out, k, y) ==> k.from == owner && out[k] == Announce(c, priority))
    && (exists k :: Tells(out, k, y))
  }

  ghost predicate ToldNothing<N(!new)>(out: Outbox<N>, y: N) {
    forall k :: !Tells(out, k, y)
  }

  lemma ListsReachOwners<N(!new)>(out: Outbox<N>, n: nat, owner: N, t: Table<N>, lists: map<N, seq<N>>,
                                  updated: set<N>, xs: seq<N>, y: N)
    requires lists.Keys == Owners(t) == Elements(xs) && |xs| <= 1000
    requires forall x :: x in lists ==> Describes(t, Claim(x, lists[x]))
    requires y in Owners(t) && ToldNothing(out, y)
    requires forall i :: 0 <= i < |xs| ==> xs[i] in lists
    ensures ToldAll(AnnounceAll(out, n, owner, lists, updated, xs, xs), owner, t, updated, y)
  {
    var r := AnnounceAll(out, n, owner, lists, updated, xs, xs);
    forall k | Tells(r, k, y) ensures k.from == owner && Describes(t, r[k].claim)
        && r[k].priority == Urgency(r[k].claim, updated, y)
    {
      AnnounceAllAt(out, n, owner, lists, updated, xs, xs, k);
      assert !Tells(out, k, y);
    }
    assert y in Elements(xs);
    forall x | x in Owners(t) ensures ToldOf(r, y, x) {
      assert x in Elements(xs);
      var i :| 0 <= i < |xs| && xs[i] == x;
      AnnounceAllReaches(out, n, owner, lists, updated, xs, xs, i, y);
      assert Tells(r, Key(Nth(n, i + 1), owner, y), y);
    }
  }

  /** Whose lists a client is told: the last 1000. */
  lemma ToldLate<N(!new)>(out: Outbox<N>, n: nat, owner: N, lists: map<N, seq<N>>, updated: set<N>, xs: seq<N>, y: N,
                          x: N)
    requires y in xs && ToldNothing(out, y) && forall i :: 0 <= i < |xs| ==> xs[i] in lists
    ensures ToldOf(AnnounceAll(out, n, owner, lists, updated, xs, xs), y, x) <==> x in Late(xs)
  {
    var r := AnnounceAll(out, n, owner, lists, updated, xs, xs);
    if ToldOf(r, y, x) {
      var k :| Tells(r, k, y) && r[k].claim.client == x;
      assert !Tells(out, k, y);
      var i := AnnouncedLate(out, n, owner, lists, updated, xs, xs, k);
      assert Late(xs)[i - (|xs| - |Late(xs)|)] == xs[i];
    }
    if x in Late(xs) {
      var j :| 0 <= j < |Late(xs)| && Late(xs)[j] == x;
      var i := j + |xs| - |Late(xs)|;
      AnnounceAllReaches(out, n, owner, lists, updated, xs, xs, i, y);
      assert Tells(r, Key(Nth(n, i + 1), owner, y), y);
    }
  }

  function Late<N>(xs: seq<N>): seq<N> { if |xs| > 1000 then xs[|xs| - 1000..] else xs }

  /** With more than 1000 clients the first list reaches nobody. */
  lemma FirstListLost<N(!new)>(out: Outbox<N>, n: nat, owner: N, t: Table<N>, lists: map<N, seq<N>>,
                               updated: set<N>, xs: seq<N>, y: N)
    requires Owners(t) == Elements(xs) && Distinct(xs) && |xs| > 1000 && y in xs && ToldNothing(out, y)
    requires forall i :: 0 <= i < |xs| ==> xs[i] in lists
    ensures !ToldAll(AnnounceAll(out, n, owner, lists, updated, xs, xs), owner, t, updated, y)
  {
    ToldLate(out, n, owner, lists, updated, xs, y, xs[0]);
    assert xs[0] in Elements(xs) && xs[0] !in Late(xs);
  }

  lemma OwnerTold<N(!new)>(out: Outbox<N>, n: nat, owner: N, t: Table<N>, lists: map<N, seq<N>>,
                           updated: set<N>, xs: seq<N>, y: N)
    requires lists.Keys == Owners(t) == Elements(xs) && Distinct(xs)
    requires forall x :: x in lists ==> Describes(t, Claim(x, lists[x]))
    requires y in Owners(t) && ToldNothing(out, y)
    requires forall i :: 0 <= i < |xs| ==> xs[i] in lists
    ensures ToldAll(AnnounceAll(out, n, owner, lists, updated, xs, xs), owner, t, updated, y) <==> |xs| <= 1000
  {
    assert y in Elements(xs);
    if |xs| <= 1000 {
      ListsReachOwners(out, n, owner, t, lists, updated, xs, y);
    } else {
      FirstListLost(out, n, owner, t, lists, updated, xs, y);
    }
  }

  lemma ListsElsewhere<N(!new)>(out: Outbox<N>, n: nat, owner: N, lists: map<N, seq<N>>, updated: set<N>, xs: seq<N>,
                                y: N, only: Claim<N>)
    requires y !in xs && forall i :: 0 <= i < |xs| ==> xs[i] in lists
    ensures ToldNothing(out, y) ==> ToldNothing(AnnounceAll(out, n, owner, lists, updated, xs, xs), y)
    ensures ToldOnly(out, owner, only, 1, y) ==>
      ToldOnly(AnnounceAll(out, n, owner, lists, updated, xs, xs), owner, only, 1, y)
  {
    var r := AnnounceAll(out, n, owner, lists, updated, xs, xs);
    forall k: Key<N> | k.to == y ensures (k in r <==> k in out) && (k in r ==> r[k] == out[k]) {
      AnnounceAllAt(out, n, owner, lists, updated, xs, xs, k);
    }
    forall k ensures Tells(r, k, y) <==> Tells(out, k, y) {
    }
  }

  lemma NthAdd(n: nat, i: nat, j: nat)
    ensures Nth(Nth(n, i), j) == Nth(n, i + j)
  {
  }

  lemma NthLater(n: nat, m: nat)
    requires n < 1000 && m < 1000
    ensures forall j :: 1 <= j <= m ==> n != Nth(n, j)
  {
    forall j | 1 <= j <= m ensures n != Nth(n, j) {
      NthDistinct(n, 0, j);
    }
  }

  /** The lists leave an entry under the number before the first of theirs alone exactly when there are fewer than 1000
      of them, or the entry is not addressed as they are. */
  lemma LamStays<N>(out: Outbox<N>, owner: N, lists: map<N, seq<N>>, updated: set<N>, xs: seq<N>, lam: Key<N>)
    requires lam.num < 1000 && lam in out && out[lam] == Lam && forall i :: 0 <= i < |xs| ==> xs[i] in lists
    ensures var r := AnnounceAll(out, lam.num, owner, lists, updated, xs, xs);
      lam in r && (r[lam] == Lam <==> |xs| <= 999 || lam.from != owner || lam.to !in xs)
  {
    AnnounceAllAt(out, lam.num, owner, lists, updated, xs, xs, lam);
    if |xs| <= 999 {
      NthLater(lam.num, |xs|);
      AnnounceAllKeeps(out, lam.num, owner, lists, updated, xs, xs, lam);
    } else if lam.from == owner && lam.to in xs {
      AnnouncedStays(out, lam.num, owner, lists, updated, xs, xs, 999, lam.to);
      NthAgain(lam.num, 0);
    }
  }

  /** The acknowledgement goes in under the next number and overwrites no closing message. */
  lemma LamAdded<N(!new)>(out: Outbox<N>, n: nat, used: nat, owner: N, clients: set<N>, key: Key<N>)
    requires Closes(out, owner, clients) && Numbered(out, n, used)
    requires key.num == Nth(n, used + 1) && (used <= 999 || key.from != owner || key.to !in clients)
    ensures key !in out
    ensures forall y :: y in clients ==> ToldOnly(out[key := Lam], owner, Claim(y, []), 1, y)
    ensures forall y :: y !in clients ==> ToldNothing(out[key := Lam], y)
  {
    if key in out {
      var j :| 1 <= j <= used && key.num == Nth(n, j);
      NthDistinct(n, j, used + 1);
    }
    forall y | y in clients ensures ToldOnly(out[key := Lam], owner, Claim(y, []), 1, y) {
      var k :| k in out && k.to == y;
      assert Tells(out[key := Lam], k, y);
    }
  }

  /** Whoever is stripped is told only that, and other clients that own nothing are told nothing. */
  ghost predicate OthersTold<N(!new)>(out: Outbox<N>, owner: N, t: Table<N>, c: Claim<N>, priority: nat) {
    var t' := After(t, c, priority);
    && (forall y :: y in StrippedBy(t, c, priority) ==> ToldOnly(out, owner, Claim(y, []), 1, y))
    && (forall y :: y !in Owners(t') && y !in StrippedBy(t, c, priority) ==> ToldNothing(out, y))
  }

  /** Whom the server tells what about a claim that it does not refuse. */
  ghost predicate Informed<N(!new)>(out: Outbox<N>, owner: N, t: Table<N>, c: Claim<N>, priority: nat, replyTo: N) {
    var t' := After(t, c, priority);
    if c.sectors == [] then
      && (forall y :: y in Owners(t') || y == replyTo ==> ToldOnly(out, owner, c, 0, y))
      && (forall y :: y !in Owners(t') && y != replyTo ==> ToldNothing(out, y))
    else
      && (forall y :: y in Owners(t') ==> ToldAll(out, owner, t', Updated(t, c, priority), y))
      && OthersTold(out, owner, t, c, priority)
  }

  lemma StrippedOwnNothing<N(!new)>(t: Table<N>, c: Claim<N>, priority: nat, y: N)
    requires WellOwned(t) && y in StrippedBy(t, c, priority)
    ensures y !in Owners(After(t, c, priority))
  {
    var base := WithoutClient(t, c.client);
    OwnedWithoutClient(t, c.client);
    StrippedOfOthers(t, c.client, y, c.sectors);
    TakeoverFair(t, c, priority, y);
    var t' := After(t, c, priority);
    if y in Owners(t') {
      var s :| s in t' && t'[s].client == y;
      assert Owns(t', y, s);
    }
  }

  lemma ListsInform<N(!new)>(t: Table<N>, c: Claim<N>, priority: nat, owner: N, replyTo: N, out: Outbox<N>, n: nat,
                             lists: map<N, seq<N>>, updated: set<N>, xs: seq<N>)
    requires WellOwned(t) && c.sectors != []
    requires lists.Keys == Owners(After(t, c, priority)) == Elements(xs) && Distinct(xs)
    requires forall x :: x in lists ==> Describes(After(t, c, priority), Claim(x, lists[x]))
    requires forall i :: 0 <= i < |xs| ==> xs[i] in lists
    requires forall y :: y in StrippedBy(t, c, priority) ==> ToldOnly(out, owner, Claim(y, []), 1, y)
    requires forall y :: y !in StrippedBy(t, c, priority) ==> ToldNothing(out, y)
    requires updated == Updated(t, c, priority)
    ensures var r := AnnounceAll(out, n, owner, lists, updated, xs, xs);
      OthersTold(r, owner, t, c, priority) && (Informed(r, owner, t, c, priority, replyTo) <==> |xs| <= 1000)
  {
    var t' := After(t, c, priority);
    var r := AnnounceAll(out, n, owner, lists, updated, xs, xs);
    forall y | y !in Owners(t')
      ensures y in StrippedBy(t, c, priority) ==> ToldOnly(r, owner, Claim(y, []), 1, y)
      ensures y !in StrippedBy(t, c, priority) ==> ToldNothing(r, y)
    {
      assert y in Elements(xs) <==> y in xs;
      ListsElsewhere(out, n, owner, lists, updated, xs, y, Claim(y, []));
    }
    forall y | y in StrippedBy(t, c, priority) ensures y !in Owners(t') {
      StrippedOwnNothing(t, c, priority, y);
    }
    forall y | y in Owners(t') ensures ToldAll(r, owner, t', updated, y) <==> |xs| <= 1000 {
      OwnerTold(out, n, owner, t', lists, updated, xs, y);
    }
    if |xs| > 1000 {
      assert xs[0] in Elements(xs);
    }
  }

  lemma ReleaseInforms<N(!new)>(t: Table<N>, c: Claim<N>, priority: nat, owner: N, replyTo: N, out: Outbox<N>, num: nat,
                                ys: seq<N>)
    requires c.sectors == [] && Elements(ys) == Owners(After(t, c, priority)) + {replyTo}
    requires forall y :: ToldNothing(out, y)
    ensures Informed(AnnounceTo(out, num, owner, c, {}, ys), owner, t, c, priority, replyTo)
  {
    var r := AnnounceTo(out, num, owner, c, {}, ys);
    forall k ensures k in r && r[k].Announce? <==> SentTo(k, num, owner, ys)
      ensures SentTo(k, num, owner, ys) ==> r[k] == Announce(c, 0)
    {
      assert ToldNothing(out, k.to);
      assert !Tells(out, k, k.to);
      AnnounceToAt(out, num, owner, c, {}, ys, k);
    }
    forall y | y in Owners(After(t, c, priority)) || y == replyTo ensures ToldOnly(r, owner, c, 0, y) {
      assert y in Elements(ys);
      assert SentTo(Key(num, owner, y), num, owner, ys);
      assert Tells(r, Key(num, owner, y), y);
    }
    forall y | y !in Owners(After(t, c, priority)) && y != replyTo ensures ToldNothing(r, y) {
      assert y !in Elements(ys);
    }
  }

  /** No closing message can have the key of the acknowledgement. */
  ghost predicate LamClear<N(!new)>(t: Table<N>, c: Claim<N>, priority: nat, owner: N, lam: Key<N>) {
    |StrippedBy(t, c, priority)| <= 999 || lam.from != owner || lam.to !in StrippedBy(t, c, priority)
  }

  /** The numbers suffice for the announcements. */
  predicate ReachesAll<N(==)>(t: Table<N>, c: Claim<N>, priority: nat) {
    c.sectors == [] || |Owners(After(t, c, priority))| <= 1000
  }

  /** The numbers suffice for the acknowledgement, too. */
  predicate Acknowledges<N(==)>(t: Table<N>, c: Claim<N>, priority: nat, owner: N, lam: Key<N>) {
    var t' := After(t, c, priority);
    c.sectors == [] || |Owners(t')| <= 999 || lam.from != owner || lam.to !in Owners(t')
  }

  /** Exactly when everybody is informed, and exactly when the claim is acknowledged; the others are told what concerns
      them in any case. */
  ghost predicate Answered<N(!new)>(out: Outbox<N>, owner: N, t: Table<N>, c: Claim<N>, priority: nat, lam: Key<N>) {
    && (c.sectors != [] ==> OthersTold(out, owner, t, c, priority))
    && (Informed(out, owner, t, c, priority, lam.to) <==> ReachesAll(t, c, priority))
    && lam in out && (out[lam] == Lam <==> Acknowledges(t, c, priority, owner, lam))
  }

  lemma ListsAnswer<N(!new)>(t: Table<N>, c: Claim<N>, priority: nat, owner: N, out: Outbox<N>, n0: nat, used: nat,
                             lam: Key<N>, lists: map<N, seq<N>>, updated: set<N>, xs: seq<N>)
    requires WellOwned(t) && c.sectors != [] && lam.num == Nth(n0, used + 1)
    requires used == |StrippedBy(t, c, priority)| && LamClear(t, c, priority, owner, lam)
    requires Closes(out, owner, StrippedBy(t, c, priority)) && Numbered(out, n0, used)
    requires lists.Keys == Owners(After(t, c, priority)) == Elements(xs) && Distinct(xs)
    requires forall x :: x in lists ==> Describes(After(t, c, priority), Claim(x, lists[x]))
    requires forall i :: 0 <= i < |xs| ==> xs[i] in lists
    requires updated == Updated(t, c, priority)
    ensures Answered(AnnounceAll(out[lam := Lam], lam.num, owner, lists, updated, xs, xs), owner, t, c, priority, lam)
  {
    DistinctSize(xs);
    LamAdded(out, n0, used, owner, StrippedBy(t, c, priority), lam);
    ListsInform(t, c, priority, owner, lam.to, out[lam := Lam], lam.num, lists, updated, xs);
    LamStays(out[lam := Lam], owner, lists, updated, xs, lam);
    assert lam.to in xs <==> lam.to in Elements(xs);
  }

  lemma ReleaseAnswers<N(!new)>(t: Table<N>, c: Claim<N>, priority: nat, owner: N, out: Outbox<N>, n0: nat, used: nat,
                                lam: Key<N>, num: nat, ys: seq<N>)
    requires c.sectors == [] && lam.num == Nth(n0, used + 1) && num == Nth(n0, used + 2) && used == 0
    requires Closes(out, owner, StrippedBy(t, c, priority)) && Numbered(out, n0, used)
    requires Elements(ys) == Owners(After(t, c, priority)) + {lam.to}
    ensures Answered(AnnounceTo(out[lam := Lam], num, owner, c, {}, ys), owner, t, c, priority, lam)
  {
    ReleaseStripsNobody(t, c, priority);
    LamAdded(out, n0, used, owner, {}, lam);
    ReleaseInforms(t, c, priority, owner, lam.to, out[lam := Lam], num, ys);
    AnnounceToAt(out[lam := Lam], num, owner, c, {}, ys, lam);
    NthDistinct(n0, used + 1, used + 2);
  }

  /** The announcements after the acknowledgement: of a release, or of the whole table. */
  method Announcements<N(==,!new)>(out0: Outbox<N>, n0: nat, owner: N, c: Claim<N>, replyTo: N,
                                   lists: map<N, seq<N>>, updated: set<N>)
    returns (out: Outbox<N>, num: nat, ghost xs: seq<N>)
    requires n0 < 1000
    ensures Elements(xs) == lists.Keys && Distinct(xs)
    ensures num == Nth(n0, if c.sectors == [] then 1 else |lists.Keys|)
    ensures forall i :: 0 <= i < |xs| ==> xs[i] in lists
    ensures c.sectors == [] ==> out == AnnounceTo(out0, Nth(n0, 1), owner, c, {}, xs + [replyTo])
    ensures c.sectors != [] ==> out == AnnounceAll(out0, n0, owner, lists, updated, xs, xs)
    ensures Modest(out0) ==> Modest(out)
  {
    var ys := Enumerate(lists.Keys);
    xs := ys;
    if c.sectors == [] {
      num := (n0 + 1) % 1000;
      out := SendTo(out0, num, owner, c, {}, ys + [replyTo]);
      if Modest(out0) { AnnounceToModest(out0, num, owner, c, {}, ys + [replyTo]); }
    } else {
      out, num := SendLists(out0, n0, owner, lists, updated, ys, ys);
      if Modest(out0) { AnnounceAllModest(out0, n0, owner, lists, updated, ys, ys); }
    }
  }

  lemma AnnouncementsAnswer<N(!new)>(t: Table<N>, c: Claim<N>, priority: nat, owner: N, out0: Outbox<N>, n0: nat,
                                     used: nat, lam: Key<N>, lists: map<N, seq<N>>, updated: set<N>, xs: seq<N>,
                                     out: Outbox<N>)
    requires WellOwned(t) && lam.num == Nth(n0, used + 1)
    requires used == |StrippedBy(t, c, priority)| && LamClear(t, c, priority, owner, lam)
    requires Closes(out0, owner, StrippedBy(t, c, priority)) && Numbered(out0, n0, used)
    requires lists.Keys == Owners(After(t, c, priority)) == Elements(xs) && Distinct(xs)
    requires forall x :: x in lists ==> Describes(After(t, c, priority), Claim(x, lists[x]))
    requires forall i :: 0 <= i < |xs| ==> xs[i] in lists
    requires c.sectors == [] ==> out == AnnounceTo(out0[lam := Lam], Nth(lam.num, 1), owner, c, {}, xs + [lam.to])
    requires c.sectors != [] ==> out == AnnounceAll(out0[lam := Lam], lam.num, owner, lists, updated, xs, xs)
    requires updated == Updated(t, c, priority)
    ensures Answered(out, owner, t, c, priority, lam)
  {
    if c.sectors == [] {
      ReleaseStripsNobody(t, c, priority);
      NthAdd(n0, used + 1, 1);
      ElementsAppend(xs, lam.to);
      ReleaseAnswers(t, c, priority, owner, out0, n0, used, lam, Nth(lam.num, 1), xs + [lam.to]);
    } else {
      ListsAnswer(t, c, priority, owner, out0, n0, used, lam, lists, updated, xs);
    }
  }

  /** How many numbers the announcements take: one for a release, one for each owner otherwise. */
  function Announced<N(==)>(c: Claim<N>, t': Table<N>): nat { if c.sectors == [] then 1 else |Owners(t')| }

  /** How many message numbers the server uses up for a claim: one for an error; otherwise one for each closing
      message, one for the acknowledgement, and those of the announcements. */
  ghost function NumbersUsed<N(!new)>(t: Table<N>, c: Claim<N>, priority: nat): nat {
    if Judge(t, c, priority) == Refused then 1
    else |StrippedBy(t, c, priority)| + 1 + Announced(c, After(t, c, priority))
  }

  /** RecieveSTSMes on the server, after the check: acknowledge, then tell the clients. */
  method Reply<N(==,!new)>(c: Claim<N>, owner: N, replyFrom: N, replyTo: N, r: Checked<N>)
    returns (out: Outbox<N>, num: nat, lam: Key<N>, ghost lists: map<N, seq<N>>, ghost xs: seq<N>)
    requires WellOwned(r.table)
    ensures lam == Key((r.num + 1) % 1000, replyFrom, replyTo) && num == Nth(lam.num, Announced(c, r.table))
    ensures lists.Keys == Owners(r.table) == Elements(xs) && Distinct(xs)
    ensures forall x :: x in lists ==> Describes(r.table, Claim(x, lists[x]))
    ensures forall i :: 0 <= i < |xs| ==> xs[i] in lists
    ensures c.sectors == [] ==> out == AnnounceTo(r.out[lam := Lam], Nth(lam.num, 1), owner, c, {}, xs + [lam.to])
    ensures c.sectors != [] ==> out == AnnounceAll(r.out[lam := Lam], lam.num, owner, lists, r.updated, xs, xs)
    ensures Modest(r.out[lam := Lam]) ==> Modest(out)
  {
    lam := Key((r.num + 1) % 1000, replyFrom, replyTo);
    var byClient := ListsByClient(r.table);
    lists := byClient;
    out, num, xs := Announcements(r.out[lam := Lam], lam.num, owner, c, replyTo, byClient, r.updated);
  }

  /** What that is for those concerned. */
  method Respond<N(==,!new)>(ghost t: Table<N>, c: Claim<N>, ghost priority: nat, owner: N, replyFrom: N, replyTo: N,
                             r: Checked<N>, ghost n0: nat, ghost used: nat)
    returns (out: Outbox<N>, num: nat, lam: Key<N>)
    requires WellOwned(t) && r.table == After(t, c, priority) && Judge(t, c, priority) != Refused
    requires r.updated == Updated(t, c, priority) && used == |StrippedBy(t, c, priority)|
    requires r.num == Nth(n0, used) && Closes(r.out, owner, StrippedBy(t, c, priority)) && Numbered(r.out, n0, used)
    ensures num == Nth(lam.num, Announced(c, r.table)) && lam == Key(Nth(n0, used + 1), replyFrom, replyTo)
    ensures Modest(out)
    ensures LamClear(t, c, priority, owner, lam) ==> Answered(out, owner, t, c, priority, lam)
  {
    OwnershipKept(t, c, priority);
    NthSteps(n0, used);
    ghost var lists, xs;
    out, num, lam, lists, xs := Reply(c, owner, replyFrom, replyTo, r);
    ClosesModest(r.out, owner, StrippedBy(t, c, priority), n0, used, lam);
    if LamClear(t, c, priority, owner, lam) {
      AnnouncementsAnswer(t, c, priority, owner, r.out, n0, used, lam, lists, r.updated, xs, out);
    }
  }

  lemma ReleaseStripsNobody<N(!new)>(t: Table<N>, c: Claim<N>, priority: nat)
    ensures c.sectors == [] ==> StrippedBy(t, c, priority) == {}
  {
  }

  /** What the server has to send about a claim. */
  ghost predicate Handled<N(!new)>(out: Outbox<N>, owner: N, t: Table<N>, c: Claim<N>, priority: nat, n: nat,
                                   replyFrom: N, replyTo: N, lam: Key<N>) {
    if Judge(t, c, priority) == Refused then out == map[Key((n + 1) % 1000, replyFrom, replyTo) := Err]
    else
      && Modest(out) && lam.num < 1000 && lam.from == replyFrom && lam.to == replyTo
      && (LamClear(t, c, priority, owner, lam) ==> Answered(out, owner, t, c, priority, lam))
  }

  lemma NumberAfter<N(!new)>(t: Table<N>, c: Claim<N>, priority: nat, n: nat, used: nat, num: nat)
    requires Judge(t, c, priority) != Refused && used == |StrippedBy(t, c, priority)|
    requires num == Nth(Nth(n, used + 1), Announced(c, After(t, c, priority)))
    ensures num == Nth(n, NumbersUsed(t, c, priority))
  {
    NthAdd(n, used + 1, Announced(c, After(t, c, priority)));
  }

  /** RecieveSTSMes on the server: check the claim, then respond unless it is refused. */
  method HandleClaim<N(==,!new)>(t: Table<N>, c: Claim<N>, priority: nat, owner: N, replyFrom: N, replyTo: N, n0: nat)
    returns (table: Table<N>, out: Outbox<N>, num: nat, ghost lam: Key<N>)
    requires n0 < 1000 && WellOwned(t)
    ensures table == After(t, c, priority) && num == Nth(n0, NumbersUsed(t, c, priority))
    ensures Handled(out, owner, t, c, priority, n0, replyFrom, replyTo, lam)
  {
    var r, used := CheckClaim(t, true, c, priority, owner, replyFrom, replyTo, n0);
    table, out, num := r.table, r.out, r.num;
    lam := Key(0, replyFrom, replyTo);
    if r.ok {
      out, num, lam := Respond(t, c, priority, owner, replyFrom, replyTo, r, n0, used);
      NumberAfter(t, c, priority, n0, used, num);
    }
  }

  /** RecieveSTSMes on a workstation: replay the announcement and acknowledge it. */
  method FollowClaim<N(==,!new)>(t: Table<N>, c: Claim<N>, priority: nat, owner: N, replyFrom: N, replyTo: N, n0: nat)
    returns (table: Table<N>, out: Outbox<N>, num: nat)
    requires n0 < 1000
    ensures table == Replay(t, c) && num == (n0 + 1) % 1000
    ensures out == map[Key(num, replyFrom, replyTo) := Lam]
  {
    var r, used := CheckClaim(t, false, c, priority, owner, replyFrom, replyTo, n0);
    table, num := r.table, (r.num + 1) % 1000;
    out := r.out[Key(num, replyFrom, replyTo) := Lam];
  }

  // ---------------------------------------------------------------- what the receivers read

  /** The claims addressed to y among the given entries. */
  function Addressed<N(==)>(keys: seq<Key<N>>, out: Outbox<N>, y: N): seq<Claim<N>>
    requires forall i :: 0 <= i < |keys| ==> keys[i] in out
  {
    if keys == [] then []
    else
      var last := keys[|keys| - 1];
      Addressed(keys[..|keys| - 1], out, y) + (if Tells(out, last, y) then [out[last].claim] else [])
  }

  lemma {:induction false} AddressedElements<N(!new)>(keys: seq<Key<N>>, out: Outbox<N>, y: N)
    requires forall i :: 0 <= i < |keys| ==> keys[i] in out
    ensures forall c :: c in Addressed(keys, out, y) ==> exists k :: k in keys && Tells(out, k, y) && out[k].claim == c
    ensures forall k :: k in keys && Tells(out, k, y) ==> out[k].claim in Addressed(keys, out, y)
  {
    if keys != [] {
      var most, last := keys[..|keys| - 1], keys[|keys| - 1];
      AddressedElements(most, out, y);
      assert keys == most + [last];
      forall c | c in Addressed(keys, out, y) ensures exists k :: k in keys && Tells(out, k, y) && out[k].claim == c {
        if c in Addressed(most, out, y) {
          var k :| k in most && Tells(out, k, y) && out[k].claim == c;
          assert k in keys;
        } else {
          assert last in keys && Tells(out, last, y);
        }
      }
    }
  }

  /** One claim, once or more, and no other. */
  predicate Only<N(==)>(cs: seq<Claim<N>>, c: Claim<N>) { cs != [] && forall x :: x in cs ==> x == c }

  /** What the claims that y reads have to be. */
  ghost predicate Reads<N(!new)>(inbox: seq<Claim<N>>, t: Table<N>, c: Claim<N>, priority: nat, replyTo: N, y: N) {
    var t' := After(t, c, priority);
    if c.sectors == [] then
      if y in Owners(t') || y == replyTo then Only(inbox, c) else inbox == []
    else
      if y in Owners(t') then Broadcast(t', inbox)
      else if y in StrippedBy(t, c, priority) then Only(inbox, Claim(y, []))
      else inbox == []
  }

  lemma ToldOnlyReads<N(!new)>(keys: seq<Key<N>>, out: Outbox<N>, owner: N, c: Claim<N>, priority: nat, y: N)
    requires Elements(keys) == out.Keys && forall i :: 0 <= i < |keys| ==> keys[i] in out
    ensures ToldOnly(out, owner, c, priority, y) ==> Only(Addressed(keys, out, y), c)
    ensures ToldNothing(out, y) ==> Addressed(keys, out, y) == []
  {
    AddressedElements(keys, out, y);
    if ToldOnly(out, owner, c, priority, y) {
      var k :| Tells(out, k, y);
      assert k in Elements(keys);
    }
    if Addressed(keys, out, y) != [] {
      var c0 := Addressed(keys, out, y)[0];
      assert c0 in Addressed(keys, out, y);
    }
  }

  lemma ToldAllReads<N(!new)>(keys: seq<Key<N>>, out: Outbox<N>, owner: N, t: Table<N>, updated: set<N>, y: N)
    requires Elements(keys) == out.Keys && forall i :: 0 <= i < |keys| ==> keys[i] in out
    requires ToldAll(out, owner, t, updated, y)
    ensures Broadcast(t, Addressed(keys, out, y))
  {
    AddressedElements(keys, out, y);
    var inbox := Addressed(keys, out, y);
    forall i | 0 <= i < |inbox| ensures Describes(t, inbox[i]) {
      assert inbox[i] in inbox;
    }
    forall x | x in Owners(t) ensures x in Heard(inbox) {
      var k :| Tells(out, k, y) && out[k].claim.client == x;
      assert k in Elements(keys);
      assert out[k].claim in inbox;
      var i :| 0 <= i < |inbox| && inbox[i] == out[k].claim;
    }
  }

  lemma InformedReads<N(!new)>(keys: seq<Key<N>>, out: Outbox<N>, owner: N, t: Table<N>, c: Claim<N>, priority: nat,
                               replyTo: N, y: N)
    requires Elements(keys) == out.Keys && forall i :: 0 <= i < |keys| ==> keys[i] in out
    requires WellOwned(t) && Informed(out, owner, t, c, priority, replyTo)
    ensures Reads(Addressed(keys, out, y), t, c, priority, replyTo, y)
  {
    ToldOnlyReads(keys, out, owner, if c.sectors == [] then c else Claim(y, []), if c.sectors == [] then 0 else 1, y);
    if c.sectors != [] && y in Owners(After(t, c, priority)) {
      ToldAllReads(keys, out, owner, After(t, c, priority), Updated(t, c, priority), y);
    }
  }

  lemma {:induction false} OnlyReplays<N(!new)>(r: Table<N>, cs: seq<Claim<N>>, c: Claim<N>)
    requires Only(cs, c) && c.sectors == []
    ensures ReplayAll(r, cs) == Replay(r, c)
  {
    var most := cs[..|cs| - 1];
    assert cs[|cs| - 1] in cs;
    if most != [] {
      forall x | x in most ensures x == c {
        assert x in cs;
      }
      OnlyReplays(r, most, c);
    }
    assert Elements(c.sectors) == {} && Rows(c) == map[];
  }

  lemma EmptyReplay<N>(r: Table<N>, client: N)
    ensures Replay(r, Claim(client, [])) == WithoutClient(r, client)
  {
    assert Elements<N>([]) == {} && Rows(Claim(client, [])) == map[];
  }

  /** Those the server tells everything about a claim: the owners afterwards, and who asked for a
      release. */
  predicate ToldEverything<N(==)>(t: Table<N>, c: Claim<N>, priority: nat, replyTo: N, y: N) {
    y in Owners(After(t, c, priority)) || (c.sectors == [] && y == replyTo)
  }

  /** The workstations that have the server's table after a claim if they had it before, as a test on the table and
      the claim before it is handled: nothing changes, or the workstation will own a sector, or asks for a release. */
  predicate CatchesUp<N(==)>(t: Table<N>, c: Claim<N>, priority: nat, replyTo: N, y: N) {
    || !Committed(Judge(t, c, priority)) || Restates(t, c)
    || StaysOwner(t, c, y) || (c.sectors == [] && y == replyTo)
  }

  lemma CatchesUpMeans<N(!new)>(t: Table<N>, c: Claim<N>, priority: nat, replyTo: N, y: N)
    requires WellOwned(t)
    ensures CatchesUp(t, c, priority, replyTo, y) <==>
      ToldEverything(t, c, priority, replyTo, y) || !Committed(Judge(t, c, priority)) || Restates(t, c)
  {
    if Committed(Judge(t, c, priority)) {
      OwnersExactly(t, c, priority, y);
    }
  }

  /** A copy equal to the server's table before a claim is equal to it afterwards exactly for those who
      are told everything, or when there was nothing to tell.  Whoever owns nothing afterwards falls
      behind: it reads nothing, or only that it was stripped. */
  lemma ReadsConverge<N(!new)>(inbox: seq<Claim<N>>, t: Table<N>, c: Claim<N>, priority: nat, replyTo: N, y: N)
    requires WellOwned(t) && Reads(inbox, t, c, priority, replyTo, y)
    ensures ReplayAll(t, inbox) == After(t, c, priority) <==> CatchesUp(t, c, priority, replyTo, y)
  {
    CatchesUpMeans(t, c, priority, replyTo, y);
    UnchangedExactly(t, c, priority);
    if ToldEverything(t, c, priority, replyTo, y) {
      if c.sectors == [] {
        OnlyReplays(t, inbox, c);
        ReleaseConverges(t, c, priority);
      } else {
        BroadcastConverges(t, c, priority, inbox);
      }
    } else if y in StrippedBy(t, c, priority) {
      ReleaseStripsNobody(t, c, priority);
      OnlyReplays(t, inbox, Claim(y, []));
      StrippedOfOthers(t, c.client, y, c.sectors);
      StrippedDiverges(t, c, priority, y);
      StrippedFromOthers(t, c, y);
    }
  }

  /** A claim that strips somebody asks for more than the claimant has. */
  lemma StrippedFromOthers<N(!new)>(t: Table<N>, c: Claim<N>, y: N)
    requires y != c.client && Stripped(t, y, c.sectors)
    ensures !Restates(t, c)
  {
    var p :| p in c.sectors && IsPrimary(t, p, y);
    assert p in Elements(c.sectors);
  }

  // ---------------------------------------------------------------- whole runs

  datatype Request<N> = Request(claim: Claim<N>, priority: nat, replyTo: N)

  /** The server's table after a run of requests, and a workstation's copy after it has read what each
      of them made the server send. */
  function AfterAll<N(==)>(t: Table<N>, reqs: seq<Request<N>>): Table<N> {
    if reqs == [] then t
    else
      var r := reqs[|reqs| - 1];
      After(AfterAll(t, reqs[..|reqs| - 1]), r.claim, r.priority)
  }

  function CopyAfter<N(==)>(r: Table<N>, inboxes: seq<seq<Claim<N>>>): Table<N> {
    if inboxes == [] then r
    else ReplayAll(CopyAfter(r, inboxes[..|inboxes| - 1]), inboxes[|inboxes| - 1])
  }

  /** y read what the server sent about r, and nothing when the server refused it. */
  ghost predicate ReadsAbout<N(!new)>(inbox: seq<Claim<N>>, t: Table<N>, r: Request<N>, y: N) {
    if Judge(t, r.claim, r.priority) == Refused then inbox == []
    else Reads(inbox, t, r.claim, r.priority, r.replyTo, y)
  }

  ghost predicate ReadsAt<N(!new)>(t: Table<N>, reqs: seq<Request<N>>, inboxes: seq<seq<Claim<N>>>, i: nat, y: N)
    requires i < |reqs| == |inboxes|
  {
    ReadsAbout(inboxes[i], AfterAll(t, reqs[..i]), reqs[i], y)
  }

  /** At every request of the run y reads what the server sends about it. */
  ghost predicate ReadsRun<N(!new)>(t: Table<N>, reqs: seq<Request<N>>, inboxes: seq<seq<Claim<N>>>, y: N) {
    |inboxes| == |reqs| && forall i :: 0 <= i < |reqs| ==> ReadsAt(t, reqs, inboxes, i, y)
  }

  /** What the messages about one request make of the copy of y, whatever is in the copy. */
  ghost function CopyStep<N(!new)>(r: Table<N>, t: Table<N>, q: Request<N>, y: N): Table<N> {
    var t' := After(t, q.claim, q.priority);
    if Judge(t, q.claim, q.priority) == Refused then r
    else if q.claim.sectors == [] then
      if ToldEverything(t, q.claim, q.priority, q.replyTo, y) then WithoutClient(r, q.claim.client) else r
    else
      if y in Owners(t') then t' + Stale(r, t')
      else if y in StrippedBy(t, q.claim, q.priority) then WithoutClient(r, y)
      else r
  }

  lemma CopyStepRead<N(!new)>(r: Table<N>, inbox: seq<Claim<N>>, t: Table<N>, q: Request<N>, y: N)
    requires WellOwned(t) && ReadsAbout(inbox, t, q, y)
    ensures ReplayAll(r, inbox) == CopyStep(r, t, q, y)
  {
    var c, t' := q.claim, After(t, q.claim, q.priority);
    OwnershipKept(t, c, q.priority);
    if Judge(t, c, q.priority) != Refused && inbox != [] {
      if c.sectors == [] {
        OnlyReplays(r, inbox, c);
        EmptyReplay(r, c.client);
      } else if y in Owners(t') {
        ReplayedBroadcast(r, t', inbox);
      } else {
        OnlyReplays(r, inbox, Claim(y, []));
        EmptyReplay(r, y);
      }
    } else if y in Owners(t') && c.sectors != [] && Judge(t, c, q.priority) != Refused {
      ReplayedBroadcast(r, t', inbox);
    }
  }

  /** A copy equal to the server's table is equal to it after a request exactly under the same condition as in
      ReadsConverge. */
  lemma CopyStepCatchesUp<N(!new)>(t: Table<N>, q: Request<N>, y: N)
    requires WellOwned(t)
    ensures CopyStep(t, t, q, y) == After(t, q.claim, q.priority) <==>
      CatchesUp(t, q.claim, q.priority, q.replyTo, y)
  {
    var c, priority := q.claim, q.priority;
    CatchesUpMeans(t, c, priority, q.replyTo, y);
    UnchangedExactly(t, c, priority);
    if Judge(t, c, priority) != Refused {
      if ToldEverything(t, c, priority, q.replyTo, y) {
        if c.sectors == [] {
          ReleaseConverges(t, c, priority);
          EmptyReplay(t, c.client);
        } else {
          NothingStale(t, c, priority);
        }
      } else if y in StrippedBy(t, c, priority) {
        ReleaseStripsNobody(t, c, priority);
        StrippedOfOthers(t, c.client, y, c.sectors);
        StrippedDiverges(t, c, priority, y);
        StrippedFromOthers(t, c, y);
        EmptyReplay(t, y);
      }
    }
  }

  ghost function CopyOver<N(!new)>(r: Table<N>, t: Table<N>, reqs: seq<Request<N>>, y: N): Table<N> {
    if reqs == [] then r
    else
      var n := |reqs| - 1;
      CopyStep(CopyOver(r, t, reqs[..n], y), AfterAll(t, reqs[..n]), reqs[n], y)
  }

  lemma ReadsFirst<N(!new)>(t: Table<N>, reqs: seq<Request<N>>, inboxes: seq<seq<Claim<N>>>, y: N, n: nat)
    requires ReadsRun(t, reqs, inboxes, y) && n <= |reqs|
    ensures ReadsRun(t, reqs[..n], inboxes[..n], y)
  {
    forall i | 0 <= i < n ensures ReadsAt(t, reqs[..n], inboxes[..n], i, y) {
      assert reqs[..n][..i] == reqs[..i] && ReadsAt(t, reqs, inboxes, i, y);
    }
  }

  lemma {:induction false} OwnedAfterAll<N(!new)>(t: Table<N>, reqs: seq<Request<N>>)
    requires WellOwned(t)
    ensures WellOwned(AfterAll(t, reqs))
  {
    if reqs != [] {
      var n := |reqs| - 1;
      OwnedAfterAll(t, reqs[..n]);
      OwnershipKept(AfterAll(t, reqs[..n]), reqs[n].claim, reqs[n].priority);
    }
  }

  /** Whatever the run and whatever copy a workstation starts from, the requests alone determine its
      copy: neither the order of the messages about a request nor repeated ones matter. */
  lemma {:induction false} CopyDetermined<N(!new)>(r: Table<N>, t: Table<N>, reqs: seq<Request<N>>,
                                                   inboxes: seq<seq<Claim<N>>>, y: N)
    requires WellOwned(t) && ReadsRun(t, reqs, inboxes, y)
    ensures CopyAfter(r, inboxes) == CopyOver(r, t, reqs, y)
  {
    if reqs != [] {
      var n := |reqs| - 1;
      ReadsFirst(t, reqs, inboxes, y, n);
      CopyDetermined(r, t, reqs[..n], inboxes[..n], y);
      OwnedAfterAll(t, reqs[..n]);
      assert ReadsAt(t, reqs, inboxes, n, y);
      CopyStepRead(CopyAfter(r, inboxes[..n]), inboxes[n], AfterAll(t, reqs[..n]), reqs[n], y);
    }
  }

  /** At the i-th request y is told everything, or the server refuses it. */
  predicate InTouch<N(==)>(t: Table<N>, reqs: seq<Request<N>>, i: nat, y: N)
    requires i < |reqs|
  {
    var before, q := AfterAll(t, reqs[..i]), reqs[i];
    Judge(before, q.claim, q.priority) == Refused || ToldEverything(before, q.claim, q.priority, q.replyTo, y)
  }

  /** At the i-th request the whole table is broadcast, to y among others. */
  predicate WholeBroadcast<N(==)>(t: Table<N>, reqs: seq<Request<N>>, i: nat, y: N)
    requires i < |reqs|
  {
    var before, q := AfterAll(t, reqs[..i]), reqs[i];
    && Judge(before, q.claim, q.priority) != Refused && q.claim.sectors != []
    && y in Owners(After(before, q.claim, q.priority))
  }

  /** A row for s of the client is not in the table t', no broadcast of t' removes it from a copy, and
      neither does the request that led to t'. */
  predicate Missed<N(==)>(t': Table<N>, q: Request<N>, s: N, client: N) {
    s !in t' && client !in Owners(t') && !(q.claim.sectors == [] && q.claim.client == client)
  }

  /** The rows of a copy that a request which led to the table t' leaves in the copy. */
  function Uncorrected<N(==)>(r: Table<N>, t': Table<N>, q: Request<N>): Table<N> {
    map s | s in r && Missed(t', q, s, r[s].client) :: r[s]
  }

  /** The rows of a copy that no request from the n-th on corrects. */
  function Strays<N(==)>(r: Table<N>, t: Table<N>, reqs: seq<Request<N>>, n: nat): Table<N> {
    if |reqs| <= n then r
    else
      var m := |reqs| - 1;
      Uncorrected(Strays(r, t, reqs[..m], n), AfterAll(t, reqs), reqs[m])
  }

  predicate MissedAt<N(==)>(t: Table<N>, reqs: seq<Request<N>>, i: nat, s: N, client: N)
    requires i < |reqs|
  {
    Missed(AfterAll(t, reqs[..i + 1]), reqs[i], s, client)
  }

  lemma MissedEarlier<N>(t: Table<N>, reqs: seq<Request<N>>, m: nat, i: nat, s: N, client: N)
    requires i < m <= |reqs|
    ensures MissedAt(t, reqs[..m], i, s, client) == MissedAt(t, reqs, i, s, client)
  {
    assert reqs[..m][..i + 1] == reqs[..i + 1];
  }

  /** Which rows stay: those that every request since the n-th missed. */
  lemma {:induction false} StraysExactly<N>(r: Table<N>, t: Table<N>, reqs: seq<Request<N>>, n: nat, s: N)
    ensures s in Strays(r, t, reqs, n) <==>
      s in r && forall i :: n <= i < |reqs| ==> MissedAt(t, reqs, i, s, r[s].client)
    ensures s in Strays(r, t, reqs, n) ==> Strays(r, t, reqs, n)[s] == r[s]
  {
    if n < |reqs| {
      StraysExactly(r, t, reqs[..|reqs| - 1], n, s);
      if s in r {
        MissedLast(t, reqs, n, s, r[s].client);
      }
    }
  }

  lemma MissedLast<N>(t: Table<N>, reqs: seq<Request<N>>, n: nat, s: N, client: N)
    requires n < |reqs|
    ensures var m := |reqs| - 1;
      (forall i :: n <= i < |reqs| ==> MissedAt(t, reqs, i, s, client)) <==>
        && (forall i :: n <= i < m ==> MissedAt(t, reqs[..m], i, s, client))
        && Missed(AfterAll(t, reqs), reqs[m], s, client)
  {
    var m := |reqs| - 1;
    assert reqs[..m + 1] == reqs;
    assert MissedAt(t, reqs, m, s, client) == Missed(AfterAll(t, reqs), reqs[m], s, client);
    forall i | n <= i < m ensures MissedAt(t, reqs[..m], i, s, client) == MissedAt(t, reqs, i, s, client) {
      MissedEarlier(t, reqs, m, i, s, client);
    }
  }

  /** One request in touch, when the copy has exactly the rows x besides the server's. */
  lemma InTouchStep<N(!new)>(t: Table<N>, x: Table<N>, q: Request<N>, y: N)
    requires forall s :: s in x ==> s !in t && x[s].client !in Owners(t)
    requires Judge(t, q.claim, q.priority) == Refused || ToldEverything(t, q.claim, q.priority, q.replyTo, y)
    ensures var t' := After(t, q.claim, q.priority);
      CopyStep(t + x, t, q, y) == t' + Uncorrected(x, t', q)
  {
    var c, t' := q.claim, After(t, q.claim, q.priority);
    var left := Uncorrected(x, t', q);
    if Judge(t, c, q.priority) == Refused {
      assert left == x;
    } else if c.sectors == [] {
      ReleaseConverges(t, c, q.priority);
      EmptyReplay(t, c.client);
      assert forall s :: s in t' ==> t'[s].client in Owners(t);
    } else {
      NothingStale(t, c, q.priority);
      assert forall s :: s in t ==> s !in Stale(t, t');
    }
    forall s ensures Agree(CopyStep(t + x, t, q, y), t' + left, s) {
    }
    Same(CopyStep(t + x, t, q, y), t' + left);
  }

  ghost predicate StaysInTouch<N(!new)>(t: Table<N>, reqs: seq<Request<N>>, n: nat, y: N) {
    forall i :: n <= i < |reqs| ==> InTouch(t, reqs, i, y)
  }

  /** The rows x are beside the table t: no sector of t, no client of t. */
  predicate Beside<N(==)>(x: Table<N>, t: Table<N>) { forall s :: s in x ==> s !in t && x[s].client !in Owners(t) }

  /** The copy is the table t with the rows x beside it. */
  predicate Extends<N(==)>(copy: Table<N>, t: Table<N>, x: Table<N>) { copy == t + x && Beside(x, t) }

  /** From the n-th request to the m-th, the copy is the server's table and besides what is left of the rows x that it
      had besides at first. */
  predicate Trails<N(==)>(r: Table<N>, t: Table<N>, reqs: seq<Request<N>>, inboxes: seq<seq<Claim<N>>>, n: nat,
                          x: Table<N>, m: nat)
    requires n <= m <= |reqs| == |inboxes|
    decreases m
  {
    && (m > n ==> Trails(r, t, reqs, inboxes, n, x, m - 1))
    && Extends(CopyAfter(r, inboxes[..m]), AfterAll(t, reqs[..m]), Strays(x, t, reqs[..m], n))
  }

  lemma TrailsNext<N(!new)>(r: Table<N>, t: Table<N>, reqs: seq<Request<N>>, inboxes: seq<seq<Claim<N>>>, y: N,
                            n: nat, x: Table<N>, m: nat)
    requires WellOwned(t) && ReadsRun(t, reqs, inboxes, y) && n < m <= |reqs| && StaysInTouch(t, reqs, n, y)
    requires Trails(r, t, reqs, inboxes, n, x, m - 1)
    ensures Trails(r, t, reqs, inboxes, n, x, m)
  {
    var k := m - 1;
    assert reqs[..m][..k] == reqs[..k] && inboxes[..m][..k] == inboxes[..k];
    OwnedAfterAll(t, reqs[..k]);
    assert ReadsAt(t, reqs, inboxes, k, y) && InTouch(t, reqs, k, y);
    CopyStepRead(CopyAfter(r, inboxes[..k]), inboxes[k], AfterAll(t, reqs[..k]), reqs[k], y);
    InTouchStep(AfterAll(t, reqs[..k]), Strays(x, t, reqs[..k], n), reqs[k], y);
  }

  /** A workstation in touch keeps exactly those rows besides the server's that no request corrects. */
  lemma {:induction false} InTouchRun<N(!new)>(r: Table<N>, t: Table<N>, reqs: seq<Request<N>>,
                                               inboxes: seq<seq<Claim<N>>>, y: N, n: nat, x: Table<N>, m: nat)
    requires WellOwned(t) && ReadsRun(t, reqs, inboxes, y)
    requires n <= m <= |reqs| && StaysInTouch(t, reqs, n, y)
    requires Trails(r, t, reqs, inboxes, n, x, n)
    ensures Trails(r, t, reqs, inboxes, n, x, m)
    decreases m
  {
    if n < m {
      InTouchRun(r, t, reqs, inboxes, y, n, x, m - 1);
      TrailsNext(r, t, reqs, inboxes, y, n, x, m);
    }
  }

  /** The first whole broadcast that a copy reads leaves of its other rows the stale ones. */
  lemma BroadcastRejoins<N(!new)>(r: Table<N>, t: Table<N>, reqs: seq<Request<N>>, inboxes: seq<seq<Claim<N>>>,
                                  y: N, n: nat)
    requires WellOwned(t) && ReadsRun(t, reqs, inboxes, y)
    requires n < |reqs| && WholeBroadcast(t, reqs, n, y)
    ensures CopyAfter(r, inboxes[..n + 1])
      == AfterAll(t, reqs[..n + 1]) + Stale(CopyAfter(r, inboxes[..n]), AfterAll(t, reqs[..n + 1]))
  {
    assert reqs[..n + 1][..n] == reqs[..n] && inboxes[..n + 1][..n] == inboxes[..n];
    OwnedAfterAll(t, reqs[..n]);
    assert ReadsAt(t, reqs, inboxes, n, y);
    CopyStepRead(CopyAfter(r, inboxes[..n]), inboxes[n], AfterAll(t, reqs[..n]), reqs[n], y);
  }

  lemma {:induction false} StraysFromStale<N>(r: Table<N>, t: Table<N>, reqs: seq<Request<N>>, n: nat)
    requires n < |reqs| && reqs[n].claim.sectors != []
    ensures Strays(Stale(r, AfterAll(t, reqs[..n + 1])), t, reqs, n + 1) == Strays(r, t, reqs, n)
    decreases |reqs|
  {
    var m := |reqs| - 1;
    if n < m {
      assert reqs[..m][..n + 1] == reqs[..n + 1];
      StraysFromStale(r, t, reqs[..m], n);
    } else {
      assert reqs[..n + 1] == reqs;
      BroadcastCorrects(r, AfterAll(t, reqs), reqs[n]);
    }
  }

  /** A broadcast leaves the stale rows. */
  lemma BroadcastCorrects<N>(r: Table<N>, t': Table<N>, q: Request<N>)
    requires q.claim.sectors != []
    ensures Uncorrected(r, t', q) == Stale(r, t')
  {
  }

  /** Convergence over whole runs.  A workstation may start from any copy and may be out of touch for the
      first n requests.  From the first whole broadcast that it reads, its copy is the server's table and
      besides exactly those of its old rows that no request has corrected since; the two are equal
      exactly when there are none. */
  lemma RunConverges<N(!new)>(r: Table<N>, t: Table<N>, reqs: seq<Request<N>>, inboxes: seq<seq<Claim<N>>>, y: N,
                              n: nat)
    requires WellOwned(t) && ReadsRun(t, reqs, inboxes, y)
    requires n < |reqs| && WholeBroadcast(t, reqs, n, y) && StaysInTouch(t, reqs, n + 1, y)
    ensures var strays := Strays(CopyAfter(r, inboxes[..n]), t, reqs, n);
      && CopyAfter(r, inboxes) == AfterAll(t, reqs) + strays
      && (CopyAfter(r, inboxes) == AfterAll(t, reqs) <==> strays == map[])
  {
    var before := CopyAfter(r, inboxes[..n]);
    var x := Stale(before, AfterAll(t, reqs[..n + 1]));
    BroadcastRejoins(r, t, reqs, inboxes, y, n);
    InTouchRun(r, t, reqs, inboxes, y, n + 1, x, |reqs|);
    assert reqs[..|reqs|] == reqs && inboxes[..|reqs|] == inboxes;
    StraysFromStale(before, t, reqs, n);
    Addition(AfterAll(t, reqs), Strays(before, t, reqs, n));
  }

  /** A workstation that starts with an empty copy and has read nothing before its first broadcast has
      the server's table from then on, as long as it stays in touch. */
  lemma JoinerConverges<N(!new)>(t: Table<N>, reqs: seq<Request<N>>, inboxes: seq<seq<Claim<N>>>, y: N, n: nat)
    requires WellOwned(t) && ReadsRun(t, reqs, inboxes, y)
    requires n < |reqs| && WholeBroadcast(t, reqs, n, y) && StaysInTouch(t, reqs, n + 1, y)
    requires forall i :: 0 <= i < n ==> inboxes[i] == []
    ensures CopyAfter(map[], inboxes) == AfterAll(t, reqs)
  {
    NothingRead<N>(map[], inboxes[..n]);
    RunConverges(map[], t, reqs, inboxes, y, n);
    NoStrays(t, reqs, n);
  }

  lemma {:induction false} NoStrays<N>(t: Table<N>, reqs: seq<Request<N>>, n: nat)
    ensures Strays(map[], t, reqs, n) == map[]
  {
    if n < |reqs| { NoStrays(t, reqs[..|reqs| - 1], n); }
  }

  lemma {:induction false} NothingRead<N(!new)>(r: Table<N>, inboxes: seq<seq<Claim<N>>>)
    requires forall i :: 0 <= i < |inboxes| ==> inboxes[i] == []
    ensures CopyAfter(r, inboxes) == r
  {
    if inboxes != [] { NothingRead(r, inboxes[..|inboxes| - 1]); }
  }

  /** A workstation that starts with the server's table and stays in touch keeps the server's table. */
  lemma StayerConverges<N(!new)>(t: Table<N>, reqs: seq<Request<N>>, inboxes: seq<seq<Claim<N>>>, y: N)
    requires WellOwned(t) && ReadsRun(t, reqs, inboxes, y) && StaysInTouch(t, reqs, 0, y)
    ensures CopyAfter(t, inboxes) == AfterAll(t, reqs)
  {
    assert AfterAll(t, reqs[..0]) == t;
    InTouchRun(t, t, reqs, inboxes, y, 0, map[], |reqs|);
    assert reqs[..|reqs|] == reqs && inboxes[..|reqs|] == inboxes;
    NoStrays(t, reqs, 0);
  }
}
