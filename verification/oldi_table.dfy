/** The sector-ownership table as a value: what a claim makes of the server's table, and what
    replaying a broadcast makes of a workstation's copy.

    The program keeps the table `oldi_clients(client, status, sector)` in a database.  Here it is a
    map from sector to row, which states the assumption that `sector` is unique: an INSERT fails
    exactly when the sector is already there. */
module OldiTable {
  import opened Collections

  datatype Row<N> = Row(client: N, status: int)

  type Table<N> = map<N, Row<N>>

  /** What an STS text "-client-sector-sector..." asks for. */
  datatype Claim<N> = Claim(client: N, sectors: seq<N>)

  function Owners<N(==)>(t: Table<N>): set<N> { set s | s in t :: t[s].client }

  predicate Owns<N(==)>(t: Table<N>, client: N, s: N) { s in t && t[s].client == client }

  function WithoutClient<N(==)>(t: Table<N>, client: N): Table<N> {
    map s | s in t && t[s].client != client :: t[s]
  }

  /** The rows a successful claim stores: the first sector is the primary one. */
  function Rows<N(==)>(c: Claim<N>): Table<N> {
    map s | s in c.sectors :: Row(c.client, if s == c.sectors[0] then 1 else 2)
  }

  /** The INSERTs of a claim succeed on t. */
  predicate Insertable<N(==)>(t: Table<N>, c: Claim<N>) {
    Distinct(c.sectors) && forall s :: s in c.sectors ==> s !in t
  }

  // ---------------------------------------------------------------- the server

  /** p is a primary sector of the client. */
  predicate IsPrimary<N(==)>(t: Table<N>, p: N, client: N) { p in t && t[p] == Row(client, 1) }

  ghost predicate HasPrimary<N(!new)>(t: Table<N>, client: N) { exists p :: IsPrimary(t, p, client) }

  /** Every status is 1 or 2, and every client in the table has exactly one primary sector. */
  ghost predicate WellOwned<N(!new)>(t: Table<N>) {
    && (forall s :: s in t ==> t[s].status == 1 || t[s].status == 2)
    && (forall client :: client in Owners(t) ==> HasPrimary(t, client))
    && (forall p, q, client :: IsPrimary(t, p, client) && IsPrimary(t, q, client) ==> p == q)
  }

  /** Some primary sector of the client is asked for, so a forced claim strips the client. */
  predicate Stripped<N(==)>(t: Table<N>, client: N, asked: seq<N>) {
    exists p :: p in asked && IsPrimary(t, p, client)
  }

  /** The sectors a forced claim takes away from others. */
  function Lost<N(==)>(t: Table<N>, asked: seq<N>): set<N> {
    set s | s in t && (s in asked || Stripped(t, t[s].client, asked))
  }

  /** The forced takeover: what others lose, the claimant gets as secondary sectors. */
  function Takeover<N(==)>(t: Table<N>, c: Claim<N>): Table<N>
    requires c.sectors != []
  {
    t + map s | s in Lost(t, c.sectors) + Elements(c.sectors)
            :: Row(c.client, if s == c.sectors[0] then 1 else 2)
  }

  datatype Verdict = Granted | Forced | Refused | Ignored

  /** Which exit of CheckSTSMes the server takes. */
  function Judge<N(==)>(t: Table<N>, c: Claim<N>, priority: nat): Verdict {
    if Insertable(WithoutClient(t, c.client), c) then Granted
    else if priority == 0 then Refused
    else if priority == 1 then Forced
    else Ignored
  }

  /** The server's table after an STS message. */
  function After<N(==)>(t: Table<N>, c: Claim<N>, priority: nat): Table<N> {
    var base := WithoutClient(t, c.client);
    match Judge(t, c, priority)
    case Granted => base + Rows(c)
    case Forced => Takeover(base, c)
    case _ => t
  }

  predicate Committed(v: Verdict) { v == Granted || v == Forced }

  /** The claim repeats a sector, or asks for one that another client owns. */
  predicate Conflicts<N(==)>(t: Table<N>, c: Claim<N>) {
    !Distinct(c.sectors) || exists s :: s in c.sectors && s in t && !Owns(t, c.client, s)
  }

  /** A normal claim with a conflict is refused, a forced one carried out, and one of any other
      priority ignored. */
  lemma JudgeExactly<N>(t: Table<N>, c: Claim<N>, priority: nat)
    ensures var v := Judge(t, c, priority);
      && (v == Granted <==> !Conflicts(t, c))
      && (v == Refused <==> Conflicts(t, c) && priority == 0)
      && (v == Forced <==> Conflicts(t, c) && priority == 1)
      && (v == Ignored <==> Conflicts(t, c) && priority >= 2)
  {
    forall s | s in c.sectors
      ensures s in WithoutClient(t, c.client) <==> s in t && !Owns(t, c.client, s)
    {
    }
  }

  /** What becomes of the table: a normal claim takes no sector from anybody, a forced one gets all
      it asks for. */
  lemma ClaimDecided<N>(t: Table<N>, c: Claim<N>, priority: nat)
    ensures Conflicts(t, c) && priority != 1 ==> After(t, c, priority) == t
    ensures !Conflicts(t, c) || priority == 1 ==>
      forall s :: s in c.sectors ==> Owns(After(t, c, priority), c.client, s)
  {
    JudgeExactly(t, c, priority);
    if !Conflicts(t, c) || priority == 1 {
      forall s | s in c.sectors ensures Owns(After(t, c, priority), c.client, s) {
        AfterAt(t, c, priority, s);
      }
    }
  }

  lemma StrippedOfOthers<N>(t: Table<N>, client: N, other: N, asked: seq<N>)
    requires other != client
    ensures Stripped(WithoutClient(t, client), other, asked) <==> Stripped(t, other, asked)
  {
    if Stripped(t, other, asked) {
      var p :| p in asked && IsPrimary(t, p, other);
      assert IsPrimary(WithoutClient(t, client), p, other);
    }
  }

  lemma GrantStripsNobody<N>(t: Table<N>, c: Claim<N>, other: N)
    requires Insertable(WithoutClient(t, c.client), c) && other != c.client
    ensures !Stripped(t, other, c.sectors)
  {
    StrippedOfOthers(t, c.client, other, c.sectors);
  }

  /** The new owner of each sector. */
  lemma AfterAt<N>(t: Table<N>, c: Claim<N>, priority: nat, s: N)
    requires Committed(Judge(t, c, priority))
    ensures var t' := After(t, c, priority);
      && (s in t' <==> s in c.sectors || (s in t && t[s].client != c.client))
      && (s in c.sectors ==> t'[s] == Rows(c)[s])
      && (s in t' && s !in c.sectors ==>
            t'[s] == if Stripped(t, t[s].client, c.sectors) then Row(c.client, 2) else t[s])
  {
    if s in t && t[s].client != c.client {
      StrippedOfOthers(t, c.client, t[s].client, c.sectors);
      if Judge(t, c, priority) == Granted { GrantStripsNobody(t, c, t[s].client); }
    }
  }

  lemma PrimaryKept<N(!new)>(t: Table<N>, c: Claim<N>, priority: nat, s: N)
    requires WellOwned(t) && Committed(Judge(t, c, priority)) && s in After(t, c, priority)
    ensures HasPrimary(After(t, c, priority), After(t, c, priority)[s].client)
  {
    var t' := After(t, c, priority);
    AfterAt(t, c, priority, s);
    var client := t'[s].client;
    if client == c.client {
      AfterAt(t, c, priority, c.sectors[0]);
      assert IsPrimary(t', c.sectors[0], client);
    } else {
      assert client in Owners(t);
      var p :| IsPrimary(t, p, client);
      AfterAt(t, c, priority, p);
      assert IsPrimary(t', p, client);
    }
  }

  lemma PrimaryUnique<N(!new)>(t: Table<N>, c: Claim<N>, priority: nat, p: N, q: N, client: N)
    requires WellOwned(t) && Committed(Judge(t, c, priority))
    requires IsPrimary(After(t, c, priority), p, client) && IsPrimary(After(t, c, priority), q, client)
    ensures p == q
  {
    AfterAt(t, c, priority, p);
    AfterAt(t, c, priority, q);
    if client != c.client {
      assert IsPrimary(t, p, client) && IsPrimary(t, q, client);
    }
  }

  /** No exit breaks the invariant. */
  lemma OwnershipKept<N(!new)>(t: Table<N>, c: Claim<N>, priority: nat)
    requires WellOwned(t)
    ensures WellOwned(After(t, c, priority))
  {
    var t' := After(t, c, priority);
    if Committed(Judge(t, c, priority)) {
      forall s | s in t' ensures t'[s].status == 1 || t'[s].status == 2 {
        AfterAt(t, c, priority, s);
      }
      forall client | client in Owners(t') ensures HasPrimary(t', client) {
        var s :| s in t' && t'[s].client == client;
        PrimaryKept(t, c, priority, s);
      }
      forall p, q, client | IsPrimary(t', p, client) && IsPrimary(t', q, client) ensures p == q {
        PrimaryUnique(t, c, priority, p, q, client);
      }
    }
  }

  /** A committed claim leaves exactly the requested sectors and those the claimant did not own:
      no sector of another client disappears from the table. */
  lemma SectorsConserved<N>(t: Table<N>, c: Claim<N>, priority: nat)
    requires Committed(Judge(t, c, priority))
    ensures After(t, c, priority).Keys
         == Elements(c.sectors) + (set s | s in t && t[s].client != c.client)
  {
  }

  /** Another client that is stripped owns nothing afterwards; one that is not keeps exactly those of
      its rows that were not asked for, its primary sector among them. */
  lemma TakeoverFair<N(!new)>(t: Table<N>, c: Claim<N>, priority: nat, other: N)
    requires WellOwned(t) && Committed(Judge(t, c, priority)) && other != c.client
    ensures forall s ::
      Owns(After(t, c, priority), other, s) <==> Owns(t, other, s) && s !in c.sectors && !Stripped(t, other, c.sectors)
    ensures forall s :: Owns(After(t, c, priority), other, s) ==> After(t, c, priority)[s] == t[s]
    ensures other in Owners(t) && !Stripped(t, other, c.sectors) ==> HasPrimary(After(t, c, priority), other)
  {
    forall s ensures Owns(After(t, c, priority), other, s)
        <==> Owns(t, other, s) && s !in c.sectors && !Stripped(t, other, c.sectors)
      ensures Owns(After(t, c, priority), other, s) ==> After(t, c, priority)[s] == t[s]
    {
      AfterAt(t, c, priority, s);
    }
    if other in Owners(t) && !Stripped(t, other, c.sectors) {
      assert HasPrimary(t, other);
      var p :| IsPrimary(t, p, other);
      assert Owns(t, other, p);
      assert IsPrimary(After(t, c, priority), p, other);
    }
  }

  /** The client owns a sector after a committed claim. */
  predicate StaysOwner<N(==)>(t: Table<N>, c: Claim<N>, y: N) {
    if y == c.client then c.sectors != [] else y in Owners(t) && !Stripped(t, y, c.sectors)
  }

  lemma OwnersExactly<N(!new)>(t: Table<N>, c: Claim<N>, priority: nat, y: N)
    requires WellOwned(t) && Committed(Judge(t, c, priority))
    ensures y in Owners(After(t, c, priority)) <==> StaysOwner(t, c, y)
  {
    var t' := After(t, c, priority);
    if y == c.client {
      if c.sectors != [] { AfterAt(t, c, priority, c.sectors[0]); }
      forall s | s in t' && c.sectors == [] ensures t'[s].client != y { AfterAt(t, c, priority, s); }
    } else {
      TakeoverFair(t, c, priority, y);
      if y in Owners(t') {
        var s :| s in t' && t'[s].client == y;
        assert Owns(t', y, s);
      }
    }
  }

  // ---------------------------------------------------------------- the workstations

  /** A workstation replays one STS text on its copy; a repeated sector makes it drop the message. */
  function Replay<N(==)>(r: Table<N>, c: Claim<N>): Table<N> {
    if Distinct(c.sectors) then (WithoutClient(r, c.client) - Elements(c.sectors)) + Rows(c) else r
  }

  function ReplayAll<N(==)>(r: Table<N>, cs: seq<Claim<N>>): Table<N>
  {
    if cs == [] then r else Replay(ReplayAll(r, cs[..|cs| - 1]), cs[|cs| - 1])
  }

  /** c lists exactly the rows of its client in t, the primary sector first. */
  predicate Describes<N(==)>(t: Table<N>, c: Claim<N>) {
    && Distinct(c.sectors)
    && Elements(c.sectors) == (set s | s in t && t[s].client == c.client)
    && c.sectors != [] && IsPrimary(t, c.sectors[0], c.client)
  }

  function Heard<N(==)>(cs: seq<Claim<N>>): set<N> { set i | 0 <= i < |cs| :: cs[i].client }

  /** A broadcast of t: descriptions of clients, in any order, every owner at least once. */
  predicate Broadcast<N(==)>(t: Table<N>, cs: seq<Claim<N>>) {
    && (forall i :: 0 <= i < |cs| ==> Describes(t, cs[i]))
    && Owners(t) <= Heard(cs)
  }

  /** A copy r that has heard about the given clients of t. */
  function Merged<N(==)>(r: Table<N>, t: Table<N>, heard: set<N>): Table<N> {
    map s | s in t.Keys + r.Keys && ((s in t && t[s].client in heard) || (s in r && r[s].client !in heard))
          :: if s in t && t[s].client in heard then t[s] else r[s]
  }

  lemma DescribedRow<N(!new)>(t: Table<N>, c: Claim<N>, s: N)
    requires WellOwned(t) && Describes(t, c)
    ensures s in c.sectors <==> Owns(t, c.client, s)
    ensures s in c.sectors ==> Rows(c)[s] == t[s]
  {
    assert s in Elements(c.sectors) <==> s in c.sectors;
    assert c.sectors[0] in Elements(c.sectors);
    if Owns(t, c.client, s) && t[s].status == 1 {
      assert IsPrimary(t, s, c.client);
    }
  }

  /** Both tables lack s, or both have the same row for it. */
  predicate Agree<N(==)>(x: Table<N>, y: Table<N>, s: N) {
    if s in x then s in y && x[s] == y[s] else s !in y
  }

  lemma Same<N(!new)>(x: Table<N>, y: Table<N>)
    requires forall s :: Agree(x, y, s)
    ensures x == y
  {
    assert forall s :: s in x.Keys ==> Agree(x, y, s);
    assert forall s :: s in y.Keys ==> Agree(x, y, s);
  }

  lemma ReplayAt<N>(r: Table<N>, c: Claim<N>, s: N)
    requires Distinct(c.sectors)
    ensures s in Replay(r, c) <==> s in c.sectors || (s in r && r[s].client != c.client)
    ensures s in Replay(r, c) ==> Replay(r, c)[s] == if s in c.sectors then Rows(c)[s] else r[s]
  {
    assert s in Elements(c.sectors) <==> s in c.sectors;
  }

  lemma ReplayMerges<N(!new)>(r: Table<N>, t: Table<N>, heard: set<N>, c: Claim<N>)
    requires WellOwned(t) && Describes(t, c)
    ensures Replay(Merged(r, t, heard), c) == Merged(r, t, heard + {c.client})
  {
    var x, y := Replay(Merged(r, t, heard), c), Merged(r, t, heard + {c.client});
    forall s ensures Agree(x, y, s) {
      ReplayAt(Merged(r, t, heard), c, s);
      DescribedRow(t, c, s);
    }
    Same(x, y);
  }

  lemma {:induction false} ReplayAllMerges<N(!new)>(r: Table<N>, t: Table<N>, cs: seq<Claim<N>>)
    requires WellOwned(t) && forall i :: 0 <= i < |cs| ==> Describes(t, cs[i])
    ensures ReplayAll(r, cs) == Merged(r, t, Heard(cs))
  {
    if cs == [] {
      assert Merged(r, t, {}) == r;
    } else {
      var most, last := cs[..|cs| - 1], cs[|cs| - 1];
      ReplayAllMerges(r, t, most);
      ReplayMerges(r, t, Heard(most), last);
      HeardLast(cs);
    }
  }

  lemma HeardLast<N>(cs: seq<Claim<N>>)
    requires cs != []
    ensures Heard(cs) == Heard(cs[..|cs| - 1]) + {cs[|cs| - 1].client}
  {
    var most := cs[..|cs| - 1];
    forall x | x in Heard(cs) ensures x in Heard(most) + {cs[|cs| - 1].client} {
      var i :| 0 <= i < |cs| && cs[i].client == x;
      if i < |most| { assert most[i].client == x; }
    }
    forall x | x in Heard(most) ensures x in Heard(cs) {
      var i :| 0 <= i < |most| && most[i].client == x;
      assert cs[i].client == x;
    }
  }

  /** The rows of a copy that no broadcast of t corrects. */
  function Stale<N(==)>(r: Table<N>, t: Table<N>): Table<N> {
    map s | s in r && s !in t && r[s].client !in Owners(t) :: r[s]
  }

  lemma HeardAll<N(!new)>(t: Table<N>, cs: seq<Claim<N>>)
    requires WellOwned(t) && Broadcast(t, cs)
    ensures Heard(cs) == Owners(t)
  {
    forall x | x in Heard(cs) ensures x in Owners(t) {
      var i :| 0 <= i < |cs| && cs[i].client == x;
      assert cs[i].sectors[0] in t;
      DescribedRow(t, cs[i], cs[i].sectors[0]);
    }
  }

  lemma Addition<N>(t: Table<N>, x: Table<N>)
    requires forall s :: s in x ==> s !in t
    ensures t + x == t <==> x == map[]
  {
    if x != map[] {
      var s :| s in x;
      assert s in t + x;
    }
  }

  lemma MergedAll<N(!new)>(r: Table<N>, t: Table<N>)
    ensures Merged(r, t, Owners(t)) == t + Stale(r, t)
  {
    var x, y := Merged(r, t, Owners(t)), t + Stale(r, t);
    forall s ensures Agree(x, y, s) {
      if s in t { assert t[s].client in Owners(t); }
    }
    Same(x, y);
  }

  /** Replaying a whole broadcast in any order gives the server's table and the stale rows. */
  lemma ReplayedBroadcast<N(!new)>(r: Table<N>, t: Table<N>, cs: seq<Claim<N>>)
    requires WellOwned(t) && Broadcast(t, cs)
    ensures ReplayAll(r, cs) == t + Stale(r, t)
    ensures ReplayAll(r, cs) == t <==> Stale(r, t) == map[]
  {
    ReplayAllMerges(r, t, cs);
    HeardAll(t, cs);
    MergedAll(r, t);
    Addition(t, Stale(r, t));
  }

  /** Replica convergence: a copy equal to the server's table before a claim equals the new table
      after the broadcast of the new table. */
  lemma BroadcastConverges<N(!new)>(t: Table<N>, c: Claim<N>, priority: nat, cs: seq<Claim<N>>)
    requires WellOwned(t) && c.sectors != []
    requires Broadcast(After(t, c, priority), cs)
    ensures ReplayAll(t, cs) == After(t, c, priority)
  {
    OwnershipKept(t, c, priority);
    ReplayedBroadcast(t, After(t, c, priority), cs);
    NothingStale(t, c, priority);
  }

  lemma NothingStale<N(!new)>(t: Table<N>, c: Claim<N>, priority: nat)
    requires c.sectors != []
    ensures Stale(t, After(t, c, priority)) == map[]
  {
    var t' := After(t, c, priority);
    var first := c.sectors[0];
    if Committed(Judge(t, c, priority)) {
      SectorsConserved(t, c, priority);
      assert first in t' && t'[first].client == c.client;
      assert c.client in Owners(t');
      forall s | s in t ensures s in t' || t[s].client in Owners(t') {
      }
    }
  }

  /** A claim without sectors is broadcast as itself, and its replay is what the server did. */
  lemma ReleaseConverges<N(!new)>(t: Table<N>, c: Claim<N>, priority: nat)
    requires c.sectors == []
    ensures Judge(t, c, priority) == Granted
    ensures Replay(t, c) == After(t, c, priority)
  {
    assert Elements(c.sectors) == {};
    assert Rows(c) == map[];
  }

  /** A client stripped of its sectors is told only "-client": its copy then always misses at least
      the sector it lost, so convergence holds for those who still own something and for them only. */
  lemma StrippedDiverges<N(!new)>(t: Table<N>, c: Claim<N>, priority: nat, other: N)
    requires WellOwned(t) && Committed(Judge(t, c, priority)) && other != c.client
    requires Stripped(t, other, c.sectors)
    ensures other !in Owners(After(t, c, priority))
    ensures Replay(t, Claim(other, [])) != After(t, c, priority)
  {
    TakeoverFair(t, c, priority, other);
    var t' := After(t, c, priority);
    if other in Owners(t') {
      var s :| s in t' && t'[s].client == other;
      assert Owns(t', other, s);
    }
    var p :| p in c.sectors && IsPrimary(t, p, other);
    AfterAt(t, c, priority, p);
    ReplayAt(t, Claim(other, []), p);
  }

  // ---------------------------------------------------------------- claims that change nothing

  /** The claim names just the sectors that its client owns, the primary sector first. */
  predicate Restates<N(==)>(t: Table<N>, c: Claim<N>) {
    && Elements(c.sectors) == (set s | s in t && t[s].client == c.client)
    && (c.sectors != [] ==> IsPrimary(t, c.sectors[0], c.client))
  }

  lemma RestatedRows<N(!new)>(t: Table<N>, c: Claim<N>, priority: nat)
    requires WellOwned(t) && Committed(Judge(t, c, priority)) && Restates(t, c)
    ensures After(t, c, priority) == t
  {
    forall s ensures Agree(After(t, c, priority), t, s) {
      AfterAt(t, c, priority, s);
      assert s in c.sectors <==> s in Elements(c.sectors);
      assert s in c.sectors <==> Owns(t, c.client, s);
      if s in c.sectors && t[s].status == 1 {
        assert IsPrimary(t, s, c.client) && IsPrimary(t, c.sectors[0], c.client);
      }
      assert forall p :: p in c.sectors ==> p in Elements(c.sectors) && Owns(t, c.client, p);
    }
    Same(After(t, c, priority), t);
  }

  /** The table stays as it is exactly when the claim is turned down or says what is in the table. */
  lemma UnchangedExactly<N(!new)>(t: Table<N>, c: Claim<N>, priority: nat)
    requires WellOwned(t)
    ensures After(t, c, priority) == t <==> !Committed(Judge(t, c, priority)) || Restates(t, c)
  {
    if Committed(Judge(t, c, priority)) {
      if Restates(t, c) {
        RestatedRows(t, c, priority);
      } else if After(t, c, priority) == t {
        forall s ensures s in Elements(c.sectors) <==> Owns(t, c.client, s) {
          AfterAt(t, c, priority, s);
        }
        if c.sectors != [] { AfterAt(t, c, priority, c.sectors[0]); }
        assert false;
      }
    }
  }

  // ---------------------------------------------------------------- a part of the broadcast

  lemma ClaimantHeard<N(!new)>(t: Table<N>, c: Claim<N>, priority: nat, heard: set<N>)
    requires Committed(Judge(t, c, priority)) && c.client in heard
    ensures Merged(t, After(t, c, priority), heard) == After(t, c, priority)
  {
    var t' := After(t, c, priority);
    forall s ensures Agree(Merged(t, t', heard), t', s) {
      AfterAt(t, c, priority, s);
    }
    Same(Merged(t, t', heard), t');
  }

  lemma ClaimantMissed<N(!new)>(t: Table<N>, c: Claim<N>, priority: nat, heard: set<N>)
    requires Committed(Judge(t, c, priority)) && c.client !in heard
    requires Merged(t, After(t, c, priority), heard) == After(t, c, priority)
    ensures After(t, c, priority) == t
  {
    var t' := After(t, c, priority);
    forall s ensures Agree(t', t, s) {
      AfterAt(t, c, priority, s);
    }
    Same(t', t);
  }

  /** However little of a broadcast a workstation reads, a copy equal to the table before a claim equals the table after
      it exactly when the claimant's own list is among what it reads, or nothing changes. */
  lemma ClaimantSuffices<N(!new)>(t: Table<N>, c: Claim<N>, priority: nat, cs: seq<Claim<N>>)
    requires WellOwned(t) && Committed(Judge(t, c, priority))
    requires forall i :: 0 <= i < |cs| ==> Describes(After(t, c, priority), cs[i])
    ensures ReplayAll(t, cs) == After(t, c, priority) <==> c.client in Heard(cs) || Restates(t, c)
  {
    OwnershipKept(t, c, priority);
    ReplayAllMerges(t, After(t, c, priority), cs);
    UnchangedExactly(t, c, priority);
    if c.client in Heard(cs) {
      ClaimantHeard(t, c, priority, Heard(cs));
    } else if ReplayAll(t, cs) == After(t, c, priority) {
      ClaimantMissed(t, c, priority, Heard(cs));
    } else if Restates(t, c) {
      Unmerged(t, Heard(cs));
    }
  }

  lemma Unmerged<N(!new)>(t: Table<N>, heard: set<N>)
    ensures Merged(t, t, heard) == t
  {
    forall s ensures Agree(Merged(t, t, heard), t, s) {
    }
    Same(Merged(t, t, heard), t);
  }
}
