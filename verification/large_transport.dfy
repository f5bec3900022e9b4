/** The large-data transport on values: splitting, identifiers, reframing and reassembly, and what arrives
    whatever packets are dropped and however the stream is cut. */
module LargeTransport {
  import opened Basics
  import opened LargeData

  // ---------------------------------------------------------------- splitting

  /** The size of a byte array is an int. */
  predicate Fits(data: Bytes) { |data| < 0x8000_0000 }

  function Pieces(data: Bytes): nat { (|data| + MAX_DATA_SIZE - 1) / MAX_DATA_SIZE }

  function Piece(data: Bytes, k: nat): Payload
    requires k < Pieces(data)
  {
    data[k * MAX_DATA_SIZE..if (k + 1) * MAX_DATA_SIZE <= |data| then (k + 1) * MAX_DATA_SIZE else |data|]
  }

  function Parts(data: Bytes): seq<Bytes> { seq(Pieces(data), k requires 0 <= k < Pieces(data) => Piece(data, k)) }

  function Joined(parts: seq<Bytes>): Bytes {
    if parts == [] then [] else Joined(parts[..|parts| - 1]) + parts[|parts| - 1]
  }

  lemma JoinedLast(a: seq<Bytes>, x: Bytes)
    ensures Joined(a + [x]) == Joined(a) + x
  {
    assert (a + [x])[..|a|] == a;
  }

  lemma {:induction false} PartsJoin(data: Bytes, k: nat)
    requires k <= Pieces(data)
    ensures Joined(Parts(data)[..k]) == data[..if k * MAX_DATA_SIZE <= |data| then k * MAX_DATA_SIZE else |data|]
  {
    if k > 0 {
      PartsJoin(data, k - 1);
      assert Parts(data)[..k][..k - 1] == Parts(data)[..k - 1];
    }
  }

  /** Joining the parts of data gives back the data, and every part is sendable and not empty. */
  lemma JoinParts(data: Bytes)
    ensures Joined(Parts(data)) == data
    ensures forall k :: 0 <= k < |Parts(data)| ==> 0 < |Parts(data)[k]| <= MAX_DATA_SIZE
    ensures Parts(data) == [] <==> data == []
  {
    PartsJoin(data, Pieces(data));
    assert Parts(data)[..Pieces(data)] == Parts(data);
  }

  function Packets(identifier: Word, data: Bytes): (ps: seq<Packet>)
    requires Fits(data)
    ensures |ps| == Pieces(data)
  {
    seq(Pieces(data), k requires 0 <= k < Pieces(data) => Packet(identifier, k, Pieces(data), Piece(data, k)))
  }

  // ---------------------------------------------------------------- identifiers

  /** The sender's step to its next identifier: one more in 32 bits, but never the bad one. */
  function NextIdentifier(i: Word): Word {
    if i == BAD_IDENTIFIER || i + 1 == BAD_IDENTIFIER then 0 else i + 1
  }

  /** The identifier of the n-th data sent, counting from the bad identifier. */
  function IdentifierOf(n: nat): Word {
    NextIdentifier(if n == 0 then BAD_IDENTIFIER else IdentifierOf(n - 1))
  }

  /** The sender gives out 0, 1, 2, ... up to the identifier before the bad one. */
  lemma {:induction false} FirstIdentifiers(n: nat)
    requires n < BAD_IDENTIFIER
    ensures IdentifierOf(n) == n
  {
    if n > 0 {
      FirstIdentifiers(n - 1);
    }
  }

  /** Then it starts again: the bad identifier is skipped, and the others come round in turn. */
  lemma {:induction false} IdentifiersComeRound(n: nat)
    ensures IdentifierOf(n) != BAD_IDENTIFIER
    ensures IdentifierOf(n + BAD_IDENTIFIER) == IdentifierOf(n)
  {
    if n == 0 {
      FirstIdentifiers(BAD_IDENTIFIER - 1);
    } else {
      IdentifiersComeRound(n - 1);
    }
  }

  // ---------------------------------------------------------------- reassembly

  /** What the receiver has of the data in progress. */
  datatype Assembly = Assembly(parts: seq<Bytes>, identifier: Word)

  const IDLE := Assembly([], BAD_IDENTIFIER)

  datatype Outcome = Outcome(st: Assembly, came: seq<Bytes>)

  /** One packet: the new assembly, and the data it completes, if any. */
  function Accept(st: Assembly, p: Packet): Outcome {
    var parts := if st.identifier != BAD_IDENTIFIER && st.identifier != p.identifier then [] else st.parts;
    if |parts| != p.number then Outcome(Assembly([], p.identifier), [])
    else if p.count == |parts| + 1 then Outcome(IDLE, [Joined(parts + [p.data])])
    else Outcome(Assembly(parts + [p.data], p.identifier), [])
  }

  function AcceptAll(st: Assembly, ps: seq<Packet>): Outcome {
    if ps == [] then Outcome(st, [])
    else
      var before := AcceptAll(st, ps[..|ps| - 1]);
      var o := Accept(before.st, ps[|ps| - 1]);
      Outcome(o.st, before.came + o.came)
  }

  function AcceptNext(o: Outcome, p: Packet): Outcome {
    var o' := Accept(o.st, p);
    Outcome(o'.st, o.came + o'.came)
  }

  lemma AcceptLast(st: Assembly, ps: seq<Packet>, p: Packet)
    ensures AcceptAll(st, ps + [p]) == AcceptNext(AcceptAll(st, ps), p)
  {
    assert (ps + [p])[..|ps|] == ps;
  }

  /** The packets carry these parts, under one identifier and numbered from 0. */
  predicate InTurn(qs: seq<Packet>, parts: seq<Bytes>, identifier: Word) {
    && |qs| == |parts|
    && forall i :: 0 <= i < |qs| ==>
         qs[i].identifier == identifier && qs[i].number == i && qs[i].data == parts[i]
  }

  /** The last n packets. */
  function Last(ps: seq<Packet>, n: nat): seq<Packet>
    requires n <= |ps|
  {
    ps[|ps| - n..]
  }

  /** The parts that are held came in the last packets. */
  predicate Held(ps: seq<Packet>, st: Assembly) {
    && |st.parts| <= |ps| && InTurn(Last(ps, |st.parts|), st.parts, st.identifier)
    && (st.identifier == BAD_IDENTIFIER ==> st.parts == [])
  }

  lemma HeldNext(ps: seq<Packet>, st: Assembly, p: Packet)
    requires Held(ps, st) && p.identifier != BAD_IDENTIFIER
    ensures Held(ps + [p], Accept(st, p).st)
  {
    var st' := Accept(st, p).st;
    if st'.parts != [] {
      assert Last(ps + [p], |st'.parts|) == Last(ps, |st.parts|) + [p] || |st'.parts| == 1;
      assert |st'.parts| == 1 ==> Last(ps + [p], 1) == [p];
    }
  }

  /** Whatever packets come, in any order and number, what the receiver holds are the parts of the last ones, numbered
      from 0 under one identifier. */
  lemma {:induction false} HeldInTurn(ps: seq<Packet>)
    requires forall i :: 0 <= i < |ps| ==> ps[i].identifier != BAD_IDENTIFIER
    ensures Held(ps, AcceptAll(IDLE, ps).st)
  {
    if ps != [] {
      var most, p := ps[..|ps| - 1], ps[|ps| - 1];
      HeldInTurn(most);
      HeldNext(most, AcceptAll(IDLE, most).st, p);
      assert most + [p] == ps;
    }
  }

  lemma CameNext(ps: seq<Packet>, st: Assembly, p: Packet) returns (parts: seq<Bytes>)
    requires Held(ps, st) && Accept(st, p).came != []
    ensures |parts| <= |ps| + 1 && p.count == |parts| && Accept(st, p).came == [Joined(parts)]
    ensures InTurn(Last(ps + [p], |parts|), parts, p.identifier)
  {
    var before := if st.identifier != p.identifier then [] else st.parts;
    parts := before + [p.data];
    assert Last(ps + [p], |parts|) == Last(ps, |before|) + [p];
  }

  /** And what it hands out came in the last packets, numbered from 0 under one identifier, as many as the last of them
      says. */
  lemma CameInTurn(ps: seq<Packet>, p: Packet) returns (parts: seq<Bytes>)
    requires forall i :: 0 <= i < |ps| ==> ps[i].identifier != BAD_IDENTIFIER
    requires Accept(AcceptAll(IDLE, ps).st, p).came != []
    ensures |parts| <= |ps| + 1 && p.count == |parts| && Accept(AcceptAll(IDLE, ps).st, p).came == [Joined(parts)]
    ensures InTurn(Last(ps + [p], |parts|), parts, p.identifier)
  {
    HeldInTurn(ps);
    parts := CameNext(ps, AcceptAll(IDLE, ps).st, p);
  }

  /** Two outcomes one after the other. */
  function Then(first: Outcome, second: Outcome): Outcome { Outcome(second.st, first.came + second.came) }

  lemma ThenNext(first: Outcome, second: Outcome, p: Packet)
    ensures AcceptNext(Then(first, second), p) == Then(first, AcceptNext(second, p))
  {
  }

  /** One sequence of packets after another: the outcomes follow each other. */
  ghost predicate Follows(st: Assembly, ps: seq<Packet>, qs: seq<Packet>) {
    AcceptAll(st, ps + qs) == Then(AcceptAll(st, ps), AcceptAll(AcceptAll(st, ps).st, qs))
  }

  lemma FollowsNothing(st: Assembly, ps: seq<Packet>)
    ensures Follows(st, ps, [])
  {
    assert ps + [] == ps && AcceptAll(st, ps).came + [] == AcceptAll(st, ps).came;
  }

  lemma FollowsNext(st: Assembly, ps: seq<Packet>, qs: seq<Packet>, q: Packet)
    requires Follows(st, ps, qs)
    ensures Follows(st, ps, qs + [q])
  {
    var first := AcceptAll(st, ps);
    AcceptLast(st, ps + qs, q);
    AcceptLast(first.st, qs, q);
    ThenNext(first, AcceptAll(first.st, qs), q);
    assert (ps + qs) + [q] == ps + (qs + [q]);
  }

  lemma FollowsNextOf(st: Assembly, ps: seq<Packet>, qs: seq<Packet>, n: nat)
    requires n < |qs| && Follows(st, ps, qs[..n])
    ensures Follows(st, ps, qs[..n + 1])
  {
    assert qs[..n + 1] == qs[..n] + [qs[n]];
    FollowsNext(st, ps, qs[..n], qs[n]);
  }

  lemma {:induction false} FollowsFirst(st: Assembly, ps: seq<Packet>, qs: seq<Packet>, n: nat)
    requires n <= |qs|
    ensures Follows(st, ps, qs[..n])
  {
    if n == 0 {
      FollowsNothing(st, ps);
    } else {
      FollowsFirst(st, ps, qs, n - 1);
      FollowsNextOf(st, ps, qs, n - 1);
    }
  }

  lemma AcceptAppend(st: Assembly, ps: seq<Packet>, qs: seq<Packet>)
    ensures AcceptAll(st, ps + qs) == Then(AcceptAll(st, ps), AcceptAll(AcceptAll(st, ps).st, qs))
  {
    FollowsFirst(st, ps, qs, |qs|);
    assert qs[..|qs|] == qs;
  }

  // ---------------------------------------------------------------- dropped packets

  /** The packets that are not dropped. */
  function Kept(ps: seq<Packet>, mask: seq<bool>): seq<Packet>
    requires |mask| == |ps|
  {
    if ps == [] then []
    else
      var n := |ps| - 1;
      Kept(ps[..n], mask[..n]) + (if mask[n] then [ps[n]] else [])
  }

  predicate All(mask: seq<bool>) { forall k :: 0 <= k < |mask| ==> mask[k] }

  /** No data in progress has the bad identifier. */
  predicate Tidy(st: Assembly) { st.identifier == BAD_IDENTIFIER ==> st.parts == [] }

  /** What the first k packets of data make when none is dropped. */
  function OutcomeOf(data: Bytes, identifier: Word, k: nat): Outcome
    requires k <= Pieces(data)
  {
    if k < Pieces(data) then Outcome(Assembly(Parts(data)[..k], identifier), []) else Outcome(IDLE, [data])
  }

  /** The assembly after the first k packets of data have been sent and some of them dropped. */
  ghost predicate InProgress(st: Assembly, data: Bytes, identifier: Word, mask: seq<bool>, k: nat, o: Outcome)
    requires k <= |mask| && |mask| == Pieces(data)
  {
    && Tidy(o.st)
    && (o.st.identifier == st.identifier || o.st.identifier == identifier || o.st == IDLE)
    && (k == 0 ==> o == Outcome(st, []))
    && (k > 0 && All(mask[..k]) ==> o == OutcomeOf(data, identifier, k))
    && (k > 0 && !All(mask[..k]) ==>
          o.came == [] && (o.st.identifier == identifier || o.st.identifier == BAD_IDENTIFIER ==> |o.st.parts| < k))
  }

  lemma AllExtended(mask: seq<bool>, k: nat)
    requires k < |mask|
    ensures All(mask[..k + 1]) <==> All(mask[..k]) && mask[k]
  {
    assert mask[..k + 1][k] == mask[k];
    if All(mask[..k + 1]) {
      forall i | 0 <= i < k ensures mask[..k][i] { assert mask[..k + 1][i]; }
    }
  }

  /** Every packet so far has come, and so does the next. */
  lemma OnTrack(st: Assembly, data: Bytes, identifier: Word, mask: seq<bool>, k: nat, o: Outcome)
    requires Fits(data) && |mask| == Pieces(data) && k < |mask|
    requires Tidy(st) && identifier != st.identifier && identifier != BAD_IDENTIFIER
    requires InProgress(st, data, identifier, mask, k, o) && All(mask[..k]) && mask[k]
    ensures InProgress(st, data, identifier, mask, k + 1, AcceptNext(o, Packets(identifier, data)[k]))
  {
    AllExtended(mask, k);
    JoinParts(data);
    assert Parts(data)[..0] == [];
    assert Parts(data)[..k + 1] == Parts(data)[..k] + [Piece(data, k)];
    if k + 1 == |mask| {
      assert Parts(data)[..k + 1] == Parts(data);
    }
  }

  /** Some packet before has not come, or this one does not. */
  lemma OffTrack(st: Assembly, data: Bytes, identifier: Word, mask: seq<bool>, k: nat, o: Outcome)
    requires Fits(data) && |mask| == Pieces(data) && k < |mask|
    requires Tidy(st) && identifier != st.identifier && identifier != BAD_IDENTIFIER
    requires InProgress(st, data, identifier, mask, k, o) && !(All(mask[..k]) && mask[k])
    ensures InProgress(st, data, identifier, mask, k + 1,
                       if mask[k] then AcceptNext(o, Packets(identifier, data)[k]) else o)
  {
    AllExtended(mask, k);
  }

  lemma {:induction false} DataProgress(st: Assembly, data: Bytes, identifier: Word, mask: seq<bool>, k: nat)
    requires Fits(data) && |mask| == Pieces(data) && k <= |mask|
    requires Tidy(st) && identifier != st.identifier && identifier != BAD_IDENTIFIER
    ensures InProgress(st, data, identifier, mask, k, AcceptAll(st, Kept(Packets(identifier, data)[..k], mask[..k])))
  {
    if k > 0 {
      var ps := Packets(identifier, data);
      var before := Kept(ps[..k - 1], mask[..k - 1]);
      DataProgress(st, data, identifier, mask, k - 1);
      KeptExtended(ps, mask, k - 1);
      AcceptLast(st, before, ps[k - 1]);
      if All(mask[..k - 1]) && mask[k - 1] {
        OnTrack(st, data, identifier, mask, k - 1, AcceptAll(st, before));
      } else {
        OffTrack(st, data, identifier, mask, k - 1, AcceptAll(st, before));
      }
    }
  }

  lemma KeptExtended(ps: seq<Packet>, mask: seq<bool>, k: nat)
    requires |mask| == |ps| && k < |ps|
    ensures Kept(ps[..k + 1], mask[..k + 1]) ==
      if mask[k] then Kept(ps[..k], mask[..k]) + [ps[k]] else Kept(ps[..k], mask[..k])
  {
    assert ps[..k + 1][..k] == ps[..k] && mask[..k + 1][..k] == mask[..k];
  }

  /** Data arrives exactly when it is not empty and none of its packets was dropped. */
  lemma DataFate(st: Assembly, data: Bytes, identifier: Word, mask: seq<bool>)
    requires Fits(data) && |mask| == Pieces(data)
    requires Tidy(st) && identifier != st.identifier && identifier != BAD_IDENTIFIER
    ensures var o := AcceptAll(st, Kept(Packets(identifier, data), mask));
      && o.came == (if data != [] && All(mask) then [data] else [])
      && Tidy(o.st) && (o.st.identifier in {st.identifier, identifier, BAD_IDENTIFIER})
  {
    DataProgress(st, data, identifier, mask, |mask|);
    assert Packets(identifier, data)[..|mask|] == Packets(identifier, data) && mask[..|mask|] == mask;
  }

  // ---------------------------------------------------------------- all the data of a connection

  /** Masks for the packets of every data. */
  predicate Masks(ds: seq<Bytes>, ms: seq<seq<bool>>) {
    |ms| == |ds| && forall i :: 0 <= i < |ds| ==> Fits(ds[i]) && |ms[i]| == Pieces(ds[i])
  }

  /** The packets on the way, in order. */
  function OnWire(ds: seq<Bytes>, ms: seq<seq<bool>>): (ps: seq<Packet>)
    requires Masks(ds, ms)
  {
    if ds == [] then []
    else
      var n := |ds| - 1;
      OnWire(ds[..n], ms[..n]) + Kept(Packets(IdentifierOf(n), ds[n]), ms[n])
  }

  /** The data that are not empty and lost no packet. */
  function Intact(ds: seq<Bytes>, ms: seq<seq<bool>>): seq<Bytes>
    requires |ms| == |ds|
  {
    if ds == [] then []
    else
      var n := |ds| - 1;
      Intact(ds[..n], ms[..n]) + (if ds[n] != [] && All(ms[n]) then [ds[n]] else [])
  }

  /** What the packets of the first n data have come to: the data handed out, and an assembly that has none of the
      identifiers of the data to come. */
  ghost predicate Settled(ps: seq<Packet>, came: seq<Bytes>, n: nat) {
    var o := AcceptAll(IDLE, ps);
    o.came == came && Tidy(o.st) && (o.st.identifier == BAD_IDENTIFIER || o.st.identifier < n)
  }

  /** The packets of the n-th data, after those of n others. */
  lemma LossStep(before: seq<Packet>, came: seq<Bytes>, n: nat, data: Bytes, mask: seq<bool>)
    requires n < BAD_IDENTIFIER && Fits(data) && |mask| == Pieces(data) && Settled(before, came, n)
    ensures Settled(before + Kept(Packets(IdentifierOf(n), data), mask),
                    came + (if data != [] && All(mask) then [data] else []), n + 1)
  {
    FirstIdentifiers(n);
    DataFate(AcceptAll(IDLE, before).st, data, IdentifierOf(n), mask);
    AcceptAppend(IDLE, before, Kept(Packets(IdentifierOf(n), data), mask));
  }

  lemma {:induction false} LossProgress(ds: seq<Bytes>, ms: seq<seq<bool>>, n: nat)
    requires Masks(ds, ms) && n == |ds| <= BAD_IDENTIFIER
    ensures Settled(OnWire(ds, ms), Intact(ds, ms), n)
    decreases n
  {
    if n > 0 {
      LossProgress(ds[..n - 1], ms[..n - 1], n - 1);
      LossStep(OnWire(ds[..n - 1], ms[..n - 1]), Intact(ds[..n - 1], ms[..n - 1]), n - 1, ds[n - 1], ms[n - 1]);
    }
  }

  /** Whatever packets are dropped, what the receiver hands out is exactly the data that lost none: never a
      mixture, and in order. */
  lemma LossSafety(ds: seq<Bytes>, ms: seq<seq<bool>>)
    requires Masks(ds, ms) && |ds| <= BAD_IDENTIFIER
    ensures AcceptAll(IDLE, OnWire(ds, ms)).came == Intact(ds, ms)
  {
    LossProgress(ds, ms, |ds|);
  }

  /** A connection that repeats an identifier: the first and the last data have it, and all between are empty. */
  function Around<T>(first: T, middle: T, last: T): (r: seq<T>)
    ensures |r| == BAD_IDENTIFIER + 1
  {
    [first] + seq(BAD_IDENTIFIER - 1, i => middle) + [last]
  }

  lemma {:induction false} OnlyFirstSent(ds: seq<Bytes>, ms: seq<seq<bool>>, n: nat)
    requires Masks(ds, ms) && 0 < n <= |ds| && forall i :: 0 < i < n ==> ds[i] == []
    ensures OnWire(ds[..n], ms[..n]) == Kept(Packets(0, ds[0]), ms[0])
  {
    assert ds[..n][..n - 1] == ds[..n - 1] && ms[..n][..n - 1] == ms[..n - 1];
    if n > 1 {
      OnlyFirstSent(ds, ms, n - 1);
    }
  }

  lemma AroundOnWire(first: Bytes, last: Bytes, ds: seq<Bytes>, ms: seq<seq<bool>>)
    requires Pieces(first) == 2 && Pieces(last) == 2
    requires ds == Around(first, [], last) && ms == Around([true, false], [], [false, true])
    ensures Masks(ds, ms) && OnWire(ds, ms) == [Packets(0, first)[0]] + [Packets(0, last)[1]]
  {
    var n := |ds| - 1;
    assert ds[n] == last && ms[n] == [false, true];
    OnlyFirstSent(ds, ms, n);
    IdentifiersComeRound(0);
    KeptOfTwo(Packets(0, first), true, false);
    KeptOfTwo(Packets(0, last), false, true);
  }

  lemma AroundIntact(first: Bytes, last: Bytes, ds: seq<Bytes>, ms: seq<seq<bool>>)
    requires ds == Around(first, [], last) && ms == Around([true, false], [], [false, true])
    ensures Intact(ds, ms) == []
  {
    assert !ms[0][1] && !ms[|ds| - 1][0];
    NothingIntact(ds, ms, |ds|);
    assert ds[..|ds|] == ds && ms[..|ds|] == ms;
  }

  /** The first half of some data and the second half of others with the same identifier. */
  lemma HalvesJoined(a: Packet, b: Packet)
    requires a.identifier == b.identifier && a.number == 0 && b.number == 1 && a.count == b.count == 2
    ensures AcceptAll(IDLE, [a] + [b]).came == [a.data + b.data]
  {
    AcceptLast(IDLE, [], a);
    AcceptLast(IDLE, [a], b);
    JoinedLast([], a.data);
    JoinedLast([a.data], b.data);
    var half := AcceptAll(IDLE, [a]);
    assert [] + [a] == [a] && [] + [a.data] == [a.data];
    assert Joined([a.data]) == a.data;
    assert half.st == Assembly([a.data], a.identifier) && half.came == [];
    assert Accept(half.st, b).came == [Joined([a.data] + [b.data])];
  }

  /** One data more, and the safety is gone: the identifier comes again, and the first half of the first data is
      joined with the second half of the last. */
  lemma MixtureAfterWrap(first: Bytes, last: Bytes)
    requires Pieces(first) == 2 && Pieces(last) == 2
    ensures var ds, ms := Around(first, [], last), Around([true, false], [], [false, true]);
      && |ds| == BAD_IDENTIFIER + 1 && Masks(ds, ms)
      && AcceptAll(IDLE, OnWire(ds, ms)).came == [Piece(first, 0) + Piece(last, 1)]
      && Intact(ds, ms) == []
  {
    AroundOnWire(first, last, Around(first, [], last), Around([true, false], [], [false, true]));
    AroundIntact(first, last, Around(first, [], last), Around([true, false], [], [false, true]));
    HalvesJoined(Packets(0, first)[0], Packets(0, last)[1]);
  }

  /** The receiver hands out the intact data and nothing else. */
  predicate Safe(ds: seq<Bytes>, ms: seq<seq<bool>>)
    requires Masks(ds, ms)
  {
    AcceptAll(IDLE, OnWire(ds, ms)).came == Intact(ds, ms)
  }

  /** An empty data at the end changes nothing. */
  lemma EmptyLast(ds: seq<Bytes>, ms: seq<seq<bool>>)
    requires Masks(ds, ms)
    ensures Masks(ds + [[]], ms + [[]]) && (Safe(ds + [[]], ms + [[]]) <==> Safe(ds, ms))
  {
    assert (ds + [[]])[..|ds|] == ds && (ms + [[]])[..|ds|] == ms;
    assert OnWire(ds, ms) + [] == OnWire(ds, ms) && Intact(ds, ms) + [] == Intact(ds, ms);
  }

  /** For each number of data above the number of identifiers, some run is unsafe. */
  lemma {:induction false} UnsafeRun(n: nat) returns (ds: seq<Bytes>, ms: seq<seq<bool>>)
    requires n > BAD_IDENTIFIER
    ensures |ds| == n && Masks(ds, ms) && !Safe(ds, ms)
  {
    if n == BAD_IDENTIFIER + 1 {
      var data: Bytes := seq(MAX_DATA_SIZE + 1, i => 0);
      MixtureAfterWrap(data, data);
      ds, ms := Around(data, [], data), Around([true, false], [], [false, true]);
    } else {
      ds, ms := UnsafeRun(n - 1);
      EmptyLast(ds, ms);
      ds, ms := ds + [[]], ms + [[]];
    }
  }

  /** All runs of n data are safe exactly when there are enough identifiers for them. */
  lemma SafeExactlyUpTo(n: nat)
    ensures (forall ds, ms :: |ds| == n && Masks(ds, ms) ==> Safe(ds, ms)) <==> n <= BAD_IDENTIFIER
  {
    if n <= BAD_IDENTIFIER {
      forall ds, ms | |ds| == n && Masks(ds, ms) ensures Safe(ds, ms) {
        LossSafety(ds, ms);
      }
    } else {
      var ds, ms := UnsafeRun(n);
    }
  }

  lemma KeptOfTwo(ps: seq<Packet>, x: bool, y: bool)
    requires |ps| == 2
    ensures Kept(ps, [x, y]) == (if x then [ps[0]] else []) + (if y then [ps[1]] else [])
  {
    KeptExtended(ps, [x, y], 0);
    KeptExtended(ps, [x, y], 1);
    assert ps[..2] == ps && [x, y][..2] == [x, y];
  }

  lemma {:induction false} NothingIntact(ds: seq<Bytes>, ms: seq<seq<bool>>, n: nat)
    requires |ms| == |ds| && n <= |ds| && forall i :: 0 <= i < n ==> ds[i] == [] || !All(ms[i])
    ensures Intact(ds[..n], ms[..n]) == []
  {
    if n > 0 {
      assert ds[..n][..n - 1] == ds[..n - 1] && ms[..n][..n - 1] == ms[..n - 1];
      NothingIntact(ds, ms, n - 1);
    }
  }

  // ---------------------------------------------------------------- the byte stream

  /** The packets as byte arrays, one by one. */
  function Frames(ps: seq<Packet>): (fs: seq<Bytes>)
    ensures |fs| == |ps|
  {
    seq(|ps|, k requires 0 <= k < |ps| => ToBytes(ps[k]))
  }

  /** The stream that carries the packets. */
  function Encode(ps: seq<Packet>): Bytes { Joined(Frames(ps)) }

  /** The receiver: unread bytes, whether its timer runs, the assembly, and what it has handed out. */
  datatype Receiver = Receiver(buffer: Bytes, timer: bool, st: Assembly, came: seq<Bytes>)

  const FRESH := Receiver([], false, IDLE, [])

  /** onReadyRead: the timer starts once a header is there. */
  function ReadyRead(rx: Receiver, chunk: Bytes): Receiver {
    var buffer := rx.buffer + chunk;
    rx.(buffer := buffer, timer := rx.timer || |buffer| >= HEADER)
  }

  /** What is left when bytes before the signature are removed; without a signature nothing is. */
  function Trimmed(buffer: Bytes): Bytes {
    var i := IndexOf(buffer, SIGNATURE);
    if i > 0 then buffer[i..] else buffer
  }

  /** proceed: at most one packet. */
  function Proceed(rx: Receiver): Receiver {
    var buffer := Trimmed(rx.buffer);
    var size := PacketSize(buffer);
    if |buffer| < size || !(HEADER <= size <= HEADER + MAX_DATA_SIZE) then rx.(buffer := buffer)
    else
      var o := Accept(rx.st, FromBytes(buffer[..size]));
      Receiver(buffer[size..], rx.timer && |buffer[size..]| >= HEADER, o.st, rx.came + o.came)
  }

  /** timerEvent. */
  function Tick(rx: Receiver): Receiver { if rx.timer then Proceed(rx) else rx }

  datatype Event = Chunk(bytes: Bytes) | TimerTick

  function Handle(rx: Receiver, e: Event): Receiver {
    match e
    case Chunk(bytes) => ReadyRead(rx, bytes)
    case TimerTick => Tick(rx)
  }

  function Run(events: seq<Event>): Receiver {
    if events == [] then FRESH else Handle(Run(events[..|events| - 1]), events[|events| - 1])
  }

  /** The bytes that have arrived. */
  function Arrived(events: seq<Event>): Bytes {
    if events == [] then []
    else
      var e := events[|events| - 1];
      Arrived(events[..|events| - 1]) + if e.Chunk? then e.bytes else []
  }

  /** The receiver has taken the first k packets of a stream and keeps the other bytes that have arrived; its
      timer runs exactly when a header is there. */
  ghost predicate Framed(ps: seq<Packet>, arrived: Bytes, rx: Receiver, k: int)
  {
    && 0 <= k <= |ps|
    && arrived == Encode(ps[..k]) + rx.buffer
    && Outcome(rx.st, rx.came) == AcceptAll(IDLE, ps[..k])
    && rx.timer == (|rx.buffer| >= HEADER)
  }

  lemma {:induction false} JoinedAppend(a: seq<Bytes>, b: seq<Bytes>)
    ensures Joined(a + b) == Joined(a) + Joined(b)
  {
    if b == [] {
      assert a + b == a;
    } else {
      var most, x := b[..|b| - 1], b[|b| - 1];
      JoinedAppend(a, most);
      assert a + b == (a + most) + [x] && b == most + [x];
      JoinedLast(a + most, x);
      JoinedLast(most, x);
      Associate(Joined(a), Joined(most), x);
    }
  }

  lemma JoinedMiddle(a: seq<Bytes>, x: Bytes, b: seq<Bytes>)
    ensures Joined(a + [x] + b) == Joined(a) + (x + Joined(b))
  {
    JoinedLast(a, x);
    JoinedAppend(a + [x], b);
  }

  lemma EncodeSplit(ps: seq<Packet>, k: nat)
    requires k < |ps|
    ensures Encode(ps) == Encode(ps[..k]) + (Frames(ps)[k] + Joined(Frames(ps)[k + 1..]))
    ensures Encode(ps[..k + 1]) == Encode(ps[..k]) + Frames(ps)[k]
  {
    var fs := Frames(ps);
    assert Frames(ps[..k]) == fs[..k] && Frames(ps[..k + 1]) == fs[..k] + [fs[k]];
    assert fs == fs[..k] + [fs[k]] + fs[k + 1..];
    JoinedLast(fs[..k], fs[k]);
    JoinedMiddle(fs[..k], fs[k], fs[k + 1..]);
  }

  lemma PrefixRest(before: Bytes, buffer: Bytes, rest: Bytes)
    requires before + buffer <= before + rest
    ensures buffer <= rest
  {
    assert buffer == (before + buffer)[|before|..] && rest == (before + rest)[|before|..];
  }

  /** With a whole packet at the front of the buffer, proceed takes it. */
  lemma ProceedTakes(rx: Receiver, p: Packet, more: Bytes)
    requires rx.buffer == ToBytes(p) + more
    ensures var o := Accept(rx.st, p);
      Proceed(rx) == Receiver(more, rx.timer && |more| >= HEADER, o.st, rx.came + o.came)
  {
    PacketInFront(p, more);
    PacketRoundTrip(p);
  }

  /** Bytes before the signature do not matter to proceed. */
  lemma ProceedSkips(rx: Receiver, junk: Bytes, rest: Bytes)
    requires rx.buffer == junk + rest && OccursAt(rest, SIGNATURE, 0)
    requires forall j: nat :: j < |junk| ==> !OccursAt(rx.buffer, SIGNATURE, j)
    ensures Proceed(rx) == Proceed(rx.(buffer := rest))
  {
    assert rx.buffer[|junk|..] == rest;
    assert OccursAt(rx.buffer, SIGNATURE, |junk|) by { assert rx.buffer[|junk|..|junk| + 7] == rest[0..7]; }
    assert IndexOf(rx.buffer, SIGNATURE) == |junk| && IndexOf(rest, SIGNATURE) == 0;
  }

  /** With a part of a packet at the front that has the header, it waits. */
  lemma ProceedWaits(rx: Receiver, p: Packet)
    requires HEADER <= |rx.buffer| < |ToBytes(p)| && rx.buffer <= ToBytes(p)
    ensures Proceed(rx) == rx
  {
    SizeKnown(p, |rx.buffer|);
    assert rx.buffer == ToBytes(p)[..|rx.buffer|];
  }

  lemma AcceptNextOf(ps: seq<Packet>, k: nat)
    requires k < |ps|
    ensures AcceptAll(IDLE, ps[..k + 1]) == AcceptNext(AcceptAll(IDLE, ps[..k]), ps[k])
  {
    AcceptLast(IDLE, ps[..k], ps[k]);
    assert ps[..k] + [ps[k]] == ps[..k + 1];
  }

  lemma TickTakes(ps: seq<Packet>, arrived: Bytes, rx: Receiver, k: nat, more: Bytes)
    requires Framed(ps, arrived, rx, k) && k < |ps| && rx.buffer == Frames(ps)[k] + more
    ensures Framed(ps, arrived, Tick(rx), k + 1)
  {
    EncodeSplit(ps, k);
    ProceedTakes(rx, ps[k], more);
    AcceptNextOf(ps, k);
    Associate(Encode(ps[..k]), Frames(ps)[k], more);
  }

  /** What has arrived of a stream after k packets is a prefix of the rest of the stream. */
  lemma RestOfStream(ps: seq<Packet>, arrived: Bytes, rx: Receiver, k: nat)
    requires Framed(ps, arrived, rx, k) && arrived <= Encode(ps) && k < |ps|
    ensures rx.buffer <= Frames(ps)[k] + Joined(Frames(ps)[k + 1..])
    ensures |Encode(ps[..k + 1])| <= |arrived| <==> |Frames(ps)[k]| <= |rx.buffer|
  {
    EncodeSplit(ps, k);
    PrefixRest(Encode(ps[..k]), rx.buffer, Frames(ps)[k] + Joined(Frames(ps)[k + 1..]));
  }

  /** A tick takes the next packet if all of it has arrived, and otherwise changes nothing. */
  lemma TickStep(ps: seq<Packet>, arrived: Bytes, rx: Receiver, k: nat)
    requires Framed(ps, arrived, rx, k) && arrived <= Encode(ps)
    ensures if k < |ps| && |Encode(ps[..k + 1])| <= |arrived|
      then Framed(ps, arrived, Tick(rx), k + 1) else Tick(rx) == rx
  {
    if k < |ps| {
      RestOfStream(ps, arrived, rx, k);
      var frame := Frames(ps)[k];
      if |frame| <= |rx.buffer| {
        assert rx.buffer == frame + rx.buffer[|frame|..];
        TickTakes(ps, arrived, rx, k, rx.buffer[|frame|..]);
      } else if |rx.buffer| >= HEADER {
        ProceedWaits(rx, ps[k]);
      }
    } else {
      assert ps[..k] == ps;
    }
  }

  lemma ChunkStep(ps: seq<Packet>, arrived: Bytes, rx: Receiver, k: nat, chunk: Bytes)
    requires Framed(ps, arrived, rx, k)
    ensures Framed(ps, arrived + chunk, ReadyRead(rx, chunk), k)
  {
  }

  lemma RunLast(events: seq<Event>, e: Event)
    ensures Run(events + [e]) == Handle(Run(events), e)
    ensures Arrived(events + [e]) == if e.Chunk? then Arrived(events) + e.bytes else Arrived(events)
  {
    assert (events + [e])[..|events|] == events;
  }

  /** Whatever the chunks and ticks, the receiver has taken some number of whole packets. */
  lemma {:induction false} RunFramed(ps: seq<Packet>, events: seq<Event>)
    requires Arrived(events) <= Encode(ps)
    ensures exists k :: Framed(ps, Arrived(events), Run(events), k)
  {
    if events == [] {
      assert Framed(ps, Arrived(events), Run(events), 0);
    } else {
      var before, e := events[..|events| - 1], events[|events| - 1];
      assert events == before + [e];
      RunLast(before, e);
      RunFramed(ps, before);
      var k :| Framed(ps, Arrived(before), Run(before), k);
      match e {
        case Chunk(bytes) => ChunkStep(ps, Arrived(before), Run(before), k, bytes);
        case TimerTick => TickStep(ps, Arrived(before), Run(before), k);
      }
    }
  }

  /** A receiver with a whole packet at its front is not stalled: its timer runs, and the next tick takes the
      packet. */
  lemma NeverStalls(ps: seq<Packet>, events: seq<Event>, k: nat)
    requires Arrived(events) <= Encode(ps)
    requires Framed(ps, Arrived(events), Run(events), k) && k < |ps| && |Encode(ps[..k + 1])| <= |Arrived(events)|
    ensures Run(events).timer && Framed(ps, Arrived(events), Run(events + [TimerTick]), k + 1)
  {
    EncodeSplit(ps, k);
    TickStep(ps, Arrived(events), Run(events), k);
    RunLast(events, TimerTick);
  }

  function Ticks(n: nat): seq<Event> { seq(n, i => TimerTick) }

  /** The receiver has taken at least n packets, or all of them. */
  ghost predicate Drained(ps: seq<Packet>, rx: Receiver, n: int) {
    exists k :: Framed(ps, Encode(ps), rx, k) && (k >= n || k == |ps|)
  }

  lemma DrainStep(ps: seq<Packet>, rx: Receiver, n: int)
    requires Drained(ps, rx, n)
    ensures Drained(ps, Tick(rx), n + 1)
  {
    var k :| Framed(ps, Encode(ps), rx, k) && (k >= n || k == |ps|);
    TickStep(ps, Encode(ps), rx, k);
    if k < |ps| {
      EncodeSplit(ps, k);
      assert Framed(ps, Encode(ps), Tick(rx), k + 1);
    }
  }

  lemma OneMoreTick(events: seq<Event>, n: nat)
    ensures Run(events + Ticks(n + 1)) == Tick(Run(events + Ticks(n)))
    ensures Arrived(events + Ticks(n + 1)) == Arrived(events + Ticks(n))
  {
    assert events + Ticks(n + 1) == (events + Ticks(n)) + [TimerTick];
    RunLast(events + Ticks(n), TimerTick);
  }

  lemma AnyDrained(ps: seq<Packet>, events: seq<Event>)
    requires Arrived(events) == Encode(ps)
    ensures Drained(ps, Run(events), 0)
  {
    RunFramed(ps, events);
    var k :| Framed(ps, Encode(ps), Run(events), k);
    assert k >= 0;
  }

  /** Once all has arrived, as many ticks as there are packets drain the buffer. */
  lemma {:induction false} Drains(ps: seq<Packet>, events: seq<Event>, n: nat)
    requires Arrived(events) == Encode(ps)
    ensures Arrived(events + Ticks(n)) == Encode(ps) && Drained(ps, Run(events + Ticks(n)), n)
  {
    if n == 0 {
      AnyDrained(ps, events);
      assert events + Ticks(0) == events;
    } else {
      Drains(ps, events, n - 1);
      OneMoreTick(events, n - 1);
      DrainStep(ps, Run(events + Ticks(n - 1)), n - 1);
    }
  }

  /** What has been handed out before the end is a prefix of what will be. */
  lemma CamePrefix(ps: seq<Packet>, qs: seq<Packet>)
    ensures AcceptAll(IDLE, ps).came <= AcceptAll(IDLE, ps + qs).came
  {
    AcceptAppend(IDLE, ps, qs);
  }

  /** Chunking independence: however the stream of some packets is cut into chunks and interleaved with ticks, the
      receiver has handed out a prefix of what the packets make one by one; once all has arrived and the timer has
      stopped, all of it, with nothing left over. */
  lemma StreamOfPackets(ps: seq<Packet>, events: seq<Event>)
    requires Arrived(events) <= Encode(ps)
    ensures Run(events).came <= AcceptAll(IDLE, ps).came
    ensures Arrived(events) == Encode(ps) && !Run(events).timer ==>
      Run(events).came == AcceptAll(IDLE, ps).came && Run(events).buffer == []
  {
    RunFramed(ps, events);
    var k :| Framed(ps, Arrived(events), Run(events), k);
    CamePrefix(ps[..k], ps[k..]);
    assert ps[..k] + ps[k..] == ps;
    if Arrived(events) == Encode(ps) && !Run(events).timer {
      if k < |ps| {
        EncodeSplit(ps, k);
      }
      assert ps[..k] == ps;
    }
  }

  /** The timer stops after at most as many ticks as there are packets. */
  lemma TimerStops(ps: seq<Packet>, events: seq<Event>, n: nat)
    requires Arrived(events) == Encode(ps) && n >= |ps|
    ensures Arrived(events + Ticks(n)) == Encode(ps) && !Run(events + Ticks(n)).timer
  {
    Drains(ps, events, n);
    var k :| Framed(ps, Encode(ps), Run(events + Ticks(n)), k) && (k >= n || k == |ps|);
    assert ps[..k] == ps;
  }

  /** Loss safety through the stream: however the packets that were not dropped are cut into chunks, the receiver
      has handed out a prefix of the intact data, in order; and in the end, when the timer has stopped, all of
      them, with nothing left over. */
  lemma Delivery(ds: seq<Bytes>, ms: seq<seq<bool>>, events: seq<Event>)
    requires Masks(ds, ms) && |ds| <= BAD_IDENTIFIER
    requires Arrived(events) <= Encode(OnWire(ds, ms))
    ensures Run(events).came <= Intact(ds, ms)
    ensures Arrived(events) == Encode(OnWire(ds, ms)) && !Run(events).timer ==>
      Run(events).came == Intact(ds, ms) && Run(events).buffer == []
  {
    LossSafety(ds, ms);
    StreamOfPackets(OnWire(ds, ms), events);
  }

  /** A connection on which nothing is dropped. */
  function Lossless(ds: seq<Bytes>): (ms: seq<seq<bool>>)
    ensures |ms| == |ds|
  {
    seq(|ds|, i requires 0 <= i < |ds| => seq(Pieces(ds[i]), k => true))
  }

  function NonEmptyData(ds: seq<Bytes>): seq<Bytes> {
    if ds == [] then [] else NonEmptyData(ds[..|ds| - 1]) + if ds[|ds| - 1] != [] then [ds[|ds| - 1]] else []
  }

  /** All packets of one data, at a receiver that has nothing in progress. */
  lemma WholeData(data: Bytes, identifier: Word, mask: seq<bool>)
    requires Fits(data) && |mask| == Pieces(data) && All(mask) && identifier != BAD_IDENTIFIER
    ensures AcceptAll(IDLE, Kept(Packets(identifier, data), mask)) == Outcome(IDLE, if data == [] then [] else [data])
  {
    DataProgress(IDLE, data, identifier, mask, |mask|);
    assert Packets(identifier, data)[..|mask|] == Packets(identifier, data) && mask[..|mask|] == mask;
  }

  lemma WholeDataNext(before: seq<Packet>, came: seq<Bytes>, data: Bytes, identifier: Word, mask: seq<bool>)
    requires Fits(data) && |mask| == Pieces(data) && All(mask) && identifier != BAD_IDENTIFIER
    requires AcceptAll(IDLE, before) == Outcome(IDLE, came)
    ensures AcceptAll(IDLE, before + Kept(Packets(identifier, data), mask))
         == Outcome(IDLE, came + if data == [] then [] else [data])
  {
    WholeData(data, identifier, mask);
    AcceptAppend(IDLE, before, Kept(Packets(identifier, data), mask));
  }

  lemma LosslessFirst(ds: seq<Bytes>)
    requires ds != []
    ensures Lossless(ds)[..|ds| - 1] == Lossless(ds[..|ds| - 1]) && All(Lossless(ds)[|ds| - 1])
  {
    var a, b := Lossless(ds)[..|ds| - 1], Lossless(ds[..|ds| - 1]);
    assert |a| == |b| && forall i :: 0 <= i < |a| ==> a[i] == b[i];
  }

  /** Without losses all data but the empty ones come, however many there are: the receiver has nothing in progress
      after each of them, so it does not matter that identifiers come again. */
  lemma {:induction false} LosslessDelivery(ds: seq<Bytes>)
    requires Masks(ds, Lossless(ds))
    ensures AcceptAll(IDLE, OnWire(ds, Lossless(ds))) == Outcome(IDLE, NonEmptyData(ds))
  {
    if ds != [] {
      var n := |ds| - 1;
      LosslessFirst(ds);
      LosslessDelivery(ds[..n]);
      IdentifiersComeRound(n);
      WholeDataNext(OnWire(ds[..n], Lossless(ds[..n])), NonEmptyData(ds[..n]), ds[n], IdentifierOf(n), Lossless(ds)[n]);
    }
  }

  lemma {:induction false} EmptyDataVanish(ds: seq<Bytes>)
    ensures Joined(NonEmptyData(ds)) == Joined(ds)
  {
    if ds != [] {
      var before, last := NonEmptyData(ds[..|ds| - 1]), ds[|ds| - 1];
      EmptyDataVanish(ds[..|ds| - 1]);
      JoinedLast(before, last);
      assert before + [] == before && Joined(before) + [] == Joined(before);
    }
  }

  lemma JoinedPrefix(a: seq<Bytes>, b: seq<Bytes>)
    requires a <= b
    ensures Joined(a) <= Joined(b)
  {
    assert b == a + b[|a|..];
    JoinedAppend(a, b[|a|..]);
  }

  /** Seen as bytes, and with nothing dropped: what has come is a prefix of what was written, and in the end all
      of it, for any number of data. */
  lemma StreamDelivery(ds: seq<Bytes>, events: seq<Event>)
    requires Masks(ds, Lossless(ds)) && Arrived(events) <= Encode(OnWire(ds, Lossless(ds)))
    ensures Joined(Run(events).came) <= Joined(ds)
    ensures Arrived(events) == Encode(OnWire(ds, Lossless(ds))) && !Run(events).timer ==>
      Joined(Run(events).came) == Joined(ds)
  {
    LosslessDelivery(ds);
    StreamOfPackets(OnWire(ds, Lossless(ds)), events);
    EmptyDataVanish(ds);
    JoinedPrefix(Run(events).came, NonEmptyData(ds));
  }

  /** What writeData returns: the offset of the last part, which is less than the length if there is any part. */
  function Reported(data: Bytes): int { if data == [] then 0 else (Pieces(data) - 1) * MAX_DATA_SIZE }

  lemma ReportsLess(data: Bytes)
    ensures data != [] ==> |data| - MAX_DATA_SIZE <= Reported(data) < |data|
  {
  }
}
