/** The OLDI processor: a server (FDP) or a workstation (CWP) with its table, its outgoing messages
    and the messages that wait for an acknowledgement. */
module OldiProcessor {
  import opened Basics
  import opened Collections
  import opened OldiText
  import opened OldiTable
  import opened OldiServer
  import opened OldiAck

  // ---------------------------------------------------------------- messages from the outgoing map

  /** The message behind an entry of the outgoing map; `request` is the message being answered. */
  function Render(k: Key<string>, p: Payload<string>, request: Mes): Mes {
    match p
    case Announce(c, priority) => StsMes(Sts(k.num, k.to, k.from, Join([c.client] + c.sectors), priority))
    case Lam => GetLam(request, k.num)
    case Err => GetErr(request, k.num)
  }

  function RenderAll(keys: seq<Key<string>>, out: Outbox<string>, request: Mes): seq<Mes>
    requires forall i :: 0 <= i < |keys| ==> keys[i] in out
  {
    if keys == [] then []
    else
      var last := keys[|keys| - 1];
      RenderAll(keys[..|keys| - 1], out, request) + [Render(last, out[last], request)]
  }

  lemma {:induction false} RenderedIn(keys: seq<Key<string>>, out: Outbox<string>, request: Mes, j: nat)
    requires j < |keys| && forall i :: 0 <= i < |keys| ==> keys[i] in out
    ensures Render(keys[j], out[keys[j]], request) in RenderAll(keys, out, request)
  {
    if j < |keys| - 1 {
      RenderedIn(keys[..|keys| - 1], out, request, j);
    }
  }

  predicate ClaimWords(c: Claim<string>) { Word(c.client) && Words(c.sectors) }

  /** The words of a parsed STS message: the client and the sectors. */
  function ClaimText(m: Mes): seq<string> { Split(GetSts(m).text) }

  predicate IsClaim(m: Mes) { m.kind == STS && ClaimText(m) != [] }

  function ClaimIn(m: Mes): (c: Claim<string>)
    requires IsClaim(m)
    ensures ClaimWords(c)
  {
    Claim(ClaimText(m)[0], ClaimText(m)[1..])
  }

  function ClaimInText(wire: string): seq<Claim<string>> {
    var m := ParseHeader(wire);
    if IsClaim(m) then [ClaimIn(m)] else []
  }

  /** The claims in the texts that came in, in order. */
  function ClaimsIn(wires: seq<string>): seq<Claim<string>> {
    if wires == [] then [] else ClaimsIn(wires[..|wires| - 1]) + ClaimInText(wires[|wires| - 1])
  }

  /** The texts of the messages addressed to y, as the database hands them over. */
  function WiresTo(sent: seq<Mes>, y: string): seq<string> {
    if sent == [] then []
    else
      var m := sent[|sent| - 1];
      WiresTo(sent[..|sent| - 1], y) + (if m.to == y then [Text(m)] else [])
  }

  /** The claims that y reads from the messages sent: printed, stored, parsed and split. */
  function Inbox(sent: seq<Mes>, y: string): seq<Claim<string>> { ClaimsIn(WiresTo(sent, y)) }

  lemma InboxNext(sent: seq<Mes>, m: Mes, y: string)
    ensures Inbox(sent + [m], y) == Inbox(sent, y) + (if m.to == y then ClaimInText(Text(m)) else [])
  {
    assert (sent + [m])[..|sent|] == sent;
    var wires := WiresTo(sent, y);
    assert (wires + [Text(m)])[..|wires|] == wires;
    assert wires + [] == wires && ClaimsIn(wires) + [] == ClaimsIn(wires);
  }

  /** An acknowledgement or an error is not taken for a claim. */
  lemma NoClaim(m: Mes)
    requires m.kind == LAM || m.kind == ERR
    ensures ClaimInText(Text(m)) == []
  {
    Names(m);
  }

  /** An announcement is read as it was meant. */
  lemma AnnouncementRead(k: Key<string>, c: Claim<string>, priority: nat, request: Mes)
    requires k.num < 1000 && Name(k.from) && Name(k.to) && ClaimWords(c) && priority <= 1
    ensures ClaimInText(Text(Render(k, Announce(c, priority), request))) == [c]
  {
    var words := [c.client] + c.sectors;
    StsRead(Sts(k.num, k.to, k.from, Join(words), priority), words);
    assert words[0] == c.client && words[1..] == c.sectors;
  }

  lemma StsRead(d: Sts, words: seq<string>)
    requires d.num < 1000 && Name(d.from) && Name(d.to) && d.priority <= 1
    requires Words(words) && words != [] && d.text == Join(words)
    ensures ClaimInText(Text(StsMes(d))) == [Claim(words[0], words[1..])]
  {
    StsRoundTrip(d, words);
    TextRead(Text(StsMes(d)), d, words);
  }

  lemma TextRead(wire: string, d: Sts, words: seq<string>)
    requires ParseHeader(wire).kind == STS && GetSts(ParseHeader(wire)) == d && Split(d.text) == words && words != []
    ensures ClaimInText(wire) == [Claim(words[0], words[1..])]
  {
  }

  lemma LamAlone(keys: seq<Key<string>>, lam: Key<string>, request: Mes)
    requires Distinct(keys) && Elements(keys) == {lam}
    ensures keys == [lam] && RenderAll(keys, map[lam := Lam], request) == [GetLam(request, lam.num)]
  {
    Singleton(keys, lam);
    assert RenderAll([], map[lam := Lam], request) == [];
  }

  /** The announcements in an outgoing map can be printed without loss. */
  ghost predicate Printable(out: Outbox<string>) {
    forall k :: k in out && out[k].Announce? ==>
      k.num < 1000 && Name(k.from) && Name(k.to) && ClaimWords(out[k].claim) && out[k].priority <= 1
  }

  lemma InboxLast(keys: seq<Key<string>>, out: Outbox<string>, request: Mes, y: string)
    requires keys != [] && forall i :: 0 <= i < |keys| ==> keys[i] in out
    requires Printable(out)
    ensures var last := keys[|keys| - 1];
      Inbox(RenderAll(keys, out, request), y)
        == Inbox(RenderAll(keys[..|keys| - 1], out, request), y)
           + (if Tells(out, last, y) then [out[last].claim] else [])
  {
    var most, last := keys[..|keys| - 1], keys[|keys| - 1];
    var m := Render(last, out[last], request);
    InboxNext(RenderAll(most, out, request), m, y);
    if out[last].Announce? {
      AnnouncementRead(last, out[last].claim, out[last].priority, request);
    } else if m.to == y {
      NoClaim(m);
    }
  }

  /** Receiver y reads exactly the claims of the entries addressed to it. */
  lemma {:induction false} InboxRead(keys: seq<Key<string>>, out: Outbox<string>, request: Mes, y: string)
    requires forall i :: 0 <= i < |keys| ==> keys[i] in out
    requires Printable(out)
    ensures Inbox(RenderAll(keys, out, request), y) == Addressed(keys, out, y)
  {
    if keys != [] {
      InboxRead(keys[..|keys| - 1], out, request, y);
      InboxLast(keys, out, request, y);
    }
  }

  /** What a batch of messages makes each receiver read. */
  ghost predicate Delivered(batch: seq<Mes>, t: Table<string>, c: Claim<string>, priority: nat, replyTo: string) {
    forall y: string :: Reads(Inbox(batch, y), t, c, priority, replyTo, y)
  }

  lemma InformedDelivers(keys: seq<Key<string>>, out: Outbox<string>, request: Mes, owner: string, t: Table<string>,
                         c: Claim<string>, priority: nat, replyTo: string)
    requires Elements(keys) == out.Keys && forall i :: 0 <= i < |keys| ==> keys[i] in out
    requires Printable(out) && WellOwned(t) && Informed(out, owner, t, c, priority, replyTo)
    ensures Delivered(RenderAll(keys, out, request), t, c, priority, replyTo)
  {
    forall y: string ensures Reads(Inbox(RenderAll(keys, out, request), y), t, c, priority, replyTo, y) {
      InboxRead(keys, out, request, y);
      InformedReads(keys, out, owner, t, c, priority, replyTo, y);
    }
  }

  /** Replica convergence through the wire.  A workstation whose copy equals the server's table has the
      server's new table after it has replayed the messages of the batch addressed to it, whatever their
      order, exactly when it still owns a sector, asked for its release, or there was nothing to tell. */
  lemma DeliveryConverges(batch: seq<Mes>, t: Table<string>, c: Claim<string>, priority: nat, replyTo: string,
                          y: string)
    requires WellOwned(t) && Delivered(batch, t, c, priority, replyTo)
    ensures ReplayAll(t, Inbox(batch, y)) == After(t, c, priority) <==> CatchesUp(t, c, priority, replyTo, y)
  {
    ReadsConverge(Inbox(batch, y), t, c, priority, replyTo, y);
  }

  // ---------------------------------------------------------------- names and words in the table

  /** Sectors and clients come from dash-separated texts. */
  ghost predicate WordTable(t: Table<string>) { forall s :: s in t ==> Word(s) && Word(t[s].client) }

  /** Everybody concerned by a claim has a name that a header can carry. */
  ghost predicate Named(t: Table<string>, c: Claim<string>, owner: string, replyTo: string) {
    Name(owner) && Name(c.client) && Name(replyTo) && forall y :: y in Owners(t) ==> Name(y)
  }

  lemma WordsKept(t: Table<string>, c: Claim<string>, priority: nat)
    requires WordTable(t) && ClaimWords(c)
    ensures WordTable(After(t, c, priority)) && WordTable(Replay(t, c))
  {
    var t' := After(t, c, priority);
    forall s | s in t' ensures Word(s) && Word(t'[s].client) {
      if Committed(Judge(t, c, priority)) { AfterAt(t, c, priority, s); }
    }
    forall s | s in Replay(t, c) ensures Word(s) && Word(Replay(t, c)[s].client) {
      if Distinct(c.sectors) { ReplayAt(t, c, s); }
    }
  }

  lemma TableKept(t: Table<string>, c: Claim<string>, priority: nat, t': Table<string>)
    requires WordTable(t) && WellOwned(t) && ClaimWords(c) && t' == After(t, c, priority)
    ensures WordTable(t') && WellOwned(t')
  {
    WordsKept(t, c, priority);
    OwnershipKept(t, c, priority);
  }

  lemma OwnersAfter(t: Table<string>, c: Claim<string>, priority: nat, y: string)
    requires y in Owners(After(t, c, priority)) || y in StrippedBy(t, c, priority)
    ensures y in Owners(t) || y == c.client
  {
    var t' := After(t, c, priority);
    if y in Owners(t') {
      var s :| s in t' && t'[s].client == y;
      if Committed(Judge(t, c, priority)) { AfterAt(t, c, priority, s); }
    } else {
      var s :| s in WithoutClient(t, c.client) && WithoutClient(t, c.client)[s].client == y;
    }
  }

  lemma DescribedWords(t: Table<string>, c: Claim<string>)
    requires WordTable(t) && Describes(t, c)
    ensures ClaimWords(c)
  {
    forall i | 0 <= i < |c.sectors| ensures c.sectors[i] in t {
      assert c.sectors[i] in Elements(c.sectors);
    }
  }

  lemma AnswerPrintable(out: Outbox<string>, owner: string, t: Table<string>, c: Claim<string>, priority: nat,
                        replyTo: string)
    requires WellOwned(t) && WordTable(t) && ClaimWords(c) && Named(t, c, owner, replyTo)
    requires Modest(out) && Informed(out, owner, t, c, priority, replyTo)
    ensures Printable(out)
  {
    var t' := After(t, c, priority);
    WordsKept(t, c, priority);
    forall k | k in out && out[k].Announce? ensures Name(k.from) && Name(k.to) && ClaimWords(out[k].claim) {
      var y := k.to;
      assert Tells(out, k, y);
      if y in Owners(t') || y in StrippedBy(t, c, priority) {
        OwnersAfter(t, c, priority, y);
      }
      if c.sectors != [] && y in Owners(t') {
        assert ToldAll(out, owner, t', Updated(t, c, priority), y);
        DescribedWords(t', out[k].claim);
      }
    }
  }

  // ---------------------------------------------------------------- answers

  /** Every message but an acknowledgement or an error wants an answer. */
  predicate WantsAnswer(m: Mes) { m.kind != LAM && m.kind != ERR }

  /** The key of the message that a reply answers, if it is a reply at all. */
  predicate RepliesTo(reply: Mes, k: Key<string>) {
    && (reply.kind == ERR || reply.kind == LAM)
    && reply.from == k.to && reply.to == k.from
    && KeyOf(ParseHeader("(LAM" + reply.data + ")")) == k
  }

  lemma AnswerIsByKey(p: Mes, reply: Mes)
    ensures IsAnswer(p, reply) <==> RepliesTo(reply, KeyOf(p))
  {
  }

  /** What an incoming message means for the waiting ones: the message under the quoted key is answered. */
  function Answers(m: Mes): seq<Event<Key<string>>> {
    var quoted := KeyOf(ParseHeader("(LAM" + m.data + ")"));
    if RepliesTo(m, quoted) then [Reply(quoted)] else []
  }

  lemma AnswersBy(m: Mes)
    ensures Answers(m) == [] ==> forall k :: !RepliesTo(m, k)
    ensures Answers(m) != [] ==>
      exists k :: Answers(m) == [Reply(k)] && forall x :: RepliesTo(m, x) <==> x == k
  {
    var quoted := KeyOf(ParseHeader("(LAM" + m.data + ")"));
    if RepliesTo(m, quoted) {
      assert Answers(m) == [Reply(quoted)];
    }
  }

  /** What sending messages means for the waiting ones. */
  function Posts(ms: seq<Mes>): seq<Event<Key<string>>> {
    if ms == [] then []
    else
      var m := ms[|ms| - 1];
      Posts(ms[..|ms| - 1]) + (if WantsAnswer(m) then [Send(KeyOf(m))] else [])
  }

  /** How many of the messages sent under the key k want an answer. */
  function Awaited(ms: seq<Mes>, k: Key<string>): nat {
    if ms == [] then 0
    else
      var m := ms[|ms| - 1];
      Awaited(ms[..|ms| - 1], k) + (if WantsAnswer(m) && KeyOf(m) == k then 1 else 0)
  }

  lemma {:induction false} PostsAwait(ms: seq<Mes>, k: Key<string>)
    ensures Sends(Posts(ms), k) == Awaited(ms, k)
  {
    if ms != [] {
      var most, m := ms[..|ms| - 1], ms[|ms| - 1];
      PostsAwait(most, k);
      SendsConcat(Posts(most), if WantsAnswer(m) then [Send(KeyOf(m))] else [], k);
      OneSend(KeyOf(m), k);
    }
  }

  lemma OneSend(x: Key<string>, k: Key<string>)
    ensures Sends([Send(x)], k) == if x == k then 1 else 0
    ensures Sends([Reply(x)], k) == 0
  {
    assert [Send(x)][..0] == [] && [Reply(x)][..0] == [];
    assert Sends<Key<string>>([], k) == 0;
  }

  lemma {:induction false} AwaitedConcat(xs: seq<Mes>, ys: seq<Mes>, k: Key<string>)
    ensures Awaited(xs + ys, k) == Awaited(xs, k) + Awaited(ys, k)
  {
    if ys == [] {
      assert xs + ys == xs;
    } else {
      var most := ys[..|ys| - 1];
      assert (xs + ys)[..|xs + ys| - 1] == xs + most;
      AwaitedConcat(xs, most, k);
    }
  }

  /** What is sent and what waits, after the given entries of an outgoing map have been sent. */
  function Posted(sent: seq<Mes>, w: Waiting<Key<string>>, keys: seq<Key<string>>, out: Outbox<string>, request: Mes)
    : (seq<Mes>, Waiting<Key<string>>)
    requires forall i :: 0 <= i < |keys| ==> keys[i] in out
  {
    if keys == [] then (sent, w)
    else
      var last := keys[|keys| - 1];
      var (s, v) := Posted(sent, w, keys[..|keys| - 1], out, request);
      var m := Render(last, out[last], request);
      (s + [m], Sent(v, m))
  }

  function Sent(w: Waiting<Key<string>>, m: Mes): Waiting<Key<string>> {
    if WantsAnswer(m) then Step(w, Send(KeyOf(m))) else w
  }

  lemma OneMorePost(w: Waiting<Key<string>>, ms: seq<Mes>, m: Mes)
    ensures Run(w, Posts(ms + [m])) == Sent(Run(w, Posts(ms)), m)
  {
    assert (ms + [m])[..|ms|] == ms;
    assert Posts(ms) + [] == Posts(ms);
    RunNext(w, Posts(ms), Send(KeyOf(m)));
  }

  lemma {:induction false} PostedIs(sent: seq<Mes>, w: Waiting<Key<string>>, keys: seq<Key<string>>,
                                    out: Outbox<string>, request: Mes)
    requires forall i :: 0 <= i < |keys| ==> keys[i] in out
    ensures Posted(sent, w, keys, out, request)
         == (sent + RenderAll(keys, out, request), Run(w, Posts(RenderAll(keys, out, request))))
  {
    if keys == [] {
      assert sent + [] == sent;
    } else {
      var most, last := keys[..|keys| - 1], keys[|keys| - 1];
      PostedIs(sent, w, most, out, request);
      assert sent + RenderAll(keys, out, request)
        == sent + RenderAll(most, out, request) + [Render(last, out[last], request)];
      OneMorePost(w, RenderAll(most, out, request), Render(last, out[last], request));
    }
  }

  /** The batch that answers a claim which the server does not refuse. */
  lemma BatchDelivers(keys: seq<Key<string>>, out: Outbox<string>, request: Mes, owner: string, t: Table<string>,
                      c: Claim<string>, priority: nat, lam: Key<string>)
    requires Elements(keys) == out.Keys && forall i :: 0 <= i < |keys| ==> keys[i] in out
    requires WellOwned(t) && WordTable(t) && ClaimWords(c) && Named(t, c, owner, lam.to)
    requires Modest(out) && Answered(out, owner, t, c, priority, lam) && ReachesAll(t, c, priority)
    ensures Delivered(RenderAll(keys, out, request), t, c, priority, lam.to)
    ensures Acknowledges(t, c, priority, owner, lam) ==> GetLam(request, lam.num) in RenderAll(keys, out, request)
  {
    AnswerPrintable(out, owner, t, c, priority, lam.to);
    InformedDelivers(keys, out, request, owner, t, c, priority, lam.to);
    assert lam in Elements(keys);
    var i :| 0 <= i < |keys| && keys[i] == lam;
    RenderedIn(keys, out, request, i);
  }

  /** Everybody concerned has a name that a header can carry, the message numbers reach all owners, and no closing
      message can be taken for the acknowledgement. */
  ghost predicate Manageable(t: Table<string>, c: Claim<string>, priority: nat, owner: string, request: Mes) {
    && Named(t, c, owner, request.from) && ReachesAll(t, c, priority)
    && LamClear(t, c, priority, owner, Key(0, request.to, request.from))
  }

  /** What the server sends about a claim: an error, or what tells everybody concerned, and the acknowledgement; n is
      the number of the last message before. */
  ghost predicate Served(t: Table<string>, batch: seq<Mes>, n: nat, owner: string, request: Mes,
                         c: Claim<string>, priority: nat) {
    if Conflicts(t, c) && priority == 0 then
      && batch == [GetErr(request, (n + 1) % 1000)]
      && (Quotable(request) ==> AnswersOnly(batch[0], request) && AnswerErrors(ParseHeader(Text(batch[0]))) == ["001"])
    else
      Manageable(t, c, priority, owner, request) ==>
        && Delivered(batch, t, c, priority, request.from)
        && (Acknowledges(t, c, priority, owner, Key(0, request.to, request.from)) ==>
              exists num :: num < 1000 && GetLam(request, num) in batch)
  }

  lemma ServedBy(t: Table<string>, c: Claim<string>, priority: nat, owner: string, request: Mes, n: nat,
                 keys: seq<Key<string>>, out: Outbox<string>, lam: Key<string>)
    requires Distinct(keys) && Elements(keys) == out.Keys && forall i :: 0 <= i < |keys| ==> keys[i] in out
    requires WellOwned(t) && WordTable(t) && ClaimWords(c)
    requires Handled(out, owner, t, c, priority, n, request.to, request.from, lam)
    ensures Served(t, RenderAll(keys, out, request), n, owner, request, c, priority)
  {
    JudgeExactly(t, c, priority);
    if Conflicts(t, c) && priority == 0 {
      var k := Key((n + 1) % 1000, request.to, request.from);
      Singleton(keys, k);
      assert RenderAll([], out, request) == [];
      if Quotable(request) {
        ErrAnswersOnly(request, k.num);
      }
    } else if Manageable(t, c, priority, owner, request) {
      BatchDelivers(keys, out, request, owner, t, c, priority, lam);
    }
  }

  // ---------------------------------------------------------------- whole batches of incoming messages

  /** The table after one incoming message. */
  function TableStep(t: Table<string>, isFdp: bool, m: Mes): Table<string> {
    if !IsClaim(m) then t
    else if isFdp then After(t, ClaimIn(m), GetSts(m).priority)
    else Replay(t, ClaimIn(m))
  }

  function TableAfter(t: Table<string>, isFdp: bool, wires: seq<string>): Table<string> {
    if wires == [] then t
    else TableStep(TableAfter(t, isFdp, wires[..|wires| - 1]), isFdp, ParseHeader(wires[|wires| - 1]))
  }

  lemma ReplayNext(r: Table<string>, cs: seq<Claim<string>>, c: Claim<string>)
    ensures ReplayAll(r, cs + [c]) == Replay(ReplayAll(r, cs), c)
  {
    assert (cs + [c])[..|cs|] == cs;
  }

  /** A workstation's table after any messages is the replay of the claims in them. */
  lemma {:induction false} StationReplays(t: Table<string>, wires: seq<string>)
    ensures TableAfter(t, false, wires) == ReplayAll(t, ClaimsIn(wires))
  {
    if wires != [] {
      var most, m := wires[..|wires| - 1], ParseHeader(wires[|wires| - 1]);
      StationReplays(t, most);
      if IsClaim(m) {
        ReplayNext(t, ClaimsIn(most), ClaimIn(m));
      } else {
        assert ClaimsIn(most) + [] == ClaimsIn(most);
      }
    }
  }

  /** What is sent in return for one incoming message. */
  ghost predicate Returned(t: Table<string>, isFdp: bool, owner: string, m: Mes, n: nat, batch: seq<Mes>) {
    if !IsClaim(m) then batch == []
    else if isFdp then Served(t, batch, n, owner, m, ClaimIn(m), GetSts(m).priority)
    else batch == [GetLam(m, (n + 1) % 1000)]
  }

  /** The number of the last message sent, after one incoming message; n is the one before. */
  ghost function NumberStep(t: Table<string>, isFdp: bool, m: Mes, n: nat): nat {
    if !IsClaim(m) then n
    else if isFdp then Nth(n, NumbersUsed(t, ClaimIn(m), GetSts(m).priority))
    else (n + 1) % 1000
  }

  ghost function NumberAt(t: Table<string>, isFdp: bool, wires: seq<string>, n: nat): nat {
    if wires == [] then n
    else
      var most, m := wires[..|wires| - 1], ParseHeader(wires[|wires| - 1]);
      NumberStep(TableAfter(t, isFdp, most), isFdp, m, NumberAt(t, isFdp, most, n))
  }

  /** What is sent in return for each of the incoming messages; the table and the number change on the way. */
  ghost predicate ReturnedAll(t: Table<string>, isFdp: bool, owner: string, wires: seq<string>, n: nat,
                              batches: seq<seq<Mes>>) {
    && |wires| == |batches|
    && (wires == [] ||
        var k := |wires| - 1;
        && ReturnedAll(t, isFdp, owner, wires[..k], n, batches[..k])
        && Returned(TableAfter(t, isFdp, wires[..k]), isFdp, owner, ParseHeader(wires[k]),
                    NumberAt(t, isFdp, wires[..k], n), batches[k]))
  }

  lemma StationStep(t: Table<string>, wire: string, n: nat)
    requires n < 1000
    ensures NumberStep(t, false, ParseHeader(wire), n) == Nth(n, |ClaimInText(wire)|)
    ensures ClaimInText(wire) == [] <==> !IsClaim(ParseHeader(wire))
    ensures ClaimInText(wire) != [] ==> |ClaimInText(wire)| == 1
  {
  }

  lemma ClaimsLast(wires: seq<string>)
    requires wires != []
    ensures |ClaimsIn(wires)| == |ClaimsIn(wires[..|wires| - 1])| + |ClaimInText(wires[|wires| - 1])|
  {
  }

  lemma StationNumber(t: Table<string>, wires: seq<string>, n: nat, before: nat)
    requires wires != [] && n < 1000 && NumberAt(t, false, wires[..|wires| - 1], n) == Nth(n, before)
    ensures NumberAt(t, false, wires, n) == Nth(n, before + |ClaimInText(wires[|wires| - 1])|)
  {
    var k := |wires| - 1;
    StationStep(TableAfter(t, false, wires[..k]), wires[k], Nth(n, before));
    NthAdd(n, before, |ClaimInText(wires[k])|);
  }

  /** A workstation takes one number for each claim that it reads. */
  lemma {:induction false} StationNumbers(t: Table<string>, wires: seq<string>, n: nat)
    requires n < 1000
    ensures NumberAt(t, false, wires, n) == Nth(n, |ClaimsIn(wires)|)
  {
    if wires != [] {
      StationNumbers(t, wires[..|wires| - 1], n);
      ClaimsLast(wires);
      StationNumber(t, wires, n, |ClaimsIn(wires[..|wires| - 1])|);
    }
  }

  /** A text with a claim is answered by one acknowledgement, with the number num, of the message in that text only, and
      another text by nothing. */
  ghost predicate AnsweredBy(wire: string, num: nat, batch: seq<Mes>) {
    var m := ParseHeader(wire);
    if ClaimInText(wire) == [] then batch == []
    else batch == [GetLam(m, num)] && (Quotable(m) ==> AnswersOnly(batch[0], m))
  }

  lemma StationAnswer(t: Table<string>, owner: string, wire: string, n: nat, batch: seq<Mes>)
    requires n < 1000 && Returned(t, false, owner, ParseHeader(wire), n, batch)
    ensures AnsweredBy(wire, Nth(n, |ClaimInText(wire)|), batch)
  {
    StationStep(t, wire, n);
    if Quotable(ParseHeader(wire)) {
      LamAnswers(ParseHeader(wire), (n + 1) % 1000);
    }
  }

  /** So a workstation answers what comes in, with the numbers in turn. */
  lemma {:induction false} StationAnswers(t: Table<string>, owner: string, wires: seq<string>, n: nat,
                                          batches: seq<seq<Mes>>, i: nat)
    requires n < 1000 && i < |wires| && ReturnedAll(t, false, owner, wires, n, batches)
    ensures AnsweredBy(wires[i], Nth(n, |ClaimsIn(wires[..i + 1])|), batches[i])
  {
    var k := |wires| - 1;
    if i < k {
      StationAnswers(t, owner, wires[..k], n, batches[..k], i);
      assert wires[..k][..i + 1] == wires[..i + 1];
    } else {
      assert wires[..i + 1] == wires;
      StationNumbers(t, wires[..k], n);
      ClaimsLast(wires);
      NthAdd(n, |ClaimsIn(wires[..k])|, |ClaimInText(wires[k])|);
      StationAnswer(TableAfter(t, false, wires[..k]), owner, wires[k], NumberAt(t, false, wires[..k], n), batches[k]);
    }
  }

  function Flat(batches: seq<seq<Mes>>): seq<Mes> {
    if batches == [] then [] else Flat(batches[..|batches| - 1]) + batches[|batches| - 1]
  }

  function Reaction(m: Mes, batch: seq<Mes>): seq<Event<Key<string>>> { Answers(m) + Posts(batch) }

  lemma ReactionIs(m: Mes, batch: seq<Mes>)
    ensures Reaction(m, []) == Answers(m)
    ensures m.kind != LAM && m.kind != ERR ==> Reaction(m, batch) == Posts(batch)
  {
  }

  lemma ReactionSends(m: Mes, batch: seq<Mes>, k: Key<string>)
    ensures Sends(Reaction(m, batch), k) == Awaited(batch, k)
  {
    SendsConcat(Answers(m), Posts(batch), k);
    PostsAwait(batch, k);
    AnswersBy(m);
    if Answers(m) != [] {
      OneSend(Answers(m)[0].key, k);
    }
  }

  /** What incoming messages and what is sent in return mean for the waiting messages. */
  function Exchanged(wires: seq<string>, batches: seq<seq<Mes>>): seq<Event<Key<string>>>
    requires |wires| == |batches|
  {
    if wires == [] then []
    else
      var n := |wires| - 1;
      Exchanged(wires[..n], batches[..n]) + Reaction(ParseHeader(wires[n]), batches[n])
  }

  /** Among the events, each message sent that wants an answer appears. */
  lemma {:induction false} ExchangedSends(wires: seq<string>, batches: seq<seq<Mes>>, k: Key<string>)
    requires |wires| == |batches|
    ensures Sends(Exchanged(wires, batches), k) == Awaited(Flat(batches), k)
  {
    if wires != [] {
      var n := |wires| - 1;
      ExchangedSends(wires[..n], batches[..n], k);
      ReactionSends(ParseHeader(wires[n]), batches[n], k);
      SendsConcat(Exchanged(wires[..n], batches[..n]), Reaction(ParseHeader(wires[n]), batches[n]), k);
      AwaitedConcat(Flat(batches[..n]), batches[n], k);
    }
  }

  lemma TableNext(t: Table<string>, isFdp: bool, wires: seq<string>, i: nat)
    requires i < |wires|
    ensures TableAfter(t, isFdp, wires[..i + 1])
         == TableStep(TableAfter(t, isFdp, wires[..i]), isFdp, ParseHeader(wires[i]))
  {
    assert wires[..i + 1][..i] == wires[..i];
  }

  lemma NumberNext(t: Table<string>, isFdp: bool, wires: seq<string>, i: nat, n: nat)
    requires i < |wires|
    ensures NumberAt(t, isFdp, wires[..i + 1], n)
         == NumberStep(TableAfter(t, isFdp, wires[..i]), isFdp, ParseHeader(wires[i]),
                       NumberAt(t, isFdp, wires[..i], n))
  {
    assert wires[..i + 1][..i] == wires[..i];
  }

  lemma ReturnedNext(t: Table<string>, isFdp: bool, owner: string, wires: seq<string>, i: nat, n: nat,
                     batches: seq<seq<Mes>>, batch: seq<Mes>)
    requires i < |wires| && ReturnedAll(t, isFdp, owner, wires[..i], n, batches)
    requires Returned(TableAfter(t, isFdp, wires[..i]), isFdp, owner, ParseHeader(wires[i]),
                      NumberAt(t, isFdp, wires[..i], n), batch)
    ensures ReturnedAll(t, isFdp, owner, wires[..i + 1], n, batches + [batch])
  {
    var longer, more := wires[..i + 1], batches + [batch];
    assert longer[..i] == wires[..i] && longer[i] == wires[i] && more[..i] == batches && more[i] == batch;
    ReturnedLast(t, isFdp, owner, longer, n, more);
  }

  lemma ReturnedLast(t: Table<string>, isFdp: bool, owner: string, wires: seq<string>, n: nat, batches: seq<seq<Mes>>)
    requires wires != [] && |wires| == |batches|
    requires ReturnedAll(t, isFdp, owner, wires[..|wires| - 1], n, batches[..|wires| - 1])
    requires Returned(TableAfter(t, isFdp, wires[..|wires| - 1]), isFdp, owner, ParseHeader(wires[|wires| - 1]),
                      NumberAt(t, isFdp, wires[..|wires| - 1], n), batches[|wires| - 1])
    ensures ReturnedAll(t, isFdp, owner, wires, n, batches)
  {
  }

  /** What waits after incoming messages, one after the other. */
  function WaitsAfter(w: Waiting<Key<string>>, wires: seq<string>, batches: seq<seq<Mes>>): Waiting<Key<string>>
    requires |wires| == |batches|
  {
    if wires == [] then w
    else
      var n := |wires| - 1;
      Run(WaitsAfter(w, wires[..n], batches[..n]), Reaction(ParseHeader(wires[n]), batches[n]))
  }

  lemma {:induction false} WaitsAfterIsRun(w: Waiting<Key<string>>, wires: seq<string>, batches: seq<seq<Mes>>)
    requires |wires| == |batches|
    ensures WaitsAfter(w, wires, batches) == Run(w, Exchanged(wires, batches))
  {
    if wires != [] {
      var n := |wires| - 1;
      WaitsAfterIsRun(w, wires[..n], batches[..n]);
      RunConcat(w, Exchanged(wires[..n], batches[..n]), Reaction(ParseHeader(wires[n]), batches[n]));
    }
  }

  lemma WaitsNext(w: Waiting<Key<string>>, wires: seq<string>, i: nat, batches: seq<seq<Mes>>, batch: seq<Mes>)
    requires i == |batches| < |wires|
    ensures WaitsAfter(w, wires[..i + 1], batches + [batch])
         == Run(WaitsAfter(w, wires[..i], batches), Reaction(ParseHeader(wires[i]), batch))
  {
    assert wires[..i + 1][..i] == wires[..i];
    assert (batches + [batch])[..i] == batches;
  }

  lemma FlatNext(sent: seq<Mes>, batches: seq<seq<Mes>>, batch: seq<Mes>)
    ensures sent + Flat(batches + [batch]) == sent + Flat(batches) + batch
  {
    assert (batches + [batch])[..|batches|] == batches;
  }

  /** What incoming messages make of a table t0, the last number n0, the messages sent0 and of what waits, w0. */
  ghost predicate Handles(t0: Table<string>, n0: nat, sent0: seq<Mes>, w0: Waiting<Key<string>>, isFdp: bool,
                          owner: string, wires: seq<string>, batches: seq<seq<Mes>>,
                          t: Table<string>, n: nat, sent: seq<Mes>, w: Waiting<Key<string>>) {
    && t == TableAfter(t0, isFdp, wires) && n == NumberAt(t0, isFdp, wires, n0)
    && ReturnedAll(t0, isFdp, owner, wires, n0, batches)
    && sent == sent0 + Flat(batches)
    && w == WaitsAfter(w0, wires, batches)
  }

  lemma HandlesNext(t0: Table<string>, n0: nat, sent0: seq<Mes>, w0: Waiting<Key<string>>, isFdp: bool, owner: string,
                    wires: seq<string>, i: nat, batches: seq<seq<Mes>>, batch: seq<Mes>,
                    t: Table<string>, n: nat, sent: seq<Mes>, w: Waiting<Key<string>>)
    requires i < |wires| && Handles(t0, n0, sent0, w0, isFdp, owner, wires[..i], batches, t, n, sent, w)
    requires Returned(t, isFdp, owner, ParseHeader(wires[i]), n, batch)
    ensures var m := ParseHeader(wires[i]);
      Handles(t0, n0, sent0, w0, isFdp, owner, wires[..i + 1], batches + [batch],
              TableStep(t, isFdp, m), NumberStep(t, isFdp, m, n), sent + batch, Run(w, Reaction(m, batch)))
  {
    TableNext(t0, isFdp, wires, i);
    NumberNext(t0, isFdp, wires, i, n0);
    ReturnedNext(t0, isFdp, owner, wires, i, n0, batches, batch);
    FlatNext(sent0, batches, batch);
    WaitsNext(w0, wires, i, batches, batch);
  }

  /** What one call of OnAckTimer means for the waiting messages. */
  function Tour(wires: seq<string>, batches: seq<seq<Mes>>, late: set<Key<string>>): seq<Event<Key<string>>>
    requires |wires| == |batches|
  {
    Exchanged(wires, batches) + [Tick(late)]
  }

  /** What waits is what the history says, and the history holds every message sent that wants an answer. */
  ghost predicate Chronicle(history: seq<Event<Key<string>>>, sent: seq<Mes>, w: Waiting<Key<string>>) {
    w == Run(Nobody(), history) && forall k :: Sends(history, k) == Awaited(sent, k)
  }

  lemma ChronicleNext(history: seq<Event<Key<string>>>, sent: seq<Mes>, w: Waiting<Key<string>>, wires: seq<string>,
                      batches: seq<seq<Mes>>, late: set<Key<string>>)
    requires |wires| == |batches| && Chronicle(history, sent, w)
    ensures Chronicle(history + Tour(wires, batches, late), sent + Flat(batches),
                      Step(WaitsAfter(w, wires, batches), Tick(late)))
  {
    WaitsAfterIsRun(w, wires, batches);
    RunConcat(Nobody(), history, Tour(wires, batches, late));
    RunNext(w, Exchanged(wires, batches), Tick(late));
    forall k ensures Sends(history + Tour(wires, batches, late), k) == Awaited(sent + Flat(batches), k) {
      SentInTour(history, sent, wires, batches, late, k);
    }
  }

  lemma SentInTour(history: seq<Event<Key<string>>>, sent: seq<Mes>, wires: seq<string>, batches: seq<seq<Mes>>,
                   late: set<Key<string>>, k: Key<string>)
    requires |wires| == |batches| && Sends(history, k) == Awaited(sent, k)
    ensures Sends(history + Tour(wires, batches, late), k) == Awaited(sent + Flat(batches), k)
  {
    SendsConcat(history, Tour(wires, batches, late), k);
    RunNext(Nobody(), Exchanged(wires, batches), Tick(late));
    ExchangedSends(wires, batches, k);
    AwaitedConcat(sent, Flat(batches), k);
  }

  // ---------------------------------------------------------------- the processor

  /** Every waiting message is stored under its own key. */
  ghost predicate Keyed(pending: map<Key<string>, Mes>) { forall k :: k in pending ==> KeyOf(pending[k]) == k }

  /** The search for the message that a reply answers. */
  method FindAnswered(pending: map<Key<string>, Mes>, reply: Mes) returns (found: bool, k: Key<string>)
    requires Keyed(pending)
    ensures found ==> k in pending && RepliesTo(reply, k)
    ensures !found ==> forall x :: x in pending ==> !RepliesTo(reply, x)
  {
    found, k := false, Key(0, "", "");
    var left := pending.Keys;
    while left != {}
      invariant left <= pending.Keys
      invariant forall x :: x in pending && x !in left ==> !RepliesTo(reply, x)
    {
      k :| k in left;
      left := left - {k};
      AnswerIsByKey(pending[k], reply);
      if IsAnswer(pending[k], reply) {
        found := true;
        return;
      }
    }
  }

  class OldiProc {
    const owner: string
    const isFdp: bool
    var mesNum: nat
    var table: Table<string>
    /** The messages that wait for an answer, and the signals emitted about them. */
    var pending: map<Key<string>, Mes>
    var signals: seq<Departure<Key<string>>>
    /** The rows written to OUTPUTMESSAGES. */
    var sent: seq<Mes>
    /** What waits, what has left and what was overwritten, and what has happened since the start. */
    ghost var waits: Waiting<Key<string>>
    ghost var history: seq<Event<Key<string>>>

    ghost predicate Valid()
      reads this
    {
      && mesNum < 1000
      && WordTable(table)
      && (isFdp ==> WellOwned(table))
      && Tracked()
    }

    ghost predicate Tracked()
      reads this`pending, this`signals, this`waits
    {
      Keyed(pending) && waits.pending == pending.Keys && waits.gone == multiset(signals)
    }

    /** What holds between two calls of OnAckTimer. */
    ghost predicate Settled()
      reads this
    {
      Valid() && Chronicle(history, sent, waits)
    }

    constructor (owner: string, isFdp: bool)
      ensures Settled() && this.owner == owner && this.isFdp == isFdp
      ensures table == map[] && sent == [] && history == [] && mesNum == 0
    {
      this.owner, this.isFdp := owner, isFdp;
      mesNum, table, sent := 0, map[], [];
      pending, signals, waits, history := map[], [], Nobody(), [];
    }

    /** SendMessage. */
    method SendMessage(m: Mes)
      requires Tracked()
      modifies this`sent, this`pending, this`waits
      ensures Tracked() && sent == old(sent) + [m] && waits == Sent(old(waits), m)
    {
      sent := sent + [m];
      if WantsAnswer(m) {
        waits := Step(waits, Send(KeyOf(m)));
        pending := pending[KeyOf(m) := m];
      }
    }

    /** The loop that sends the outgoing map. */
    method SendAll(out: Outbox<string>, request: Mes) returns (ghost keys: seq<Key<string>>)
      requires Tracked()
      modifies this`sent, this`pending, this`waits
      ensures Tracked() && Distinct(keys) && Elements(keys) == out.Keys
      ensures forall i :: 0 <= i < |keys| ==> keys[i] in out
      ensures sent == old(sent) + RenderAll(keys, out, request)
      ensures waits == Run(old(waits), Posts(RenderAll(keys, out, request)))
    {
      var order := Enumerate(out.Keys);
      keys := order;
      var i := 0;
      while i < |order|
        invariant 0 <= i <= |order| && Tracked()
        invariant (sent, waits) == Posted(old(sent), old(waits), order[..i], out, request)
      {
        assert order[..i + 1][..i] == order[..i];
        SendMessage(Render(order[i], out[order[i]], request));
        i := i + 1;
      }
      assert order[..i] == order;
      PostedIs(old(sent), old(waits), order, out, request);
    }

    /** RecieveSTSMes on the server: the outgoing map is made and sent. */
    method Answer(request: Mes, c: Claim<string>, priority: nat)
      returns (after: Table<string>, num: nat, ghost batch: seq<Mes>)
      requires Tracked() && WordTable(table) && WellOwned(table) && mesNum < 1000 && ClaimWords(c)
      modifies this`sent, this`pending, this`waits
      ensures Tracked() && after == After(table, c, priority)
      ensures num == Nth(mesNum, NumbersUsed(table, c, priority))
      ensures sent == old(sent) + batch && waits == Run(old(waits), Posts(batch))
      ensures Served(table, batch, mesNum, owner, request, c, priority)
    {
      var out;
      ghost var lam;
      after, out, num, lam := HandleClaim(table, c, priority, owner, request.to, request.from, mesNum);
      ghost var keys := SendAll(out, request);
      batch := RenderAll(keys, out, request);
      ServedBy(table, c, priority, owner, request, mesNum, keys, out, lam);
    }

    /** RecieveSTSMes on the server. */
    method Serve(request: Mes, c: Claim<string>, priority: nat) returns (ghost batch: seq<Mes>)
      requires Valid() && isFdp && ClaimWords(c)
      modifies this`table, this`mesNum, this`sent, this`pending, this`waits
      ensures Valid() && table == After(old(table), c, priority)
      ensures mesNum == Nth(old(mesNum), NumbersUsed(old(table), c, priority))
      ensures sent == old(sent) + batch && waits == Run(old(waits), Posts(batch))
      ensures Served(old(table), batch, old(mesNum), owner, request, c, priority)
      ensures Conflicts(old(table), c) && priority == 0 ==> table == old(table) && mesNum == (old(mesNum) + 1) % 1000
    {
      JudgeExactly(table, c, priority);
      var after, num;
      after, num, batch := Answer(request, c, priority);
      TableKept(table, c, priority, after);
      table, mesNum := after, num;
    }

    /** RecieveSTSMes on a workstation: the replay is made and the acknowledgement sent. */
    method Acknowledge(request: Mes, c: Claim<string>, priority: nat)
      returns (after: Table<string>, num: nat, ghost batch: seq<Mes>)
      requires Tracked() && mesNum < 1000
      modifies this`sent, this`pending, this`waits
      ensures Tracked() && after == Replay(table, c) && num == (mesNum + 1) % 1000
      ensures sent == old(sent) + batch && waits == Run(old(waits), Posts(batch))
      ensures batch == [GetLam(request, num)]
    {
      var out;
      after, out, num := FollowClaim(table, c, priority, owner, request.to, request.from, mesNum);
      ghost var keys := SendAll(out, request);
      batch := RenderAll(keys, out, request);
      LamAlone(keys, Key(num, request.to, request.from), request);
    }

    /** RecieveSTSMes on a workstation. */
    method Follow(request: Mes, c: Claim<string>, priority: nat) returns (ghost batch: seq<Mes>)
      requires Valid() && !isFdp && ClaimWords(c)
      modifies this`table, this`mesNum, this`sent, this`pending, this`waits
      ensures Valid() && table == Replay(old(table), c) && mesNum == (old(mesNum) + 1) % 1000
      ensures sent == old(sent) + batch && waits == Run(old(waits), Posts(batch))
      ensures batch == [GetLam(request, (old(mesNum) + 1) % 1000)]
    {
      var after, num;
      after, num, batch := Acknowledge(request, c, priority);
      WordsKept(table, c, priority);
      table, mesNum := after, num;
    }

    /** RecieveSTSMes: a claim on the server, an announcement on a workstation. */
    method ReceiveSts(request: Mes) returns (ghost batch: seq<Mes>)
      requires Valid() && request.kind == STS
      modifies this`table, this`mesNum, this`sent, this`pending, this`waits
      ensures Valid() && table == TableStep(old(table), isFdp, request)
      ensures mesNum == NumberStep(old(table), isFdp, request, old(mesNum))
      ensures sent == old(sent) + batch && waits == Run(old(waits), Posts(batch))
      ensures Returned(old(table), isFdp, owner, request, old(mesNum), batch)
    {
      batch := [];
      var d := ReadSts(request);
      var words := Split(d.text);
      if |words| < 1 {
        return;
      }
      var c := Claim(words[0], words[1..]);
      if isFdp {
        batch := Serve(request, c, d.priority);
      } else {
        batch := Follow(request, c, d.priority);
      }
    }

    /** The message that a LAM or ERR answers leaves. */
    method TakeAnswer(reply: Mes)
      requires Tracked()
      modifies this`pending, this`signals, this`waits
      ensures Tracked() && waits == Run(old(waits), Answers(reply))
    {
      var found, k := FindAnswered(pending, reply);
      AnswersBy(reply);
      if Answers(reply) != [] {
        ghost var quoted := Answers(reply)[0].key;
        RunNext(waits, [], Reply(quoted));
        assert [] + [Reply(quoted)] == Answers(reply);
        waits := Step(waits, Reply(quoted));
      }
      if found {
        pending := pending - {k};
        signals := signals + [ByAnswer(k)];
      }
    }

    /** The overdue messages leave. */
    method Expire(late: set<Key<string>>)
      requires Tracked()
      modifies this`pending, this`signals, this`waits
      ensures Tracked() && waits == Step(old(waits), Tick(late))
    {
      var kept, gone := DropOverdue(pending, late);
      pending := kept;
      signals := signals + gone;
      waits := Step(waits, Tick(late));
    }

    /** The history after a call of OnAckTimer; s0 and w0 are what was sent and what waited before it. */
    ghost method Record(wires: seq<string>, batches: seq<seq<Mes>>, late: set<Key<string>>,
                        s0: seq<Mes>, w0: Waiting<Key<string>>)
      requires |wires| == |batches| && Chronicle(history, s0, w0)
      requires waits == Step(WaitsAfter(w0, wires, batches), Tick(late))
      modifies this`history
      ensures history == old(history) + Tour(wires, batches, late)
      ensures Chronicle(history, s0 + Flat(batches), waits)
    {
      ChronicleNext(history, s0, w0, wires, batches, late);
      history := history + Tour(wires, batches, late);
    }

    /** The end of a call of OnAckTimer. */
    method Finish(late: set<Key<string>>, ghost wires: seq<string>, ghost batches: seq<seq<Mes>>,
                  ghost s0: seq<Mes>, ghost w0: Waiting<Key<string>>)
      requires Tracked() && |wires| == |batches| && Chronicle(history, s0, w0)
      requires waits == WaitsAfter(w0, wires, batches)
      modifies this`pending, this`signals, this`waits, this`history
      ensures Tracked() && history == old(history) + Tour(wires, batches, late)
      ensures Chronicle(history, s0 + Flat(batches), waits)
    {
      Expire(late);
      Record(wires, batches, late, s0, w0);
    }

    /** One incoming message. */
    method Receive(m: Mes) returns (ghost batch: seq<Mes>)
      requires Valid()
      modifies this`table, this`mesNum, this`sent, this`pending, this`signals, this`waits
      ensures Valid() && table == TableStep(old(table), isFdp, m)
      ensures mesNum == NumberStep(old(table), isFdp, m, old(mesNum))
      ensures Returned(old(table), isFdp, owner, m, old(mesNum), batch) && sent == old(sent) + batch
      ensures waits == Run(old(waits), Reaction(m, batch))
    {
      batch := [];
      ReactionIs(m, batch);
      if m.kind == ERR || m.kind == LAM {
        TakeAnswer(m);
      } else if m.kind == STS {
        batch := ReceiveSts(m);
        ReactionIs(m, batch);
      }
    }

    /** The next message that came in; t0 to w0 are the state before the first one. */
    method ReceiveNext(wires: seq<string>, i: nat, ghost before: seq<seq<Mes>>, ghost t0: Table<string>, ghost n0: nat,
                       ghost s0: seq<Mes>, ghost w0: Waiting<Key<string>>) returns (ghost batches: seq<seq<Mes>>)
      requires Valid() && i < |wires|
      requires Handles(t0, n0, s0, w0, isFdp, owner, wires[..i], before, table, mesNum, sent, waits)
      modifies this`table, this`mesNum, this`sent, this`pending, this`signals, this`waits
      ensures Valid()
      ensures Handles(t0, n0, s0, w0, isFdp, owner, wires[..i + 1], batches, table, mesNum, sent, waits)
    {
      ghost var t, n, s, w := table, mesNum, sent, waits;
      ghost var batch := Receive(ParseHeader(wires[i]));
      HandlesNext(t0, n0, s0, w0, isFdp, owner, wires, i, before, batch, t, n, s, w);
      batches := before + [batch];
    }

    /** The messages that came in, one after the other. */
    method ReceiveAll(wires: seq<string>) returns (ghost batches: seq<seq<Mes>>)
      requires Valid()
      modifies this`table, this`mesNum, this`sent, this`pending, this`signals, this`waits
      ensures Valid()
      ensures Handles(old(table), old(mesNum), old(sent), old(waits), isFdp, owner, wires, batches,
                      table, mesNum, sent, waits)
    {
      batches := [];
      ghost var t0, n0, s0, w0 := table, mesNum, sent, waits;
      var i := 0;
      while i < |wires|
        invariant 0 <= i <= |wires| && Valid()
        invariant Handles(t0, n0, s0, w0, isFdp, owner, wires[..i], batches, table, mesNum, sent, waits)
      {
        batches := ReceiveNext(wires, i, batches, t0, n0, s0, w0);
        i := i + 1;
      }
      assert wires[..i] == wires;
    }

    /** OnAckTimer: the messages that came in, each with what is sent in return, then the overdue ones. */
    method OnAckTimer(wires: seq<string>, late: set<Key<string>>) returns (ghost batches: seq<seq<Mes>>)
      requires Settled()
      modifies this
      ensures Settled()
      ensures table == TableAfter(old(table), isFdp, wires) && mesNum == NumberAt(old(table), isFdp, wires, old(mesNum))
      ensures ReturnedAll(old(table), isFdp, owner, wires, old(mesNum), batches) && sent == old(sent) + Flat(batches)
      ensures history == old(history) + Tour(wires, batches, late)
    {
      batches := ReceiveAll(wires);
      Finish(late, wires, batches, old(sent), old(waits));
    }
  }

  /** At any moment, each message sent under k that wants an answer has left exactly once, by its answer
      or by timeout, but for the one that may still wait, exactly when no key was used again before its
      message left. */
  lemma EachSentLeavesOnce(p: OldiProc, k: Key<string>)
    requires p.Settled()
    ensures
      var left := multiset(p.signals)[ByAnswer(k)] + multiset(p.signals)[ByTimeout(k)];
      left + (if k in p.pending then 1 else 0) == Awaited(p.sent, k) <==> Distinctly(Nobody(), p.history, k)
  {
    EachLeavesOnce(p.history, k);
  }

  // ---------------------------------------------------------------- a server and a workstation

  /** The requests in the texts that come in at the server. */
  function RequestIn(m: Mes): seq<Request<string>> {
    if IsClaim(m) then [Request(ClaimIn(m), GetSts(m).priority, m.from)] else []
  }

  function RequestsIn(wires: seq<string>): seq<Request<string>> {
    if wires == [] then []
    else RequestsIn(wires[..|wires| - 1]) + RequestIn(ParseHeader(wires[|wires| - 1]))
  }

  /** What y reads about each of these requests. */
  function Inboxes(wires: seq<string>, batches: seq<seq<Mes>>, y: string): seq<seq<Claim<string>>>
    requires |wires| == |batches|
  {
    if wires == [] then []
    else
      var n := |wires| - 1;
      Inboxes(wires[..n], batches[..n], y) + (if IsClaim(ParseHeader(wires[n])) then [Inbox(batches[n], y)] else [])
  }

  /** The server can answer every claim in the texts. */
  ghost predicate Servable(t: Table<string>, owner: string, wires: seq<string>) {
    wires == [] ||
    var most, m := wires[..|wires| - 1], ParseHeader(wires[|wires| - 1]);
    && Servable(t, owner, most)
    && (IsClaim(m) ==> Manageable(TableAfter(t, true, most), ClaimIn(m), GetSts(m).priority, owner, m))
  }

  lemma BatchRead(t: Table<string>, owner: string, m: Mes, n: nat, batch: seq<Mes>, y: string)
    requires IsClaim(m) && Returned(t, true, owner, m, n, batch)
    requires Manageable(t, ClaimIn(m), GetSts(m).priority, owner, m)
    ensures ReadsAbout(Inbox(batch, y), t, RequestIn(m)[0], y)
  {
    if Judge(t, ClaimIn(m), GetSts(m).priority) == Refused {
      InboxNext([], batch[0], y);
      NoClaim(batch[0]);
    }
  }

  lemma ReadsMore(t: Table<string>, reqs: seq<Request<string>>, inboxes: seq<seq<Claim<string>>>, y: string,
                  q: Request<string>, inbox: seq<Claim<string>>)
    requires ReadsRun(t, reqs, inboxes, y) && ReadsAbout(inbox, AfterAll(t, reqs), q, y)
    ensures ReadsRun(t, reqs + [q], inboxes + [inbox], y)
    ensures AfterAll(t, reqs + [q]) == After(AfterAll(t, reqs), q.claim, q.priority)
  {
    var reqs', inboxes' := reqs + [q], inboxes + [inbox];
    assert reqs'[..|reqs|] == reqs;
    forall i | 0 <= i < |reqs'| ensures ReadsAt(t, reqs', inboxes', i, y) {
      if i < |reqs| {
        assert reqs'[..i] == reqs[..i] && ReadsAt(t, reqs, inboxes, i, y);
      }
    }
  }

  /** What the server does with incoming texts is a run of requests, about which y reads what it is sent. */
  lemma {:induction false} ServerRuns(t: Table<string>, owner: string, wires: seq<string>, n: nat,
                                      batches: seq<seq<Mes>>, y: string)
    requires ReturnedAll(t, true, owner, wires, n, batches) && Servable(t, owner, wires)
    ensures TableAfter(t, true, wires) == AfterAll(t, RequestsIn(wires))
    ensures ReadsRun(t, RequestsIn(wires), Inboxes(wires, batches, y), y)
  {
    if wires != [] {
      var k := |wires| - 1;
      var most, m := wires[..k], ParseHeader(wires[k]);
      ServerRuns(t, owner, most, n, batches[..k], y);
      if IsClaim(m) {
        BatchRead(TableAfter(t, true, most), owner, m, NumberAt(t, true, most, n), batches[k], y);
        ReadsMore(t, RequestsIn(most), Inboxes(most, batches[..k], y), y, RequestIn(m)[0], Inbox(batches[k], y));
      } else {
        NothingMore(RequestsIn(most));
        NothingMore(Inboxes(most, batches[..k], y));
      }
    }
  }

  lemma NothingMore<T>(xs: seq<T>)
    ensures xs + [] == xs
  {
  }

  lemma {:induction false} InboxConcat(a: seq<Mes>, b: seq<Mes>, y: string)
    ensures Inbox(a + b, y) == Inbox(a, y) + Inbox(b, y)
  {
    if b == [] {
      assert a + b == a;
      NothingMore(Inbox(a, y));
    } else {
      var most, m := b[..|b| - 1], b[|b| - 1];
      assert a + b == (a + most) + [m] && b == most + [m];
      InboxConcat(a, most, y);
      InboxNext(a + most, m, y);
      InboxNext(most, m, y);
      Associate(Inbox(a, y), Inbox(most, y), if m.to == y then ClaimInText(Text(m)) else []);
    }
  }

  lemma {:induction false} ReplayConcat(r: Table<string>, xs: seq<Claim<string>>, ys: seq<Claim<string>>)
    ensures ReplayAll(r, xs + ys) == ReplayAll(ReplayAll(r, xs), ys)
  {
    if ys == [] {
      NothingMore(xs);
    } else {
      var most, c := ys[..|ys| - 1], ys[|ys| - 1];
      ReplayConcat(r, xs, most);
      ReplayNext(r, xs + most, c);
      assert xs + ys == (xs + most) + [c];
    }
  }

  /** A workstation that gets all that the server sends replays what it reads about one request after the other. */
  lemma {:induction false} StationFollows(r: Table<string>, t: Table<string>, owner: string, wires: seq<string>, n: nat,
                                          batches: seq<seq<Mes>>, y: string)
    requires ReturnedAll(t, true, owner, wires, n, batches)
    ensures ReplayAll(r, Inbox(Flat(batches), y)) == CopyAfter(r, Inboxes(wires, batches, y))
  {
    if wires != [] {
      var k := |wires| - 1;
      StationFollows(r, t, owner, wires[..k], n, batches[..k], y);
      InboxConcat(Flat(batches[..k]), batches[k], y);
      ReplayConcat(r, Inbox(Flat(batches[..k]), y), Inbox(batches[k], y));
      var inboxes := Inboxes(wires[..k], batches[..k], y);
      if IsClaim(ParseHeader(wires[k])) {
        assert (inboxes + [Inbox(batches[k], y)])[..|inboxes|] == inboxes;
      } else {
        NothingMore(inboxes);
      }
    }
  }

  lemma StationDetermined(r: Table<string>, t: Table<string>, owner: string, wires: seq<string>, n: nat,
                          batches: seq<seq<Mes>>, y: string)
    requires WellOwned(t) && ReturnedAll(t, true, owner, wires, n, batches) && Servable(t, owner, wires)
    ensures TableAfter(t, true, wires) == AfterAll(t, RequestsIn(wires))
    ensures TableAfter(r, false, WiresTo(Flat(batches), y)) == CopyOver(r, t, RequestsIn(wires), y)
  {
    ServerRuns(t, owner, wires, n, batches, y);
    StationReplays(r, WiresTo(Flat(batches), y));
    StationFollows(r, t, owner, wires, n, batches, y);
    CopyDetermined(r, t, RequestsIn(wires), Inboxes(wires, batches, y), y);
  }

  /** Texts come in at the server, and all that it sends comes in at a workstation with any copy: if the server can
      answer the claims in the texts, its table is that after these requests, and the workstation's copy is what they
      make of it.  (JoinerConverges, StayerConverges and RunConverges say when the two are equal.) */
  method Relay(server: OldiProc, station: OldiProc, wires: seq<string>, late: set<Key<string>>, late': set<Key<string>>)
    requires server != station && server.Settled() && server.isFdp && station.Settled() && !station.isFdp
    modifies server, station
    ensures server.Settled() && station.Settled()
    ensures Servable(old(server.table), server.owner, wires) ==>
      && server.table == AfterAll(old(server.table), RequestsIn(wires))
      && station.table == CopyOver(old(station.table), old(server.table), RequestsIn(wires), station.owner)
  {
    ghost var r, t, n := station.table, server.table, server.mesNum;
    var before := |server.sent|;
    ghost var batches := server.OnAckTimer(wires, late);
    assert server.sent[before..] == Flat(batches);
    if Servable(t, server.owner, wires) {
      StationDetermined(r, t, server.owner, wires, n, batches, station.owner);
    }
    var _ := station.OnAckTimer(WiresTo(server.sent[before..], station.owner), late');
  }

  /** One claim that the server can answer, and a workstation whose table equals the server's: the two tables are equal
      again exactly for those who catch up. */
  method RelayOne(server: OldiProc, station: OldiProc, wire: string, late: set<Key<string>>, late': set<Key<string>>)
    requires server != station && server.Settled() && server.isFdp && station.Settled() && !station.isFdp
    requires station.table == server.table
    modifies server, station
    ensures server.Settled() && station.Settled()
    ensures var m := ParseHeader(wire);
      IsClaim(m) && Servable(old(server.table), server.owner, [wire]) ==>
        && server.table == After(old(server.table), ClaimIn(m), GetSts(m).priority)
        && (station.table == server.table <==>
              CatchesUp(old(server.table), ClaimIn(m), GetSts(m).priority, m.from, station.owner))
  {
    if IsClaim(ParseHeader(wire)) {
      OneRequestIn(wire);
      OneRequest(server.table, RequestIn(ParseHeader(wire))[0], station.owner);
    }
    Relay(server, station, [wire], late, late');
  }

  lemma OneRequestIn(wire: string)
    requires IsClaim(ParseHeader(wire))
    ensures var m := ParseHeader(wire); RequestsIn([wire]) == [Request(ClaimIn(m), GetSts(m).priority, m.from)]
  {
    assert [wire][..0] == [];
    assert RequestsIn([]) == [];
  }

  lemma OneRequest(t: Table<string>, q: Request<string>, y: string)
    requires WellOwned(t)
    ensures AfterAll(t, [q]) == After(t, q.claim, q.priority)
    ensures CopyOver(t, t, [q], y) == After(t, q.claim, q.priority) <==> CatchesUp(t, q.claim, q.priority, q.replyTo, y)
  {
    OneStep(t, q, y);
    CopyStepCatchesUp(t, q, y);
  }

  lemma OneStep(t: Table<string>, q: Request<string>, y: string)
    ensures AfterAll(t, [q]) == After(t, q.claim, q.priority)
    ensures CopyOver(t, t, [q], y) == CopyStep(t, t, q, y)
  {
    assert [q][..0] == [];
    assert AfterAll(t, []) == t && CopyOver(t, t, [], y) == t;
  }
}
