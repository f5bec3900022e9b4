/** Messages that wait for an acknowledgement, by key: what can happen to them over a run. */
module OldiAck {
  import opened Collections

  /** How a waiting message leaves: its answer came, or its time ran out. */
  datatype Departure<K> = ByAnswer(key: K) | ByTimeout(key: K)

  /** The keys that wait, the departures so far, and the keys whose message was overwritten by a later
      one with the same key: such a message leaves without a word to anybody. */
  datatype Waiting<K> = Waiting(pending: set<K>, gone: multiset<Departure<K>>, overwritten: multiset<K>)

  /** A message that wants an answer is sent; an answer to a key comes in; time passes, and the
      messages under the keys in `late` are overdue. */
  datatype Event<K> = Send(key: K) | Reply(key: K) | Tick(late: set<K>)

  function Timeouts<K(==)>(keys: set<K>): set<Departure<K>> { set k | k in keys :: ByTimeout(k) }

  function Step<K(==)>(w: Waiting<K>, e: Event<K>): Waiting<K> {
    match e
    case Send(k) =>
      Waiting(w.pending + {k}, w.gone, if k in w.pending then w.overwritten + multiset{k} else w.overwritten)
    case Reply(k) =>
      if k in w.pending then Waiting(w.pending - {k}, w.gone + multiset{ByAnswer(k)}, w.overwritten) else w
    case Tick(late) =>
      Waiting(w.pending - late, w.gone + multiset(Timeouts(w.pending * late)), w.overwritten)
  }

  function Run<K(==)>(w: Waiting<K>, es: seq<Event<K>>): Waiting<K> {
    if es == [] then w else Step(Run(w, es[..|es| - 1]), es[|es| - 1])
  }

  lemma {:induction false} RunConcat<K>(w: Waiting<K>, xs: seq<Event<K>>, ys: seq<Event<K>>)
    ensures Run(w, xs + ys) == Run(Run(w, xs), ys)
  {
    if ys == [] {
      assert xs + ys == xs;
    } else {
      var most := ys[..|ys| - 1];
      assert (xs + ys)[..|xs + ys| - 1] == xs + most;
      RunConcat(w, xs, most);
    }
  }

  /** The overdue keys among some keys, in order, and what is left of a map without them. */
  function Overdue<K(==)>(keys: seq<K>, late: set<K>): seq<Departure<K>> {
    if keys == [] then []
    else
      var k := keys[|keys| - 1];
      Overdue(keys[..|keys| - 1], late) + (if k in late then [ByTimeout(k)] else [])
  }

  function Dropped<K(==), V>(pending: map<K, V>, keys: seq<K>, late: set<K>): map<K, V> {
    if keys == [] then pending
    else
      var k, m := keys[|keys| - 1], Dropped(pending, keys[..|keys| - 1], late);
      if k in late then m - {k} else m
  }

  lemma TimeoutsMore<K>(keys: set<K>, k: K)
    requires k !in keys
    ensures multiset(Timeouts(keys + {k})) == multiset(Timeouts(keys)) + multiset{ByTimeout(k)}
  {
    assert Timeouts(keys + {k}) == Timeouts(keys) + {ByTimeout(k)};
    assert ByTimeout(k) !in Timeouts(keys);
  }

  lemma LateOneMore<K>(keys: seq<K>, late: set<K>)
    requires keys != []
    ensures var most, k := keys[..|keys| - 1], keys[|keys| - 1];
      Elements(keys) * late == Elements(most) * late + (if k in late then {k} else {})
  {
    var most, k := keys[..|keys| - 1], keys[|keys| - 1];
    assert keys == most + [k];
    ElementsAppend(most, k);
  }

  lemma {:induction false} DroppedIs<K, V>(pending: map<K, V>, keys: seq<K>, late: set<K>)
    ensures Dropped(pending, keys, late) == pending - Elements(keys) * late
  {
    if keys != [] {
      DroppedIs(pending, keys[..|keys| - 1], late);
      LateOneMore(keys, late);
    }
  }

  lemma {:induction false} OverdueIs<K>(keys: seq<K>, late: set<K>)
    requires Distinct(keys)
    ensures multiset(Overdue(keys, late)) == multiset(Timeouts(Elements(keys) * late))
  {
    if keys != [] {
      var most, k := keys[..|keys| - 1], keys[|keys| - 1];
      OverdueIs(most, late);
      LateOneMore(keys, late);
      assert k !in most;
      TimeoutsMore(Elements(most) * late, k);
    }
  }

  lemma DropNext<K, V>(pending: map<K, V>, keys: seq<K>, late: set<K>, i: nat)
    requires i < |keys|
    ensures Dropped(pending, keys[..i + 1], late) ==
      if keys[i] in late then Dropped(pending, keys[..i], late) - {keys[i]} else Dropped(pending, keys[..i], late)
    ensures Overdue(keys[..i + 1], late) ==
      if keys[i] in late then Overdue(keys[..i], late) + [ByTimeout(keys[i])] else Overdue(keys[..i], late)
  {
    assert keys[..i + 1][..i] == keys[..i];
    assert Overdue(keys[..i], late) + [] == Overdue(keys[..i], late);
  }

  /** The loop over the waiting messages that drops the overdue ones. */
  method DropOverdue<K(==), V>(pending: map<K, V>, late: set<K>) returns (kept: map<K, V>, gone: seq<Departure<K>>)
    ensures kept == pending - late
    ensures multiset(gone) == multiset(Timeouts(pending.Keys * late))
  {
    var keys := Enumerate(pending.Keys);
    kept, gone := pending, [];
    var i := 0;
    while i < |keys|
      invariant 0 <= i <= |keys|
      invariant kept == Dropped(pending, keys[..i], late) && gone == Overdue(keys[..i], late)
    {
      DropNext(pending, keys, late, i);
      if keys[i] in late {
        kept := kept - {keys[i]};
        gone := gone + [ByTimeout(keys[i])];
      }
      i := i + 1;
    }
    assert keys[..i] == keys;
    DroppedIs(pending, keys, late);
    OverdueIs(keys, late);
  }

  function Sends<K(==)>(es: seq<Event<K>>, k: K): nat {
    if es == [] then 0
    else Sends(es[..|es| - 1], k) + (if es[|es| - 1] == Send(k) then 1 else 0)
  }

  /** How often messages under k left. */
  function Left<K(==)>(w: Waiting<K>, k: K): nat { w.gone[ByAnswer(k)] + w.gone[ByTimeout(k)] }

  function Accounted<K(==)>(w: Waiting<K>, k: K): nat {
    (if k in w.pending then 1 else 0) + Left(w, k) + w.overwritten[k]
  }

  lemma StepAccounts<K(!new)>(w: Waiting<K>, e: Event<K>, k: K)
    ensures Accounted(Step(w, e), k) == Accounted(w, k) + (if e == Send(k) then 1 else 0)
  {
    match e
    case Send(x) =>
    case Reply(x) =>
    case Tick(late) =>
      var overdue := Timeouts(w.pending * late);
      assert ByTimeout(k) in overdue <==> k in w.pending * late;
      assert multiset(overdue)[ByTimeout(k)] == if k in w.pending * late then 1 else 0;
      assert ByAnswer(k) !in overdue;
  }

  /** Nothing is lost and nothing leaves twice: every message sent under a key is still waiting, has
      left by answer or by timeout, or was overwritten. */
  lemma {:induction false} EverySendAccounted<K(!new)>(w: Waiting<K>, es: seq<Event<K>>, k: K)
    ensures Accounted(Run(w, es), k) == Accounted(w, k) + Sends(es, k)
  {
    if es != [] {
      EverySendAccounted(w, es[..|es| - 1], k);
      StepAccounts(Run(w, es[..|es| - 1]), es[|es| - 1], k);
    }
  }

  /** No message is sent under k while another one waits under k. */
  predicate Distinctly<K(==)>(w: Waiting<K>, es: seq<Event<K>>, k: K) {
    if es == [] then true
    else
      var most := es[..|es| - 1];
      Distinctly(w, most, k) && (es[|es| - 1] == Send(k) ==> k !in Run(w, most).pending)
  }

  lemma {:induction false} OverwrittenOnlyByReuse<K(!new)>(w: Waiting<K>, es: seq<Event<K>>, k: K)
    ensures Run(w, es).overwritten[k] >= w.overwritten[k]
    ensures Run(w, es).overwritten[k] == w.overwritten[k] <==> Distinctly(w, es, k)
  {
    if es != [] {
      OverwrittenOnlyByReuse(w, es[..|es| - 1], k);
    }
  }

  function Nobody<K>(): Waiting<K> { Waiting({}, multiset{}, multiset{}) }

  /** From an empty start, each message sent under k has left exactly once, but for the one that may
      still wait, exactly when no key is used again before its message left. */
  lemma EachLeavesOnce<K(!new)>(es: seq<Event<K>>, k: K)
    ensures
      var w := Run(Nobody(), es);
      var once := Left(w, k) + (if k in w.pending then 1 else 0) == Sends(es, k);
      once <==> Distinctly(Nobody(), es, k)
  {
    EverySendAccounted(Nobody(), es, k);
    OverwrittenOnlyByReuse(Nobody(), es, k);
  }

  lemma {:induction false} SendsConcat<K>(xs: seq<Event<K>>, ys: seq<Event<K>>, k: K)
    ensures Sends(xs + ys, k) == Sends(xs, k) + Sends(ys, k)
  {
    if ys == [] {
      assert xs + ys == xs;
    } else {
      var most := ys[..|ys| - 1];
      assert (xs + ys)[..|xs + ys| - 1] == xs + most;
      SendsConcat(xs, most, k);
    }
  }

  /** One more event at the end of a run. */
  lemma RunNext<K>(w: Waiting<K>, es: seq<Event<K>>, e: Event<K>)
    ensures Run(w, es + [e]) == Step(Run(w, es), e)
    ensures forall k :: Sends(es + [e], k) == Sends(es, k) + (if e == Send(k) then 1 else 0)
  {
    assert (es + [e])[..|es|] == es;
  }
}
