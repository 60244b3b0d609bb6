/** The list of pools over every run of the server. */
module PoolLists {
  import opened Wrappers
  import opened Words
  import opened DhcpMessages
  import opened AddressPools
  import opened DhcpServers
  import opened ServerRuns
  import PoolRuns

  predicate NonEmpty(p: Pool) {
    p.first <= p.last
  }

  /** No address lies in the ranges of both pools. */
  predicate Apart(p: Pool, q: Pool) {
    Range(p.first, p.last) !! Range(q.first, q.last)
  }

  /** `q` has addresses, and `p` has all of them and more on both sides. */
  predicate Encloses(p: Pool, q: Pool) {
    p.first < q.first <= q.last < p.last
  }

  /** A reversed range has no addresses, and is apart from every other. */
  lemma ApartIsOrder(p: Pool, q: Pool)
    ensures Apart(p, q) <==> !NonEmpty(p) || !NonEmpty(q) || p.last < q.first || q.last < p.first
  {
    var a, b := Range(p.first, p.last), Range(q.first, q.last);
    if NonEmpty(p) && NonEmpty(q) && p.first <= q.last && q.first <= p.last {
      var x := if p.first <= q.first then q.first else p.first;
      assert x in a && x in b;
    }
  }

  /** A rejection of a pool with addresses is a real overlap; what is accepted beside a pool
      is apart from it or strictly encloses it. */
  lemma IntersectsExactly(p: Pool, q: Pool)
    ensures NonEmpty(p) ==> (!Intersects(p, q) <==> Apart(p, q) || Encloses(p, q))
    ensures !Intersects(p, q) ==> (Apart(p, q) <==> !Encloses(p, q))
    ensures Encloses(p, q) ==> !Apart(p, q)
  {
    ApartIsOrder(p, q);
  }

  ghost predicate PairwiseApart(pools: seq<Pool>) {
    forall i, j | 0 <= i < j < |pools| :: Apart(pools[i], pools[j])
  }

  ghost predicate AllNonEmpty(pools: seq<Pool>) {
    forall i | 0 <= i < |pools| :: NonEmpty(pools[i])
  }

  ghost predicate EnclosesSome(p: Pool, pools: seq<Pool>) {
    exists i :: 0 <= i < |pools| && Encloses(p, pools[i])
  }

  /** One submission: a list of disjoint pools stays one exactly when the pool is rejected,
      in which case nothing changes, or encloses none of the others. */
  lemma SubmissionExactly(s: Server, p: Pool)
    requires PairwiseApart(s.pools)
    ensures PairwiseApart(WithPool(s, p).pools) <==> Rejected(s.pools, p) || !EnclosesSome(p, s.pools)
    ensures Rejected(s.pools, p) ==> WithPool(s, p) == s
    ensures Rejected(s.pools, p) && NonEmpty(p) ==> exists i :: 0 <= i < |s.pools| && !Apart(p, s.pools[i])
  {
    hide Apart, Intersects, Encloses;
    forall i | 0 <= i < |s.pools|
      ensures NonEmpty(p) ==> (!Intersects(p, s.pools[i]) <==> Apart(p, s.pools[i]) || Encloses(p, s.pools[i]))
      ensures !Intersects(p, s.pools[i]) ==> (Apart(p, s.pools[i]) <==> !Encloses(p, s.pools[i]))
      ensures Apart(p, s.pools[i]) <==> Apart(s.pools[i], p)
      ensures Encloses(p, s.pools[i]) ==> !Apart(p, s.pools[i])
    {
      IntersectsExactly(p, s.pools[i]);
      ApartIsOrder(p, s.pools[i]);
      ApartIsOrder(s.pools[i], p);
    }
    if !Rejected(s.pools, p) {
      var pools := s.pools + [p];
      if EnclosesSome(p, s.pools) {
        var i :| 0 <= i < |s.pools| && Encloses(p, s.pools[i]);
        assert !Apart(pools[i], pools[|s.pools|]);
      }
    }
  }

  // ---- Over runs -----------------------------------------------------------------

  lemma {:induction false} RunKeepsRange(p: Pool, ops: seq<Op>)
    ensures PoolRuns.After(p, ops).first == p.first && PoolRuns.After(p, ops).last == p.last
  {
    if ops != [] {
      RunKeepsRange(p, ops[..|ops| - 1]);
      var q, op := PoolRuns.After(p, ops[..|ops| - 1]), ops[|ops| - 1];
      if op.ExcludeRange? {
        PoolRuns.ExcludeRangeExactly(q, op.lo, op.hi);
      }
    }
  }

  ghost predicate SameRanges(pools: seq<Pool>, more: seq<Pool>) {
    |pools| <= |more| && forall i | 0 <= i < |pools| :: more[i].first == pools[i].first && more[i].last == pools[i].last
  }

  lemma StepKeepsRanges(host: Host, s: Server, e: Event)
    requires Sound(s)
    ensures SameRanges(s.pools, Next(host, s, e).pools)
    ensures !e.AddPool? ==> |Next(host, s, e).pools| == |s.pools|
  {
    hide Received, SentReply, PoolRuns.Inv;
    if e.Receive? {
      ReceivedChanges(host, s);
    }
    if e.Take? && s.pc.Taking? {
      hide Took;
      TakenRange(host, s);
    }
  }

  lemma TakenRange(host: Host, s: Server)
    requires Sound(s)
    ensures SameRanges(s.pools, Took(host, s).pools) && |Took(host, s).pools| == |s.pools|
  {
    hide SentReply, PoolRuns.Inv;
  }

  /** Once the main loop has seen a pool it never misses one, and pool 0 keeps its range. */
  lemma {:induction false} RunKeepsRanges(host: Host, events: seq<Event>, k: nat)
    requires k <= |events|
    ensures SameRanges(After(host, events[..k]).pools, After(host, events).pools)
    decreases |events| - k
  {
    if k < |events| {
      RunKeepsRanges(host, events, k + 1);
      assert events[..k + 1][..k] == events[..k];
      StepKeepsRanges(host, After(host, events[..k]), events[k]);
    } else {
      assert events[..k] == events;
    }
  }

  /** A submission that reaches the pool list. */
  predicate Submits(s: Server, e: Event) {
    e.AddPool? && !s.pc.Down? && e.last != MAX_U32
  }

  /** It leaves disjoint pools disjoint. */
  ghost predicate Harmless(s: Server, e: Event) {
    Submits(s, e) ==> Rejected(s.pools, Submitted(e)) || !EnclosesSome(Submitted(e), s.pools)
  }

  lemma SameApart(pools: seq<Pool>, more: seq<Pool>)
    requires SameRanges(pools, more)
    ensures PairwiseApart(more) ==> PairwiseApart(pools)
    ensures |pools| == |more| ==> (PairwiseApart(more) <==> PairwiseApart(pools))
  {
  }

  lemma HarmlessExactly(host: Host, s: Server, e: Event)
    requires Sound(s)
    ensures PairwiseApart(Next(host, s, e).pools) <==> PairwiseApart(s.pools) && Harmless(s, e)
  {
    hide Rejected, PoolRuns.Inv, PairwiseApart, Received, Took;
    StepKeepsRanges(host, s, e);
    SameApart(s.pools, Next(host, s, e).pools);
    if Submits(s, e) && PairwiseApart(s.pools) {
      SubmissionExactly(s, Submitted(e));
    }
  }

  /** Over every run: all pools are pairwise disjoint at the end exactly when every submission
      was rejected or enclosed no pool that was there. */
  lemma {:induction false} PoolsApartExactly(host: Host, events: seq<Event>)
    ensures PairwiseApart(After(host, events).pools)
            <==> forall k | 0 <= k < |events| :: Harmless(After(host, events[..k]), events[k])
  {
    hide Next, Harmless, Sound, PairwiseApart;
    if events == [] {
      NoPools(host);
    } else {
      var n := |events| - 1;
      var init := events[..n];
      PoolsApartExactly(host, init);
      HarmlessExactly(host, After(host, init), events[n]);
      assert forall k | 0 <= k < n :: init[..k] == events[..k];
    }
  }

  /** What the operator can check of a submission: it encloses no pool there already is. */
  ghost predicate Careful(s: Server, e: Event) {
    e.AddPool? ==> !EnclosesSome(Fresh(e.first, e.last), s.pools)
  }

  lemma CarefulIsHarmless(s: Server, e: Event)
    requires Careful(s, e)
    ensures Harmless(s, e)
  {
    if e.AddPool? {
      RunKeepsRange(Fresh(e.first, e.last), e.setup);
    }
  }

  /** In every run of careful submissions all pools are pairwise disjoint. */
  lemma CarefulRunsKeepPoolsApart(host: Host, events: seq<Event>)
    requires forall k | 0 <= k < |events| :: Careful(After(host, events[..k]), events[k])
    ensures PairwiseApart(After(host, events).pools)
  {
    hide After, Harmless, Careful, PairwiseApart;
    forall k | 0 <= k < |events| ensures Harmless(After(host, events[..k]), events[k]) {
      CarefulIsHarmless(After(host, events[..k]), events[k]);
    }
    PoolsApartExactly(host, events);
  }

  /** No pool is empty when no empty range was submitted. */
  lemma {:induction false} RunKeepsNonEmpty(host: Host, events: seq<Event>)
    requires forall k | 0 <= k < |events| && events[k].AddPool? :: events[k].first <= events[k].last
    ensures AllNonEmpty(After(host, events).pools)
  {
    hide Next, Sound;
    if events != [] {
      var s, e := After(host, events[..|events| - 1]), events[|events| - 1];
      RunKeepsNonEmpty(host, events[..|events| - 1]);
      StepKeepsNonEmpty(host, s, e);
    }
  }

  lemma StepKeepsNonEmpty(host: Host, s: Server, e: Event)
    requires Sound(s) && AllNonEmpty(s.pools) && (e.AddPool? ==> e.first <= e.last)
    ensures AllNonEmpty(Next(host, s, e).pools)
  {
    hide PoolRuns.Inv, Rejected, Received, Took;
    StepKeepsRanges(host, s, e);
    if e.AddPool? {
      RunKeepsRange(Fresh(e.first, e.last), e.setup);
    }
  }

  lemma NoPools(host: Host)
    ensures PairwiseApart(After(host, []).pools)
  {
  }

  /** A run that ends with two overlapping pools: the second encloses the first. */
  lemma EnclosingPoolIsAccepted(host: Host)
    ensures var pools := After(host, [AddPool(10, 20, []), AddPool(5, 25, [])]).pools;
            pools == [Fresh(10, 20), Fresh(5, 25)] && !Apart(pools[0], pools[1])
  {
    var a, b := AddPool(10, 20, []), AddPool(5, 25, []);
    assert [a, b][..1] == [a] && [a][..0] == [];
    assert After(host, []) == INITIAL;
    assert Submitted(a) == Fresh(10, 20) && Submitted(b) == Fresh(5, 25);
    assert After(host, [a]) == WithPool(INITIAL, Fresh(10, 20));
    assert After(host, [a]).pools == [Fresh(10, 20)];
    ApartIsOrder(Fresh(10, 20), Fresh(5, 25));
  }
}
