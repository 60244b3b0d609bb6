/** What the server's pools are over every run: the accepted submissions, the first of them
    served to the clients that were offered an address. */
module Submissions {
  import opened Wrappers
  import opened Words
  import opened DhcpMessages
  import opened AddressPools
  import opened DhcpServers
  import opened ServerRuns
  import PoolRuns
  import PoolLists

  // ---- Accepted submissions ------------------------------------------------------------

  /** An end of the range of `e` lies in the range of `f`. */
  predicate EndInside(e: Event, f: Event)
    requires e.AddPool? && f.AddPool?
  {
    f.first <= e.first <= f.last || f.first <= e.last <= f.last
  }

  /** The submissions that were accepted: the server is still there, the range does not end at
      the last address, and neither of its ends lies in a range accepted before. */
  ghost function AcceptedSubmissions(host: Host, events: seq<Event>): (r: seq<Event>)
    ensures forall f | f in r :: f.AddPool?
  {
    if events == [] then []
    else
      var n := |events| - 1;
      var acc, e := AcceptedSubmissions(host, events[..n]), events[n];
      if && e.AddPool? && !After(host, events[..n]).pc.Down? && e.last != 0xFFFF_FFFF
         && forall f | f in acc :: !EndInside(e, f)
      then acc + [e]
      else acc
  }

  /** The clients of the offers, in order. */
  function OfferedMacs(sent: seq<Sent>): seq<Mac> {
    if sent == [] then []
    else
      var r := sent[|sent| - 1];
      OfferedMacs(sent[..|sent| - 1]) + if r.kind.Offered? then [r.mac] else []
  }

  lemma OfferedMore(sent: seq<Sent>, r: Sent)
    ensures OfferedMacs(sent + [r]) == OfferedMacs(sent) + if r.kind.Offered? then [r.mac] else []
  {
    assert (sent + [r])[..|sent|] == sent;
  }

  /** Pool 0 when these clients were offered an address. */
  ghost function Serving(e: Event, macs: seq<Mac>): Pool
    requires e.AddPool?
  {
    PoolRuns.After(Submitted(e), PoolRuns.Gets(macs))
  }

  lemma ServingMore(e: Event, macs: seq<Mac>, mac: Mac)
    requires e.AddPool?
    ensures Serving(e, macs + [mac]) == Step(Serving(e, macs), Get(mac))
  {
    hide Step;
    var ops := PoolRuns.Gets(macs + [mac]);
    assert ops[..|macs|] == PoolRuns.Gets(macs) && ops[|macs|] == Get(mac);
  }

  lemma ServingNobody(e: Event)
    requires e.AddPool?
    ensures Serving(e, []) == Submitted(e)
  {
    hide Submitted;
  }

  ghost predicate PoolsMatch(pools: seq<Pool>, acc: seq<Event>, macs: seq<Mac>)
    requires forall f | f in acc :: f.AddPool?
  {
    && |pools| == |acc|
    && (forall i | 0 <= i < |acc| :: pools[i].first == acc[i].first && pools[i].last == acc[i].last)
    && (forall i | 1 <= i < |acc| :: pools[i] == Submitted(acc[i]))
    && (acc == [] ==> macs == [])
    && (acc != [] ==> pools[0] == Serving(acc[0], macs))
  }

  /** Each offer carries what pool 0 answered at its turn. */
  ghost predicate OffersMatch(sent: seq<Sent>, acc: seq<Event>)
    requires forall f | f in acc :: f.AddPool?
  {
    forall i | 0 <= i < |sent| && sent[i].kind.Offered? ::
      acc != [] && Reply(Serving(acc[0], OfferedMacs(sent[..i])), Get(sent[i].mac)) == Granted(sent[i].ip)
  }

  lemma SubmittedRange(e: Event)
    requires e.AddPool?
    ensures Submitted(e).first == e.first && Submitted(e).last == e.last
  {
    PoolLists.RunKeepsRange(Fresh(e.first, e.last), e.setup);
  }

  /** One submission, in terms of the ranges' ends. */
  lemma SubmissionStep(pools: seq<Pool>, acc: seq<Event>, macs: seq<Mac>, e: Event, s: Server)
    requires e.AddPool? && (forall f | f in acc :: f.AddPool?) && PoolsMatch(pools, acc, macs) && s.pools == pools
    ensures Rejected(pools, Submitted(e)) <==> exists f | f in acc :: EndInside(e, f)
    ensures WithPool(s, Submitted(e)).pools == if Rejected(pools, Submitted(e)) then pools else pools + [Submitted(e)]
    ensures PoolsMatch(pools + [Submitted(e)], acc + [e], macs)
  {
    hide Submitted, Serving;
    SubmittedRange(e);
    ServingNobody(e);
    forall i | 0 <= i < |acc| ensures Intersects(Submitted(e), pools[i]) <==> EndInside(e, acc[i]) {
    }
    if Rejected(pools, Submitted(e)) {
      var i :| 0 <= i < |pools| && Intersects(Submitted(e), pools[i]);
      assert acc[i] in acc;
    }
  }

  lemma TakeMatches(host: Host, s: Server, acc: seq<Event>)
    requires Sound(s) && s.pc.Taking? && (forall f | f in acc :: f.AddPool?)
    requires PoolsMatch(s.pools, acc, OfferedMacs(s.sent)) && OffersMatch(s.sent, acc)
    ensures var t := Took(host, s); PoolsMatch(t.pools, acc, OfferedMacs(t.sent)) && OffersMatch(t.sent, acc)
  {
    hide Submitted, Serving, SentReply, PoolRuns.Inv, OfferedMacs;
    var t, mac := Took(host, s), s.pc.request.chaddr.value;
    var answer := Reply(s.pools[0], Get(mac));
    if answer.Granted? {
      ReplyFields(host, Offered, s.pc.request.xid, mac, answer.ip);
      var r := SentReply(host, Offered, s.pc.request.xid, mac, answer.ip);
      OfferedMore(s.sent, r);
      ServingMore(acc[0], OfferedMacs(s.sent), mac);
      OneMoreOffer(s.sent, r, acc);
    }
  }

  lemma OneMoreOffer(sent: seq<Sent>, r: Sent, acc: seq<Event>)
    requires (forall f | f in acc :: f.AddPool?) && OffersMatch(sent, acc)
    requires r.kind.Offered? ==>
               acc != [] && Reply(Serving(acc[0], OfferedMacs(sent)), Get(r.mac)) == Granted(r.ip)
    ensures OffersMatch(sent + [r], acc)
  {
    hide Submitted, Serving, OfferedMacs, Reply;
    forall i | 0 <= i < |sent| ensures (sent + [r])[..i] == sent[..i] {
    }
    assert (sent + [r])[..|sent|] == sent;
  }

  lemma ReceiveMatches(host: Host, s: Server, acc: seq<Event>)
    requires Sound(s) && (forall f | f in acc :: f.AddPool?)
    requires PoolsMatch(s.pools, acc, OfferedMacs(s.sent)) && OffersMatch(s.sent, acc)
    ensures var t := Received(host, s); PoolsMatch(t.pools, acc, OfferedMacs(t.sent)) && OffersMatch(t.sent, acc)
  {
    hide Received, SentReply, PoolRuns.Inv, Submitted, Serving, OfferedMacs, Reply, PoolsMatch, OffersMatch;
    ReceivedChanges(host, s);
    var t := Received(host, s);
    if !(t.sent == s.sent && t.xids == s.xids) {
      var x: u32, mac: Mac :|
        && t.sent == s.sent + [SentReply(host, Acknowledged, x, mac, OfferedFor(s.xids, x))]
        && t.xids == s.xids[x := OfferedFor(s.xids, x)];
      var r := SentReply(host, Acknowledged, x, mac, OfferedFor(s.xids, x));
      ReplyFields(host, Acknowledged, x, mac, OfferedFor(s.xids, x));
      OfferedMore(s.sent, r);
      OneMoreOffer(s.sent, r, acc);
      assert OfferedMacs(s.sent) + [] == OfferedMacs(s.sent);
    }
  }

  /** Nothing but the first offer needs the first submission. */
  lemma MoreSubmissions(sent: seq<Sent>, acc: seq<Event>, e: Event)
    requires (forall f | f in acc :: f.AddPool?) && e.AddPool? && OffersMatch(sent, acc)
    ensures OffersMatch(sent, acc + [e])
  {
    hide Submitted, Serving, OfferedMacs, Reply;
  }

  lemma {:induction false} RunMatches(host: Host, events: seq<Event>)
    ensures var s, acc := After(host, events), AcceptedSubmissions(host, events);
            PoolsMatch(s.pools, acc, OfferedMacs(s.sent)) && OffersMatch(s.sent, acc)
  {
    hide Received, SentReply, PoolRuns.Inv, Submitted, Serving, OfferedMacs, Reply, PoolsMatch, OffersMatch;
    hide Rejected, WithPool, Took, EndInside;
    if events == [] {
      NothingSent();
    } else {
      var n := |events| - 1;
      RunMatches(host, events[..n]);
      var s, e, acc := After(host, events[..n]), events[n], AcceptedSubmissions(host, events[..n]);
      if e.Take? && s.pc.Taking? {
        TakeMatches(host, s, acc);
      } else if e.Take? {
        NoTake(host, s);
      }
      if e.Receive? {
        ReceiveMatches(host, s, acc);
      }
      if e.AddPool? {
        SubmissionStep(s.pools, acc, OfferedMacs(s.sent), e, s);
        SubmissionKeeps(s, Submitted(e));
        MoreSubmissions(s.sent, acc, e);
      }
    }
  }

  lemma NothingSent()
    ensures PoolsMatch([], [], OfferedMacs([])) && OffersMatch([], [])
  {
  }

  lemma NoTake(host: Host, s: Server)
    requires Sound(s) && !s.pc.Taking?
    ensures Took(host, s) == s
  {
  }

  lemma SubmissionKeeps(s: Server, p: Pool)
    ensures WithPool(s, p).sent == s.sent
  {
  }

  /** At the end of every run the pools are, in order, the accepted submissions with their
      ranges. All but the first are as they were submitted, and the first is as if exactly the
      clients of the offers had asked it, in their order. */
  lemma PoolsAreSubmissions(host: Host, events: seq<Event>)
    ensures var pools, acc := After(host, events).pools, AcceptedSubmissions(host, events);
            && |pools| == |acc|
            && (forall i | 0 <= i < |acc| :: pools[i].first == acc[i].first && pools[i].last == acc[i].last)
            && (forall i | 1 <= i < |acc| ::
                  pools[i] == PoolRuns.After(Fresh(acc[i].first, acc[i].last), acc[i].setup))
            && (acc != [] ==>
                  pools[0] == PoolRuns.After(PoolRuns.After(Fresh(acc[0].first, acc[0].last), acc[0].setup),
                                             PoolRuns.Gets(OfferedMacs(SentIn(host, events)))))
  {
    hide AcceptedSubmissions, OfferedMacs, OffersMatch, After, PoolRuns.After, PoolRuns.Gets, Fresh;
    RunMatches(host, events);
  }

  // ---- Who is offered what ---------------------------------------------------------------

  /** The clients of the DISCOVERs, in order. */
  function DiscoverMacs(asked: seq<Asked>): seq<Mac> {
    if asked == [] then []
    else
      var a := asked[|asked| - 1];
      DiscoverMacs(asked[..|asked| - 1]) + if a.kind == DISCOVER then [a.mac] else []
  }

  lemma {:induction false} OffersAreDiscovers(sent: seq<Sent>, asked: seq<Asked>, n: nat)
    requires n <= |sent| <= |asked| && forall i | 0 <= i < |sent| :: Answers(sent[i], asked[i])
    ensures OfferedMacs(sent[..n]) == DiscoverMacs(asked[..n])
  {
    if n > 0 {
      assert sent[..n][..n - 1] == sent[..n - 1] && asked[..n][..n - 1] == asked[..n - 1];
      assert Answers(sent[n - 1], asked[n - 1]);
      OffersAreDiscovers(sent, asked, n - 1);
    }
  }

  /** From a first pool without exclusions or reservations, the k-th distinct client whose
      DISCOVER is taken up, counting from 0, is offered the k-th address of the pool, and the
      same one whenever it asks again. */
  lemma OffersInOrder(host: Host, events: seq<Event>, sent: seq<Sent>, asked: seq<Asked>, i: nat)
    requires sent == SentIn(host, events) && asked == Handled(host, events)
    requires i < |sent| <= |asked| && sent[i].kind.Offered?
    ensures AcceptedSubmissions(host, events) != []
    ensures var pool, all := AcceptedSubmissions(host, events)[0], PoolRuns.FirstSeen(DiscoverMacs(asked[..i + 1]));
            pool.setup == [] ==>
              exists k :: 0 <= k < |all| && all[k] == sent[i].mac && sent[i].ip == pool.first + k
  {
    hide AcceptedSubmissions, OfferedMacs, After, Handled, Reply, Submitted;
    RunMatches(host, events);
    RepliesAnswerRequests(host, events, sent, asked);
    var acc, macs := AcceptedSubmissions(host, events), OfferedMacs(sent[..i]);
    assert Reply(Serving(acc[0], macs), Get(sent[i].mac)) == Granted(sent[i].ip);
    OffersAreDiscovers(sent, asked, i + 1);
    OfferedMore(sent[..i], sent[i]);
    assert sent[..i] + [sent[i]] == sent[..i + 1];
    if acc[0].setup == [] {
      PlainSubmission(acc[0]);
      hide PoolRuns.FirstSeen, DiscoverMacs, PoolRuns.After, PoolRuns.Gets, OffersMatch, PoolsMatch, Fresh;
      PoolRuns.AllocationOrder(acc[0].first, acc[0].last, macs, sent[i].mac);
    }
  }

  lemma PlainSubmission(e: Event)
    requires e.AddPool? && e.setup == []
    ensures Submitted(e) == Fresh(e.first, e.last)
  {
  }
}
