/** The breakers of a router's links during one run of route computation. */
module LinkBreakers {
  import opened Paths
  import opened CircuitBreakers

  /** A breaker before and after some polls, the last of which read the clock at `latest`. */
  ghost predicate Polled(c: Config, before: Breaker, after: Breaker, latest: nat) {
    after == before ||
    (before.state == Open && after.state == HalfOpen && after.since <= latest
     && before.since <= latest && (latest - before.since) / NS_PER_MS >= Signed64(c.recoveryTimeoutMs))
  }

  /** A link breaker: its settings and its state. */
  datatype LinkState = LinkState(config: Config, breaker: Breaker)

  type LinkStates = map<NodeId, LinkState>

  /** The breakers are as they were, except for polls that happened up to `latest`. */
  ghost predicate OnlyPolled(before: LinkStates, after: LinkStates, latest: nat) {
    before.Keys == after.Keys && forall n :: n in before ==>
      before[n].config == after[n].config && Polled(before[n].config, before[n].breaker, after[n].breaker, latest)
  }

  /** No breaker has a transition later than the first clock reading of the run. */
  ghost predicate ClockStarts(breakers: LinkStates, clock: seq<Reading>) {
    clock != [] ==> forall n :: n in breakers ==> breakers[n].breaker.since <= clock[0].check
  }

  /** The breaker of the link to `n`, read at `r`, is Open. */
  ghost predicate IsOpen(breakers: LinkStates, n: NodeId, r: Reading) {
    && n in breakers && breakers[n].breaker.since <= r.check
    && Poll(breakers[n].config, breakers[n].breaker, r).state == Open
  }

  /** A link is read as Open exactly when it has a breaker that is stored as Open and whose timeout has not passed. */
  lemma ReadAsOpen(breakers: LinkStates, n: NodeId, r: Reading)
    requires n in breakers ==> breakers[n].breaker.since <= r.check
    requires n in breakers ==> breakers[n].config.recoveryTimeoutMs < 0x8000_0000_0000_0000
    ensures IsOpen(breakers, n, r) <==>
      && n in breakers && breakers[n].breaker.state == Open
      && r.check - breakers[n].breaker.since < breakers[n].config.recoveryTimeoutMs * 1_000_000
  {
    if n in breakers {
      PollIs(breakers[n].config, breakers[n].breaker, r);
    }
  }

  /** Links without a breaker, and those whose breaker is stored as Closed or HalfOpen, are not read as Open. */
  lemma OnlyOpenReadsOpen(breakers: LinkStates, links: seq<Edge>, clock: seq<Reading>, i: nat)
    requires i < |links| == |clock|
    requires links[i].0 in breakers ==> breakers[links[i].0].breaker.state != Open
    ensures !OpenLinks(breakers, links, clock)[i]
  {
  }

  /** Which source links a run reads as Open, link i at the i-th clock reading. */
  ghost function OpenLinks(breakers: LinkStates, links: seq<Edge>, clock: seq<Reading>): (open: seq<bool>)
    requires |clock| == |links|
    ensures |open| == |links|
    ensures forall i :: 0 <= i < |links| ==> open[i] == IsOpen(breakers, links[i].0, clock[i])
  {
    seq(|links|, i requires 0 <= i < |links| => IsOpen(breakers, links[i].0, clock[i]))
  }

  ghost predicate MonotoneClock(clock: seq<Reading>) {
    && (forall i :: 0 <= i < |clock| ==> clock[i].check <= clock[i].stamp)
    && (forall i, j :: 0 <= i < j < |clock| ==> clock[i].stamp <= clock[j].check)
  }

  lemma PolledLater(c: Config, before: Breaker, after: Breaker, latest: nat, later: nat)
    requires Polled(c, before, after, latest) && latest <= later
    ensures Polled(c, before, after, later)
  {
    if after != before {
      DivGrows(latest - before.since, later - before.since);
    }
  }

  lemma DivGrows(a: nat, b: nat)
    requires a <= b
    ensures a / NS_PER_MS <= b / NS_PER_MS
  {
  }

  /** Under a monotone clock earlier polls do not change whether a breaker is read as Open. */
  lemma PollAgain(c: Config, before: Breaker, after: Breaker, latest: nat, r: Reading)
    requires Polled(c, before, after, latest) && latest <= r.check <= r.stamp && before.since <= r.check &&
      after.since <= r.check
    ensures Poll(c, after, r).state == Open <==> Poll(c, before, r).state == Open
    ensures Polled(c, before, Poll(c, after, r), r.stamp)
  {
    if after != before {
      DivGrows(latest - before.since, r.check - before.since);
      DivGrows(latest - before.since, r.stamp - before.since);
    } else if Poll(c, after, r) != before {
      DivGrows(r.check - before.since, r.stamp - before.since);
    }
  }

  /** The breakers after one link's breaker is polled, if the link has one. */
  ghost function PollLink(breakers: LinkStates, n: NodeId, r: Reading): LinkStates {
    if n in breakers && breakers[n].breaker.since <= r.check
    then breakers[n := breakers[n].(breaker := Poll(breakers[n].config, breakers[n].breaker, r))]
    else breakers
  }

  /** The breakers after the first `k` source links were polled, link i at the i-th clock reading. */
  ghost function AfterPolls(breakers: LinkStates, links: seq<Edge>, clock: seq<Reading>, k: nat): LinkStates
    requires k <= |links| == |clock|
  {
    if k == 0 then breakers else PollLink(AfterPolls(breakers, links, clock, k - 1), links[k - 1].0, clock[k - 1])
  }

  /** Before the k-th reading of a run the breakers are either untouched or polled up to the reading before it. */
  lemma PolledSoFar(before: LinkStates, soFar: LinkStates, clock: seq<Reading>, k: nat, v: NodeId)
    requires k < |clock| && MonotoneClock(clock) && ClockStarts(before, clock)
    requires if k == 0 then soFar == before else OnlyPolled(before, soFar, clock[k - 1].stamp)
    ensures before.Keys == soFar.Keys
    ensures v in soFar ==> soFar[v].breaker.since <= clock[k].check
    ensures IsOpen(soFar, v, clock[k]) <==> IsOpen(before, v, clock[k])
    ensures OnlyPolled(before, PollLink(soFar, v, clock[k]), clock[k].stamp)
  {
    var latest := if k == 0 then 0 else clock[k - 1].stamp;
    assert clock[0].check <= clock[k].check;
    forall n | n in before
      ensures n in soFar && before[n].config == soFar[n].config
      ensures Polled(before[n].config, before[n].breaker, soFar[n].breaker, clock[k].stamp)
      ensures before[n].breaker.since <= clock[k].check && soFar[n].breaker.since <= clock[k].check
      ensures n == v ==> (IsOpen(soFar, v, clock[k]) <==> IsOpen(before, v, clock[k]))
      ensures n == v ==> Polled(before[v].config, before[v].breaker, Poll(soFar[v].config, soFar[v].breaker,
        clock[k]), clock[k].stamp)
    {
      PolledLater(before[n].config, before[n].breaker, soFar[n].breaker, latest, clock[k].stamp);
      PollAgain(before[n].config, before[n].breaker, soFar[n].breaker, latest, clock[k]);
    }
  }

  /** Polling a run of links changes no breaker but for its timeout, and no poll changes what a later one reads. */
  lemma {:induction false} EarlierPollsDoNotMatter(before: LinkStates, links: seq<Edge>, clock: seq<Reading>, k: nat)
    requires k <= |links| == |clock| && MonotoneClock(clock) && ClockStarts(before, clock)
    ensures if k == 0 then AfterPolls(before, links, clock, k) == before
            else OnlyPolled(before, AfterPolls(before, links, clock, k), clock[k - 1].stamp)
    ensures k < |links| ==> var soFar := AfterPolls(before, links, clock, k);
      && (IsOpen(soFar, links[k].0, clock[k]) <==> IsOpen(before, links[k].0, clock[k]))
      && (links[k].0 in soFar ==> soFar[links[k].0].breaker.since <= clock[k].check)
  {
    hide OnlyPolled, MonotoneClock, ClockStarts, PollLink, IsOpen;
    if k > 0 {
      EarlierPollsDoNotMatter(before, links, clock, k - 1);
      PolledSoFar(before, AfterPolls(before, links, clock, k - 1), clock, k - 1, links[k - 1].0);
    }
    if k < |links| {
      PolledSoFar(before, AfterPolls(before, links, clock, k), clock, k, links[k].0);
    }
  }

  /** The breaker of `n` at reading `r` has been Open for its timeout. */
  ghost predicate Recovers(s: LinkState, r: Reading) {
    s.breaker.state == Open && r.check - s.breaker.since >= s.config.recoveryTimeoutMs * 1_000_000
  }

  /** Link i is the first link to `n` at which the breaker, as it was before the run, has recovered. */
  ghost predicate FirstRecovery(before: LinkStates, links: seq<Edge>, clock: seq<Reading>, n: NodeId, i: nat)
    requires |links| == |clock| && n in before
  {
    && i < |links| && links[i].0 == n && Recovers(before[n], clock[i])
    && forall j :: 0 <= j < i && links[j].0 == n ==> !Recovers(before[n], clock[j])
  }

  /** What a run of polls leaves of the breaker of `n`: it is HalfOpen since the stamp of the first reading that finds
      it recovered, and as it was when there is none. */
  ghost predicate LeftAs(before: LinkStates, links: seq<Edge>, clock: seq<Reading>, k: nat, n: NodeId, left: LinkState)
    requires k <= |links| == |clock| && n in before
  {
    || (left == before[n] && forall i: nat :: i < k && links[i].0 == n ==> !Recovers(before[n], clock[i]))
    || (exists i: nat :: i < k && FirstRecovery(before, links, clock, n, i)
          && left == before[n].(breaker := Breaker(HalfOpen, 0, 0, clock[i].stamp)))
  }

  lemma {:induction false} LeftByRun(before: LinkStates, links: seq<Edge>, clock: seq<Reading>, k: nat, n: NodeId)
    requires k <= |links| == |clock| && MonotoneClock(clock) && ClockStarts(before, clock)
    requires n in before && before[n].config.recoveryTimeoutMs < 0x8000_0000_0000_0000
    ensures n in AfterPolls(before, links, clock, k)
    ensures LeftAs(before, links, clock, k, n, AfterPolls(before, links, clock, k)[n])
  {
    if k > 0 {
      LeftByRun(before, links, clock, k - 1, n);
      EarlierPollsDoNotMatter(before, links, clock, k - 1);
      hide OnlyPolled, IsOpen, MonotoneClock, ClockStarts, Recovers, Poll, AfterPolls;
      var soFar := AfterPolls(before, links, clock, k - 1);
      AfterPollsNext(before, links, clock, k);
      if links[k - 1].0 == n {
        PollLeaves(before, links, clock, k, n, soFar[n]);
      } else {
        OthersLeft(before, links, clock, k, n, soFar[n]);
      }
    }
  }

  lemma AfterPollsNext(before: LinkStates, links: seq<Edge>, clock: seq<Reading>, k: nat)
    requires 1 <= k <= |links| == |clock|
    ensures AfterPolls(before, links, clock, k) ==
      PollLink(AfterPolls(before, links, clock, k - 1), links[k - 1].0, clock[k - 1])
  {
  }

  lemma OthersLeft(before: LinkStates, links: seq<Edge>, clock: seq<Reading>, k: nat, n: NodeId, left: LinkState)
    requires 1 <= k <= |links| == |clock| && n in before && links[k - 1].0 != n
    requires LeftAs(before, links, clock, k - 1, n, left)
    ensures LeftAs(before, links, clock, k, n, left)
  {
  }

  lemma PollLeaves(before: LinkStates, links: seq<Edge>, clock: seq<Reading>, k: nat, n: NodeId, left: LinkState)
    requires 1 <= k <= |links| == |clock| && n in before && links[k - 1].0 == n
    requires LeftAs(before, links, clock, k - 1, n, left) && left.breaker.since <= clock[k - 1].check
    requires before[n].config.recoveryTimeoutMs < 0x8000_0000_0000_0000
    ensures LeftAs(before, links, clock, k, n, left.(breaker := Poll(left.config, left.breaker, clock[k - 1])))
  {
    PollIs(left.config, left.breaker, clock[k - 1]);
    hide Poll;
    if left == before[n] && forall i: nat :: i < k - 1 && links[i].0 == n ==> !Recovers(before[n], clock[i]) {
      if Recovers(before[n], clock[k - 1]) {
        assert FirstRecovery(before, links, clock, n, k - 1);
      }
    }
  }
}
