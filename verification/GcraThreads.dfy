/** The rate limiter shared by any number of threads: every atomic access of `allow` is a step of its own.

    `history` is the modification order of the atomic theoretical arrival time. A load, and a failed exchange, may
    read any value of it; a successful exchange reads the latest one. */
module GcraThreads {
  import opened Bits
  import opened Gcra

  type Thread = nat

  /** Where a thread stands in a call: at the clock sample `t`, and with the value `seen` loaded. */
  datatype Local = Idle | Sampled(t: nat) | Loaded(t: nat, seen: nat)

  datatype Decision = Decision(thread: Thread, t: nat, allowed: bool)

  datatype State = State(history: seq<nat>, threads: map<Thread, Local>, log: seq<Decision>, started: map<Thread, nat>)

  datatype Action =
    | Sample(thread: Thread, t: nat)
    | Load(thread: Thread, i: nat)
    | Refuse(thread: Thread)
    | Exchange(thread: Thread)
    | FailExchange(thread: Thread, i: nat)

  function Latest(s: State): nat
    requires s.history != []
  {
    s.history[|s.history| - 1]
  }

  ghost predicate Init(s: State) {
    && s.history == [0] && s.log == []
    && s.started.Keys == s.threads.Keys
    && forall x :: x in s.threads ==> s.threads[x] == Idle && s.started[x] == 0
  }

  /** One step. Clock samples lie below `horizon` and need no order among threads. */
  ghost predicate Step(l: Limits, horizon: nat, s: State, a: Action, s': State) {
    && a.thread in s.threads && a.thread in s.started && s.history != []
    && var x := a.thread;
    match a
    case Sample(_, t) =>
      && s.threads[x] == Idle && t <= horizon
      && s' == s.(threads := s.threads[x := Sampled(t)], started := s.started[x := s.started[x] + 1])
    case Load(_, i) =>
      && s.threads[x].Sampled? && i < |s.history|
      && s' == s.(threads := s.threads[x := Loaded(s.threads[x].t, s.history[i])])
    case Refuse(_) =>
      && s.threads[x].Loaded? && Rejects(l, s.threads[x].seen, s.threads[x].t)
      && s' == s.(threads := s.threads[x := Idle], log := s.log + [Decision(x, s.threads[x].t, false)])
    case Exchange(_) =>
      && s.threads[x].Loaded? && !Rejects(l, s.threads[x].seen, s.threads[x].t) && s.threads[x].seen == Latest(s)
      && s' == s.(threads := s.threads[x := Idle], log := s.log + [Decision(x, s.threads[x].t, true)],
                  history := s.history + [Advance(l, s.threads[x].seen, s.threads[x].t) % WORD64])
    case FailExchange(_, i) =>
      && s.threads[x].Loaded? && !Rejects(l, s.threads[x].seen, s.threads[x].t) && i < |s.history|
      && s' == s.(threads := s.threads[x := Loaded(s.threads[x].t, s.history[i])])
  }

  ghost predicate Next(l: Limits, horizon: nat, s: State, s': State) {
    exists a :: Step(l, horizon, s, a, s')
  }

  /** A run of the threads from a fresh limiter. */
  ghost predicate IsRun(l: Limits, horizon: nat, run: seq<State>) {
    && run != [] && Init(run[0])
    && forall i :: 0 <= i < |run| - 1 ==> Next(l, horizon, run[i], run[i + 1])
  }

  /** The clock samples of the admitted calls, in the order of their exchanges. */
  function Admitted(log: seq<Decision>): seq<nat> {
    if log == [] then []
    else
      var last := log[|log| - 1];
      Admitted(log[..|log| - 1]) + (if last.allowed then [last.t] else [])
  }

  /** The calls of one thread that have returned. */
  function Returned(log: seq<Decision>, x: Thread): nat {
    if log == [] then 0
    else Returned(log[..|log| - 1], x) + (if log[|log| - 1].thread == x then 1 else 0)
  }

  /** Every decision is the one the sequential limiter makes after the decisions before it. */
  ghost predicate Sequential(l: Limits, log: seq<Decision>) {
    log == [] || (Sequential(l, log[..|log| - 1])
      && var last := log[|log| - 1]; last.allowed == !Rejects(l, Tat(l, Admitted(log[..|log| - 1])), last.t))
  }

  ghost predicate Increasing(history: seq<nat>) {
    forall i, j :: 0 <= i < j < |history| ==> history[i] <= history[j]
  }

  ghost predicate Inv(l: Limits, horizon: nat, s: State) {
    && s.history != [] && Increasing(s.history)
    && Latest(s) == Tat(l, Admitted(s.log)) && |s.history| == 1 + |Admitted(s.log)|
    && Sequential(l, s.log) && Granted(l, Admitted(s.log))
    && (forall t :: t in Admitted(s.log) ==> t <= horizon)
    && s.started.Keys == s.threads.Keys
    && (forall x :: x in s.threads ==>
          && s.started[x] == Returned(s.log, x) + (if s.threads[x] == Idle then 0 else 1)
          && (s.threads[x] != Idle ==> s.threads[x].t <= horizon)
          && (s.threads[x].Loaded? ==> s.threads[x].seen in s.history))
  }

  lemma LogSnoc(l: Limits, log: seq<Decision>, d: Decision)
    ensures Admitted(log + [d]) == if d.allowed then Admitted(log) + [d.t] else Admitted(log)
    ensures Sequential(l, log + [d]) <==> Sequential(l, log) && d.allowed == !Rejects(l, Tat(l, Admitted(log)), d.t)
    ensures forall x :: Returned(log + [d], x) == Returned(log, x) + (if d.thread == x then 1 else 0)
  {
    assert (log + [d])[..|log|] == log;
    assert Admitted(log) + [] == Admitted(log);
  }

  lemma RefuseKeepsInv(l: Limits, horizon: nat, s: State, x: Thread, s': State)
    requires Inv(l, horizon, s) && Step(l, horizon, s, Refuse(x), s')
    ensures Inv(l, horizon, s')
  {
    hide Tat, Granted, Sequential, Admitted, Returned;
    var t, seen := s.threads[x].t, s.threads[x].seen;
    var i :| 0 <= i < |s.history| && s.history[i] == seen;
    assert seen <= Latest(s);
    LogSnoc(l, s.log, Decision(x, t, false));
  }

  lemma ExchangeKeepsInv(l: Limits, horizon: nat, s: State, x: Thread, s': State)
    requires Inv(l, horizon, s) && Step(l, horizon, s, Exchange(x), s') && horizon + l.tolerance + l.interval < WORD64
    ensures Inv(l, horizon, s')
  {
    hide Tat, Granted, Sequential, Admitted, Returned;
    var t, seen := s.threads[x].t, s.threads[x].seen;
    NoWrap(l, horizon, seen, t);
    LogSnoc(l, s.log, Decision(x, t, true));
    AdmitSnoc(l, Admitted(s.log), t);
    assert s'.history == s.history + [Advance(l, seen, t)];
  }

  /** Sampling the clock, loading, and failing an exchange change nothing but the thread's own place. */
  lemma LocalKeepsInv(l: Limits, horizon: nat, s: State, a: Action, s': State)
    requires Inv(l, horizon, s) && Step(l, horizon, s, a, s') && (a.Sample? || a.Load? || a.FailExchange?)
    ensures Inv(l, horizon, s')
  {
    hide Tat, Granted, Sequential, Admitted, Returned, Increasing, Rejects;
  }

  lemma StepKeepsInv(l: Limits, horizon: nat, s: State, a: Action, s': State)
    requires Inv(l, horizon, s) && Step(l, horizon, s, a, s') && horizon + l.tolerance + l.interval < WORD64
    ensures Inv(l, horizon, s')
  {
    hide Inv, Step;
    match a
    case Refuse(x) => RefuseKeepsInv(l, horizon, s, x, s');
    case Exchange(x) => ExchangeKeepsInv(l, horizon, s, x, s');
    case _ => LocalKeepsInv(l, horizon, s, a, s');
  }

  lemma {:induction false} InvOnRuns(l: Limits, horizon: nat, run: seq<State>)
    requires IsRun(l, horizon, run) && horizon + l.tolerance + l.interval < WORD64
    ensures Inv(l, horizon, run[|run| - 1])
  {
    var n := |run| - 1;
    if n > 0 {
      var front := run[..n];
      InvOnRuns(l, horizon, front);
      assert Next(l, horizon, run[n - 1], run[n]);
      var a :| Step(l, horizon, run[n - 1], a, run[n]);
      StepKeepsInv(l, horizon, run[n - 1], a, run[n]);
    }
  }

  function Times(log: seq<Decision>): (times: seq<nat>)
    ensures |times| == |log|
  {
    if log == [] then [] else Times(log[..|log| - 1]) + [log[|log| - 1].t]
  }

  function Outcomes(log: seq<Decision>): (outcomes: seq<bool>)
    ensures |outcomes| == |log|
  {
    if log == [] then [] else Outcomes(log[..|log| - 1]) + [log[|log| - 1].allowed]
  }

  lemma {:induction false} SequentialIsDecisions(l: Limits, log: seq<Decision>)
    requires Sequential(l, log)
    ensures Decisions(l, 0, Times(log)) == Outcomes(log)
    ensures TatFrom(l, 0, Times(log)) == Tat(l, Admitted(log))
  {
    if log != [] {
      var front, last := log[..|log| - 1], log[|log| - 1];
      SequentialIsDecisions(l, front);
      DecisionsSnoc(l, 0, Times(front), last.t);
      AdmitSnoc(l, Admitted(front), last.t);
      assert Admitted(front) + [] == Admitted(front);
    }
  }

  /** Linearization. In every reachable state the calls that have returned were decided exactly as the sequential
      limiter decides their clock samples in the order of their linearization points: the exchange of an admitted
      call, the return of a refused one. Every finished call has one such point, every admission moved the shared
      value exactly once, and the value never passes the largest admitted clock sample by more than tolerance and
      interval. */
  lemma Linearizable(l: Limits, horizon: nat, run: seq<State>)
    requires IsRun(l, horizon, run) && horizon + l.tolerance + l.interval < WORD64
    ensures var s := run[|run| - 1];
      && Decisions(l, 0, Times(s.log)) == Outcomes(s.log)
      && s.history != [] && Latest(s) == TatFrom(l, 0, Times(s.log))
      && Latest(s) <= Largest(Admitted(s.log)) + l.tolerance + l.interval && Largest(Admitted(s.log)) <= horizon
      && |s.history| == 1 + |Admitted(s.log)|
      && s.started.Keys == s.threads.Keys
      && forall x :: x in s.threads ==> s.started[x] == Returned(s.log, x) + (if s.threads[x] == Idle then 0 else 1)
  {
    var s := run[|run| - 1];
    InvOnRuns(l, horizon, run);
    SequentialIsDecisions(l, s.log);
    var admitted := Admitted(s.log);
    assert forall i :: 0 <= i < |admitted| ==> admitted[i] in admitted;
    TatBound(l, admitted, Largest(admitted));
  }

  /** The admissions of all threads together keep every window bound. */
  lemma ThreadsKeepWindow(l: Limits, horizon: nat, run: seq<State>, i: nat, j: nat)
    requires IsRun(l, horizon, run) && horizon + l.tolerance + l.interval < WORD64
    requires i <= j < |Admitted(run[|run| - 1].log)|
    ensures var admitted := Admitted(run[|run| - 1].log);
      (j - i) * l.interval <= admitted[j] - admitted[i] + l.tolerance
  {
    InvOnRuns(l, horizon, run);
    WindowBound(l, Admitted(run[|run| - 1].log), i, j);
  }
}
