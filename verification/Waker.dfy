/**
 * The status protocol of a task: one poller at a time, and any number of wakers, interleaved.
 * Each action is one atomic access of the source, or the start or end of a call.
 */
module Waker {
  datatype Status = Waiting | Polling | Repoll | Complete

  /**
   * Where a thread is. A poller: about to store `Polling`, about to poll the future, inside that poll, about to store
   * `Complete`, about to compare-exchange, about to store `Polling` again. A waker: about to load, about to act on the
   * status it saw, about to send. `served` says that a poll has begun since the call of `wake`.
   */
  datatype Pc =
    | Start | Begin | Inside | Finish | Exchange | Again
    | Load(served: bool) | Act(seen: Status, served: bool) | Send(served: bool)

  /**
   * `ready`: the future has returned ready. `owed`: some call of `wake` has returned, and no poll has begun since that
   * call. `born`: the first poll has begun, so that wakers exist.
   */
  datatype State = State(status: Status, queue: nat, threads: map<nat, Pc>, ready: bool, owed: bool, born: bool)

  datatype Action =
    | Receive(t: nat)
    | StorePolling(t: nat)
    | BeginPoll(t: nat)
    | EndPoll(t: nat, isReady: bool)
    | StoreComplete(t: nat)
    | ToWaiting(t: nat)
    | StoreAgain(t: nat)
    | CallWake(t: nat)
    | LoadStatus(t: nat)
    | ActOnStatus(t: nat)
    | SendTask(t: nat)

  /** `add_task`: a new task, in its queue */
  function Init(): State {
    State(Waiting, 1, map[], false, false, false)
  }

  function At(s: State, t: nat, pc: Pc): State {
    s.(threads := s.threads[t := pc])
  }

  function Exit(s: State, t: nat): State {
    s.(threads := s.threads - {t})
  }

  /** `wake` returns. */
  function Return(s: State, t: nat, served: bool): State {
    Exit(s, t).(owed := s.owed || !served)
  }

  function Served(pc: Pc): Pc {
    match pc
    case Load(_) => Load(true)
    case Act(seen, _) => Act(seen, true)
    case Send(_) => Send(true)
    case _ => pc
  }

  predicate Enabled(s: State, a: Action) {
    match a
    case Receive(t) => s.queue > 0 && t !in s.threads
    case CallWake(t) => s.born && t !in s.threads
    case StorePolling(t) => t in s.threads && s.threads[t].Start?
    case BeginPoll(t) => t in s.threads && s.threads[t].Begin?
    case EndPoll(t, _) => t in s.threads && s.threads[t].Inside?
    case StoreComplete(t) => t in s.threads && s.threads[t].Finish?
    case ToWaiting(t) => t in s.threads && s.threads[t].Exchange?
    case StoreAgain(t) => t in s.threads && s.threads[t].Again?
    case LoadStatus(t) => t in s.threads && s.threads[t].Load?
    case ActOnStatus(t) => t in s.threads && s.threads[t].Act?
    case SendTask(t) => t in s.threads && s.threads[t].Send?
  }

  function Next(s: State, a: Action): State
    requires Enabled(s, a)
  {
    match a
    case Receive(t) => At(s, t, Start).(queue := s.queue - 1)
    case StorePolling(t) => At(s, t, Begin).(status := Polling)
    case BeginPoll(t) =>
      var threads := map u | u in s.threads :: if u == t then Inside else Served(s.threads[u]);
      s.(threads := threads, owed := false, born := true)
    case EndPoll(t, isReady) => if isReady then At(s, t, Finish).(ready := true) else At(s, t, Exchange)
    case StoreComplete(t) => Exit(s, t).(status := Complete)
    case ToWaiting(t) => if s.status == Polling then Exit(s, t).(status := Waiting) else At(s, t, Again)
    case StoreAgain(t) => At(s, t, Begin).(status := Polling)
    case CallWake(t) => At(s, t, Load(false))
    case LoadStatus(t) => At(s, t, Act(s.status, s.threads[t].served))
    case ActOnStatus(t) =>
      var pc := s.threads[t];
      (match pc.seen
       case Waiting =>
         if s.status == Waiting then At(s, t, Send(pc.served)).(status := Polling) else At(s, t, Act(s.status, pc.served))
       case Polling =>
         if s.status == Polling then Return(s, t, pc.served).(status := Repoll) else At(s, t, Act(s.status, pc.served))
       case _ => Return(s, t, pc.served))
    case SendTask(t) => Return(s, t, s.threads[t].served).(queue := s.queue + 1)
  }

  /** An interleaving: each action is enabled when its turn comes. */
  ghost predicate IsRun(states: seq<State>, actions: seq<Action>) {
    && |states| == |actions| + 1 && states[0] == Init()
    && forall i :: 0 <= i < |actions| ==> Enabled(states[i], actions[i]) && states[i + 1] == Next(states[i], actions[i])
  }

  // ------------------------------------------------------------------------ the invariant

  predicate Poller(pc: Pc) {
    pc.Start? || pc.Begin? || pc.Inside? || pc.Finish? || pc.Exchange? || pc.Again?
  }

  /** The thread has the one right to poll: it polls, or is about to send the task. */
  predicate Holds(s: State, t: nat) {
    t in s.threads && (Poller(s.threads[t]) || s.threads[t].Send?)
  }

  /** The thread will poll the future, send it, or complete it, whatever the others do. */
  predicate Committed(s: State, t: nat) {
    Holds(s, t) && ((s.threads[t].Inside? || s.threads[t].Exchange?) ==> s.status == Repoll)
  }

  /** A poll is still to begin, or the task is complete. */
  ghost predicate Due(s: State) {
    s.status == Complete || s.queue > 0 || exists t :: Committed(s, t)
  }

  /** One holder in all */
  ghost predicate Single(s: State) {
    && s.queue <= 1
    && (forall t, u :: Holds(s, t) && Holds(s, u) ==> t == u)
    && (forall t :: Holds(s, t) ==> s.queue == 0)
  }

  /** The status tells whether there is a holder. */
  ghost predicate Told(s: State) {
    if s.born then
      (s.status == Polling || s.status == Repoll) <==> (s.queue > 0 || exists t :: Holds(s, t))
    else
      && !s.owed && !s.ready
      && (s.queue > 0 || exists t :: Holds(s, t))
      && (s.queue > 0 ==> s.status == Waiting)
      && (forall t :: t in s.threads ==>
            || (s.threads[t].Start? && s.status == Waiting)
            || (s.threads[t].Begin? && s.status == Polling))
  }

  ghost predicate ReadyIsFinal(s: State) {
    && (s.status == Complete ==> s.ready)
    && (s.ready ==> s.queue == 0)
    && (s.ready && s.status != Complete ==> exists t :: Holds(s, t))
    && (forall t :: Holds(s, t) ==> (s.ready <==> s.threads[t].Finish?))
  }

  /** No wake is forgotten, neither one that has returned nor one about to. */
  ghost predicate Remembered(s: State) {
    && (s.owed ==> Due(s))
    && (forall t :: t in s.threads && s.threads[t].Act? && !s.threads[t].served ==>
          && (s.threads[t].seen == Repoll ==> Due(s))
          && (s.threads[t].seen == Complete ==> s.status == Complete))
  }

  ghost predicate Inv(s: State) {
    Single(s) && Told(s) && ReadyIsFinal(s) && Remembered(s)
  }

  lemma InvInit()
    ensures Inv(Init())
  {
  }

  /** An action moves one thread; of the others it can only note that they are served. */
  lemma OthersStay(s: State, a: Action)
    requires Enabled(s, a)
    ensures forall u :: u != a.t ==> (u in Next(s, a).threads <==> u in s.threads)
    ensures forall u :: u != a.t && u in s.threads && !a.BeginPoll? ==> Next(s, a).threads[u] == s.threads[u]
    ensures forall u :: u != a.t && u in s.threads && a.BeginPoll? ==> Next(s, a).threads[u] == Served(s.threads[u])
    ensures forall u :: u != a.t ==> (Holds(Next(s, a), u) <==> Holds(s, u))
  {
  }

  lemma SingleNext(s: State, a: Action)
    requires Inv(s) && Enabled(s, a)
    ensures Single(Next(s, a))
  {
    OthersStay(s, a);
    var r := Next(s, a);
    assert Holds(r, a.t) || !Holds(r, a.t);
    assert Holds(s, a.t) || !Holds(s, a.t);
  }

  lemma ToldNext(s: State, a: Action)
    requires Inv(s) && Enabled(s, a)
    ensures Told(Next(s, a))
  {
    OthersStay(s, a);
    var r := Next(s, a);
    assert Holds(r, a.t) || !Holds(r, a.t);
    assert Holds(s, a.t) || !Holds(s, a.t);
    if !s.born {
      forall u | u in s.threads ensures Holds(s, u) { }
    }
  }

  lemma ReadyNext(s: State, a: Action)
    requires Inv(s) && Enabled(s, a)
    ensures ReadyIsFinal(Next(s, a))
  {
    OthersStay(s, a);
    var r := Next(s, a);
    assert Holds(r, a.t) || !Holds(r, a.t);
    assert Holds(s, a.t) || !Holds(s, a.t);
  }

  /** Only the start of a poll pays what is due. */
  lemma DueNext(s: State, a: Action)
    requires Inv(s) && Enabled(s, a) && Due(s) && !a.BeginPoll?
    ensures Due(Next(s, a))
  {
    OthersStay(s, a);
    var r := Next(s, a);
    assert Holds(s, a.t) || !Holds(s, a.t);
    if s.status != Complete && s.queue == 0 {
      var t :| Committed(s, t);
      assert Committed(r, t) || r.queue > 0 || r.status == Complete;
    } else if s.queue > 0 {
      assert Committed(r, a.t) || r.queue > 0;
    }
  }

  lemma RepollDue(s: State)
    requires Told(s) && s.status == Repoll
    ensures Due(s)
  {
    if s.queue == 0 {
      var t :| Holds(s, t);
      assert Committed(s, t);
    }
  }

  lemma CompleteNext(s: State, a: Action)
    requires Inv(s) && Enabled(s, a) && s.status == Complete
    ensures Next(s, a).status == Complete
  {
    assert Holds(s, a.t) || !Holds(s, a.t);
  }

  /** A call of `wake` returns only when a poll has begun since, or is due. */
  lemma OwedNext(s: State, a: Action)
    requires Inv(s) && Enabled(s, a) && Next(s, a).owed
    ensures Due(Next(s, a))
  {
    if s.owed {
      DueNext(s, a);
    } else if a.ActOnStatus? && s.threads[a.t].seen == Polling {
      ToldNext(s, a);
      RepollDue(Next(s, a));
    } else if a.ActOnStatus? {
      DueNext(s, a);
    }
  }

  lemma RememberedNext(s: State, a: Action)
    requires Inv(s) && Enabled(s, a)
    ensures Remembered(Next(s, a))
  {
    var r := Next(s, a);
    if r.owed { OwedNext(s, a); }
    forall u | u in r.threads && r.threads[u].Act? && !r.threads[u].served
      ensures r.threads[u].seen == Repoll ==> Due(r)
      ensures r.threads[u].seen == Complete ==> r.status == Complete
    {
      if u == a.t {
        ToldNext(s, a);
        if r.status == Repoll { RepollDue(r); }
      } else {
        OthersStay(s, a);
        if s.threads[u].seen == Complete { CompleteNext(s, a); }
        if s.threads[u].seen == Repoll { DueNext(s, a); }
      }
    }
  }

  lemma InvNext(s: State, a: Action)
    requires Inv(s) && Enabled(s, a)
    ensures Inv(Next(s, a))
  {
    SingleNext(s, a);
    ToldNext(s, a);
    ReadyNext(s, a);
    RememberedNext(s, a);
  }

  lemma {:induction false} RunInv(states: seq<State>, actions: seq<Action>, i: nat)
    requires IsRun(states, actions) && i < |states|
    ensures Inv(states[i])
  {
    if i == 0 {
      InvInit();
    } else {
      RunInv(states, actions, i - 1);
      InvNext(states[i - 1], actions[i - 1]);
    }
  }

  // ------------------------------------------------------------------------ what the protocol promises

  ghost function Pollers(s: State): set<nat> {
    set t | t in s.threads && Poller(s.threads[t])
  }

  /** In every interleaving the task is in the queue at most once, and not while it is polled by anyone. */
  lemma OnePoller(states: seq<State>, actions: seq<Action>, i: nat)
    requires IsRun(states, actions) && i < |states|
    ensures states[i].queue + |Pollers(states[i])| <= 1
  {
    var s := states[i];
    RunInv(states, actions, i);
    if t :| t in Pollers(s) {
      assert Holds(s, t);
      forall u | u in Pollers(s) ensures u == t { assert Holds(s, u); }
      assert Pollers(s) == {t};
    } else {
      assert Pollers(s) == {};
    }
  }

  /**
   * In every interleaving, a wake that has returned with no poll begun since it was called leaves the task complete, or
   * not waiting and with a poll still to begin; so a task nobody has in hand owes nobody a poll.
   */
  lemma NoLostWake(states: seq<State>, actions: seq<Action>, i: nat)
    requires IsRun(states, actions) && i < |states| && states[i].owed
    ensures states[i].status != Waiting && Due(states[i])
    ensures states[i].queue == 0 && states[i].threads == map[] ==> states[i].status == Complete
  {
    var s := states[i];
    RunInv(states, actions, i);
    if t :| Committed(s, t) { assert Holds(s, t); }
  }

  /** The wake called by `t` is under way or has returned, and no poll has begun since. */
  ghost predicate Unserved(s: State, t: nat) {
    s.owed || (t in s.threads && !Poller(s.threads[t]) && !s.threads[t].served)
  }

  lemma UnservedNext(s: State, a: Action, t: nat)
    requires Enabled(s, a) && Unserved(s, t) && !a.BeginPoll?
    ensures Unserved(Next(s, a), t)
  {
    OthersStay(s, a);
  }

  lemma CalledUnserved(s: State, a: Action)
    requires Enabled(s, a) && a.CallWake?
    ensures Unserved(Next(s, a), a.t)
  {
  }

  lemma {:induction false} StaysUnserved(states: seq<State>, actions: seq<Action>, i: nat, j: nat)
    requires IsRun(states, actions) && i < j < |states| && actions[i].CallWake?
    requires forall k :: i < k < j ==> !actions[k].BeginPoll?
    ensures Unserved(states[j], actions[i].t)
    decreases j
  {
    hide Next, Enabled, Unserved, Init;
    if i + 1 == j {
      CalledUnserved(states[i], actions[i]);
    } else {
      StaysUnserved(states, actions, i, j - 1);
      UnservedNext(states[j - 1], actions[j - 1], actions[i].t);
    }
  }

  /**
   * Every call of `wake` is followed by a poll: when the task is at rest again, in no queue and in no thread's hands, a
   * poll has begun since the call, or the task is complete.
   */
  lemma WakeIsFollowedByPoll(states: seq<State>, actions: seq<Action>, i: nat, j: nat)
    requires IsRun(states, actions) && i < j < |states| && actions[i].CallWake?
    requires states[j].queue == 0 && states[j].threads == map[]
    ensures states[j].status == Complete || exists k :: i < k < j && actions[k].BeginPoll?
  {
    if forall k :: i < k < j ==> !actions[k].BeginPoll? {
      StaysUnserved(states, actions, i, j);
      NoLostWake(states, actions, j);
    }
  }

  /** Once the future has returned ready, no later action of any interleaving polls it. */
  lemma {:induction false} NoPollAfterReady(states: seq<State>, actions: seq<Action>, i: nat, j: nat)
    requires IsRun(states, actions) && i <= j < |actions|
    requires actions[i].EndPoll? && actions[i].isReady
    ensures !actions[j].BeginPoll? && states[j + 1].ready
  {
    if i < j {
      NoPollAfterReady(states, actions, i, j - 1);
      RunInv(states, actions, j);
      assert Holds(states[j], actions[j].t) || !Holds(states[j], actions[j].t);
    }
  }

  // ------------------------------------------------------------------------ no poll that nobody asked for

  /** How many polls a holder will begin with no further wake */
  function Worth(s: State, pc: Pc): nat {
    var again := if s.status == Repoll then 1 else 0;
    match pc
    case Begin => 1 + again
    case Inside => again
    case Exchange => again
    case Finish => 0
    case _ => 1
  }

  /** `n` polls may still begin, and no more will unless the task is woken. */
  ghost predicate Granted(s: State, n: int) {
    && n >= (if s.queue > 0 then 1 else 0)
    && forall t :: Holds(s, t) ==> n >= Worth(s, s.threads[t])
  }

  /** A wake that changes the status: it sends the task, or asks for one more poll. */
  predicate Wakes(s: State, a: Action)
    requires Enabled(s, a)
  {
    a.ActOnStatus? && Next(s, a).status != s.status
  }

  lemma GrantedNext(s: State, a: Action, n: int)
    requires Inv(s) && Enabled(s, a) && Granted(s, n)
    ensures Granted(Next(s, a), n + (if Wakes(s, a) then 1 else 0) - (if a.BeginPoll? then 1 else 0))
  {
    OthersStay(s, a);
    SingleNext(s, a);
    GrantedMover(s, a, n);
    var r := Next(s, a);
    hide Next, Enabled, Inv, Told, Worth;
    forall t | Holds(r, t)
      ensures n + (if Wakes(s, a) then 1 else 0) - (if a.BeginPoll? then 1 else 0) >= Worth(r, r.threads[t])
    {
      if t != a.t { GrantedOther(s, a, n, t); }
    }
  }

  /** The thread that moves */
  lemma GrantedMover(s: State, a: Action, n: int)
    requires Single(s) && Told(s) && Enabled(s, a) && Granted(s, n)
    ensures var r, m := Next(s, a), n + (if Wakes(s, a) then 1 else 0) - (if a.BeginPoll? then 1 else 0);
      m >= (if r.queue > 0 then 1 else 0) && (Holds(r, a.t) ==> m >= Worth(r, r.threads[a.t]))
  {
    assert Holds(s, a.t) || !Holds(s, a.t);
  }

  lemma GrantedOther(s: State, a: Action, n: int, t: nat)
    requires Single(s) && Told(s) && Enabled(s, a) && Granted(s, n) && t != a.t && Holds(Next(s, a), t)
    ensures n + (if Wakes(s, a) then 1 else 0) - (if a.BeginPoll? then 1 else 0) >=
      Worth(Next(s, a), Next(s, a).threads[t])
  {
    OthersStay(s, a);
    assert Holds(s, t) && (Holds(s, a.t) || !Holds(s, a.t));
  }

  ghost function Polls(actions: seq<Action>, i: nat): nat
    requires i <= |actions|
  {
    if i == 0 then 0 else Polls(actions, i - 1) + if actions[i - 1].BeginPoll? then 1 else 0
  }

  ghost function Woken(states: seq<State>, actions: seq<Action>, i: nat): nat
    requires IsRun(states, actions) && i <= |actions|
  {
    if i == 0 then 0 else Woken(states, actions, i - 1) + if Wakes(states[i - 1], actions[i - 1]) then 1 else 0
  }

  /** In every interleaving, at every point: one poll for the new task, and one at most for each wake that took effect. */
  lemma {:induction false} PollsAreAskedFor(states: seq<State>, actions: seq<Action>, i: nat)
    requires IsRun(states, actions) && i <= |actions|
    ensures Granted(states[i], 1 + Woken(states, actions, i) - Polls(actions, i))
    ensures Polls(actions, i) <= 1 + Woken(states, actions, i)
  {
    hide Next, Enabled, Wakes;
    if i > 0 {
      PollsAreAskedFor(states, actions, i - 1);
      RunInv(states, actions, i - 1);
      GrantedNext(states[i - 1], actions[i - 1], 1 + Woken(states, actions, i - 1) - Polls(actions, i - 1));
    }
  }

  /** A poll that came back pending, and no wake since it began: the task rests, and nobody has it in hand. */
  lemma PendingRests(states: seq<State>, actions: seq<Action>, i: nat)
    requires IsRun(states, actions) && i < |actions| && actions[i].ToWaiting? && states[i].status != Repoll
    ensures var s := states[i + 1]; s.status == Waiting && s.queue == 0 && forall t :: !Holds(s, t)
  {
    var s, a := states[i], actions[i];
    RunInv(states, actions, i);
    OthersStay(s, a);
    assert Holds(s, a.t);
  }
}
