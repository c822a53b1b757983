/**
 * The lock word of one page and the hand-off of its I/O, interleaved: calls for the page, references to it, the
 * eviction and the loading that want it to themselves. Each action is one atomic access, or one section under the
 * cache's mutex. A `lock_shared` that panics has changed the word by then; any other panic comes before the access.
 */
module PageLock {
  const WORDS: nat := 0x1_0000_0000_0000_0000
  const MAX_EXCLUSIVE: nat := WORDS - 1
  const MIN_EXCLUSIVE: nat := MAX_EXCLUSIVE / 2 + 1
  const MAX_SHARED: nat := MIN_EXCLUSIVE - 1
  const MAX_WAITERS: nat := 0xffff_ffff

  /** From here on a failed attempt tries to set the word back. */
  const HIGH: nat := MIN_EXCLUSIVE / 2 + MAX_EXCLUSIVE / 2

  /** `seen` is what the failed attempt found and is about to compare with; `epoch` was the page's. */
  datatype Handle = Attempt(seen: nat, epoch: nat) | Loader | Waiter | Granted | Ref

  /** Who has the page exclusively */
  datatype Owner = Nobody | Idle | Loading

  /**
   * `finishing`: the loader has opened the page and still has the mutex. `epoch` is how often the word was set to
   * MIN_EXCLUSIVE since the page was made.
   */
  datatype State = State(word: nat, waiters: nat, finishing: bool, owner: Owner, handles: map<nat, Handle>, epoch: nat)

  datatype Action =
    | LockShared(h: nat)
    | Reset(h: nat)
    | UnlockShared(h: nat)
    | LockExclusive
    | BeginIo(h: nat)
    | RegisterWaiter(h: nat)
    | ToShared(h: nat)
    | FinishIo
    | Claim(h: nat)

  /** A new page is exclusively locked. */
  function Init(): State {
    State(MIN_EXCLUSIVE, 0, false, Idle, map[], 0)
  }

  predicate Enabled(s: State, a: Action) {
    match a
    case LockShared(h) => h !in s.handles
    case Reset(h) => h in s.handles && s.handles[h].Attempt?
    case UnlockShared(h) => h in s.handles && s.handles[h].Ref?
    case LockExclusive => !s.finishing
    case BeginIo(h) => !s.finishing && s.owner.Idle? && h !in s.handles
    case RegisterWaiter(h) => !s.finishing && 0 < s.waiters < MAX_WAITERS && h !in s.handles
    case ToShared(h) => h in s.handles && s.handles[h].Loader?
    case FinishIo => s.finishing
    case Claim(h) => h in s.handles && s.handles[h].Granted? && !s.finishing
  }

  /** The assertions of `lock_shared` */
  predicate Panics(s: State, a: Action) {
    a.LockShared? && (s.word == MAX_SHARED || s.word == MAX_EXCLUSIVE)
  }

  /** The loader and the waiters are given their shares. */
  function Grant(h: Handle): Handle {
    if h.Loader? || h.Waiter? then Granted else h
  }

  /** `fetch_add` and `fetch_sub` of one, which wrap */
  function Inc(word: nat): nat {
    if word == MAX_EXCLUSIVE then 0 else word + 1
  }

  function Dec(word: nat): nat {
    if word == 0 then MAX_EXCLUSIVE else word - 1
  }

  function Next(s: State, a: Action): State
    requires Enabled(s, a)
  {
    match a
    case LockShared(h) =>
      var s1 := s.(word := Inc(s.word));
      if Panics(s, a) then s1
      else if s.word <= MAX_SHARED then s1.(handles := s.handles[h := Ref])
      else if s.word >= HIGH then s1.(handles := s.handles[h := Attempt(s.word, s.epoch)])
      else s1
    case Reset(h) =>
      var s1 := s.(handles := s.handles - {h});
      if s.word == s.handles[h].seen then s1.(word := MIN_EXCLUSIVE, epoch := s.epoch + 1) else s1
    case UnlockShared(h) => s.(word := Dec(s.word), handles := s.handles - {h})
    case LockExclusive => if s.word == 0 then s.(word := MIN_EXCLUSIVE, owner := Idle, epoch := s.epoch + 1) else s
    case BeginIo(h) => s.(waiters := 1, owner := Loading, handles := s.handles[h := Loader])
    case RegisterWaiter(h) => s.(waiters := s.waiters + 1, handles := s.handles[h := Waiter])
    case ToShared(h) =>
      s.(word := s.waiters, owner := Nobody, finishing := true, handles := map k | k in s.handles :: Grant(s.handles[k]))
    case FinishIo => s.(waiters := 0, finishing := false)
    case Claim(h) => s.(handles := s.handles[h := Ref])
  }

  /** An interleaving: each action is enabled when its turn comes. */
  ghost predicate IsRun(states: seq<State>, actions: seq<Action>) {
    && |states| == |actions| + 1 && states[0] == Init()
    && forall i :: 0 <= i < |actions| ==> Enabled(states[i], actions[i]) && states[i + 1] == Next(states[i], actions[i])
  }

  /** No call panics. */
  ghost predicate Calm(states: seq<State>, actions: seq<Action>)
    requires |states| > |actions|
  {
    forall i :: 0 <= i < |actions| ==> !Panics(states[i], actions[i])
  }

  /** References, and shares given but not yet made into references */
  ghost function Sharers(s: State): set<nat> {
    set h | h in s.handles && (s.handles[h].Granted? || s.handles[h].Ref?)
  }

  /** The calls waiting for an I/O, the one that does it included */
  ghost function Joined(s: State): set<nat> {
    set h | h in s.handles && (s.handles[h].Loader? || s.handles[h].Waiter?)
  }

  /** The word and the waiter count say who is there. */
  ghost predicate Counted(s: State) {
    && s.word < WORDS
    && (s.owner.Nobody? <==> s.word <= MAX_SHARED)
    && (s.owner.Nobody? ==> s.word == |Sharers(s)| && Joined(s) == {})
    && (!s.owner.Nobody? ==> Sharers(s) == {} && !s.finishing)
    && (s.owner.Idle? ==> Joined(s) == {})
    && (s.waiters > 0 <==> s.owner.Loading? || s.finishing)
    && (s.owner.Loading? ==> s.waiters == |Joined(s)|)
    && s.waiters <= MAX_WAITERS
  }

  ghost predicate OneLoader(s: State) {
    && (forall h, k :: h in s.handles && k in s.handles && s.handles[h].Loader? && s.handles[k].Loader? ==> h == k)
  }

  /** An attempt that is not stale has left the word higher than it found it, for as long as the page is exclusive. */
  ghost predicate AttemptOk(s: State, a: Handle)
    requires a.Attempt?
  {
    HIGH <= a.seen < MAX_EXCLUSIVE && a.epoch <= s.epoch && (a.epoch == s.epoch && !s.owner.Nobody? ==> a.seen < s.word)
  }

  ghost predicate Attempts(s: State) {
    forall h :: h in s.handles && s.handles[h].Attempt? ==> AttemptOk(s, s.handles[h])
  }

  ghost predicate Inv(s: State) {
    Counted(s) && OneLoader(s) && Attempts(s)
  }

  lemma InvInit()
    ensures Inv(Init())
  {
  }

  /** What an action does to the two sets */
  lemma Sets(s: State, a: Action)
    requires Enabled(s, a)
    ensures var r := Next(s, a);
      Sharers(r) == match a
        case LockShared(h) => if s.word < MAX_SHARED then Sharers(s) + {h} else Sharers(s)
        case UnlockShared(h) => Sharers(s) - {h}
        case ToShared(_) => Sharers(s) + Joined(s)
        case _ => Sharers(s)
    ensures var r := Next(s, a);
      Joined(r) == match a
        case BeginIo(h) => Joined(s) + {h}
        case RegisterWaiter(h) => Joined(s) + {h}
        case ToShared(_) => {}
        case _ => Joined(s)
    ensures a.UnlockShared? ==> a.h in Sharers(s)
    ensures a.LockShared? ==> a.h !in Sharers(s)
    ensures a.ToShared? ==> a.h in Joined(s)
    ensures a.BeginIo? || a.RegisterWaiter? ==> a.h !in Joined(s)
  {
  }

  lemma CountedNext(s: State, a: Action)
    requires Inv(s) && Enabled(s, a)
    ensures Counted(Next(s, a)) <==> !Panics(s, a)
  {
    hide Sharers, Joined;
    Sets(s, a);
  }

  lemma OneLoaderNext(s: State, a: Action)
    requires Counted(s) && OneLoader(s) && Enabled(s, a)
    ensures OneLoader(Next(s, a))
  {
    if a.BeginIo? {
      forall h | h in s.handles ensures !s.handles[h].Loader? { assert h !in Joined(s); }
    }
  }

  lemma AttemptsNext(s: State, a: Action)
    requires Counted(s) && Attempts(s) && Enabled(s, a) && !Panics(s, a)
    ensures Attempts(Next(s, a))
  {
    hide Joined;
    if a.UnlockShared? { assert a.h in Sharers(s); }
  }

  /** Every action keeps the invariant, except a call that panics, which breaks it. */
  lemma InvNext(s: State, a: Action)
    requires Inv(s) && Enabled(s, a)
    ensures Inv(Next(s, a)) <==> !Panics(s, a)
  {
    hide Counted, OneLoader, Attempts;
    CountedNext(s, a);
    OneLoaderNext(s, a);
    if !Panics(s, a) { AttemptsNext(s, a); }
  }

  lemma {:induction false} RunInv(states: seq<State>, actions: seq<Action>, i: nat)
    requires IsRun(states, actions) && Calm(states, actions) && i < |states|
    ensures Inv(states[i])
  {
    if i == 0 {
      InvInit();
    } else {
      RunInv(states, actions, i - 1);
      InvNext(states[i - 1], actions[i - 1]);
    }
  }

  /** The invariant holds all along an interleaving if and only if no call in it panics. */
  lemma InvExactlyWhenCalm(states: seq<State>, actions: seq<Action>)
    requires IsRun(states, actions)
    ensures (forall i :: 0 <= i < |states| ==> Inv(states[i])) <==> Calm(states, actions)
  {
    hide Inv;
    if Calm(states, actions) {
      forall i | 0 <= i < |states| ensures Inv(states[i]) { RunInv(states, actions, i); }
    } else {
      var i :| 0 <= i < |actions| && Panics(states[i], actions[i]);
      if Inv(states[i]) {
        InvNext(states[i], actions[i]);
        assert !Inv(states[i + 1]);
      }
    }
  }

  // ------------------------------------------------------------------------ what the lock promises

  ghost function Refs(s: State): set<nat> {
    set h | h in s.handles && s.handles[h].Ref?
  }

  /**
   * In every interleaving, the page is either exclusive, and then nobody has a reference or a share to claim, or its
   * word is the number of them; once every share is claimed, that is the number of live references.
   */
  lemma SharesAreReferences(states: seq<State>, actions: seq<Action>, i: nat)
    requires IsRun(states, actions) && Calm(states, actions) && i < |states|
    ensures var s := states[i];
      if s.word > MAX_SHARED then !s.owner.Nobody? && Sharers(s) == Refs(s) == {}
      else s.owner.Nobody? && s.word == |Sharers(s)|
    ensures var s := states[i];
      s.word <= MAX_SHARED && (forall h :: h in s.handles ==> !s.handles[h].Granted?) ==> s.word == |Refs(s)|
  {
    var s := states[i];
    RunInv(states, actions, i);
    assert Refs(s) <= Sharers(s);
    if forall h :: h in s.handles ==> !s.handles[h].Granted? { assert Refs(s) == Sharers(s); }
  }

  /** `lock_exclusive` succeeds on a page exactly when nobody has a reference or a share, and nobody is its owner. */
  lemma ExclusiveWhenFree(states: seq<State>, actions: seq<Action>, i: nat)
    requires IsRun(states, actions) && Calm(states, actions) && i < |actions| && actions[i].LockExclusive?
    ensures states[i + 1] != states[i] <==> states[i].owner.Nobody? && Sharers(states[i]) == {}
    ensures states[i + 1] != states[i] ==> states[i + 1].word == MIN_EXCLUSIVE && states[i + 1].owner.Idle?
  {
    RunInv(states, actions, i);
  }

  /** `lock_shared` gives a reference exactly when nobody has the page exclusively; a failed attempt shares nothing. */
  lemma SharedUnlessExclusive(states: seq<State>, actions: seq<Action>, i: nat)
    requires IsRun(states, actions) && Calm(states, actions) && i < |actions| && actions[i].LockShared?
    ensures actions[i].h in Refs(states[i + 1]) <==> states[i].owner.Nobody?
    ensures !states[i].owner.Nobody? ==> Sharers(states[i + 1]) == {}
  {
    RunInv(states, actions, i);
    RunInv(states, actions, i + 1);
  }

  /** The end of an I/O gives one share to the call that did it and one to each call that joined it, and no more. */
  lemma IoGivesShares(states: seq<State>, actions: seq<Action>, i: nat)
    requires IsRun(states, actions) && Calm(states, actions) && i < |actions| && actions[i].ToShared?
    ensures Sharers(states[i]) == {} && Sharers(states[i + 1]) == Joined(states[i])
    ensures states[i + 1].word == |Joined(states[i])| == states[i].waiters && actions[i].h in Joined(states[i])
    ensures Joined(states[i + 1]) == {}
  {
    RunInv(states, actions, i);
    Sets(states[i], actions[i]);
  }

  // ------------------------------------------------------------------------ the guard against overflow

  /**
   * A failed attempt sets the word back exactly if it finds there again what it saw, and then it is stale: since it saw
   * that, the word has already been set to MIN_EXCLUSIVE.
   */
  lemma ResetOnlyIfStale(states: seq<State>, actions: seq<Action>, i: nat)
    requires IsRun(states, actions) && Calm(states, actions) && i < |actions| && actions[i].Reset?
    ensures var s, a := states[i], states[i].handles[actions[i].h];
      && (states[i + 1].word != s.word <==> s.word == a.seen)
      && (states[i + 1].word != s.word ==> a.epoch < s.epoch)
  {
    hide Counted, OneLoader;
    RunInv(states, actions, i);
    RunInv(states, actions, i + 1);
    assert AttemptOk(states[i], states[i].handles[actions[i].h]);
    if states[i].owner.Nobody? { Open(states[i]); }
  }

  /**
   * An attempt on a page that is exclusive adds one to its word, and goes on to compare and set back exactly if it found
   * the word at three quarters of its range or higher.
   */
  lemma AttemptExactlyWhen(s: State, h: nat)
    requires h !in s.handles && 0x8000_0000_0000_0000 <= s.word < 0xffff_ffff_ffff_ffff
    ensures var r := Next(s, LockShared(h));
      && r.word == s.word + 1 && r.owner == s.owner && r.waiters == s.waiters
      && (h in r.handles <==> s.word >= 0xbfff_ffff_ffff_ffff)
      && (h in r.handles ==> r.handles[h] == Attempt(s.word, s.epoch))
  {
  }

  lemma Open(s: State)
    requires Counted(s) && s.owner.Nobody?
    ensures s.word <= MAX_SHARED
  {
  }

  /** So the guard never takes effect in an interleaving where no attempt outlives the epoch it was made in. */
  lemma GuardNeverActs(states: seq<State>, actions: seq<Action>, i: nat)
    requires IsRun(states, actions) && Calm(states, actions) && i < |actions| && actions[i].Reset?
    requires forall k, h :: 0 <= k < |states| && h in states[k].handles && states[k].handles[h].Attempt? ==>
      states[k].handles[h].epoch == states[k].epoch
    ensures states[i + 1].word == states[i].word && states[i + 1].epoch == states[i].epoch
  {
    ResetOnlyIfStale(states, actions, i);
  }

  /** One action more */
  lemma Extend(states: seq<State>, actions: seq<Action>, a: Action) returns (ss: seq<State>, aa: seq<Action>)
    requires IsRun(states, actions) && Enabled(states[|actions|], a)
    ensures IsRun(ss, aa) && aa == actions + [a] && |ss| == |aa| + 1 && ss[|aa|] == Next(states[|actions|], a)
    ensures Calm(states, actions) && !Panics(states[|actions|], a) ==> Calm(ss, aa)
    ensures ss[|actions|] == states[|actions|]
  {
    hide Next, Enabled, Panics, Init;
    ss, aa := states + [Next(states[|actions|], a)], actions + [a];
    forall i | 0 <= i < |aa| ensures Enabled(ss[i], aa[i]) && ss[i + 1] == Next(ss[i], aa[i]) {
      if i < |actions| { assert ss[i] == states[i] && ss[i + 1] == states[i + 1] && aa[i] == actions[i]; }
    }
  }

  /** Failed attempts, each of them over before the next, bring the word of an exclusive page as high as one likes. */
  lemma {:induction false} Climb(states: seq<State>, actions: seq<Action>, word: nat)
    returns (ss: seq<State>, aa: seq<Action>)
    requires IsRun(states, actions) && Calm(states, actions) && 1 !in states[|actions|].handles
    requires MIN_EXCLUSIVE <= states[|actions|].word <= word <= MAX_EXCLUSIVE
    ensures IsRun(ss, aa) && Calm(ss, aa) && |ss| == |aa| + 1 && ss[|aa|] == states[|actions|].(word := word)
    decreases word - states[|actions|].word
  {
    ss, aa := states, actions;
    var s := states[|actions|];
    if s.word < word {
      ss, aa := Extend(ss, aa, LockShared(1));
      if s.word >= HIGH {
        ss, aa := Extend(ss, aa, Reset(1));
        assert s.handles[1 := Attempt(s.word, s.epoch)] - {1} == s.handles;
      }
      ss, aa := Climb(ss, aa, word);
    }
  }

  /** The guard does not guard: attempts on an owned page can wrap its word, and the next one is given a reference. */
  lemma AttemptsUnlock() returns (states: seq<State>, actions: seq<Action>)
    ensures IsRun(states, actions) && |states| == |actions| + 1
    ensures var s := states[|actions|]; s.owner.Idle? && s.handles == map[1 := Ref] && s.word == 1
  {
    states, actions := [Init()], [];
    states, actions := Climb(states, actions, MAX_EXCLUSIVE);
    states, actions := Extend(states, actions, LockShared(1));
    states, actions := Extend(states, actions, LockShared(1));
  }

  /** An exclusive page is loaded, used and taken back, and what is left of a failed attempt is still there. */
  lemma Cycle(states: seq<State>, actions: seq<Action>, word: nat, h: Handle)
    returns (ss: seq<State>, aa: seq<Action>)
    requires IsRun(states, actions) && Calm(states, actions) && h.Attempt?
    requires states[|actions|] == State(word, 0, false, Idle, map[0 := h], 0)
    ensures IsRun(ss, aa) && Calm(ss, aa) && |ss| == |aa| + 1
    ensures ss[|aa|] == State(MIN_EXCLUSIVE, 0, false, Idle, map[0 := h], 1)
  {
    hide IsRun, Calm;
    ss, aa := Extend(states, actions, BeginIo(1));
    assert ss[|aa|] == State(word, 1, false, Loading, map[0 := h, 1 := Loader], 0);
    ss, aa := Extend(ss, aa, ToShared(1));
    assert ss[|aa|] == State(1, 1, true, Nobody, map[0 := h, 1 := Granted], 0);
    ss, aa := Extend(ss, aa, FinishIo);
    ss, aa := Extend(ss, aa, Claim(1));
    assert ss[|aa|] == State(1, 0, false, Nobody, map[0 := h, 1 := Ref], 0);
    ss, aa := Extend(ss, aa, UnlockShared(1));
    assert ss[|aa|] == State(0, 0, false, Nobody, map[0 := h], 0);
    ss, aa := Extend(ss, aa, LockExclusive);
  }

  /** A stale attempt that sets the word back, in a later exclusive time of the page than its own */
  lemma StaleReset() returns (states: seq<State>, actions: seq<Action>)
    ensures IsRun(states, actions) && Calm(states, actions) && |states| == |actions| + 1 && actions != []
    ensures actions[|actions| - 1].Reset?
    ensures states[|actions| - 1].word == HIGH && states[|actions|].word == MIN_EXCLUSIVE
  {
    states, actions := [Init()], [];
    states, actions := Climb(states, actions, HIGH);
    hide IsRun, Calm;
    states, actions := Extend(states, actions, LockShared(0));
    states, actions := Cycle(states, actions, HIGH + 1, Attempt(HIGH, 0));
    states, actions := Climb(states, actions, HIGH);
    states, actions := Extend(states, actions, Reset(0));
  }
}
