/**
 The futex mutex of lib/mtx_trylock.c, lib/mtx_timedlock.c and lib/mtx_unlock.c as a system
 of threads that interleave at every access to the shared mutex and at every futex call.

 A thread has a program counter and the local variable i of mtx_timedlock; `held` is the
 client's own count of successful locks minus unlocks.  Thread identities are positive, so
 owner == 0 is no thread.  Signals and timeouts can hit any sleeping thread.
 */
module FutexMutex {

  type ThreadId = nat

  /** The next access a thread makes, named after what it does in the source. */
  datatype Pc =
    | Idle          // outside of the mutex functions
    | TryCas        // compare_and_swap(&lock,0,1) in __mtx_trylock
    | SetOwner      // mutex->owner=me
    | CheckOwner    // (type&mtx_recursive) && owner==me in __mtx_trylock
    | RecAdd        // add_and_fetch(&lock,1)
    | RecUndo       // add_and_fetch(&lock,-1) after the count went over 1000
    | CallWait      // about to enter futex(FUTEX_WAIT,i)
    | Asleep        // in futex(FUTEX_WAIT,i)
    | LoadLock      // lock==0 in mtx_unlock
    | CheckRelease  // (type&mtx_recursive) && owner==me in mtx_unlock
    | RecDec        // add_and_fetch(&lock,-1)
    | ClearOwner    // mutex->owner=0
    | PlainCas      // compare_and_swap(&lock,1,0)
    | CallWake      // futex(FUTEX_WAKE,1)

  /** blocking tells mtx_timedlock (and mtx_lock) from mtx_trylock. */
  datatype Thread = Thread(pc: Pc, blocking: bool, i: int, held: nat)

  datatype Mutex = Mutex(lock: int, owner: nat, recursive: bool)

  datatype State = State(m: Mutex, threads: map<ThreadId, Thread>)

  datatype Event =
    | Lock | TryLock | Unlock     // the client calls a function
    | Step                        // the thread makes its next access
    | Wake(sleeper: ThreadId)     // FUTEX_WAKE finds somebody asleep
    | Interrupt                   // EINTR, or any other failure but the two below
    | Timeout                     // ETIMEDOUT

  const MAX_COUNT: int := 1000

  predicate Enabled(s: State, t: ThreadId, e: Event)
  {
    t in s.threads &&
    var th := s.threads[t];
    match e
    case Lock => th.pc.Idle?
    case TryLock => th.pc.Idle?
    case Unlock => th.pc.Idle?
    case Step => !th.pc.Idle? && !th.pc.Asleep?
                 && (th.pc.CallWake? ==> forall u <- s.threads :: !s.threads[u].pc.Asleep?)
    case Wake(u) => th.pc.CallWake? && u in s.threads && s.threads[u].pc.Asleep?
    case Interrupt => th.pc.CallWait? || th.pc.Asleep?
    case Timeout => th.pc.Asleep?
  }

  function Set(s: State, t: ThreadId, th: Thread): State { s.(threads := s.threads[t := th]) }

  /** The access at the thread's program counter: what becomes of the mutex and of the thread. */
  function Access(m: Mutex, t: ThreadId, th: Thread): (Mutex, Thread)
  {
    match th.pc
    case Idle => (m, th)
    case TryCas =>
      if m.lock == 0 then (m.(lock := 1), th.(pc := SetOwner)) else (m, th.(pc := CheckOwner, i := m.lock))
    case SetOwner => (m.(owner := t), th.(pc := Idle, held := th.held + 1))
    case CheckOwner =>
      (m, th.(pc := if m.recursive && m.owner == t then RecAdd else if th.blocking then CallWait else Idle))
    case RecAdd =>
      (m.(lock := m.lock + 1),
       if m.lock + 1 > MAX_COUNT then th.(pc := RecUndo) else th.(pc := Idle, held := th.held + 1))
    case RecUndo => (m.(lock := m.lock - 1), th.(pc := Idle))
    case CallWait => (m, th.(pc := if m.lock != th.i then TryCas else Asleep))
    case Asleep => (m, th)
    case LoadLock => (m, th.(pc := if m.lock == 0 then Idle else CheckRelease))
    case CheckRelease => (m, th.(pc := if m.recursive && m.owner == t then RecDec else PlainCas))
    case RecDec => (m.(lock := m.lock - 1), Released(th, if m.lock - 1 == 0 then ClearOwner else Idle))
    case ClearOwner => (m.(owner := 0), th.(pc := CallWake))
    case PlainCas =>
      if m.lock == 1 then (m.(lock := 0), Released(th, CallWake)) else (m, Released(th, Idle))
    case CallWake => (m, th.(pc := Idle))
  }

  /** mtx_unlock is going to return thrd_success. */
  function Released(th: Thread, pc: Pc): Thread { th.(pc := pc, held := if th.held > 0 then th.held - 1 else 0) }

  function Do(s: State, t: ThreadId, e: Event): State
    requires Enabled(s, t, e)
  {
    var th := s.threads[t];
    match e
    case Lock => Set(s, t, th.(pc := TryCas, blocking := true))
    case TryLock => Set(s, t, th.(pc := TryCas, blocking := false))
    case Unlock => Set(s, t, th.(pc := LoadLock))
    case Step => var (m, th') := Access(s.m, t, th); State(m, s.threads[t := th'])
    case Wake(u) => Set(Set(s, u, s.threads[u].(pc := TryCas)), t, th.(pc := Idle))
    case Interrupt => Set(s, t, th.(pc := CallWait))
    case Timeout => Set(s, t, th.(pc := Idle))
  }

  /** mtx_init leaves lock==0 and the type, but whatever was in owner before. */
  predicate Initial(s: State)
  {
    s.m.lock == 0 && 0 !in s.threads && forall t <- s.threads :: s.threads[t].pc.Idle? && s.threads[t].held == 0
  }

  /** A client that unlocks only what it has locked. */
  predicate Disciplined(s: State, t: ThreadId, e: Event)
  {
    e.Unlock? && t in s.threads ==> s.threads[t].held > 0
  }

  /** A run from one state to another, by disciplined clients or by any. */
  ghost predicate Run(s: State, events: seq<(ThreadId, Event)>, s': State, disciplined: bool)
    decreases |events|
  {
    if events == [] then s == s'
    else
      var (t, e) := events[0];
      Enabled(s, t, e) && (disciplined ==> Disciplined(s, t, e)) && Run(Do(s, t, e), events[1..], s', disciplined)
  }

  // ----- mutual exclusion -----

  /** The thread has the mutex: it holds it, or has just won it. */
  predicate HasIt(th: Thread) { th.held > 0 || th.pc.SetOwner? }

  predicate Exclusive(s: State)
  {
    forall t, u :: t in s.threads && u in s.threads && HasIt(s.threads[t]) && HasIt(s.threads[u]) ==> t == u
  }

  /** The lock word as the count of the thread that has the mutex. */
  function Count(th: Thread): int { th.held + if th.pc.SetOwner? || th.pc.RecUndo? then 1 else 0 }

  predicate UnlockPc(pc: Pc) { pc.LoadLock? || pc.CheckRelease? || pc.RecDec? || pc.PlainCas? }

  predicate RecursivePc(pc: Pc) { pc.RecAdd? || pc.RecUndo? || pc.RecDec? }

  /** What holds of one thread of a disciplined program. */
  predicate ThreadOk(m: Mutex, t: ThreadId, th: Thread)
  {
    && (HasIt(th) ==> 1 <= Count(th) <= m.lock)
    && (th.pc.SetOwner? ==> th.held == 0 && m.lock == 1)
    && (UnlockPc(th.pc) || RecursivePc(th.pc) ==> th.held > 0)
    && (th.pc.ClearOwner? || th.pc.CallWake? ==> th.held == 0)
    && (RecursivePc(th.pc) || th.pc.ClearOwner? ==> m.recursive)
    && (RecursivePc(th.pc) ==> m.lock == Count(th))
    && (m.recursive ==>
          && (m.owner == t ==> th.pc.ClearOwner? || (th.held > 0 && m.lock == Count(th)))
          && (th.pc.PlainCas? ==> m.owner != t))
    && (!m.recursive ==> th.held <= 1)
  }

  /** The lock word never goes negative, and that of a plain mutex is 1 only if somebody has it. */
  predicate LockOk(s: State)
  {
    s.m.lock >= 0 && (!s.m.recursive ==> s.m.lock <= 1)
    && (!s.m.recursive && s.m.lock == 1 ==> exists t :: t in s.threads && HasIt(s.threads[t]))
  }

  predicate Inv(s: State)
  {
    0 !in s.threads && Exclusive(s) && LockOk(s) && forall t :: t in s.threads ==> ThreadOk(s.m, t, s.threads[t])
  }

  lemma InvInitial(s: State)
    requires Initial(s) && SafeStart(s)
    ensures Inv(s)
  {
  }

  /** A mutex is safe to start with unless it is recursive and its stale owner is one of the threads. */
  predicate SafeStart(s: State) { s.m.recursive ==> s.m.owner !in s.threads }

  /**
   A change of one thread, and of the mutex by it, that is all right as far as that thread
   is concerned: the lock word moves only while nobody else has the mutex, and the owner
   word only to the thread itself or to nobody.
   */
  predicate LocalOk(m: Mutex, t: ThreadId, th: Thread, m': Mutex, th': Thread)
  {
    && m'.recursive == m.recursive && m'.lock >= 0 && ThreadOk(m', t, th')
    && (m'.owner == m.owner || m'.owner == t || m'.owner == 0)
    && (HasIt(th') || m'.lock != m.lock ==> HasIt(th) || m.lock == 0)
    && (!m.recursive ==> m'.lock <= 1 && (m'.lock == 1 && (m.lock == 0 || HasIt(th)) ==> HasIt(th')))
  }

  lemma OthersOk(s: State, t: ThreadId, m': Mutex, th': Thread, u: ThreadId)
    requires Inv(s) && t in s.threads && LocalOk(s.m, t, s.threads[t], m', th') && u in s.threads && u != t
    ensures ThreadOk(m', u, s.threads[u])
    ensures !(HasIt(s.threads[u]) && HasIt(th'))
  {
    assert ThreadOk(s.m, u, s.threads[u]);
    assert HasIt(s.threads[u]) && HasIt(s.threads[t]) ==> t == u;
  }

  lemma InvLocal(s: State, t: ThreadId, m': Mutex, th': Thread)
    requires Inv(s) && t in s.threads && LocalOk(s.m, t, s.threads[t], m', th')
    ensures Inv(State(m', s.threads[t := th']))
  {
    var s' := State(m', s.threads[t := th']);
    forall u | u in s.threads && u != t
      ensures ThreadOk(m', u, s'.threads[u]) && !(HasIt(s.threads[u]) && HasIt(th'))
    {
      OthersOk(s, t, m', th', u);
    }
    assert Exclusive(s');
    if !s.m.recursive && m'.lock == 1 {
      if HasIt(th') {
        assert HasIt(s'.threads[t]);
      } else {
        var w :| w in s.threads && HasIt(s.threads[w]);
        assert HasIt(s'.threads[w]);
      }
    }
    assert LockOk(s');
  }

  /** The accesses of a thread only need looking at that thread. */
  lemma AccessLocal(m: Mutex, t: ThreadId, th: Thread)
    requires t != 0 && m.lock >= 0 && (!m.recursive ==> m.lock <= 1) && ThreadOk(m, t, th)
    ensures var (m', th') := Access(m, t, th); LocalOk(m, t, th, m', th')
  {
  }

  /** Calls, signals and timeouts. */
  lemma InvOutside(s: State, t: ThreadId, e: Event)
    requires Inv(s) && Enabled(s, t, e) && Disciplined(s, t, e) && !e.Step? && !e.Wake?
    ensures Inv(Do(s, t, e))
  {
    assert ThreadOk(s.m, t, s.threads[t]);
    InvLocal(s, t, s.m, Do(s, t, e).threads[t]);
    assert State(s.m, s.threads[t := Do(s, t, e).threads[t]]) == Do(s, t, e);
  }

  lemma InvWake(s: State, t: ThreadId, u: ThreadId)
    requires Inv(s) && Enabled(s, t, Wake(u))
    ensures Inv(Do(s, t, Wake(u)))
  {
    assert ThreadOk(s.m, t, s.threads[t]);
    assert ThreadOk(s.m, u, s.threads[u]);
    var awake := s.threads[u].(pc := TryCas);
    InvLocal(s, u, s.m, awake);
    var mid := State(s.m, s.threads[u := awake]);
    InvLocal(mid, t, s.m, s.threads[t].(pc := Idle));
    assert State(s.m, mid.threads[t := s.threads[t].(pc := Idle)]) == Do(s, t, Wake(u));
  }

  lemma InvStep(s: State, t: ThreadId, e: Event)
    requires Inv(s) && Enabled(s, t, e) && Disciplined(s, t, e)
    ensures Inv(Do(s, t, e))
  {
    match e
    case Step =>
      var (m', th') := Access(s.m, t, s.threads[t]);
      AccessLocal(s.m, t, s.threads[t]);
      InvLocal(s, t, m', th');
    case Wake(u) => InvWake(s, t, u);
    case Lock | TryLock | Unlock | Interrupt | Timeout => InvOutside(s, t, e);
  }

  lemma {:induction false} InvRun(s: State, events: seq<(ThreadId, Event)>, s': State)
    requires Inv(s) && Run(s, events, s', true)
    ensures Inv(s')
    decreases |events|
  {
    if events != [] {
      var (t, e) := events[0];
      InvStep(s, t, e);
      InvRun(Do(s, t, e), events[1..], s');
    }
  }

  /**
   Mutual exclusion over all interleavings: at most one thread has the mutex, and never
   while the lock word is 0.  For a plain mutex the lock word is 1 exactly when a thread
   has it.
   */
  lemma MutualExclusion(s: State, events: seq<(ThreadId, Event)>, s': State)
    requires Initial(s) && SafeStart(s) && Run(s, events, s', true)
    ensures Exclusive(s')
    ensures forall t :: t in s'.threads && HasIt(s'.threads[t]) ==> s'.m.lock > 0
    ensures !s'.m.recursive ==> 0 <= s'.m.lock <= 1
    ensures !s'.m.recursive ==> (s'.m.lock == 1 <==> exists t :: t in s'.threads && HasIt(s'.threads[t]))
  {
    InvInitial(s);
    InvRun(s, events, s');
    forall t | t in s'.threads && HasIt(s'.threads[t])
      ensures s'.m.lock > 0
    {
      assert ThreadOk(s'.m, t, s'.threads[t]);
    }
  }

  // ----- no lost wake-up -----

  /** Awake in the retry loop of mtx_timedlock, and so about to try again. */
  predicate WillRetry(th: Thread) { th.blocking && (th.pc.TryCas? || th.pc.CheckOwner? || th.pc.CallWait?) }

  /** Between the release of the lock word and FUTEX_WAKE. */
  predicate WillWake(th: Thread) { th.pc.ClearOwner? || th.pc.CallWake? }

  predicate Helps(th: Thread) { WillRetry(th) || WillWake(th) }

  /** Nobody sleeps on a free mutex without help being on the way. */
  predicate NoLostWakeup(s: State)
  {
    s.m.lock == 0 && (exists u :: u in s.threads && s.threads[u].pc.Asleep?) ==>
      exists t :: t in s.threads && Helps(s.threads[t])
  }

  predicate WaitOk(m: Mutex, th: Thread)
  {
    && (th.pc.CheckOwner? || th.pc.CallWait? || th.pc.Asleep? ==> th.i != 0)
    && (th.pc.CallWait? || th.pc.Asleep? ==> th.blocking)
    && (RecursivePc(th.pc) || th.pc.ClearOwner? ==> m.recursive)
  }

  predicate WakeInv(s: State)
  {
    NoLostWakeup(s) && forall t :: t in s.threads ==> WaitOk(s.m, s.threads[t])
  }

  /** A helper goes on helping, unless the mutex is taken again or nobody is asleep. */
  lemma HelperStep(m: Mutex, t: ThreadId, th: Thread)
    requires t != 0 && WaitOk(m, th) && (m.recursive ==> ThreadOk(m, t, th))
    ensures var (m', th') := Access(m, t, th);
            WaitOk(m', th')
            && (m'.lock == 0 && m.lock != 0 ==> Helps(th'))
            && (m'.lock == 0 && m.lock == 0 && Helps(th) ==> Helps(th') || th.pc.CallWake?)
            && (m'.lock == 0 ==> !th'.pc.Asleep? || th.pc.Asleep?)
  {
  }

  lemma WakeInvAccess(s: State, t: ThreadId)
    requires WakeInv(s) && Enabled(s, t, Step) && 0 !in s.threads && (s.m.recursive ==> Inv(s))
    ensures WakeInv(Do(s, t, Step))
  {
    var s' := Do(s, t, Step);
    assert WaitOk(s.m, s.threads[t]);
    HelperStep(s.m, t, s.threads[t]);
    if s'.m.lock == 0 && exists u :: u in s'.threads && s'.threads[u].pc.Asleep? {
      var u :| u in s'.threads && s'.threads[u].pc.Asleep?;
      assert u in s.threads && s.threads[u].pc.Asleep?;
      if !Helps(s'.threads[t]) {
        assert s.m.lock == 0;
        var w :| w in s.threads && Helps(s.threads[w]);
        assert Helps(s'.threads[w]);
      }
    }
  }

  lemma WakeInvOther(s: State, t: ThreadId, e: Event)
    requires WakeInv(s) && Enabled(s, t, e) && !e.Step?
    ensures WakeInv(Do(s, t, e))
  {
    var s' := Do(s, t, e);
    assert WaitOk(s.m, s.threads[t]);
    if e.Wake? {
      assert WaitOk(s.m, s.threads[e.sleeper]);
      assert Helps(s'.threads[e.sleeper]);
    } else if s'.m.lock == 0 && exists u :: u in s'.threads && s'.threads[u].pc.Asleep? {
      var u :| u in s'.threads && s'.threads[u].pc.Asleep?;
      assert u in s.threads && s.threads[u].pc.Asleep?;
      var w :| w in s.threads && Helps(s.threads[w]);
      assert Helps(s'.threads[w]);
    }
  }

  lemma {:induction false} WakeInvRun(s: State, events: seq<(ThreadId, Event)>, s': State, disciplined: bool)
    requires WakeInv(s) && 0 !in s.threads && Run(s, events, s', disciplined)
    requires s.m.recursive ==> disciplined && Inv(s)
    ensures WakeInv(s') && (s.m.recursive ==> Inv(s'))
    decreases |events|
  {
    if events != [] {
      var (t, e) := events[0];
      if e.Step? { WakeInvAccess(s, t); } else { WakeInvOther(s, t, e); }
      if s.m.recursive { InvStep(s, t, e); }
      WakeInvRun(Do(s, t, e), events[1..], s', disciplined);
    }
  }

  /**
   In every reachable state with a free mutex and a thread asleep on it, some thread is on
   its way to FUTEX_WAKE or awake in the retry loop.  For a plain mutex this takes no
   discipline of the clients.
   */
  lemma WakeupNeverLost(s: State, events: seq<(ThreadId, Event)>, s': State, disciplined: bool)
    requires Initial(s) && Run(s, events, s', disciplined) && (s.m.recursive ==> disciplined && SafeStart(s))
    ensures NoLostWakeup(s')
  {
    if s.m.recursive { InvInitial(s); }
    WakeInvRun(s, events, s', disciplined);
  }

  // ----- building runs -----

  lemma {:induction false} RunAppend(s: State, a: seq<(ThreadId, Event)>, m: State, b: seq<(ThreadId, Event)>, s': State)
    requires Run(s, a, m, true) && Run(m, b, s', true)
    ensures Run(s, a + b, s', true)
    decreases |a|
  {
    if a == [] {
      assert a + b == b;
    } else {
      var (t, e) := a[0];
      assert (a + b)[0] == a[0] && (a + b)[1..] == a[1..] + b;
      RunAppend(Do(s, t, e), a[1..], m, b, s');
    }
  }

  lemma RunOne(s: State, t: ThreadId, e: Event)
    requires Enabled(s, t, e) && Disciplined(s, t, e)
    ensures Run(s, [(t, e)], Do(s, t, e), true)
  {
    assert [(t, e)][1..] == [];
    assert Run(Do(s, t, e), [], Do(s, t, e), true);
  }

  /** There is a run of disciplined clients from s to s'. */
  ghost predicate Reaches(s: State, s': State) { exists events :: Run(s, events, s', true) }

  lemma ReachesTrans(s: State, m: State, s': State)
    requires Reaches(s, m) && Reaches(m, s')
    ensures Reaches(s, s')
  {
    var a :| Run(s, a, m, true);
    var b :| Run(m, b, s', true);
    RunAppend(s, a, m, b, s');
  }

  lemma Reached(s: State, t: ThreadId, e: Event)
    requires Enabled(s, t, e) && Disciplined(s, t, e)
    ensures Reaches(s, Do(s, t, e))
  {
    RunOne(s, t, e);
  }

  lemma ReachedNext(s: State, m: State, t: ThreadId, e: Event)
    requires Reaches(s, m) && Enabled(m, t, e) && Disciplined(m, t, e)
    ensures Reaches(s, Do(m, t, e))
  {
    Reached(m, t, e);
    ReachesTrans(s, m, Do(m, t, e));
  }

  /** The invariants of the disciplined runs of a mutex that was safe to start with. */
  predicate Sound(s: State) { Inv(s) && WakeInv(s) }

  lemma SoundRun(s: State, events: seq<(ThreadId, Event)>, s': State)
    requires Initial(s) && SafeStart(s) && Run(s, events, s', true)
    ensures Sound(s')
  {
    InvInitial(s);
    InvRun(s, events, s');
    WakeInvRun(s, events, s', true);
  }

  /** All events of a run are among these. */
  ghost predicate Among(events: seq<(ThreadId, Event)>, allowed: set<(ThreadId, Event)>)
  {
    forall k :: 0 <= k < |events| ==> events[k] in allowed
  }

  lemma RunCons(s: State, t: ThreadId, e: Event, events: seq<(ThreadId, Event)>, s': State)
    requires Enabled(s, t, e) && Disciplined(s, t, e) && Run(Do(s, t, e), events, s', true)
    ensures Run(s, [(t, e)] + events, s', true)
  {
    assert ([(t, e)] + events)[1..] == events;
  }

  /** The thread has just won the mutex for a caller that waits for it. */
  predicate Won(s: State, t: ThreadId)
  {
    s.m.lock == 1 && t in s.threads && s.threads[t].blocking && s.threads[t].pc.SetOwner?
  }

  /** A waiting thread that is awake gets a free mutex by running on its own. */
  lemma RetryAcquires(s: State, t: ThreadId) returns (s': State, events: seq<(ThreadId, Event)>)
    requires Sound(s) && s.m.lock == 0 && t in s.threads && WillRetry(s.threads[t])
    ensures Run(s, events, s', true) && Won(s', t) && Among(events, {(t, Step)})
    decreases match s.threads[t].pc case TryCas => 0 case CallWait => 1 case _ => 2
  {
    assert ThreadOk(s.m, t, s.threads[t]) && WaitOk(s.m, s.threads[t]);
    var s1 := Do(s, t, Step);
    if s.threads[t].pc.TryCas? {
      s', events := s1, [(t, Step)];
      RunOne(s, t, Step);
    } else {
      InvStep(s, t, Step);
      WakeInvAccess(s, t);
      var rest;
      s', rest := RetryAcquires(s1, t);
      RunCons(s, t, Step, rest, s');
      events := [(t, Step)] + rest;
    }
  }

  /** A thread on its way to FUTEX_WAKE and the sleeper it wakes get the mutex for the sleeper, on their own. */
  lemma WakerAcquires(s: State, t: ThreadId, u: ThreadId) returns (s': State, events: seq<(ThreadId, Event)>)
    requires Sound(s) && s.m.lock == 0 && t in s.threads && WillWake(s.threads[t])
    requires u in s.threads && s.threads[u].pc.Asleep?
    ensures Run(s, events, s', true) && Won(s', u) && Among(events, {(t, Step), (t, Wake(u)), (u, Step)})
    decreases if s.threads[t].pc.ClearOwner? then 1 else 0
  {
    assert WaitOk(s.m, s.threads[u]);
    var rest;
    if s.threads[t].pc.ClearOwner? {
      InvStep(s, t, Step);
      WakeInvAccess(s, t);
      s', rest := WakerAcquires(Do(s, t, Step), t, u);
      RunCons(s, t, Step, rest, s');
      events := [(t, Step)] + rest;
    } else {
      InvStep(s, t, Wake(u));
      WakeInvOther(s, t, Wake(u));
      s', rest := RetryAcquires(Do(s, t, Wake(u)), u);
      RunCons(s, t, Wake(u), rest, s');
      events := [(t, Wake(u))] + rest;
    }
  }

  /**
   What the help is worth: whenever u sleeps on a free mutex, there is a thread t whose own
   steps, together with those of u if t wakes it, give the mutex to u or to t, which was
   already waiting.  Nobody calls a function meanwhile, and no signal or timeout happens.
   */
  lemma SleepersGetThrough(s: State, events: seq<(ThreadId, Event)>, s1: State, u: ThreadId)
    returns (s': State, w: ThreadId, t: ThreadId, more: seq<(ThreadId, Event)>)
    requires Initial(s) && SafeStart(s) && Run(s, events, s1, true)
    requires s1.m.lock == 0 && u in s1.threads && s1.threads[u].pc.Asleep?
    ensures t in s1.threads && Helps(s1.threads[t])
    ensures Run(s1, more, s', true) && Among(more, {(t, Step), (t, Wake(u)), (w, Step)})
    ensures Won(s', w) && (w == u || (w == t && WillRetry(s1.threads[w])))
  {
    SoundRun(s, events, s1);
    t :| t in s1.threads && Helps(s1.threads[t]);
    if WillRetry(s1.threads[t]) {
      w := t;
      s', more := RetryAcquires(s1, t);
    } else {
      w := u;
      s', more := WakerAcquires(s1, t, u);
    }
  }

  // ----- a stale owner -----

  /** Two threads get a recursive mutex when the second one is its stale owner. */
  lemma StaleOwnerShares(s: State, a: ThreadId, b: ThreadId) returns (s': State)
    requires Initial(s) && s.m.recursive && s.m.owner == b && a in s.threads && b in s.threads && a != b
    ensures Reaches(s, s') && !Exclusive(s')
  {
    var s1 := Do(s, a, Lock);
    Reached(s, a, Lock);
    var s2 := Do(s1, a, Step);
    ReachedNext(s, s1, a, Step);
    var s3 := Do(s2, b, Lock);
    ReachedNext(s, s2, b, Lock);
    var s4 := Do(s3, b, Step);
    ReachedNext(s, s3, b, Step);
    var s5 := Do(s4, b, Step);
    ReachedNext(s, s4, b, Step);
    s' := Do(s5, b, Step);
    ReachedNext(s, s5, b, Step);
    assert s'.threads[a].pc.SetOwner? && s'.threads[b].held == 1;
  }

  /** With two threads, mutual exclusion holds in every run exactly if the start is safe. */
  lemma SafeStartIsExact(s: State, a: ThreadId, b: ThreadId)
    requires Initial(s) && a in s.threads && b in s.threads && a != b
    ensures SafeStart(s) <==> forall s' :: Reaches(s, s') ==> Exclusive(s')
  {
    if SafeStart(s) {
      forall s' | Reaches(s, s')
        ensures Exclusive(s')
      {
        var events :| Run(s, events, s', true);
        MutualExclusion(s, events, s');
      }
    } else {
      var other := if s.m.owner == a then b else a;
      var s' := StaleOwnerShares(s, other, s.m.owner);
    }
  }

  // ----- an owner cleared too late -----

  /** While t has the mutex and makes no access, the others leave the lock word and t alone. */
  lemma {:induction false} OthersWait(s: State, t: ThreadId, events: seq<(ThreadId, Event)>, s': State)
    requires Inv(s) && t in s.threads && HasIt(s.threads[t]) && !s.threads[t].pc.Asleep?
    requires Run(s, events, s', true) && forall k :: 0 <= k < |events| ==> events[k].0 != t
    ensures Inv(s') && s'.m.lock == s.m.lock && s'.m.recursive == s.m.recursive
    ensures t in s'.threads && s'.threads[t] == s.threads[t]
    decreases |events|
  {
    if events != [] {
      var (u, e) := events[0];
      assert u != t;
      OtherStep(s, t, u, e);
      InvStep(s, u, e);
      OthersWait(Do(s, u, e), t, events[1..], s');
    }
  }

  lemma OtherStep(s: State, t: ThreadId, u: ThreadId, e: Event)
    requires Inv(s) && t in s.threads && HasIt(s.threads[t]) && !s.threads[t].pc.Asleep?
    requires Enabled(s, u, e) && Disciplined(s, u, e) && u != t
    ensures var s' := Do(s, u, e);
            s'.m.lock == s.m.lock && s'.m.recursive == s.m.recursive && t in s'.threads && s'.threads[t] == s.threads[t]
  {
    assert ThreadOk(s.m, t, s.threads[t]) && ThreadOk(s.m, u, s.threads[u]);
    assert !HasIt(s.threads[u]);
    if e.Step? {
      AccessLocal(s.m, u, s.threads[u]);
    }
  }

  /**
   A holder's unlock call reads the owner word in state s and releases in state s2, and
   whatever the others do between the two, it lowers the lock word exactly if t was the owner
   of a recursive mutex, or the lock word was 1, in state s already.
   */
  lemma ReleaseIsExact(s: State, t: ThreadId, events: seq<(ThreadId, Event)>, s2: State)
    requires Inv(s) && t in s.threads && s.threads[t].pc.CheckRelease?
    requires Run(Do(s, t, Step), events, s2, true) && forall k :: 0 <= k < |events| ==> events[k].0 != t
    ensures Enabled(s2, t, Step)
    ensures var s3 := Do(s2, t, Step);
            s3.threads[t].held == s.threads[t].held - 1
            && s3.m.lock == if (s.m.recursive && s.m.owner == t) || s.m.lock == 1 then s.m.lock - 1 else s.m.lock
  {
    assert ThreadOk(s.m, t, s.threads[t]);
    InvStep(s, t, Step);
    OthersWait(Do(s, t, Step), t, events, s2);
  }

  /** The type of a mutex never changes, and threads neither come nor go. */
  lemma {:induction false} KindStays(s: State, events: seq<(ThreadId, Event)>, s': State, disciplined: bool)
    requires Run(s, events, s', disciplined)
    ensures s'.m.recursive == s.m.recursive && s'.threads.Keys == s.threads.Keys
    decreases |events|
  {
    if events != [] {
      var (t, e) := events[0];
      KindStays(Do(s, t, e), events[1..], s', disciplined);
    }
  }

  /** Four accesses in a row by one thread, after a call. */
  lemma CallAndSteps(s: State, t: ThreadId, e: Event, k: nat) returns (s': State)
    requires t in s.threads && s.threads[t].pc.Idle? && (e.Lock? || e.Unlock?) && k <= 3
    requires e.Unlock? ==> s.threads[t].held > 0
    requires var (m0, th0) := (s.m, Do(s, t, e).threads[t]);
             var (m1, th1) := Access(m0, t, th0);
             var (m2, th2) := Access(m1, t, th1);
             !th1.pc.Idle? && !th1.pc.Asleep? && !th1.pc.CallWake?
             && (k == 3 ==> !th2.pc.Idle? && !th2.pc.Asleep? && !th2.pc.CallWake?) && k >= 2
    ensures Reaches(s, s')
    ensures var (m0, th0) := (s.m, Do(s, t, e).threads[t]);
            var (m1, th1) := Access(m0, t, th0);
            var (m2, th2) := Access(m1, t, th1);
            var (m3, th3) := Access(m2, t, th2);
            s' == if k == 2 then State(m2, s.threads[t := th2]) else State(m3, s.threads[t := th3])
  {
    var s0 := Do(s, t, e);
    Reached(s, t, e);
    var s1 := Do(s0, t, Step);
    ReachedNext(s, s0, t, Step);
    s' := Do(s1, t, Step);
    ReachedNext(s, s1, t, Step);
    assert s'.threads == s.threads[t := s'.threads[t]];
    if k == 3 {
      var s2 := s';
      s' := Do(s2, t, Step);
      ReachedNext(s, s2, t, Step);
      assert s'.threads == s.threads[t := s'.threads[t]];
    }
  }

  predicate Waiting(th: Thread)
  {
    var pc := th.pc;
    th.held == 0 &&
    (pc.Idle? || pc.TryCas? || pc.CheckOwner? || pc.CallWait? || pc.Asleep? || pc.CallWake?)
  }

  /** Nobody has the mutex, and it is not free. */
  predicate Stuck(s: State)
  {
    s.m.recursive && s.m.lock > 0 && s.m.owner == 0 && 0 !in s.threads
    && forall t :: t in s.threads ==> Waiting(s.threads[t])
  }

  /** That never ends: no disciplined run lets anybody have the mutex again. */
  lemma {:induction false} StuckForever(s: State, events: seq<(ThreadId, Event)>, s': State)
    requires Stuck(s) && Run(s, events, s', true)
    ensures Stuck(s') && forall t :: t in s'.threads ==> !HasIt(s'.threads[t])
    decreases |events|
  {
    if events != [] {
      var (t, e) := events[0];
      assert Waiting(s.threads[t]);
      StuckForever(Do(s, t, e), events[1..], s');
    }
  }

  lemma AlmostReleased(s: State, a: ThreadId) returns (s': State, x: Thread)
    requires s.m.lock == 0 && s.m.recursive && a in s.threads && a != 0
    requires s.threads[a].pc.Idle? && s.threads[a].held == 0
    ensures Reaches(s, s') && s' == State(Mutex(0, a, true), s.threads[a := x]) && x.pc.ClearOwner? && x.held == 0
  {
    var s1 := CallAndSteps(s, a, Lock, 2);
    s' := CallAndSteps(s1, a, Unlock, 3);
    ReachesTrans(s, s1, s');
    x := s'.threads[a];
    assert s'.threads == s.threads[a := x];
  }

  lemma TakenTwice(s: State, b: ThreadId) returns (s': State, y: Thread)
    requires s.m.lock == 0 && s.m.recursive && b in s.threads && s.threads[b].pc.Idle? && s.threads[b].held == 0
    ensures Reaches(s, s') && s' == State(Mutex(2, b, true), s.threads[b := y]) && y.pc.Idle? && y.held == 2
  {
    var s1 := CallAndSteps(s, b, Lock, 2);
    s' := CallAndSteps(s1, b, Lock, 3);
    ReachesTrans(s, s1, s');
    y := s'.threads[b];
    assert s'.threads == s.threads[b := y];
  }

  /** The late store hides the ownership of b, and both its unlocks leave the lock word alone. */
  lemma ReleasesLost(s: State, a: ThreadId, b: ThreadId, x: Thread) returns (s': State, y: Thread)
    requires s.m == Mutex(2, b, true) && a in s.threads && b in s.threads && a != b && s.threads[a] == x
    requires x.pc.ClearOwner? && s.threads[b].pc.Idle? && s.threads[b].held == 2 && b != 0
    ensures Reaches(s, s') && s' == State(Mutex(2, 0, true), s.threads[a := x.(pc := CallWake)][b := y])
    ensures y.pc.Idle? && y.held == 0
  {
    var s1 := Do(s, a, Step);
    Reached(s, a, Step);
    var s2 := CallAndSteps(s1, b, Unlock, 3);
    s' := CallAndSteps(s2, b, Unlock, 3);
    ReachesTrans(s, s1, s2);
    ReachesTrans(s, s2, s');
    y := s'.threads[b];
    assert s'.threads == s.threads[a := x.(pc := CallWake)][b := y];
  }

  /** So a recursive mutex can be lost for good although every client unlocks as often as it locks. */
  lemma LateClearLosesReleases(s: State, a: ThreadId, b: ThreadId) returns (s': State)
    requires Initial(s) && SafeStart(s) && s.m.recursive && a in s.threads && b in s.threads && a != b
    ensures Reaches(s, s') && Stuck(s') && s'.m.lock == 2
  {
    // a has released the mutex but not yet stored owner=0, and b takes it twice meanwhile
    var s1, x := AlmostReleased(s, a);
    var s2, y0 := TakenTwice(s1, b);
    var y;
    s', y := ReleasesLost(s2, a, b, x);
    ReachesTrans(s, s1, s2);
    ReachesTrans(s, s2, s');
    forall t | t in s'.threads
      ensures Waiting(s'.threads[t])
    {
      if t != a && t != b { assert s'.threads[t] == s.threads[t]; }
    }
  }

  predicate Unheld(s: State) { forall t :: t in s.threads ==> !HasIt(s.threads[t]) }

  /**
   With two threads: a mutex is free in every reachable state in which nobody has it, exactly
   if it is not recursive.
   */
  lemma FreeIfUnheldIsExact(s: State, a: ThreadId, b: ThreadId)
    requires Initial(s) && SafeStart(s) && a in s.threads && b in s.threads && a != b
    ensures !s.m.recursive <==> forall s' :: Reaches(s, s') && Unheld(s') ==> s'.m.lock == 0
  {
    if s.m.recursive {
      var s' := LateClearLosesReleases(s, a, b);
      assert Unheld(s') by {
        assert forall t :: t in s'.threads ==> Waiting(s'.threads[t]);
      }
    } else {
      forall s' | Reaches(s, s') && Unheld(s')
        ensures s'.m.lock == 0
      {
        var events :| Run(s, events, s', true);
        KindStays(s, events, s', true);
        MutualExclusion(s, events, s');
      }
    }
  }

  // ----- a holder that does not know itself -----

  /** A thread outside of the mutex functions that holds the mutex. */
  predicate IdleHolder(th: Thread) { th.pc.Idle? && th.held > 0 }

  predicate OwnerKnown(s: State) { forall t :: t in s.threads && s.threads[t].held > 0 ==> s.m.owner == t }

  /** The owner word of a plain mutex names its holder. */
  lemma {:induction false} PlainOwner(s: State, events: seq<(ThreadId, Event)>, s': State)
    requires Inv(s) && !s.m.recursive && OwnerKnown(s) && Run(s, events, s', true)
    ensures OwnerKnown(s')
    decreases |events|
  {
    if events != [] {
      var (t, e) := events[0];
      PlainOwnerStep(s, t, e);
      InvStep(s, t, e);
      PlainOwner(Do(s, t, e), events[1..], s');
    }
  }

  lemma PlainOwnerStep(s: State, t: ThreadId, e: Event)
    requires Inv(s) && !s.m.recursive && OwnerKnown(s) && Enabled(s, t, e) && Disciplined(s, t, e)
    ensures OwnerKnown(Do(s, t, e)) && !Do(s, t, e).m.recursive
  {
    var s' := Do(s, t, e);
    assert ThreadOk(s.m, t, s.threads[t]);
    forall u | u in s'.threads && s'.threads[u].held > 0
      ensures s'.m.owner == u
    {
      if u != t {
        assert s.threads[u].held > 0 && s.m.owner == u;
        assert !HasIt(s.threads[t]);
      }
    }
  }

  /** b has taken the mutex after a released it, and a's late store has wiped it out as the owner. */
  lemma HolderForgotten(s: State, a: ThreadId, b: ThreadId) returns (s': State, x: Thread, y: Thread)
    requires Initial(s) && SafeStart(s) && s.m.recursive && a in s.threads && b in s.threads && a != b
    ensures Reaches(s, s') && s' == State(Mutex(1, 0, true), s.threads[a := x][b := y])
    ensures x.pc.CallWake? && x.held == 0 && y.pc.Idle? && y.held == 1
  {
    var s1, x0 := AlmostReleased(s, a);
    var s2 := CallAndSteps(s1, b, Lock, 2);
    ReachesTrans(s, s1, s2);
    s' := Do(s2, a, Step);
    ReachedNext(s, s2, a, Step);
    x, y := s'.threads[a], s'.threads[b];
    assert s'.threads == s.threads[a := x][b := y];
  }

  /** With two threads: a thread that holds a mutex finds itself as its owner, in every run, exactly if it is not recursive. */
  lemma OwnerKnownIsExact(s: State, a: ThreadId, b: ThreadId)
    requires Initial(s) && SafeStart(s) && a in s.threads && b in s.threads && a != b
    ensures !s.m.recursive <==>
              forall s', t :: Reaches(s, s') && t in s'.threads && IdleHolder(s'.threads[t]) ==> s'.m.owner == t
  {
    if s.m.recursive {
      var s', x, y := HolderForgotten(s, a, b);
      assert IdleHolder(s'.threads[b]);
    } else {
      forall s', t | Reaches(s, s') && t in s'.threads && IdleHolder(s'.threads[t])
        ensures s'.m.owner == t
      {
        var events :| Run(s, events, s', true);
        InvInitial(s);
        PlainOwner(s, events, s');
      }
    }
  }

  /** b waits for the recursive mutex that it holds itself, and nobody else can release it. */
  predicate SelfBlocked(s: State, b: ThreadId)
  {
    && s.m == Mutex(1, 0, true) && 0 !in s.threads && b in s.threads
    && (var th := s.threads[b];
        th.held == 1 && th.blocking && (th.pc.TryCas? || th.pc.CheckOwner? || th.pc.CallWait? || th.pc.Asleep?))
    && (forall t :: t in s.threads && t != b ==> Waiting(s.threads[t]))
  }

  /** So the holder that locks its recursive mutex once more goes to sleep on it. */
  lemma HolderBlocksItself(s: State, a: ThreadId, b: ThreadId) returns (s': State)
    requires Initial(s) && SafeStart(s) && s.m.recursive && a in s.threads && b in s.threads && a != b
    ensures Reaches(s, s') && SelfBlocked(s', b) && s'.threads[b].pc.Asleep?
  {
    var s1, x, y := HolderForgotten(s, a, b);
    var s2 := CallAndSteps(s1, b, Lock, 3);
    ReachesTrans(s, s1, s2);
    s' := s2;
    forall t | t in s'.threads && t != b
      ensures Waiting(s'.threads[t])
    {
      if t != a { assert s'.threads[t] == s.threads[t]; }
    }
  }

  /** Without a timeout of its own it never gets out again, whatever the others do. */
  lemma {:induction false} SelfBlockedForever(s: State, b: ThreadId, events: seq<(ThreadId, Event)>, s': State)
    requires SelfBlocked(s, b) && Run(s, events, s', true) && (b, Timeout) !in events
    ensures SelfBlocked(s', b)
    decreases |events|
  {
    if events != [] {
      var (t, e) := events[0];
      assert (b, Timeout) !in events[1..];
      assert events[0] != (b, Timeout);
      assert t != b ==> Waiting(s.threads[t]);
      SelfBlockedForever(Do(s, t, e), b, events[1..], s');
    }
  }

  // ----- what a call does for its caller -----

  /** The steps that t makes in a run. */
  ghost function StepsOf(events: seq<(ThreadId, Event)>, t: ThreadId): (n: nat)
    decreases |events|
  {
    if events == [] then 0
    else (if events[0] == (t, Step) then 1 else 0) + StepsOf(events[1..], t)
  }

  /** All that t does in the run is step. */
  ghost predicate OnlySteps(events: seq<(ThreadId, Event)>, t: ThreadId)
  {
    forall k :: 0 <= k < |events| && events[k].0 == t ==> events[k].1 == Step
  }

  /** The others can change a thread only by waking it. */
  lemma OtherLeaves(s: State, t: ThreadId, u: ThreadId, e: Event)
    requires Enabled(s, u, e) && u != t && t in s.threads
    ensures t in Do(s, u, e).threads
    ensures !s.threads[t].pc.Asleep? ==> Do(s, u, e).threads[t] == s.threads[t]
    ensures s.threads[t].pc.Asleep? ==> Do(s, u, e).threads[t] == s.threads[t] || Do(s, u, e).threads[t] == s.threads[t].(pc := TryCas)
  {
  }

  /** How many of its at most four steps a mtx_trylock has still to make. */
  ghost function TryLockLeft(th: Thread): int
  {
    if th.blocking then -1
    else match th.pc
      case TryCas => 4
      case CheckOwner => 3
      case RecAdd => 2
      case SetOwner => 1
      case RecUndo => 1
      case Idle => 0
      case _ => -1
  }

  /**
   mtx_trylock does not wait: over all interleavings, and whoever has the mutex, it never
   comes to FUTEX_WAIT, the thread can always make its next step, and after at most four of
   its own steps it has returned.
   */
  lemma {:induction false} TryLockNeverWaits(s: State, t: ThreadId, events: seq<(ThreadId, Event)>, s': State, disciplined: bool)
    requires Enabled(s, t, TryLock)
    requires Run(Do(s, t, TryLock), events, s', disciplined) && OnlySteps(events, t)
    ensures t in s'.threads && !s'.threads[t].pc.CallWait? && !s'.threads[t].pc.Asleep?
    ensures s'.threads[t].pc.Idle? || Enabled(s', t, Step)
    ensures StepsOf(events, t) <= 4 && (StepsOf(events, t) == 4 ==> s'.threads[t].pc.Idle?)
  {
    TryLockGoesOn(Do(s, t, TryLock), t, events, s', disciplined);
  }

  lemma {:induction false} TryLockGoesOn(s: State, t: ThreadId, events: seq<(ThreadId, Event)>, s': State, disciplined: bool)
    requires t in s.threads && TryLockLeft(s.threads[t]) >= 0
    requires Run(s, events, s', disciplined) && OnlySteps(events, t)
    ensures t in s'.threads && 0 <= TryLockLeft(s'.threads[t]) <= TryLockLeft(s.threads[t]) - StepsOf(events, t)
    decreases |events|
  {
    if events != [] {
      var (u, e) := events[0];
      if u == t {
        assert events[0].1 == Step;
      } else {
        OtherLeaves(s, t, u, e);
      }
      TryLockGoesOn(Do(s, u, e), t, events[1..], s', disciplined);
    }
  }

  /** In the call of mtx_lock or mtx_timedlock that began when t held the mutex h times. */
  predicate InLock(th: Thread, h: nat)
  {
    th.blocking &&
    match th.pc
    case TryCas | SetOwner | CheckOwner | CallWait | Asleep | RecAdd => th.held == h
    case RecUndo => th.held == h && h >= 1000
    case Idle => th.held == h + 1 || (th.held == h && h >= 1000)
    case _ => false
  }

  /**
   mtx_lock comes back only with the mutex: whatever the others do, and however often signals
   interrupt the wait, a thread that has not run into a timeout is still in the call, or has
   locked once more; but from 1000 locks of a recursive mutex on there is an error.
   */
  lemma LockReturnsHolding(s: State, t: ThreadId, events: seq<(ThreadId, Event)>, s': State)
    requires Inv(s) && Enabled(s, t, Lock) && Run(Do(s, t, Lock), events, s', true)
    requires forall k :: 0 <= k < |events| && events[k].0 == t ==> events[k].1 == Step || events[k].1 == Interrupt
    ensures t in s'.threads && s'.threads[t].pc.Idle? ==>
              s'.threads[t].held == s.threads[t].held + 1
              || (s.m.recursive && s.threads[t].held >= 1000 && s'.threads[t].held == s.threads[t].held)
  {
    InvStep(s, t, Lock);
    LockGoesOn(Do(s, t, Lock), t, s.threads[t].held, events, s');
    assert ThreadOk(s.m, t, s.threads[t]);
  }

  lemma {:induction false} LockGoesOn(s: State, t: ThreadId, h: nat, events: seq<(ThreadId, Event)>, s': State)
    requires Inv(s) && t in s.threads && InLock(s.threads[t], h) && Run(s, events, s', true)
    requires forall k :: 0 <= k < |events| && events[k].0 == t ==> events[k].1 == Step || events[k].1 == Interrupt
    ensures t in s'.threads && InLock(s'.threads[t], h)
    decreases |events|
  {
    if events != [] {
      var (u, e) := events[0];
      if u == t {
        assert e == events[0].1;
        assert ThreadOk(s.m, t, s.threads[t]);
      } else {
        OtherLeaves(s, t, u, e);
      }
      InvStep(s, u, e);
      LockGoesOn(Do(s, u, e), t, h, events[1..], s');
    }
  }

  /** The next own step of t, after whatever the others do. */
  ghost predicate OthersOnly(events: seq<(ThreadId, Event)>, t: ThreadId)
  {
    forall k :: 0 <= k < |events| ==> events[k].0 != t
  }

  /**
   The compare-and-swap of a lock call that finds the lock word 0 wins: whatever the others do
   before the thread's next step, that step makes it the owner and lets it return, holding the
   mutex once more.
   */
  lemma FreeIsTaken(s: State, t: ThreadId, events: seq<(ThreadId, Event)>, s2: State)
    requires Inv(s) && t in s.threads && s.threads[t].pc.TryCas? && s.m.lock == 0
    requires Run(Do(s, t, Step), events, s2, true) && OthersOnly(events, t)
    ensures Enabled(s2, t, Step)
    ensures var s3 := Do(s2, t, Step);
            s3.m.lock == 1 && s3.m.owner == t && s3.threads[t].pc.Idle? && s3.threads[t].held == s.threads[t].held + 1
  {
    InvStep(s, t, Step);
    OthersWait(Do(s, t, Step), t, events, s2);
  }

  lemma {:induction false} OthersLeave(s: State, t: ThreadId, events: seq<(ThreadId, Event)>, s': State)
    requires Inv(s) && t in s.threads && !s.threads[t].pc.Asleep? && Run(s, events, s', true) && OthersOnly(events, t)
    ensures Inv(s') && t in s'.threads && s'.threads[t] == s.threads[t]
    decreases |events|
  {
    if events != [] {
      var (u, e) := events[0];
      assert events[0].0 != t;
      OtherLeaves(s, t, u, e);
      InvStep(s, u, e);
      OthersLeave(Do(s, u, e), t, events[1..], s');
    }
  }

  /**
   A thread that holds nothing and finds the mutex taken does not get it: whatever the others
   do before its next step, that step ends a mtx_trylock with nothing held, and sends a
   mtx_lock to FUTEX_WAIT.
   */
  lemma TakenIsBusy(s: State, t: ThreadId, events: seq<(ThreadId, Event)>, s2: State)
    requires Inv(s) && t in s.threads && s.threads[t].pc.TryCas? && s.m.lock != 0 && s.threads[t].held == 0
    requires Run(Do(s, t, Step), events, s2, true) && OthersOnly(events, t)
    ensures Enabled(s2, t, Step)
    ensures var s3 := Do(s2, t, Step);
            s3.m == s2.m && s3.threads[t].held == 0
            && if s.threads[t].blocking then s3.threads[t].pc.CallWait? else s3.threads[t].pc.Idle?
  {
    InvStep(s, t, Step);
    OthersLeave(Do(s, t, Step), t, events, s2);
    assert ThreadOk(s2.m, t, s2.threads[t]);
  }

  /**
   A thread that finds itself as the owner of a recursive mutex locks it again, without
   waiting and whatever the others do: up to 1000 times it holds the mutex once more, and
   then it gets an error and holds it as often as before.
   */
  lemma HolderLocksAgain(s: State, t: ThreadId, events: seq<(ThreadId, Event)>, s2: State,
                         more: seq<(ThreadId, Event)>, s4: State)
    requires Inv(s) && t in s.threads && s.threads[t].pc.CheckOwner? && s.m.recursive && s.m.owner == t
    requires Run(Do(s, t, Step), events, s2, true) && OthersOnly(events, t)
    ensures Enabled(s2, t, Step)
    ensures s.m.lock < 1000 ==>
              var s3 := Do(s2, t, Step);
              s3.threads[t].pc.Idle? && s3.m.lock == s.m.lock + 1 && s3.threads[t].held == s.threads[t].held + 1
    ensures s.m.lock >= 1000 && Run(Do(s2, t, Step), more, s4, true) && OthersOnly(more, t) ==>
              Enabled(s4, t, Step) &&
              var s5 := Do(s4, t, Step);
              s5.threads[t].pc.Idle? && s5.m.lock == s.m.lock && s5.threads[t].held == s.threads[t].held
  {
    assert ThreadOk(s.m, t, s.threads[t]);
    InvStep(s, t, Step);
    OthersWait(Do(s, t, Step), t, events, s2);
    var s3 := Do(s2, t, Step);
    InvStep(s2, t, Step);
    if s.m.lock >= 1000 && Run(s3, more, s4, true) && OthersOnly(more, t) {
      OthersWait(s3, t, more, s4);
    }
  }

  /** What a mtx_unlock does: it steps, and its FUTEX_WAKE may find somebody asleep. */
  ghost predicate OnlyUnlocks(events: seq<(ThreadId, Event)>, t: ThreadId)
  {
    forall k :: 0 <= k < |events| && events[k].0 == t ==> events[k].1.Step? || events[k].1.Wake?
  }

  /** The accesses and futex calls that t makes in a run. */
  ghost function MovesOf(events: seq<(ThreadId, Event)>, t: ThreadId): (n: nat)
    decreases |events|
  {
    if events == [] then 0 else (if events[0].0 == t then 1 else 0) + MovesOf(events[1..], t)
  }

  /** How many of its at most five moves a mtx_unlock has still to make. */
  ghost function UnlockLeft(th: Thread): int
  {
    match th.pc
    case LoadLock => 5
    case CheckRelease => 4
    case RecDec => 3
    case ClearOwner => 2
    case PlainCas => 2
    case CallWake => 1
    case Idle => 0
    case _ => -1
  }

  /** The count of a thread that unlocks what it held h times: it goes down at the release. */
  ghost predicate InUnlock(th: Thread, h: nat)
  {
    UnlockLeft(th) >= 0 && th.held == if UnlockPc(th.pc) then h else h - 1
  }

  /**
   mtx_unlock does not wait either: whatever the others do, its thread can always go on, and
   after at most five moves it is back with one lock less.
   */
  lemma UnlockReturns(s: State, t: ThreadId, events: seq<(ThreadId, Event)>, s': State)
    requires Inv(s) && Enabled(s, t, Unlock) && s.threads[t].held > 0
    requires Run(Do(s, t, Unlock), events, s', true) && OnlyUnlocks(events, t)
    ensures t in s'.threads && !s'.threads[t].pc.CallWait? && !s'.threads[t].pc.Asleep?
    ensures s'.threads[t].pc.Idle? || Enabled(s', t, Step) || exists u :: Enabled(s', t, Wake(u))
    ensures MovesOf(events, t) <= 5 && (MovesOf(events, t) == 5 ==> s'.threads[t].pc.Idle?)
    ensures s'.threads[t].pc.Idle? ==> s'.threads[t].held == s.threads[t].held - 1
  {
    InvStep(s, t, Unlock);
    UnlockGoesOn(Do(s, t, Unlock), t, s.threads[t].held, events, s');
    if s'.threads[t].pc.CallWake? && !Enabled(s', t, Step) {
      var u :| u in s'.threads && s'.threads[u].pc.Asleep?;
      assert Enabled(s', t, Wake(u));
    }
  }

  lemma UnlockMove(s: State, t: ThreadId, e: Event, h: nat)
    requires Inv(s) && t in s.threads && InUnlock(s.threads[t], h) && Enabled(s, t, e) && (e.Step? || e.Wake?)
    ensures t in Do(s, t, e).threads && InUnlock(Do(s, t, e).threads[t], h)
    ensures UnlockLeft(Do(s, t, e).threads[t]) < UnlockLeft(s.threads[t])
  {
    assert ThreadOk(s.m, t, s.threads[t]);
  }

  lemma OthersLeaveUnlock(s: State, t: ThreadId, u: ThreadId, e: Event, h: nat)
    requires t in s.threads && InUnlock(s.threads[t], h) && Enabled(s, u, e) && u != t
    ensures t in Do(s, u, e).threads && Do(s, u, e).threads[t] == s.threads[t]
  {
    OtherLeaves(s, t, u, e);
  }

  lemma {:induction false} UnlockGoesOn(s: State, t: ThreadId, h: nat, events: seq<(ThreadId, Event)>, s': State)
    requires Inv(s) && t in s.threads && InUnlock(s.threads[t], h)
    requires Run(s, events, s', true) && OnlyUnlocks(events, t)
    ensures t in s'.threads && InUnlock(s'.threads[t], h)
    ensures UnlockLeft(s'.threads[t]) <= UnlockLeft(s.threads[t]) - MovesOf(events, t)
    decreases |events|
  {
    hide Inv, Do, InUnlock, UnlockLeft;
    if events != [] {
      var (u, e) := events[0];
      if u == t {
        assert e == events[0].1;
        UnlockMove(s, t, e, h);
      } else {
        OthersLeaveUnlock(s, t, u, e, h);
      }
      InvStep(s, u, e);
      UnlockGoesOn(Do(s, u, e), t, h, events[1..], s');
    }
  }

  /** A wait that times out ends the call, whatever the others do, with the mutex as it was for the caller. */
  lemma TimeoutReturns(s: State, t: ThreadId, events: seq<(ThreadId, Event)>, s': State)
    requires Inv(s) && Enabled(s, t, Timeout)
    requires Run(Do(s, t, Timeout), events, s', true) && OthersOnly(events, t)
    ensures Do(s, t, Timeout).m == s.m
    ensures t in s'.threads && s'.threads[t].pc.Idle? && s'.threads[t].held == s.threads[t].held
  {
    InvStep(s, t, Timeout);
    OthersLeave(Do(s, t, Timeout), t, events, s');
  }
}
