/** The registry of client sessions, over every interleaving of its threads' atomic steps. */
module Sessions {
  import opened Reads

  /** A client session and the engine session it owns. The call lock is one bit: Python locks have no owner. */
  datatype Client = Client(token: nat, locked: bool, calling: bool, cancelRequested: bool, lastUsed: int, closes: nat)

  datatype Op = OpenOp | CallOp(token: nat) | CancelOp(token: nat) | CloseOp(token: nat) | SweepOp | StopOp

  /** Where a thread is between two atomic steps. */
  datatype Task =
    | Idle
    | Sweeping(op: Op)
    | Draining(expired: seq<nat>, op: Op)
    | Ready(op: Op)
    | InCall(c: nat)
    | Leaving(c: nat)
    | Cancelling(c: nat)
    | Trying(c: nat)
    | Waiting(c: nat)
    | Holding(c: nat)
    | Forgotten(c: nat)
    | Stopping(rest: seq<nat>)

  /** The clients whose call lock a thread has taken and answers for. */
  ghost function Held(t: Task): set<nat> {
    match t
    case InCall(c) => {c}
    case Leaving(c) => {c}
    case Holding(c) => {c}
    case Forgotten(c) => {c}
    case Draining(expired, _) => set c | c in expired
    case _ => {}
  }

  /** What is worth remembering of a run. */
  datatype Event = Opened(c: nat) | Started(c: nat) | Ended(c: nat) | Claimed(c: nat) | Closed(c: nat) | Stopped

  /** The life of one client, as the events tell it. Any event out of turn is an outlaw. */
  datatype Phase = Free | Calling | Doomed | Gone | Outlaw

  function Turn(p: Phase, e: Event, c: nat): Phase {
    match e
    case Started(d) => if d != c then p else if p == Free then Calling else Outlaw
    case Ended(d) => if d != c then p else if p == Calling then Free else Outlaw
    case Claimed(d) => if d != c then p else if p == Free then Doomed else Outlaw
    case Closed(d) => if d != c then p else if p == Doomed then Gone else Outlaw
    case _ => p
  }

  ghost function Life(log: seq<Event>, c: nat): Phase {
    if log == [] then Free else Turn(Life(log[..|log| - 1], c), log[|log| - 1], c)
  }

  /** Nothing is accepted or started after the stop. */
  ghost predicate Quiet(log: seq<Event>) {
    forall i, j :: 0 <= i < j < |log| && log[i] == Stopped ==> !log[j].Started? && !log[j].Opened?
  }

  /** The phase a client must be in, given the thread that holds its lock. */
  ghost function PhaseOf(t: Task): Phase {
    if t.InCall? || t.Leaving? then Calling else Doomed
  }

  predicate Distinct(s: seq<nat>) {
    forall i, j :: 0 <= i < j < |s| ==> s[i] != s[j]
  }

  /** The clients a thread refers to without holding their locks. */
  ghost function Mentioned(t: Task): set<nat> {
    match t
    case Cancelling(c) => {c}
    case Trying(c) => {c}
    case Waiting(c) => {c}
    case Stopping(rest) => set c | c in rest
    case _ => {}
  }

  /** The registry and its threads as one value. The holders and the log are bookkeeping. */
  datatype System = System(
    sessions: map<nat, nat>,
    clients: seq<Client>,
    closed: bool,
    tasks: map<nat, Task>,
    holder: seq<Option<nat>>,
    log: seq<Event>)

  /** A sweep in progress: the thread that holds the mutex, the tokens it has yet to look at, and its clock reading. */
  datatype Scan = Scan(thread: nat, rest: set<nat>, now: int)

  /** The steps that run under the mutex. */
  predicate NeedsMutex(t: Task) {
    t.Sweeping? || (t.Ready? && !t.op.SweepOp?) || t.Holding?
  }

  /** One client's lock, engine session and history agree. */
  ghost predicate ClientOk(s: System, c: int) {
    0 <= c < |s.clients| == |s.holder| ==>
      && s.clients[c].closes <= 1
      && (s.clients[c].locked <==> s.holder[c].Just? || s.clients[c].closes == 1)
      && (s.holder[c].Just? ==>
            && s.clients[c].closes == 0
            && s.holder[c].value in s.tasks && c in Held(s.tasks[s.holder[c].value])
            && Life(s.log, c) == PhaseOf(s.tasks[s.holder[c].value]))
      && (s.holder[c].Nothing? ==> Life(s.log, c) == if s.clients[c].closes == 1 then Gone else Free)
  }

  /** A thread holds the locks it answers for, and refers to clients there are. */
  ghost predicate TaskOk(s: System, t: nat) {
    t in s.tasks && |s.clients| == |s.holder| ==>
      && (forall c :: c in Held(s.tasks[t]) ==> c < |s.clients| && s.holder[c] == Just(t))
      && (forall c :: c in Mentioned(s.tasks[t]) ==> c < |s.clients|)
      && (s.tasks[t].Draining? ==> Distinct(s.tasks[t].expired))
  }

  /** A registered client is the one its token names; its engine session is open, and no thread is about to close it. */
  ghost predicate EntryOk(s: System, k: nat) {
    k in s.sessions && |s.clients| == |s.holder| ==>
      var c := s.sessions[k];
      && c < |s.clients| && s.clients[c].token == k && s.clients[c].closes == 0
      && (s.holder[c].Just? && s.holder[c].value in s.tasks ==>
            !s.tasks[s.holder[c].value].Forgotten? && !s.tasks[s.holder[c].value].Draining?)
  }

  ghost predicate SystemOk(s: System) {
    && |s.clients| == |s.holder|
    && (forall c :: ClientOk(s, c))
    && (forall t :: TaskOk(s, t))
    && (forall k :: EntryOk(s, k))
    && (s.closed <==> Stopped in s.log) && Quiet(s.log)
    && (s.closed ==> s.sessions == map[])
    && (forall c: nat :: c >= |s.clients| ==> Life(s.log, c) == Free)
  }

  lemma {:induction false} Extend(log: seq<Event>, e: Event)
    ensures forall c :: Life(log + [e], c) == Turn(Life(log, c), e, c)
    ensures Quiet(log) && (e.Started? || e.Opened? ==> Stopped !in log) ==> Quiet(log + [e])
    ensures Stopped in log + [e] <==> Stopped in log || e == Stopped
  {
    assert (log + [e])[..|log|] == log;
  }

  // The elementary changes of state, and that each keeps the system in order.

  /** The thread moves on without taking or giving up a lock. */
  ghost function Move(s: System, t: nat, to: Task): System {
    s.(tasks := s.tasks[t := to])
  }

  ghost function TaskOf(s: System, t: nat): Task {
    if t in s.tasks then s.tasks[t] else Idle
  }

  lemma {:induction false} MoveOk(s: System, t: nat, to: Task)
    requires SystemOk(s)
    requires Held(to) == Held(TaskOf(s, t)) && (Held(to) != {} ==> PhaseOf(to) == PhaseOf(TaskOf(s, t)))
    requires to.Draining? ==> Distinct(to.expired)
    requires forall c :: c in Mentioned(to) ==> c < |s.clients|
    requires to.Forgotten? ==> to.c < |s.clients| && s.clients[to.c].token !in s.sessions
    requires to.Draining? && to.expired != [] ==> TaskOf(s, t).Draining?
    ensures SystemOk(Move(s, t, to))
  {
    var s' := Move(s, t, to);
    forall c
      ensures ClientOk(s', c)
    {
      assert ClientOk(s, c);
    }
    forall u
      ensures TaskOk(s', u)
    {
      assert TaskOk(s, u);
    }
    forall k
      ensures EntryOk(s', k)
    {
      assert EntryOk(s, k);
      if k in s.sessions {
        assert ClientOk(s, s.sessions[k]);
      }
    }
  }

  /** The thread takes a free call lock, to run a call or to close the session. */
  ghost function Take(s: System, t: nat, c: nat, to: Task, e: Event): System
    requires c < |s.clients| == |s.holder|
  {
    s.(clients := s.clients[c := s.clients[c].(locked := true)],
       holder := s.holder[c := Just(t)],
       tasks := s.tasks[t := to],
       log := s.log + [e])
  }

  lemma {:induction false} TakeOk(s: System, t: nat, c: nat, to: Task, e: Event)
    requires SystemOk(s) && c < |s.clients| && !s.clients[c].locked
    requires Held(to) == Held(TaskOf(s, t)) + {c} && Mentioned(to) == {}
    requires if to.InCall? then e == Started(c) && !s.closed else e == Claimed(c) && (to.Holding? || to.Draining?)
    requires Held(TaskOf(s, t)) != {} ==> to.Draining? && s.tasks[t].Draining?
    requires to.Draining? ==> s.clients[c].token !in s.sessions && Distinct(to.expired)
    ensures SystemOk(Take(s, t, c, to, e))
  {
    var s' := Take(s, t, c, to, e);
    Extend(s.log, e);
    assert ClientOk(s, c);
    forall d
      ensures ClientOk(s', d)
    {
      assert ClientOk(s, d);
    }
    forall u
      ensures TaskOk(s', u)
    {
      assert TaskOk(s, u);
    }
    forall k
      ensures EntryOk(s', k)
    {
      assert EntryOk(s, k);
      if k in s.sessions {
        assert ClientOk(s, s.sessions[k]);
      }
    }
  }

  /** The thread ends its call and gives the lock back. */
  ghost function Release(s: System, t: nat, c: nat): System
    requires c < |s.clients| == |s.holder|
  {
    s.(clients := s.clients[c := s.clients[c].(locked := false)],
       holder := s.holder[c := Nothing],
       tasks := s.tasks[t := Idle],
       log := s.log + [Ended(c)])
  }

  lemma {:induction false} ReleaseOk(s: System, t: nat, c: nat)
    requires SystemOk(s) && t in s.tasks && s.tasks[t] == Leaving(c)
    ensures c < |s.clients| && SystemOk(Release(s, t, c))
  {
    assert TaskOk(s, t);
    assert c in Held(s.tasks[t]);
    var s' := Release(s, t, c);
    Extend(s.log, Ended(c));
    forall d
      ensures ClientOk(s', d)
    {
      assert ClientOk(s, d);
    }
    forall u
      ensures TaskOk(s', u)
    {
      assert TaskOk(s, u);
    }
    forall k
      ensures EntryOk(s', k)
    {
      assert EntryOk(s, k);
    }
  }

  /** The thread closes the engine session of a client it has claimed, and keeps the lock shut. */
  ghost function CloseEngine(s: System, t: nat, c: nat, to: Task): System
    requires c < |s.clients| == |s.holder|
  {
    s.(clients := s.clients[c := s.clients[c].(closes := s.clients[c].closes + 1)],
       holder := s.holder[c := Nothing],
       tasks := s.tasks[t := to],
       log := s.log + [Closed(c)])
  }

  lemma {:induction false} HeldRest(c: nat, rest: seq<nat>, op: Op, op': Op)
    requires Distinct([c] + rest)
    ensures Held(Draining(rest, op')) == Held(Draining([c] + rest, op)) - {c} && Distinct(rest)
  {
    var all := [c] + rest;
    forall i | 0 <= i < |rest|
      ensures rest[i] == all[i + 1] && rest[i] != c
    {
      assert all[0] != all[i + 1];
    }
  }

  lemma {:induction false} CloseEngineOk(s: System, t: nat, c: nat, to: Task)
    requires SystemOk(s) && t in s.tasks && c in Held(s.tasks[t])
    requires (s.tasks[t].Forgotten? && to.Idle?)
             || (s.tasks[t].Draining? && to.Draining? && s.tasks[t].expired == [c] + to.expired)
    ensures c < |s.clients| && s.clients[c].closes == 0 && s.clients[c].locked
    ensures SystemOk(CloseEngine(s, t, c, to))
  {
    assert TaskOk(s, t) && ClientOk(s, c);
    var s' := CloseEngine(s, t, c, to);
    Extend(s.log, Closed(c));
    if to.Draining? {
      HeldRest(c, to.expired, s.tasks[t].op, to.op);
    }
    forall d
      ensures ClientOk(s', d)
    {
      assert ClientOk(s, d);
    }
    forall u
      ensures TaskOk(s', u)
    {
      assert TaskOk(s, u);
    }
    forall k
      ensures EntryOk(s', k)
    {
      assert EntryOk(s, k);
      if k in s.sessions {
        assert ClientOk(s, s.sessions[k]);
      }
    }
  }

  ghost function Unregister(s: System, k: nat): System {
    s.(sessions := s.sessions - {k})
  }

  lemma {:induction false} UnregisterOk(s: System, k: nat)
    requires SystemOk(s)
    ensures SystemOk(Unregister(s, k))
  {
    var s' := Unregister(s, k);
    forall c
      ensures ClientOk(s', c)
    {
      assert ClientOk(s, c);
    }
    forall u
      ensures TaskOk(s', u)
    {
      assert TaskOk(s, u);
    }
    forall j
      ensures EntryOk(s', j)
    {
      assert EntryOk(s, j);
    }
  }

  /** A new client with an open engine session is registered under a token that nobody had. */
  ghost function Register(s: System, n: Client): System {
    s.(sessions := s.sessions[n.token := |s.clients|],
       clients := s.clients + [n],
       holder := s.holder + [Nothing],
       log := s.log + [Opened(|s.clients|)])
  }

  lemma {:induction false} RegisterOk(s: System, n: Client)
    requires SystemOk(s) && !s.closed && !n.locked && n.closes == 0
    ensures SystemOk(Register(s, n))
  {
    var s' := Register(s, n);
    Extend(s.log, Opened(|s.clients|));
    assert Life(s.log, |s.clients|) == Free;
    forall c
      ensures ClientOk(s', c)
    {
      assert ClientOk(s, c);
    }
    forall u
      ensures TaskOk(s', u)
    {
      assert TaskOk(s, u);
    }
    forall k
      ensures EntryOk(s', k)
    {
      assert EntryOk(s, k);
    }
  }

  /** A client's times and flags change, but not its token, its lock or its engine session. */
  ghost function Touch(s: System, c: nat, n: Client): System
    requires c < |s.clients|
  {
    s.(clients := s.clients[c := n])
  }

  lemma {:induction false} TouchOk(s: System, c: nat, n: Client)
    requires SystemOk(s) && c < |s.clients|
    requires n.token == s.clients[c].token && n.locked == s.clients[c].locked && n.closes == s.clients[c].closes
    ensures SystemOk(Touch(s, c, n))
  {
    var s' := Touch(s, c, n);
    forall d
      ensures ClientOk(s', d)
    {
      assert ClientOk(s, d);
    }
    forall u
      ensures TaskOk(s', u)
    {
      assert TaskOk(s, u);
    }
    forall k
      ensures EntryOk(s', k)
    {
      assert EntryOk(s, k);
    }
  }

  /** The registry refuses everything from now on and forgets its entries. */
  ghost function Stop(s: System): System {
    s.(sessions := map[], closed := true, log := s.log + [Stopped])
  }

  lemma {:induction false} StopOk(s: System)
    requires SystemOk(s)
    ensures SystemOk(Stop(s))
  {
    var s' := Stop(s);
    Extend(s.log, Stopped);
    forall c
      ensures ClientOk(s', c)
    {
      assert ClientOk(s, c);
    }
    forall u
      ensures TaskOk(s', u)
    {
      assert TaskOk(s, u);
    }
  }

  /** A session that a sweep must claim. */
  predicate Overdue(c: Client, now: int, timeout: int) {
    now - c.lastUsed >= timeout && !c.locked
  }

  /** How far a sweep has come: it has decided about every token but the rest. */
  ghost predicate Swept(sessions: map<nat, nat>, clients: seq<Client>, were: map<nat, nat>, had: seq<Client>,
                        rest: set<nat>, now: int, timeout: int) {
    && |clients| == |had|
    && rest <= sessions.Keys <= were.Keys
    && (forall k :: k in were ==> were[k] < |had| && had[were[k]].token == k)
    && (forall k :: k in sessions ==> sessions[k] == were[k])
    && (forall k :: k in rest ==> clients[were[k]] == had[were[k]])
    && (forall k :: k in were && k !in rest ==> (k in sessions <==> !Overdue(had[were[k]], now, timeout)))
  }

  lemma {:induction false} SweptMore(sessions: map<nat, nat>, clients: seq<Client>, were: map<nat, nat>,
                                     had: seq<Client>, rest: set<nat>, now: int, timeout: int, token: nat)
    requires Swept(sessions, clients, were, had, rest, now, timeout) && token in rest
    ensures token in sessions && sessions[token] < |clients|
    ensures var c := sessions[token];
            if Overdue(clients[c], now, timeout) then
              Swept(sessions - {token}, clients[c := clients[c].(locked := true)], were, had, rest - {token}, now,
                    timeout)
            else
              Swept(sessions, clients, were, had, rest - {token}, now, timeout)
  {
  }

  lemma {:induction false} SweepBegins(s: System, now: int, timeout: int)
    requires SystemOk(s)
    ensures Swept(s.sessions, s.clients, s.sessions, s.clients, s.sessions.Keys, now, timeout)
  {
    assert forall k :: k in s.sessions ==> EntryOk(s, k);
  }

  lemma {:induction false} SweptDone(sessions: map<nat, nat>, clients: seq<Client>, were: map<nat, nat>,
                                     had: seq<Client>, now: int, timeout: int)
    requires Swept(sessions, clients, were, had, {}, now, timeout)
    ensures forall k :: k in sessions ==> k in were && sessions[k] == were[k]
    ensures forall k :: k in were ==> were[k] < |had| && (k in sessions <==> !Overdue(had[were[k]], now, timeout))
  {
  }

  // The registry itself: each method is one atomic step of a thread.

  class SessionRegistry {
    const maxSessions: nat
    const idleTimeout: int
    var sessions: map<nat, nat>
    var clients: seq<Client>
    var closed: bool
    var tasks: map<nat, Task>
    // The sweep that holds the mutex from one step to the next. All other mutex blocks are one step.
    var scan: Option<Scan>
    ghost var holder: seq<Option<nat>>
    ghost var log: seq<Event>

    ghost function Now(): System
      reads this
    {
      System(sessions, clients, closed, tasks, holder, log)
    }

    ghost predicate Valid()
      reads this
    {
      SystemOk(Now()) && |sessions| <= maxSessions && ScanOk()
    }

    /** No thread but the one that sweeps changes the entries that it has yet to look at. */
    ghost predicate ScanOk()
      reads this
    {
      scan.Just? ==>
                && scan.value.thread in tasks && tasks[scan.value.thread].Draining?
                && scan.value.rest <= sessions.Keys
    }

    predicate Scanning(t: nat)
      reads this
    {
      scan.Just? && scan.value.thread == t
    }

    constructor (maxSessions: nat, idleTimeout: int)
      requires maxSessions >= 1 && idleTimeout > 0
      ensures Valid() && log == [] && tasks == map[] && sessions == map[]
    {
      scan := Nothing;
      this.maxSessions, this.idleTimeout := maxSessions, idleTimeout;
      sessions, clients, closed, tasks, holder, log := map[], [], false, map[], [], [];
    }

    predicate At(t: nat, k: Task)
      reads this
    {
      t in tasks && tasks[t] == k
    }

    /** A thread begins an operation. All but the stop sweep first. */
    method Begin(t: nat, op: Op)
      requires Valid() && (t in tasks ==> tasks[t].Idle?)
      modifies this
      ensures Valid() && Now() == Move(old(Now()), t, if op.StopOp? then Ready(op) else Sweeping(op))
    {
      MoveOk(Now(), t, if op.StopOp? then Ready(op) else Sweeping(op));
      tasks := tasks[t := if op.StopOp? then Ready(op) else Sweeping(op)];
    }

    /** Takes an expired session out of the registry and keeps its lock for good. */
    method ClaimExpired(t: nat, token: nat, op: Op, expired: seq<nat>)
      requires Valid() && At(t, Draining(expired, op)) && Scanning(t)
      requires token in sessions && sessions[token] < |clients| && !clients[sessions[token]].locked
      modifies this`sessions, this`clients, this`tasks, this`holder, this`log
      ensures SystemOk(Now()) && |sessions| < |old(sessions)|
      ensures var c := old(sessions[token]);
              Now() == Take(Unregister(old(Now()), token), t, c, Draining(expired + [c], op), Claimed(c))
    {
      var c := sessions[token];
      ghost var s := Now();
      assert EntryOk(s, token) && TaskOk(s, t) && ClientOk(s, c);
      UnregisterOk(s, token);
      ghost var to := Draining(expired + [c], op);
      assert Held(to) == Held(Draining(expired, op)) + {c};
      assert c !in Held(Draining(expired, op));
      TakeOk(Unregister(s, token), t, c, to, Claimed(c));
      assert (sessions - {token}).Keys == sessions.Keys - {token};
      sessions := sessions - {token};
      clients := clients[c := clients[c].(locked := true)];
      tasks := tasks[t := Draining(expired + [c], op)];
      holder := holder[c := Just(t)];
      log := log + [Claimed(c)];
    }

    /** Takes the mutex and lists the entries. */
    method BeginSweep(t: nat, op: Op, now: int)
      requires Valid() && At(t, Sweeping(op)) && scan == Nothing
      modifies this
      ensures Valid() && Now() == Move(old(Now()), t, Draining([], op))
      ensures scan == Just(Scan(t, old(sessions.Keys), now))
    {
      MoveOk(Now(), t, Draining([], op));
      tasks := tasks[t := Draining([], op)];
      scan := Just(Scan(t, sessions.Keys, now));
    }

    /** One iteration of a sweep, which holds the mutex: claims the session if it is overdue and not in a call. */
    method SweepOne(t: nat, token: nat)
      requires Valid() && Scanning(t) && token in scan.value.rest
      modifies this
      ensures Valid() && scan == Just(old(scan.value).(rest := old(scan.value.rest) - {token}))
      ensures token in old(sessions) && old(sessions[token]) < |old(clients)|
      ensures var c, task := old(sessions[token]), old(tasks[t]);
              Now() == if Overdue(old(clients)[c], old(scan.value.now), idleTimeout)
                       then Take(Unregister(old(Now()), token), t, c, Draining(task.expired + [c], task.op), Claimed(c))
                       else old(Now())
    {
      assert EntryOk(Now(), token);
      var c := sessions[token];
      scan := Just(scan.value.(rest := scan.value.rest - {token}));
      if Overdue(clients[c], scan.value.now, idleTimeout) {
        ClaimExpired(t, token, tasks[t].op, tasks[t].expired);
      }
    }

    /** Releases the mutex after the last iteration. */
    method EndSweep(t: nat)
      requires Valid() && Scanning(t) && scan.value.rest == {}
      modifies this`scan
      ensures Valid() && scan == Nothing
    {
      scan := Nothing;
    }

    /** What a sweep does when no thread comes between its iterations. */
    method SweepAlone(t: nat, op: Op, now: int)
      requires Valid() && At(t, Sweeping(op)) && scan == Nothing
      modifies this
      ensures Valid() && scan == Nothing && closed == old(closed) && t in tasks && tasks[t].Draining?
      ensures tasks[t].op == op
      ensures forall k :: k in sessions ==> k in old(sessions) && sessions[k] == old(sessions[k])
      ensures forall k :: k in old(sessions) ==> old(sessions[k]) < |old(clients)|
      ensures forall k :: k in old(sessions) ==>
                (k in sessions <==> !Overdue(old(clients[sessions[k]]), now, idleTimeout))
    {
      ghost var were, had := sessions, clients;
      hide SystemOk, Swept;
      SweepBegins(Now(), now, idleTimeout);
      BeginSweep(t, op, now);
      while scan.value.rest != {}
        invariant Valid() && Scanning(t) && scan.value.now == now && closed == old(closed) && tasks[t].op == op
        invariant Swept(sessions, clients, were, had, scan.value.rest, now, idleTimeout)
        decreases |scan.value.rest|
      {
        var token :| token in scan.value.rest;
        SweptMore(sessions, clients, were, had, scan.value.rest, now, idleTimeout, token);
        SweepOne(t, token);
      }
      SweptDone(sessions, clients, were, had, now, idleTimeout);
      EndSweep(t);
    }

    /** Outside the mutex: closes the next claimed session, or goes on when there is none. */
    method Drain(t: nat)
      requires Valid() && t in tasks && tasks[t].Draining? && !Scanning(t)
      modifies this
      ensures Valid()
      ensures var expired, op := old(tasks[t].expired), old(tasks[t].op);
              if expired == [] then Now() == Move(old(Now()), t, if op.SweepOp? then Idle else Ready(op))
              else
                && expired[0] < |old(clients)|
                && Now() == CloseEngine(old(Now()), t, expired[0], Draining(expired[1..], op))
    {
      assert |clients| == |holder|;
      hide SystemOk;
      var expired, op := tasks[t].expired, tasks[t].op;
      if expired == [] {
        var next := if op.SweepOp? then Idle else Ready(op);
        MoveOk(Now(), t, next);
        tasks := tasks[t := next];
        return;
      }
      var c := expired[0];
      assert expired == [c] + expired[1..];
      CloseEngineOk(Now(), t, c, Draining(expired[1..], op));
      clients := clients[c := clients[c].(closes := clients[c].closes + 1)];
      tasks := tasks[t := Draining(expired[1..], op)];
      holder := holder[c := Nothing];
      log := log + [Closed(c)];
    }

    /** Under the mutex: registers a new session, while there is room and the registry is running. */
    method Open(t: nat, token: nat, now: int, engineAccepts: bool) returns (accepted: bool)
      requires Valid() && At(t, Ready(OpenOp)) && scan == Nothing
      modifies this
      ensures Valid() && accepted == (!old(closed) && |old(sessions)| < maxSessions && engineAccepts)
      ensures Now() == Move(if accepted then Register(old(Now()), Client(token, false, false, false, now, 0))
                            else old(Now()), t, Idle)
    {
      accepted := !closed && |sessions| < maxSessions && engineAccepts;
      if accepted {
        RegisterOk(Now(), Client(token, false, false, false, now, 0));
        sessions := sessions[token := |clients|];
        log := log + [Opened(|clients|)];
        clients := clients + [Client(token, false, false, false, now, 0)];
        holder := holder + [Nothing];
      }
      MoveOk(Now(), t, Idle);
      tasks := tasks[t := Idle];
    }

    /** Under the mutex: starts a call, unless the session is missing, busy or claimed, or the registry has stopped. */
    method Call(t: nat, token: nat, now: int) returns (started: bool)
      requires Valid() && At(t, Ready(CallOp(token))) && scan == Nothing
      modifies this
      ensures Valid()
      ensures token in old(sessions) ==> old(sessions[token]) < |old(clients)|
      ensures started == (!old(closed) && token in old(sessions) && !old(clients[sessions[token]].locked))
      ensures if started then
                var c := old(sessions[token]);
                var s := Take(old(Now()), t, c, InCall(c), Started(c));
                Now() == Touch(s, c, s.clients[c].(calling := true, cancelRequested := false))
              else Now() == Move(old(Now()), t, Idle)
    {
      assert EntryOk(Now(), token);
      started := !closed && token in sessions && !clients[sessions[token]].locked;
      if !started {
        MoveOk(Now(), t, Idle);
        tasks := tasks[t := Idle];
        return;
      }
      var c := sessions[token];
      TakeOk(Now(), t, c, InCall(c), Started(c));
      clients := clients[c := clients[c].(locked := true)];
      tasks := tasks[t := InCall(c)];
      holder := holder[c := Just(t)];
      log := log + [Started(c)];
      TouchOk(Now(), c, clients[c].(calling := true, cancelRequested := false));
      clients := clients[c := clients[c].(calling := true, cancelRequested := false)];
    }

    /** Outside the mutex: the call has ended, and its times and flags are written. */
    method Leave(t: nat, c: nat, now: int)
      requires Valid() && At(t, InCall(c))
      modifies this
      ensures Valid() && c < |old(clients)|
      ensures Now() == Move(Touch(old(Now()), c, old(clients)[c].(calling := false, lastUsed := now)), t, Leaving(c))
    {
      assert TaskOk(Now(), t) && c in Held(InCall(c));
      TouchOk(Now(), c, clients[c].(calling := false, lastUsed := now));
      clients := clients[c := clients[c].(calling := false, lastUsed := now)];
      MoveOk(Now(), t, Leaving(c));
      tasks := tasks[t := Leaving(c)];
    }

    /** Outside the mutex: the call lock is given back. */
    method EndCall(t: nat, c: nat)
      requires Valid() && At(t, Leaving(c))
      modifies this
      ensures Valid() && c < |old(clients)| && Now() == Release(old(Now()), t, c)
    {
      ReleaseOk(Now(), t, c);
      clients := clients[c := clients[c].(locked := false)];
      holder := holder[c := Nothing];
      tasks := tasks[t := Idle];
      log := log + [Ended(c)];
    }

    /** Under the mutex: looks a session up, to cancel its call or to close it. */
    method Get(t: nat, token: nat, closing: bool) returns (found: bool)
      requires Valid() && At(t, Ready(if closing then CloseOp(token) else CancelOp(token))) && scan == Nothing
      modifies this
      ensures Valid() && found == (token in old(sessions))
      ensures !found ==> Now() == Move(old(Now()), t, Idle)
      ensures found ==>
                var c := old(sessions[token]);
                Now() == Move(old(Now()), t, if closing then Trying(c) else Cancelling(c))
    {
      assert EntryOk(Now(), token);
      found := token in sessions;
      var next := if !found then Idle else if closing then Trying(sessions[token]) else Cancelling(sessions[token]);
      MoveOk(Now(), t, next);
      tasks := tasks[t := next];
    }

    /** Outside the mutex: asks for the cancellation of a call in progress. */
    method RequestCancel(t: nat, c: nat) returns (asked: bool)
      requires Valid() && At(t, Cancelling(c))
      modifies this
      ensures Valid() && c < |old(clients)| && asked == old(clients[c].calling)
      ensures Now() == Move(if asked then Touch(old(Now()), c, old(clients)[c].(cancelRequested := true))
                            else old(Now()), t, Idle)
    {
      assert TaskOk(Now(), t) && c in Mentioned(Cancelling(c));
      asked := clients[c].calling;
      if asked {
        TouchOk(Now(), c, clients[c].(cancelRequested := true));
        clients := clients[c := clients[c].(cancelRequested := true)];
      }
      MoveOk(Now(), t, Idle);
      tasks := tasks[t := Idle];
    }

    /** Outside the mutex: tries the call lock once; when it is taken, asks for cancellation and waits. */
    method TryToClaim(t: nat, c: nat) returns (claimed: bool)
      requires Valid() && At(t, Trying(c))
      modifies this
      ensures Valid() && c < |old(clients)| && claimed == !old(clients[c].locked)
      ensures Now() == if claimed then Take(old(Now()), t, c, Holding(c), Claimed(c))
                       else Move(Touch(old(Now()), c, old(clients)[c].(cancelRequested := true)), t, Waiting(c))
    {
      assert TaskOk(Now(), t) && c in Mentioned(Trying(c));
      claimed := !clients[c].locked;
      if claimed {
        Claim(t, c);
        return;
      }
      TouchOk(Now(), c, clients[c].(cancelRequested := true));
      clients := clients[c := clients[c].(cancelRequested := true)];
      MoveOk(Now(), t, Waiting(c));
      tasks := tasks[t := Waiting(c)];
    }

    method Claim(t: nat, c: nat)
      requires Valid() && t in tasks && (tasks[t] == Trying(c) || tasks[t] == Waiting(c)) && c < |clients|
      requires !clients[c].locked
      modifies this
      ensures Valid() && Now() == Take(old(Now()), t, c, Holding(c), Claimed(c))
    {
      TakeOk(Now(), t, c, Holding(c), Claimed(c));
      clients := clients[c := clients[c].(locked := true)];
      tasks := tasks[t := Holding(c)];
      holder := holder[c := Just(t)];
      log := log + [Claimed(c)];
    }

    /** Outside the mutex: a waiting close gets the lock, or gives up when its time is over. */
    method WaitToClaim(t: nat, c: nat, timeout: bool) returns (claimed: bool)
      requires Valid() && At(t, Waiting(c))
      modifies this
      ensures Valid() && c < |old(clients)| && claimed == (!old(clients[c].locked) && !timeout)
      ensures Now() == if claimed then Take(old(Now()), t, c, Holding(c), Claimed(c))
                       else if timeout then Move(old(Now()), t, Idle) else old(Now())
    {
      assert TaskOk(Now(), t) && c in Mentioned(Waiting(c));
      claimed := !clients[c].locked && !timeout;
      if claimed {
        Claim(t, c);
      } else if timeout {
        MoveOk(Now(), t, Idle);
        tasks := tasks[t := Idle];
      }
    }

    /** Under the mutex: drops the entry of a claimed session, if it is still there. */
    method Forget(t: nat, c: nat)
      requires Valid() && At(t, Holding(c)) && scan == Nothing
      modifies this
      ensures Valid() && c < |old(clients)|
      ensures var token := old(clients[c].token);
              Now() == Move(if token in old(sessions) && old(sessions[token]) == c then Unregister(old(Now()), token)
                            else old(Now()), t, Forgotten(c))
    {
      assert TaskOk(Now(), t) && c in Held(Holding(c));
      var token := clients[c].token;
      if token in sessions && sessions[token] == c {
        UnregisterOk(Now(), token);
        sessions := sessions - {token};
      }
      ForgottenOk(Now(), t, c);
      tasks := tasks[t := Forgotten(c)];
    }

    /** Outside the mutex: closes the engine session of a claimed and forgotten client. */
    method CloseSession(t: nat, c: nat)
      requires Valid() && At(t, Forgotten(c))
      modifies this
      ensures Valid() && c < |old(clients)| && old(clients[c].closes) == 0
      ensures Now() == CloseEngine(old(Now()), t, c, Idle)
    {
      CloseEngineOk(Now(), t, c, Idle);
      clients := clients[c := clients[c].(closes := clients[c].closes + 1)];
      tasks := tasks[t := Idle];
      holder := holder[c := Nothing];
      log := log + [Closed(c)];
    }

    /** Under the mutex: stops the registry. */
    method StopAll(t: nat)
      requires Valid() && At(t, Ready(StopOp)) && scan == Nothing
      modifies this
      ensures Valid() && closed && sessions == map[] && t in tasks && tasks[t].Stopping?
      ensures Now() == Move(Stop(old(Now())), t, tasks[t])
    {
      var rest: seq<nat>, were := [], sessions.Keys;
      ghost var s := Now();
      while were != {}
        invariant Now() == s && were <= sessions.Keys
        invariant forall c :: c in rest ==> c < |clients|
      {
        var token :| token in were;
        assert EntryOk(s, token);
        rest, were := rest + [sessions[token]], were - {token};
      }
      StopOk(Now());
      closed, sessions, log := true, map[], log + [Stopped];
      MoveOk(Now(), t, Stopping(rest));
      tasks := tasks[t := Stopping(rest)];
    }

    /** Outside the mutex: asks for the cancellation of the next call in progress. */
    method StopOne(t: nat)
      requires Valid() && t in tasks && tasks[t].Stopping?
      modifies this
      ensures Valid() && t in tasks
      ensures sessions == old(sessions) && closed == old(closed) && log == old(log) && holder == old(holder)
      ensures tasks[t] == if old(tasks[t].rest) == [] then Idle else Stopping(old(tasks[t].rest)[1..])
    {
      var rest := tasks[t].rest;
      if rest == [] {
        MoveOk(Now(), t, Idle);
        tasks := tasks[t := Idle];
        return;
      }
      assert TaskOk(Now(), t) && rest[0] in Mentioned(tasks[t]);
      var c := rest[0];
      if clients[c].calling {
        TouchOk(Now(), c, clients[c].(cancelRequested := true));
        clients := clients[c := clients[c].(cancelRequested := true)];
      }
      forall d | d in Mentioned(Stopping(rest[1..]))
        ensures d < |clients|
      {
        assert TaskOk(Now(), t) && d in Mentioned(tasks[t]);
      }
      MoveOk(Now(), t, Stopping(rest[1..]));
      tasks := tasks[t := Stopping(rest[1..])];
    }

    /**
     * The next atomic step of a thread, whatever it is. The choice says what the surroundings do.
     * A thread that needs the mutex waits while a sweep holds it.
     */
    method Advance(t: nat, x: Choice)
      requires Valid()
      modifies this
      ensures Valid()
    {
      var task := if t in tasks then tasks[t] else Idle;
      if Scanning(t) {
        SweepStep(t, x.token);
        return;
      }
      if scan.Just? && NeedsMutex(task) {
        return;
      }
      match task {
        case Idle => Begin(t, x.op);
        case Sweeping(op) => BeginSweep(t, op, x.now);
        case Draining(_, _) => Drain(t);
        case Ready(op) => Enter(t, op, x);
        case InCall(c) => Leave(t, c, x.now);
        case Leaving(c) => EndCall(t, c);
        case Cancelling(c) => var asked := RequestCancel(t, c);
        case Trying(c) => var claimed := TryToClaim(t, c);
        case Waiting(c) => var claimed := WaitToClaim(t, c, x.yes);
        case Holding(c) => Forget(t, c);
        case Forgotten(c) => CloseSession(t, c);
        case Stopping(_) => StopOne(t);
      }
    }

    /** The next step of a sweep: an iteration, in any order, or its end. */
    method SweepStep(t: nat, token: nat)
      requires Valid() && Scanning(t)
      modifies this
      ensures Valid()
    {
      var rest := scan.value.rest;
      if rest == {} {
        EndSweep(t);
      } else if token in rest {
        SweepOne(t, token);
      } else {
        var other :| other in rest;
        SweepOne(t, other);
      }
    }

    /** The block of an operation that runs under the mutex, after its sweep. */
    method Enter(t: nat, op: Op, x: Choice)
      requires Valid() && At(t, Ready(op)) && (op.SweepOp? || scan == Nothing)
      modifies this
      ensures Valid()
    {
      match op {
        case OpenOp => var accepted := Open(t, x.token, x.now, x.yes);
        case CallOp(token) => var started := Call(t, token, x.now);
        case CancelOp(token) => var found := Get(t, token, false);
        case CloseOp(token) => var found := Get(t, token, true);
        case SweepOp => Finish(t);
        case StopOp => StopAll(t);
      }
    }

    method Finish(t: nat)
      requires Valid() && At(t, Ready(SweepOp))
      modifies this
      ensures Valid() && Now() == Move(old(Now()), t, Idle)
    {
      MoveOk(Now(), t, Idle);
      tasks := tasks[t := Idle];
    }

    /** Every interleaving of every set of threads: each entry of the schedule advances one of them. */
    method Run(schedule: seq<(nat, Choice)>)
      requires Valid()
      modifies this
      ensures Valid() && |sessions| <= maxSessions
      ensures forall c :: Life(log, c) != Outlaw
      ensures Quiet(log)
    {
      for i := 0 to |schedule|
        invariant Valid()
      {
        Advance(schedule[i].0, schedule[i].1);
      }
      NoOutlaws(Now());
    }
  }

  /** What the surroundings contribute to one step: the next operation, a token, the time, a yes or no. */
  datatype Choice = Choice(op: Op, token: nat, now: int, yes: bool)

  lemma {:induction false} NoOutlaws(s: System)
    requires SystemOk(s)
    ensures forall c :: Life(s.log, c) != Outlaw
  {
    forall c: nat
      ensures Life(s.log, c) != Outlaw
    {
      assert ClientOk(s, c);
    }
  }

  // What it means that no client's life is an outlaw's.

  lemma {:induction false} LifeBefore(log: seq<Event>, c: nat, i: nat)
    requires Life(log, c) != Outlaw && i <= |log|
    ensures Life(log[..i], c) != Outlaw
    decreases |log| - i
  {
    if i < |log| {
      LifeBefore(log, c, i + 1);
      assert log[..i + 1][..i] == log[..i];
    } else {
      assert log[..i] == log;
    }
  }

  lemma {:induction false} AfterClaim(log: seq<Event>, c: nat, i: nat, j: nat)
    requires Life(log, c) != Outlaw && i < j <= |log| && (log[i] == Claimed(c) || log[i] == Closed(c))
    ensures Life(log[..j], c) == Gone || (Life(log[..j], c) == Doomed && log[i] == Claimed(c))
    decreases j
  {
    LifeBefore(log, c, j);
    assert log[..j][..j - 1] == log[..j - 1];
    if i + 1 < j {
      AfterClaim(log, c, i, j - 1);
    }
  }

  /** Once a session is claimed for closing, no call starts on it and nobody claims it again. */
  lemma {:induction false} NothingAfterClaim(log: seq<Event>, c: nat, i: nat, j: nat)
    requires Life(log, c) != Outlaw && i < j < |log| && log[i] == Claimed(c)
    ensures log[j] != Started(c) && log[j] != Claimed(c)
  {
    AfterClaim(log, c, i, j);
    LifeBefore(log, c, j + 1);
    assert log[..j + 1][..j] == log[..j];
  }

  /** An engine session is closed at most once. */
  lemma {:induction false} ClosedOnce(log: seq<Event>, c: nat, i: nat, j: nat)
    requires Life(log, c) != Outlaw && i < j < |log| && log[i] == Closed(c)
    ensures log[j] != Closed(c)
  {
    AfterClaim(log, c, i, j);
    LifeBefore(log, c, j + 1);
    assert log[..j + 1][..j] == log[..j];
  }

  /** A session is closed only by a thread that claimed it before. */
  lemma {:induction false} ClaimBeforeClose(log: seq<Event>, c: nat, j: nat) returns (i: nat)
    requires Life(log, c) != Outlaw && j < |log| && log[j] == Closed(c)
    ensures i < j && log[i] == Claimed(c)
  {
    LifeBefore(log, c, j + 1);
    assert log[..j + 1][..j] == log[..j];
    i := LastClaim(log[..j], c);
  }

  lemma {:induction false} LastClaim(log: seq<Event>, c: nat) returns (i: nat)
    requires Life(log, c) == Doomed
    ensures i < |log| && log[i] == Claimed(c)
  {
    i := |log| - 1;
    if log[i] != Claimed(c) {
      i := LastClaim(log[..i], c);
    }
  }

  lemma {:induction false} StillCalling(log: seq<Event>, c: nat, i: nat, j: nat)
    requires Life(log, c) != Outlaw && i < j <= |log| && log[i] == Started(c)
    requires forall k :: i < k < j ==> log[k] != Ended(c)
    ensures Life(log[..j], c) == Calling
    decreases j
  {
    LifeBefore(log, c, j);
    assert log[..j][..j - 1] == log[..j - 1];
    if i + 1 < j {
      StillCalling(log, c, i, j - 1);
    }
  }

  /** A session runs one call at a time, and is not claimed while it runs one. */
  lemma {:induction false} OneCallAtATime(log: seq<Event>, c: nat, i: nat, j: nat)
    requires Life(log, c) != Outlaw && i < j < |log| && log[i] == Started(c)
    requires log[j] == Started(c) || log[j] == Claimed(c)
    ensures exists k :: i < k < j && log[k] == Ended(c)
  {
    LifeBefore(log, c, j + 1);
    assert log[..j + 1][..j] == log[..j];
    if forall k :: i < k < j ==> log[k] != Ended(c) {
      StillCalling(log, c, i, j);
    }
  }

  /** A claimed client may be forgotten once no entry points to it. */
  lemma {:induction false} ForgottenOk(s: System, t: nat, c: nat)
    requires SystemOk(s) && t in s.tasks && s.tasks[t] == Holding(c) && c < |s.clients|
    requires s.clients[c].token in s.sessions ==> s.sessions[s.clients[c].token] != c
    ensures SystemOk(Move(s, t, Forgotten(c)))
  {
    var s' := Move(s, t, Forgotten(c));
    forall d
      ensures ClientOk(s', d)
    {
      assert ClientOk(s, d);
    }
    forall u
      ensures TaskOk(s', u)
    {
      assert TaskOk(s, u);
    }
    forall k
      ensures EntryOk(s', k)
    {
      assert EntryOk(s, k);
      if k in s.sessions {
        assert ClientOk(s, s.sessions[k]) && TaskOk(s, t);
      }
    }
  }
}
