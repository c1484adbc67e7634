/** The pool of slow objects, as a state machine over the code between two awaits.

    Any number of `get` calls, shutdowns, termination notices and cleanup passes run interleaved, over
    any number of pools that may share members.  A named lock is held by at most one task; a pool is
    shut down at a moment when none of its named locks is held. */
module PoolProtocol {

  type InternalId = string
  type ExternalId = string
  type LockName = string
  type PoolRef = nat
  type MemberRef = nat
  type TaskRef = nat

  /** How a pool maps the ids it is asked for to the ids of members, and those to lock names. */
  datatype Config = Config(toInternal: (PoolRef, ExternalId) -> InternalId, lockName: InternalId -> LockName)

  datatype Member = Member(
    id: InternalId,
    lastUsed: real,
    shuttingDown: bool,
    shutDown: bool,
    listeners: seq<PoolRef>)
  {
    predicate Running() {
      !shuttingDown && !shutDown
    }
  }

  datatype Pool = Pool(
    shutDown: bool,
    shuttingDown: bool,
    entries: map<InternalId, MemberRef>,
    locks: map<LockName, TaskRef>,
    retention: real)
  {
    predicate Running() {
      !shuttingDown && !shutDown
    }
  }

  /** Where a `get` stands: before the lock, under it before the checks, and in each of its awaits. */
  datatype GetPhase = Waiting | Locked | Replacing | Checking | Creating

  /** Where a cleanup pass stands with its current member. */
  datatype CleanupPhase = Looking | Locking | Rechecking | Closing

  datatype Task =
    | Get(pool: PoolRef, ext: ExternalId, phase: GetPhase)
    | Returned(pool: PoolRef, ext: ExternalId, member: MemberRef, time: real)
    | Raised(pool: PoolRef, ext: ExternalId)
    | Notifying(member: MemberRef, cursor: nat)
    | Notified(member: MemberRef)
    | Cleanup(pool: PoolRef, start: real, members: seq<MemberRef>, at: nat, nextIn: real, progress: CleanupPhase)
    | Cleaned(pool: PoolRef, start: real, members: seq<MemberRef>, end: real, sleep: real)

  datatype State = State(
    now: real,
    members: map<MemberRef, Member>,
    pools: map<PoolRef, Pool>,
    tasks: map<TaskRef, Task>)

  /** One atomic step; the arguments are what the environment chooses. */
  datatype Step =
    | Tick(delay: real)
    | Construct(m: MemberRef, id: InternalId)
    | Touch(m: MemberRef)
    | RequestMemberShutdown(m: MemberRef)
    | StartPool(p: PoolRef)
    | RequestPoolShutdown(p: PoolRef)
    | StartGet(t: TaskRef, p: PoolRef, ext: ExternalId)
    | AcquireForGet(t: TaskRef)
    | Check(t: TaskRef)
    | HookReturned(t: TaskRef)
    | HookRaised(t: TaskRef)
    | Created(t: TaskRef, m: MemberRef)
    | SetShutdown(t: TaskRef, m: MemberRef)
    | Notify(t: TaskRef)
    | StartCleanup(t: TaskRef, p: PoolRef, members: seq<MemberRef>)
    | Look(t: TaskRef, cleanable: bool)
    | AcquireForCleanup(t: TaskRef)
    | Recheck(t: TaskRef, cleanable: bool)
    | Closed(t: TaskRef)
    | EndCleanup(t: TaskRef)

  // ---------------------------------------------------------------- what the code does to its objects

  /** PoolManager.notify_member_shutdown */
  function Unregister<M(==)>(entries: map<InternalId, M>, id: InternalId, m: M): map<InternalId, M> {
    if id in entries && entries[id] == m then entries - {id} else entries
  }

  /** The lock that a task holds. */
  function Held(c: Config, s: State, task: Task): (l: (bool, PoolRef, LockName)) {
    match task
    case Get(p, ext, phase) =>
      (phase != Waiting, p, c.lockName(c.toInternal(p, ext)))
    case Cleanup(p, _, members, at, _, progress) =>
      if at < |members| && members[at] in s.members
      then (progress == Rechecking || progress == Closing, p, c.lockName(s.members[members[at]].id))
      else (false, p, "")
    case _ => (false, 0, "")
  }

  predicate IsGet(s: State, t: TaskRef) {
    t in s.tasks && s.tasks[t].Get? && s.tasks[t].pool in s.pools
  }

  predicate IsCleanup(s: State, t: TaskRef, progress: CleanupPhase) {
    && t in s.tasks && s.tasks[t].Cleanup? && s.tasks[t].pool in s.pools && s.tasks[t].progress == progress
    && s.tasks[t].at < |s.tasks[t].members| && s.tasks[t].members[s.tasks[t].at] in s.members
  }

  /** Anything last used before this moment is too old for the pass. */
  function Oldest(s: State, p: PoolRef, start: real): real
    requires p in s.pools
  {
    start - s.pools[p].retention
  }

  predicate Stale(s: State, task: Task, cleanable: bool)
    requires task.Cleanup? && task.pool in s.pools && task.at < |task.members| && task.members[task.at] in s.members
  {
    var m := s.members[task.members[task.at]];
    cleanable && m.lastUsed < Oldest(s, task.pool, task.start) && m.Running()
  }

  function Min(a: real, b: real): real { if a < b then a else b }

  function Max(a: real, b: real): real { if a < b then b else a }

  ghost predicate Enabled(c: Config, s: State, step: Step) {
    match step
    case Tick(d) => d >= 0.0
    case Construct(m, _) => m !in s.members
    case Touch(m) => m in s.members
    case RequestMemberShutdown(m) => m in s.members
    case StartPool(p) => p in s.pools
    case RequestPoolShutdown(p) => p in s.pools && s.pools[p].locks == map[]
    case StartGet(t, p, _) => t !in s.tasks && p in s.pools
    case AcquireForGet(t) =>
      IsGet(s, t) && s.tasks[t].phase == Waiting && Held(c, s, s.tasks[t]).2 !in s.pools[s.tasks[t].pool].locks
    case Check(t) => IsGet(s, t) && s.tasks[t].phase == Locked
    case HookReturned(t) => IsGet(s, t) && (s.tasks[t].phase == Replacing || s.tasks[t].phase == Checking)
    case HookRaised(t) => IsGet(s, t) && (s.tasks[t].phase in {Replacing, Checking, Creating})
    case Created(t, m) => IsGet(s, t) && s.tasks[t].phase == Creating && m in s.members
    case SetShutdown(t, m) => t !in s.tasks && m in s.members
    case Notify(t) => t in s.tasks && s.tasks[t].Notifying? && s.tasks[t].member in s.members
    case StartCleanup(t, p, ms) =>
      t !in s.tasks && p in s.pools && (forall m :: m in ms <==> m in s.pools[p].entries.Values)
    case Look(t, _) => IsCleanup(s, t, Looking)
    case AcquireForCleanup(t) =>
      IsCleanup(s, t, Locking) && Held(c, s, s.tasks[t]).2 !in s.pools[s.tasks[t].pool].locks
    case Recheck(t, _) => IsCleanup(s, t, Rechecking)
    case Closed(t) => IsCleanup(s, t, Closing)
    case EndCleanup(t) =>
      && t in s.tasks && s.tasks[t].Cleanup? && s.tasks[t].pool in s.pools
      && s.tasks[t].progress == Looking && s.tasks[t].at == |s.tasks[t].members|
  }

  /** A step writes at most one member, one pool and one task. */
  datatype Write<V> = Keep | Set(at: nat, value: V)

  datatype Effect = Effect(delay: real, member: Write<Member>, pool: Write<Pool>, task: Write<Task>)

  function Put<V>(m: map<nat, V>, w: Write<V>): map<nat, V> {
    if w.Set? then m[w.at := w.value] else m
  }

  function Commit(s: State, e: Effect): State {
    State(s.now + e.delay, Put(s.members, e.member), Put(s.pools, e.pool), Put(s.tasks, e.task))
  }

  function OnMember(m: MemberRef, value: Member): Effect {
    Effect(0.0, Set(m, value), Keep, Keep)
  }

  function OnPool(p: PoolRef, value: Pool): Effect {
    Effect(0.0, Keep, Set(p, value), Keep)
  }

  function OnTask(t: TaskRef, value: Task): Effect {
    Effect(0.0, Keep, Keep, Set(t, value))
  }

  /** What a step does. */
  ghost function Outcome(c: Config, s: State, step: Step): Effect
    requires Enabled(c, s, step)
  {
    match step
    case Tick(d) => Effect(d, Keep, Keep, Keep)
    case Construct(m, id) => OnMember(m, Member(id, s.now, false, false, []))
    case Touch(m) => OnMember(m, s.members[m].(lastUsed := s.now))
    case RequestMemberShutdown(m) => OnMember(m, s.members[m].(shuttingDown := true))
    case StartPool(p) => OnPool(p, s.pools[p].(shutDown := false, shuttingDown := false))
    case RequestPoolShutdown(p) => OnPool(p, s.pools[p].(shutDown := true, shuttingDown := true))
    case StartGet(t, p, ext) => OnTask(t, Get(p, ext, Waiting))
    case AcquireForGet(t) => AcquireLock(c, s, t, s.tasks[t].(phase := Locked))
    case Check(t) => CheckOutcome(c, s, t)
    case HookReturned(t) =>
      OnTask(t, s.tasks[t].(phase := if s.tasks[t].phase == Replacing then Checking else Creating))
    case HookRaised(t) => ReleaseLock(c, s, t, Raised(s.tasks[t].pool, s.tasks[t].ext))
    case Created(t, m) => CreatedOutcome(c, s, t, m)
    case SetShutdown(t, m) =>
      Effect(0.0, Set(m, s.members[m].(shutDown := true, shuttingDown := true)), Keep, Set(t, Notifying(m, 0)))
    case Notify(t) => NotifyOutcome(s, t)
    case StartCleanup(t, p, ms) => OnTask(t, Cleanup(p, s.now, ms, 0, s.pools[p].retention, Looking))
    case Look(t, cleanable) => LookOutcome(s, t, cleanable)
    case AcquireForCleanup(t) => AcquireLock(c, s, t, s.tasks[t].(progress := Rechecking))
    case Recheck(t, cleanable) =>
      var m := s.tasks[t].members[s.tasks[t].at];
      if Stale(s, s.tasks[t], cleanable) then
        Effect(0.0, Set(m, s.members[m].(shuttingDown := true)), Keep, Set(t, s.tasks[t].(progress := Closing)))
      else ReleaseLock(c, s, t, Next(s.tasks[t]))
    case Closed(t) => ReleaseLock(c, s, t, Next(s.tasks[t]))
    case EndCleanup(t) =>
      var task := s.tasks[t];
      OnTask(t, Cleaned(task.pool, task.start, task.members, s.now, Max(0.5, task.nextIn - (s.now - task.start))))
  }

  ghost function Apply(c: Config, s: State, step: Step): State
    requires Enabled(c, s, step)
  {
    Commit(s, Outcome(c, s, step))
  }

  function AcquireLock(c: Config, s: State, t: TaskRef, task: Task): Effect
    requires t in s.tasks && (s.tasks[t].Get? || s.tasks[t].Cleanup?) && s.tasks[t].pool in s.pools
  {
    var p := s.tasks[t].pool;
    Effect(0.0, Keep, Set(p, s.pools[p].(locks := s.pools[p].locks[Held(c, s, s.tasks[t]).2 := t])), Set(t, task))
  }

  function ReleaseLock(c: Config, s: State, t: TaskRef, task: Task): Effect
    requires t in s.tasks && (s.tasks[t].Get? || s.tasks[t].Cleanup?) && s.tasks[t].pool in s.pools
  {
    var p := s.tasks[t].pool;
    Effect(0.0, Keep, Set(p, s.pools[p].(locks := s.pools[p].locks - {Held(c, s, s.tasks[t]).2})), Set(t, task))
  }

  /** The pass moves on to its next member. */
  function Next(task: Task): Task
    requires task.Cleanup?
  {
    task.(at := task.at + 1, progress := Looking)
  }

  /** PoolManager.get once it has its lock. */
  function CheckOutcome(c: Config, s: State, t: TaskRef): Effect
    requires IsGet(s, t)
  {
    var task := s.tasks[t];
    var pool := s.pools[task.pool];
    var id := c.toInternal(task.pool, task.ext);
    if !pool.Running() then ReleaseLock(c, s, t, Raised(task.pool, task.ext))
    else if id in pool.entries && pool.entries[id] in s.members then
      var m := pool.entries[id];
      if !s.members[m].shuttingDown then
        var released := ReleaseLock(c, s, t, Returned(task.pool, task.ext, m, s.now));
        released.(member := Set(m, s.members[m].(lastUsed := s.now)))
      else OnTask(t, task.(phase := Replacing))
    else OnTask(t, task.(phase := Checking))
  }

  /** The end of PoolManager._create_or_replace and of the `get` around it. */
  function CreatedOutcome(c: Config, s: State, t: TaskRef, m: MemberRef): Effect
    requires IsGet(s, t) && m in s.members
  {
    var task := s.tasks[t];
    var id := c.toInternal(task.pool, task.ext);
    if s.members[m].id != id then ReleaseLock(c, s, t, Raised(task.pool, task.ext))
    else
      var e := ReleaseLock(c, s, t, Returned(task.pool, task.ext, m, s.now));
      e.(member := Set(m, s.members[m].(listeners := s.members[m].listeners + [task.pool])),
         pool := Set(task.pool, e.pool.value.(entries := s.pools[task.pool].entries[id := m])))
  }

  /** The next turn of the loop in PoolMember.set_shutdown. */
  function NotifyOutcome(s: State, t: TaskRef): Effect
    requires t in s.tasks && s.tasks[t].Notifying? && s.tasks[t].member in s.members
  {
    var m, i := s.tasks[t].member, s.tasks[t].cursor;
    var member := s.members[m];
    if i >= |member.listeners| then OnTask(t, Notified(m))
    else
      var p, moved := member.listeners[i], OnTask(t, Notifying(m, i + 1));
      if p in s.pools then
        moved.(pool := Set(p, s.pools[p].(entries := Unregister(s.pools[p].entries, member.id, m))))
      else moved
  }

  function LookOutcome(s: State, t: TaskRef, cleanable: bool): Effect
    requires IsCleanup(s, t, Looking)
  {
    var task := s.tasks[t];
    if Stale(s, task, cleanable) then OnTask(t, task.(progress := Locking))
    else
      var u := s.members[task.members[task.at]].lastUsed;
      OnTask(t, Next(task.(nextIn := Min(task.nextIn, u - Oldest(s, task.pool, task.start)))))
  }

  // ---------------------------------------------------------------- runs

  ghost predicate Init(s: State) {
    && s.members == map[] && s.tasks == map[]
    && forall p :: p in s.pools ==> s.pools[p].entries == map[] && s.pools[p].locks == map[]
  }

  ghost predicate Takes(c: Config, s: State, step: Step, s': State) {
    Enabled(c, s, step) && s' == Apply(c, s, step)
  }

  /** A run: states, and the step between each two. */
  ghost predicate IsRun(c: Config, states: seq<State>, steps: seq<Step>) {
    && |states| == |steps| + 1 && Init(states[0])
    && forall i :: 0 <= i < |steps| ==> Takes(c, states[i], steps[i], states[i + 1])
  }

  // ---------------------------------------------------------------- the invariants

  /** A lock is taken exactly by the task that holds it. */
  ghost predicate LockedBy(c: Config, s: State, t: TaskRef)
    requires t in s.tasks
  {
    var (held, p, name) := Held(c, s, s.tasks[t]);
    held ==> p in s.pools && name in s.pools[p].locks && s.pools[p].locks[name] == t
  }

  ghost predicate LocksOk(c: Config, s: State) {
    forall t :: t in s.tasks ==> LockedBy(c, s, t)
  }

  /** An entry stands under the id of its member, and the member knows the pool. */
  ghost predicate EntryOk(s: State, p: PoolRef, k: InternalId)
    requires p in s.pools && k in s.pools[p].entries
  {
    var m := s.pools[p].entries[k];
    m in s.members && s.members[m].id == k && p in s.members[m].listeners
  }

  ghost predicate EntriesOk(s: State) {
    forall p, k :: p in s.pools && k in s.pools[p].entries ==> EntryOk(s, p, k)
  }

  predicate InCreation(task: Task) {
    task.Get? && task.phase in {Replacing, Checking, Creating}
  }

  /** The slot a `get` is about to fill is free, or held by a member that is going away; and its pool is running. */
  ghost predicate SlotFree(c: Config, s: State, task: Task)
    requires task.Get?
  {
    task.pool in s.pools ==>
      var pool, id := s.pools[task.pool], c.toInternal(task.pool, task.ext);
      && pool.Running()
      && (id in pool.entries ==> pool.entries[id] in s.members && s.members[pool.entries[id]].shuttingDown)
  }

  ghost predicate SlotOk(c: Config, s: State, t: TaskRef)
    requires t in s.tasks
  {
    InCreation(s.tasks[t]) ==> SlotFree(c, s, s.tasks[t])
  }

  ghost predicate SlotsOk(c: Config, s: State) {
    forall t :: t in s.tasks ==> SlotOk(c, s, t)
  }

  /** As long as a pool holds the member whose termination is being announced, the announcement to it is still to
      come. */
  ghost predicate NoticeOk(s: State, t: TaskRef)
    requires t in s.tasks
  {
    s.tasks[t].Notifying? ==>
      var m, cursor := s.tasks[t].member, s.tasks[t].cursor;
      && m in s.members && cursor <= |s.members[m].listeners|
      && forall p :: p in s.pools && m in s.pools[p].entries.Values ==> p in s.members[m].listeners[cursor..]
  }

  ghost predicate NoticesOk(s: State) {
    forall t :: t in s.tasks ==> NoticeOk(s, t)
  }

  /** A member that was too old when it was looked at is still too old, or has been used since the pass began. */
  ghost predicate Settled(s: State, task: Task, j: nat)
    requires task.Cleanup? && task.pool in s.pools && j < |task.members| && task.members[j] in s.members
  {
    var u := s.members[task.members[j]].lastUsed;
    u < Oldest(s, task.pool, task.start) || task.start <= u
  }

  ghost predicate Accounted(s: State, task: Task, j: nat)
    requires task.Cleanup? && task.pool in s.pools && j < |task.members| && task.members[j] in s.members
  {
    var u, oldest := s.members[task.members[j]].lastUsed, Oldest(s, task.pool, task.start);
    u < oldest || task.nextIn <= u - oldest
  }

  /** What a cleanup pass has already seen expires no sooner than its next turn, unless it was too old. */
  ghost predicate PassOk(s: State, t: TaskRef)
    requires t in s.tasks
  {
    var task := s.tasks[t];
    task.Cleanup? ==>
      && task.pool in s.pools && task.start <= s.now && task.at <= |task.members|
      && task.nextIn <= s.pools[task.pool].retention
      && (forall m :: m in task.members ==> m in s.members)
      && (task.progress != Looking ==> task.at < |task.members| && Settled(s, task, task.at))
      && forall j: nat :: j < task.at ==> Accounted(s, task, j)
  }

  ghost predicate PassesOk(s: State) {
    forall t :: t in s.tasks ==> PassOk(s, t)
  }

  ghost predicate Inv(c: Config, s: State) {
    LocksOk(c, s) && EntriesOk(s) && SlotsOk(c, s) && NoticesOk(s) && PassesOk(s)
  }

  lemma {:induction false} InitInv(c: Config, s: State)
    requires Init(s)
    ensures Inv(c, s)
  {
  }

  // ---------------------------------------------------------------- what one step leaves alone

  /** A member keeps its id, is never running again once it shuts down, gains listeners, and its last use
      only moves to the present. */
  predicate Ages(m: Member, m': Member, now: real) {
    && m'.id == m.id && (m.shuttingDown ==> m'.shuttingDown) && (m.shutDown ==> m'.shutDown)
    && m.listeners <= m'.listeners && (m'.lastUsed == m.lastUsed || m'.lastUsed == now)
  }

  lemma {:induction false} OutcomeFrame(c: Config, s: State, step: Step)
    requires Enabled(c, s, step)
    ensures var e := Outcome(c, s, step);
            && e.delay >= 0.0
            && (e.member.Set? ==> e.member.at in s.members ==> Ages(s.members[e.member.at], e.member.value, s.now))
            && (e.member.Set? ==> e.member.at !in s.members ==> e.member.value.lastUsed == s.now)
            && (e.pool.Set? ==> e.pool.at in s.pools && e.pool.value.retention == s.pools[e.pool.at].retention)
  {
  }

  lemma {:induction false} StepFrame(c: Config, s: State, step: Step, s': State)
    requires Takes(c, s, step, s')
    ensures s'.now >= s.now && s'.pools.Keys == s.pools.Keys
    ensures forall m :: m in s.members ==> m in s'.members && Ages(s.members[m], s'.members[m], s.now)
    ensures forall m :: m in s'.members ==> m in s.members || s'.members[m].lastUsed == s.now
    ensures forall p :: p in s.pools ==> s'.pools[p].retention == s.pools[p].retention
    ensures s.tasks.Keys <= s'.tasks.Keys
  {
    hide Outcome;
    OutcomeFrame(c, s, step);
  }

  // ---------------------------------------------------------------- every step keeps the invariants

  /** How a step may move locks: not at all, or the acting task takes a free one, or it gives its own back. */
  ghost predicate LockMove(c: Config, s: State, e: Effect) {
    || ((e.pool.Keep? || (e.pool.at in s.pools && e.pool.value.locks == s.pools[e.pool.at].locks))
        && (e.task.Set? ==>
              || !Held(c, s, e.task.value).0
              || (e.task.at in s.tasks && Held(c, s, e.task.value) == Held(c, s, s.tasks[e.task.at]))))
    || (e.task.Set? && e.pool.Set? && e.pool.at in s.pools
        && var (held, p, name) := Held(c, s, e.task.value);
           held && e.pool.at == p && name !in s.pools[p].locks
           && e.pool.value.locks == s.pools[p].locks[name := e.task.at])
    || (e.task.Set? && e.pool.Set? && e.pool.at in s.pools && e.task.at in s.tasks && !Held(c, s, e.task.value).0
        && var (held, p, name) := Held(c, s, s.tasks[e.task.at]);
           held && e.pool.at == p && e.pool.value.locks == s.pools[p].locks - {name})
  }

  lemma {:induction false} OutcomeLocks(c: Config, s: State, step: Step)
    requires Inv(c, s) && Enabled(c, s, step)
    ensures LockMove(c, s, Outcome(c, s, step))
  {
    hide LocksOk, EntriesOk, SlotsOk, NoticesOk, PassOk;
  }

  lemma {:induction false} HeldStable(c: Config, s: State, s': State, task: Task)
    requires forall m :: m in s.members ==> m in s'.members && s'.members[m].id == s.members[m].id
    requires task.Cleanup? ==> forall m :: m in task.members ==> m in s.members
    ensures Held(c, s', task) == Held(c, s, task)
  {
  }

  lemma {:induction false} HeldAfter(c: Config, s: State, step: Step, s': State, task: Task)
    requires Takes(c, s, step, s')
    requires task.Cleanup? ==> forall m :: m in task.members ==> m in s.members
    ensures Held(c, s', task) == Held(c, s, task)
  {
    hide Outcome;
    StepFrame(c, s, step, s');
    HeldStable(c, s, s', task);
  }

  lemma {:induction false} LockStep(c: Config, s: State, e: Effect, s': State, t: TaskRef)
    requires s' == Commit(s, e) && LockMove(c, s, e) && LocksOk(c, s)
    requires t in s'.tasks && Held(c, s', s'.tasks[t]) == Held(c, s, s'.tasks[t])
    ensures LockedBy(c, s', t)
  {
    hide Held;
    if t in s.tasks { assert LockedBy(c, s, t); }
    if e.task.Set? && e.task.at in s.tasks { assert LockedBy(c, s, e.task.at); }
  }

  lemma {:induction false} LocksStep(c: Config, s: State, step: Step, s': State)
    requires Inv(c, s) && Takes(c, s, step, s')
    ensures LocksOk(c, s')
  {
    OutcomeLocks(c, s, step);
    OutcomeMembers(c, s, step);
    hide Outcome, Held, LocksOk, EntriesOk, SlotsOk, NoticesOk, PassesOk, LockMove;
    forall t | t in s'.tasks ensures LockedBy(c, s', t) {
      HeldAfter(c, s, step, s', s'.tasks[t]);
      LockStep(c, s, Outcome(c, s, step), s', t);
    }
    AllLocked(c, s');
  }

  lemma {:induction false} AllLocked(c: Config, s: State)
    requires forall t :: t in s.tasks ==> LockedBy(c, s, t)
    ensures LocksOk(c, s)
  {
  }

  /** The members of every pass are members of the state. */
  lemma {:induction false} OutcomeMembers(c: Config, s: State, step: Step)
    requires Inv(c, s) && Enabled(c, s, step)
    ensures forall t :: t in s.tasks && s.tasks[t].Cleanup? ==> forall m :: m in s.tasks[t].members ==> m in s.members
    ensures var task := Outcome(c, s, step).task;
            task.Set? && task.value.Cleanup? ==> forall m :: m in task.value.members ==> m in s.members
  {
    forall t | t in s.tasks && s.tasks[t].Cleanup?
      ensures forall m :: m in s.tasks[t].members ==> m in s.members
    {
      assert PassOk(s, t);
    }
    if step.StartCleanup? {
      forall m | m in step.members ensures m in s.members {
        var k :| k in s.pools[step.p].entries && s.pools[step.p].entries[k] == m;
        assert EntryOk(s, step.p, k);
      }
    }
  }

  /** A pool gains an entry only for a member with that id, which then knows the pool. */
  ghost predicate EntryMove(s: State, e: Effect) {
    e.pool.Set? ==> forall k :: k in e.pool.value.entries ==>
      var m := e.pool.value.entries[k];
      || (e.pool.at in s.pools && k in s.pools[e.pool.at].entries && s.pools[e.pool.at].entries[k] == m)
      || (e.member.Set? && e.member.at == m && e.member.value.id == k && e.pool.at in e.member.value.listeners)
  }

  lemma {:induction false} OutcomeEntries(c: Config, s: State, step: Step)
    requires Enabled(c, s, step)
    ensures EntryMove(s, Outcome(c, s, step))
  {
  }

  lemma {:induction false} EntryStep(s: State, e: Effect, s': State, p: PoolRef, k: InternalId)
    requires s' == Commit(s, e) && EntryMove(s, e) && s'.pools.Keys == s.pools.Keys
    requires p in s'.pools && k in s'.pools[p].entries && (k in s.pools[p].entries ==> EntryOk(s, p, k))
    requires forall m :: m in s.members ==> m in s'.members && Ages(s.members[m], s'.members[m], s.now)
    ensures EntryOk(s', p, k)
  {
  }

  lemma {:induction false} EntriesStep(c: Config, s: State, step: Step, s': State)
    requires Inv(c, s) && Takes(c, s, step, s')
    ensures EntriesOk(s')
  {
    OutcomeEntries(c, s, step);
    StepFrame(c, s, step, s');
    hide Outcome, LocksOk, SlotsOk, NoticesOk, PassesOk, EntryOk;
    forall p, k | p in s'.pools && k in s'.pools[p].entries ensures EntryOk(s', p, k) {
      if k in s.pools[p].entries { assert EntryOk(s, p, k); }
      EntryStep(s, Outcome(c, s, step), s', p, k);
    }
  }

  /** Who may fill a slot, who may stop a pool, and what a `get` knows when it starts creating. */
  ghost predicate SlotMove(c: Config, s: State, e: Effect) {
    && (e.pool.Set? && e.pool.at in s.pools ==>
          && (s.pools[e.pool.at].Running() && !e.pool.value.Running() ==> s.pools[e.pool.at].locks == map[])
          && forall k :: k in e.pool.value.entries ==>
               || (k in s.pools[e.pool.at].entries && s.pools[e.pool.at].entries[k] == e.pool.value.entries[k])
               || (e.task.Set? && e.task.at in s.tasks && InCreation(s.tasks[e.task.at]) && !InCreation(e.task.value)
                   && s.tasks[e.task.at].pool == e.pool.at && c.toInternal(e.pool.at, s.tasks[e.task.at].ext) == k))
    && (e.task.Set? && InCreation(e.task.value) ==> e.pool.Keep? && e.member.Keep? && SlotFree(c, s, e.task.value))
  }

  lemma {:induction false} OutcomeSlots(c: Config, s: State, step: Step)
    requires Inv(c, s) && Enabled(c, s, step)
    ensures SlotMove(c, s, Outcome(c, s, step))
  {
    hide LocksOk, NoticesOk, PassesOk, Held, Stale;
    if step.HookReturned? { assert SlotOk(c, s, step.t); }
    if step.Created? || step.HookRaised? { assert SlotOk(c, s, step.t); }
  }

  lemma {:induction false} SlotStep(c: Config, s: State, e: Effect, s': State, t: TaskRef)
    requires s' == Commit(s, e) && SlotMove(c, s, e) && LocksOk(c, s)
    requires t in s'.tasks && (t in s.tasks ==> SlotOk(c, s, t))
    requires s'.pools.Keys == s.pools.Keys
    requires forall m :: m in s.members ==>
               m in s'.members && (s.members[m].shuttingDown ==> s'.members[m].shuttingDown)
    ensures SlotOk(c, s', t)
  {
    if t in s.tasks { assert LockedBy(c, s, t); }
    if e.task.Set? && e.task.at in s.tasks { assert LockedBy(c, s, e.task.at); }
  }

  lemma {:induction false} SlotsStep(c: Config, s: State, step: Step, s': State)
    requires Inv(c, s) && Takes(c, s, step, s')
    ensures SlotsOk(c, s')
  {
    OutcomeSlots(c, s, step);
    StepFrame(c, s, step, s');
    hide Outcome, SlotMove, LocksOk, EntriesOk, NoticesOk, PassesOk;
    forall t | t in s'.tasks ensures SlotOk(c, s', t) {
      if t in s.tasks { assert SlotOk(c, s, t); }
      SlotStep(c, s, Outcome(c, s, step), s', t);
    }
  }

  /** Which announcements a step starts or takes further. */
  ghost predicate NoticeMove(s: State, e: Effect) {
    && (e.task.Set? && e.task.value.Notifying? ==>
          var m, cursor := e.task.value.member, e.task.value.cursor;
          m in s.members
          && ((cursor == 0 && e.pool.Keep?)
              || (e.task.at in s.tasks && 0 < cursor && s.tasks[e.task.at] == Notifying(m, cursor - 1)
                  && cursor <= |s.members[m].listeners| && e.member.Keep?
                  && var p := s.members[m].listeners[cursor - 1];
                     p in s.pools ==>
                       e.pool == Set(p, s.pools[p].(entries := Unregister(s.pools[p].entries, s.members[m].id, m))))))
    && (e.pool.Set? ==> forall m :: m in e.pool.value.entries.Values ==>
          || (e.pool.at in s.pools && m in s.pools[e.pool.at].entries.Values)
          || (m in s.members && e.member == Set(m, s.members[m].(listeners := s.members[m].listeners + [e.pool.at]))))
  }

  lemma {:induction false} OutcomeNotices(c: Config, s: State, step: Step)
    requires Inv(c, s) && Enabled(c, s, step)
    ensures NoticeMove(s, Outcome(c, s, step))
  {
    hide LocksOk, EntriesOk, SlotsOk, NoticesOk, PassesOk, Held, Stale;
  }

  lemma {:induction false} SliceHas(ps: seq<PoolRef>, from: nat, at: nat)
    requires from <= at < |ps|
    ensures ps[at] in ps[from..]
  {
    assert ps[from..][at - from] == ps[at];
  }

  /** A pool that held the member before the step still has its announcement to come. */
  lemma {:induction false} NoticePending(s: State, e: Effect, s': State, t: TaskRef, p: PoolRef)
    requires s' == Commit(s, e) && EntriesOk(s) && NoticeMove(s, e)
    requires t in s'.tasks && s'.tasks[t].Notifying? && (t in s.tasks ==> NoticeOk(s, t))
    requires p in s'.pools && s'.tasks[t].member in s'.pools[p].entries.Values
    requires p in s.pools && s'.tasks[t].member in s.pools[p].entries.Values
    ensures s'.tasks[t].member in s.members
    ensures s'.tasks[t].cursor <= |s.members[s'.tasks[t].member].listeners|
    ensures p in s.members[s'.tasks[t].member].listeners[s'.tasks[t].cursor..]
  {
    var m, cursor := s'.tasks[t].member, s'.tasks[t].cursor;
    var k :| k in s.pools[p].entries && s.pools[p].entries[k] == m;
    assert EntryOk(s, p, k);
    var listeners := s.members[m].listeners;
    assert listeners[0..] == listeners;
    var moved := e.task.Set? && e.task.at == t;
    if moved && cursor > 0 {
      assert listeners[cursor - 1..] == [listeners[cursor - 1]] + listeners[cursor..];
    }
  }

  lemma {:induction false} NoticeStep(s: State, e: Effect, s': State, t: TaskRef, p: PoolRef)
    requires s' == Commit(s, e) && EntriesOk(s) && NoticeMove(s, e)
    requires t in s'.tasks && s'.tasks[t].Notifying? && (t in s.tasks ==> NoticeOk(s, t))
    requires forall m :: m in s.members ==> m in s'.members && s.members[m].listeners <= s'.members[m].listeners
    requires p in s'.pools && s'.tasks[t].member in s'.pools[p].entries.Values
    ensures s'.tasks[t].member in s.members
    ensures s'.tasks[t].cursor <= |s.members[s'.tasks[t].member].listeners|
    ensures p in s'.members[s'.tasks[t].member].listeners[s'.tasks[t].cursor..]
  {
    var m, cursor := s'.tasks[t].member, s'.tasks[t].cursor;
    var listeners := s.members[m].listeners;
    if p in s.pools && m in s.pools[p].entries.Values {
      NoticePending(s, e, s', t, p);
      var i :| 0 <= i < |listeners[cursor..]| && listeners[cursor..][i] == p;
      SliceHas(s'.members[m].listeners, cursor, cursor + i);
    } else {
      assert s'.members[m].listeners == listeners + [p];
      SliceHas(s'.members[m].listeners, cursor, |listeners|);
    }
  }

  lemma {:induction false} NoticeStays(s: State, e: Effect, s': State, t: TaskRef)
    requires s' == Commit(s, e) && EntriesOk(s) && NoticesOk(s) && NoticeMove(s, e) && t in s'.tasks
    requires forall m :: m in s.members ==> m in s'.members && s.members[m].listeners <= s'.members[m].listeners
    ensures NoticeOk(s', t)
  {
    if t in s.tasks { assert NoticeOk(s, t); }
    if s'.tasks[t].Notifying? {
      var m := s'.tasks[t].member;
      assert m in s.members && s'.tasks[t].cursor <= |s.members[m].listeners|;
      hide NoticeMove, EntriesOk, NoticesOk, Commit;
      forall p | p in s'.pools && m in s'.pools[p].entries.Values
        ensures p in s'.members[m].listeners[s'.tasks[t].cursor..]
      {
        NoticeStep(s, e, s', t, p);
      }
    }
  }

  lemma {:induction false} NoticesStep(c: Config, s: State, step: Step, s': State)
    requires Inv(c, s) && Takes(c, s, step, s')
    ensures NoticesOk(s')
  {
    OutcomeNotices(c, s, step);
    StepFrame(c, s, step, s');
    hide Outcome, Commit, NoticeMove, LocksOk, SlotsOk, PassesOk, EntriesOk, NoticeOk;
    forall t | t in s'.tasks ensures NoticeOk(s', t) {
      NoticeStays(s, Outcome(c, s, step), s', t);
    }
  }

  /** How a step may advance a pass. */
  ghost predicate PassMove(s: State, e: Effect) {
    e.task.Set? && e.task.value.Cleanup? ==>
      var task := e.task.value;
      && task.pool in s.pools
      && (|| (e.member.Keep? && task.start == s.now && task.at == 0 && task.progress == Looking
              && task.nextIn == s.pools[task.pool].retention && forall m :: m in task.members ==> m in s.members)
          || (e.task.at in s.tasks && s.tasks[e.task.at].Cleanup? && PassOk(s, e.task.at)
              && var old' := s.tasks[e.task.at];
                 && task.pool == old'.pool && task.start == old'.start && task.members == old'.members
                 && old'.at < |task.members|
                 && if task.at == old'.at
                    then task.nextIn == old'.nextIn && Settled(s, task, task.at)
                    else task.at == old'.at + 1 && task.progress == Looking && task.nextIn <= old'.nextIn
                         && (Accounted(s, task, old'.at) || Settled(s, task, old'.at))))
  }

  lemma {:induction false} OutcomePasses(c: Config, s: State, step: Step)
    requires Inv(c, s) && Enabled(c, s, step)
    ensures PassMove(s, Outcome(c, s, step))
  {
    OutcomeMembers(c, s, step);
    match step
    case Look(t, _) => assert PassOk(s, t);
    case AcquireForCleanup(t) => assert PassOk(s, t);
    case Recheck(t, _) => assert PassOk(s, t);
    case Closed(t) => assert PassOk(s, t);
    case _ =>
  }

  lemma {:induction false} PassesStep(c: Config, s: State, step: Step, s': State)
    requires Inv(c, s) && Takes(c, s, step, s')
    ensures PassesOk(s')
  {
    OutcomePasses(c, s, step);
    StepFrame(c, s, step, s');
    hide Outcome, LocksOk, EntriesOk, SlotsOk, NoticesOk;
    var e := Outcome(c, s, step);
    forall t | t in s'.tasks ensures PassOk(s', t) {
      if t in s.tasks { assert PassOk(s, t); }
      PassStep(s, e, s', t);
    }
  }

  lemma {:induction false} PassStep(s: State, e: Effect, s': State, t: TaskRef)
    requires s' == Commit(s, e) && s.now <= s'.now && PassMove(s, e)
    requires t in s'.tasks && (t in s.tasks ==> PassOk(s, t))
    requires forall m :: m in s.members ==> m in s'.members && Ages(s.members[m], s'.members[m], s.now)
    requires s'.pools.Keys == s.pools.Keys && forall p :: p in s.pools ==> s'.pools[p].retention == s.pools[p].retention
    ensures PassOk(s', t)
  {
    var task := s'.tasks[t];
    if task.Cleanup? {
      var keep := !(e.task.Set? && e.task.at == t);
      forall j: nat | j < task.at ensures Accounted(s', task, j) {
        if keep || (t in s.tasks && s.tasks[t].Cleanup? && j < s.tasks[t].at) {
          assert Accounted(s, s.tasks[t], j);
        }
      }
    }
  }

  lemma {:induction false} StepInv(c: Config, s: State, step: Step, s': State)
    requires Inv(c, s) && Takes(c, s, step, s')
    ensures Inv(c, s')
  {
    LocksStep(c, s, step, s');
    EntriesStep(c, s, step, s');
    SlotsStep(c, s, step, s');
    NoticesStep(c, s, step, s');
    PassesStep(c, s, step, s');
  }

  lemma {:induction false} RunInv(c: Config, states: seq<State>, steps: seq<Step>, i: nat)
    requires IsRun(c, states, steps) && i < |states|
    ensures Inv(c, states[i])
  {
    if i == 0 {
      InitInv(c, states[0]);
    } else {
      RunInv(c, states, steps, i - 1);
      assert Takes(c, states[i - 1], steps[i - 1], states[i - 1 + 1]);
      StepInv(c, states[i - 1], steps[i - 1], states[i]);
    }
  }

  // ---------------------------------------------------------------- what holds in every run

  /** At most one creation is in flight per internal id of a pool. */
  lemma {:induction false} OneCreationInFlight(c: Config, states: seq<State>, steps: seq<Step>, i: nat, t: TaskRef,
        t': TaskRef)
    requires IsRun(c, states, steps) && i < |states|
    requires t in states[i].tasks && t' in states[i].tasks
    requires InCreation(states[i].tasks[t]) && InCreation(states[i].tasks[t'])
    requires states[i].tasks[t].pool == states[i].tasks[t'].pool
    requires var p := states[i].tasks[t].pool;
             c.toInternal(p, states[i].tasks[t].ext) == c.toInternal(p, states[i].tasks[t'].ext)
    ensures t == t'
  {
    RunInv(c, states, steps, i);
    assert LockedBy(c, states[i], t) && LockedBy(c, states[i], t');
  }

  /** A new member is stored under its own id, in a slot that is free or held by a member that is going
      away, and only in a running pool; every other slot keeps its member. */
  lemma {:induction false} NothingRunningIsDisplaced(c: Config, states: seq<State>, steps: seq<Step>, i: nat,
        p: PoolRef, k: InternalId)
    requires IsRun(c, states, steps) && i < |steps| && p in states[i].pools
    requires k in states[i + 1].pools[p].entries
    requires k in states[i].pools[p].entries ==> states[i].pools[p].entries[k] != states[i + 1].pools[p].entries[k]
    ensures states[i].pools[p].Running()
    ensures k in states[i].pools[p].entries ==>
              var old' := states[i].pools[p].entries[k];
              old' in states[i].members && states[i].members[old'].shuttingDown
    ensures var m := states[i + 1].pools[p].entries[k];
            m in states[i + 1].members && states[i + 1].members[m].id == k
  {
    RunInv(c, states, steps, i);
    RunInv(c, states, steps, i + 1);
    var s, step := states[i], steps[i];
    assert Takes(c, s, step, states[i + 1]);
    OutcomeSlots(c, s, step);
    hide Outcome, LocksOk, NoticesOk, PassesOk;
    assert EntryOk(states[i + 1], p, k);
    var e := Outcome(c, s, step);
    assert e.pool.Set? && e.pool.at == p;
    assert e.task.Set? && e.task.at in s.tasks && SlotOk(c, s, e.task.at);
  }

  /** Until it is started again, a pool that was shut down gains no entry, whatever calls were waiting or in flight. */
  lemma {:induction false} NoGrowthAfterShutdown(c: Config, states: seq<State>, steps: seq<Step>, i: nat, j: nat,
        p: PoolRef)
    requires IsRun(c, states, steps) && i <= j < |states| && p in states[i].pools && !states[i].pools[p].Running()
    requires forall n :: i <= n < j ==> steps[n] != StartPool(p)
    ensures p in states[j].pools && !states[j].pools[p].Running()
    ensures states[j].pools[p].entries.Keys <= states[i].pools[p].entries.Keys
    decreases j
  {
    if i < j {
      NoGrowthAfterShutdown(c, states, steps, i, j - 1, p);
      assert Takes(c, states[j - 1], steps[j - 1], states[j - 1 + 1]);
      StepFrame(c, states[j - 1], steps[j - 1], states[j]);
      StaysDown(c, states[j - 1], steps[j - 1], p);
      forall k | k in states[j].pools[p].entries ensures k in states[j - 1].pools[p].entries {
        if k !in states[j - 1].pools[p].entries {
          NothingRunningIsDisplaced(c, states, steps, j - 1, p, k);
        }
      }
    }
  }

  lemma {:induction false} StaysDown(c: Config, s: State, step: Step, p: PoolRef)
    requires Enabled(c, s, step) && p in s.pools && !s.pools[p].Running() && step != StartPool(p)
    ensures !Apply(c, s, step).pools[p].Running()
  {
  }

  /** When set_shutdown ends, no pool holds the member any more, not even one that took it in meanwhile. */
  lemma {:induction false} ShutdownReachesEveryPool(c: Config, states: seq<State>, steps: seq<Step>, i: nat,
        t: TaskRef, p: PoolRef)
    requires IsRun(c, states, steps) && i < |steps| && steps[i] == Notify(t)
    requires t in states[i + 1].tasks && states[i + 1].tasks[t].Notified? && p in states[i].pools
    ensures p in states[i + 1].pools && states[i + 1].tasks[t].member !in states[i + 1].pools[p].entries.Values
    ensures var m := states[i + 1].tasks[t].member;
            m in states[i + 1].members && states[i + 1].members[m].shuttingDown && states[i + 1].members[m].shutDown
  {
    RunInv(c, states, steps, i);
    RunReturns(c, states, steps, i + 1);
    assert NotifierOk(states[i + 1], t);
    assert Takes(c, states[i], steps[i], states[i + 1]);
    assert NoticeOk(states[i], t);
  }

  /** A termination notice removes no entry of another member: the replacement of a stale member stays. */
  lemma {:induction false} LateNoticeKeepsReplacement(c: Config, states: seq<State>, steps: seq<Step>, i: nat,
        t: TaskRef, p: PoolRef, k: InternalId)
    requires IsRun(c, states, steps) && i < |steps| && steps[i] == Notify(t)
    requires p in states[i].pools && k in states[i].pools[p].entries
    ensures p in states[i + 1].pools && t in states[i].tasks && states[i].tasks[t].Notifying?
    ensures if k in states[i + 1].pools[p].entries
            then states[i + 1].pools[p].entries[k] == states[i].pools[p].entries[k]
            else states[i].pools[p].entries[k] == states[i].tasks[t].member
  {
    RunInv(c, states, steps, i);
    assert Takes(c, states[i], steps[i], states[i + 1]);
    assert EntryOk(states[i], p, k) && NoticeOk(states[i], t);
  }

  /** A `get` that finds a member hands out one with the right id that was running and counts as used now. */
  lemma {:induction false} FoundMemberIsRunning(c: Config, states: seq<State>, steps: seq<Step>, i: nat, t: TaskRef)
    requires IsRun(c, states, steps) && i < |steps| && steps[i] == Check(t)
    requires t in states[i + 1].tasks && states[i + 1].tasks[t].Returned?
    ensures t in states[i].tasks && states[i].tasks[t].Get?
    ensures var s, s' := states[i], states[i + 1];
            var m := s'.tasks[t].member;
            && m in s.members && !s.members[m].shuttingDown
            && s.members[m].id == c.toInternal(s.tasks[t].pool, s.tasks[t].ext)
            && m in s'.members && s'.members[m].lastUsed == s.now == s'.tasks[t].time
  {
    RunInv(c, states, steps, i);
    assert Takes(c, states[i], steps[i], states[i + 1]);
    var task := states[i].tasks[t];
    var id := c.toInternal(task.pool, task.ext);
    assert id in states[i].pools[task.pool].entries ==> EntryOk(states[i], task.pool, id);
  }

  lemma {:induction false} UsedInThePast(c: Config, states: seq<State>, steps: seq<Step>, i: nat, m: MemberRef)
    requires IsRun(c, states, steps) && i < |states| && m in states[i].members
    ensures states[i].members[m].lastUsed <= states[i].now
  {
    if i > 0 {
      assert Takes(c, states[i - 1], steps[i - 1], states[i - 1 + 1]);
      StepFrame(c, states[i - 1], steps[i - 1], states[i]);
      if m in states[i - 1].members {
        UsedInThePast(c, states, steps, i - 1, m);
      }
    }
  }

  lemma {:induction false} LastUseGrows(c: Config, states: seq<State>, steps: seq<Step>, i: nat, j: nat, m: MemberRef)
    requires IsRun(c, states, steps) && i <= j < |states| && m in states[i].members
    ensures m in states[j].members && states[i].members[m].lastUsed <= states[j].members[m].lastUsed
    decreases j
  {
    if i < j {
      LastUseGrows(c, states, steps, i, j - 1, m);
      UsedInThePast(c, states, steps, j - 1, m);
      assert Takes(c, states[j - 1], steps[j - 1], states[j - 1 + 1]);
      StepFrame(c, states[j - 1], steps[j - 1], states[j]);
    }
  }

  /** A cleanup pass shuts a member down only when every `get` that found it did so before the retention
      time preceding the start of the pass. */
  lemma {:induction false} CleanupSparesUsedMembers(
      c: Config, states: seq<State>, steps: seq<Step>, i: nat, j: nat, t: TaskRef, t': TaskRef, cleanable: bool)
    requires IsRun(c, states, steps) && i < j < |steps|
    requires steps[i] == Check(t) && t in states[i + 1].tasks && states[i + 1].tasks[t].Returned?
    requires steps[j] == Recheck(t', cleanable) && IsCleanup(states[j], t', Rechecking)
    requires var pass := states[j].tasks[t'];
             && pass.members[pass.at] == states[i + 1].tasks[t].member
             && states[j + 1].tasks[t'].Cleanup? && states[j + 1].tasks[t'].progress == Closing
    ensures states[i + 1].tasks[t].time < Oldest(states[j], states[j].tasks[t'].pool, states[j].tasks[t'].start)
  {
    FoundMemberIsRunning(c, states, steps, i, t);
    assert Takes(c, states[j], steps[j], states[j + 1]);
    LastUseGrows(c, states, steps, i + 1, j, states[i + 1].tasks[t].member);
  }

  /** The same for a member that its user has touched. */
  lemma {:induction false} CleanupSparesTouchedMembers(c: Config, states: seq<State>, steps: seq<Step>, i: nat, j: nat,
        m: MemberRef, t: TaskRef, cleanable: bool)
    requires IsRun(c, states, steps) && i < j < |steps| && steps[i] == Touch(m)
    requires steps[j] == Recheck(t, cleanable) && IsCleanup(states[j], t, Rechecking)
    requires var pass := states[j].tasks[t];
             && pass.members[pass.at] == m
             && states[j + 1].tasks[t].Cleanup? && states[j + 1].tasks[t].progress == Closing
    ensures states[i].now < Oldest(states[j], states[j].tasks[t].pool, states[j].tasks[t].start)
  {
    assert Takes(c, states[i], steps[i], states[i + 1]);
    assert Takes(c, states[j], steps[j], states[j + 1]);
    LastUseGrows(c, states, steps, i + 1, j, m);
  }

  /** The pass that ends now wakes up again after at least half a second, and for every member it saw
      that is not too old no later than that member expires, or half a second from now. */
  lemma {:induction false} NextCleanupIsInTime(c: Config, states: seq<State>, steps: seq<Step>, i: nat, t: TaskRef,
        m: MemberRef)
    requires IsRun(c, states, steps) && i < |steps| && steps[i] == EndCleanup(t) && t in states[i].tasks
    requires states[i].tasks[t].Cleanup? && states[i].tasks[t].pool in states[i].pools && m in states[i].members
    requires var pass, u := states[i].tasks[t], states[i].members[m].lastUsed;
             || (m in pass.members && u >= Oldest(states[i], pass.pool, pass.start))
             || u >= pass.start
    ensures t in states[i + 1].tasks && states[i + 1].tasks[t].Cleaned?
    ensures var end, sleep := states[i].now, states[i + 1].tasks[t].sleep;
            var u, retention := states[i].members[m].lastUsed, states[i].pools[states[i].tasks[t].pool].retention;
            end + 0.5 <= end + sleep <= Max(end + 0.5, u + retention)
  {
    RunInv(c, states, steps, i);
    assert Takes(c, states[i], steps[i], states[i + 1]);
    assert PassOk(states[i], t);
    var pass := states[i].tasks[t];
    if m in pass.members {
      var j: nat :| j < |pass.members| && pass.members[j] == m;
      assert Accounted(states[i], pass, j);
    }
  }

  // ---------------------------------------------------------------- what a get has returned

  /** A member that is being announced as gone is shut down. */
  ghost predicate NotifierOk(s: State, t: TaskRef)
    requires t in s.tasks
  {
    (s.tasks[t].Notifying? || s.tasks[t].Notified?) ==>
      var m := s.tasks[t].member;
      m in s.members && s.members[m].shuttingDown && s.members[m].shutDown
  }

  /** A member that was returned is a member with the right id, and as long as it is not going away the pool holds
      it. */
  ghost predicate ReturnedOk(c: Config, s: State, t: TaskRef)
    requires t in s.tasks
  {
    s.tasks[t].Returned? ==>
      var p, m, id := s.tasks[t].pool, s.tasks[t].member, c.toInternal(s.tasks[t].pool, s.tasks[t].ext);
      && p in s.pools && m in s.members && s.members[m].id == id
      && (!s.members[m].shuttingDown ==> id in s.pools[p].entries && s.pools[p].entries[id] == m)
  }

  ghost predicate HandedOutOk(c: Config, s: State) {
    forall t :: t in s.tasks ==> NotifierOk(s, t) && ReturnedOk(c, s, t)
  }

  /** The entries that a step takes out of a pool are those of members that are going away. */
  ghost predicate LeaveMove(s: State, e: Effect) {
    e.pool.Set? && e.pool.at in s.pools ==>
      forall k :: k in s.pools[e.pool.at].entries ==>
        var m := s.pools[e.pool.at].entries[k];
        || (k in e.pool.value.entries && e.pool.value.entries[k] == m)
        || (m in s.members && s.members[m].shuttingDown)
  }

  /** What a step returns stands in the pool then. */
  ghost predicate ReturnMove(c: Config, s: State, e: Effect) {
    e.task.Set? && e.task.value.Returned? ==>
      var p, m, id := e.task.value.pool, e.task.value.member, c.toInternal(e.task.value.pool, e.task.value.ext);
      && p in s.pools && m in s.members && s.members[m].id == id
      && (e.member.Set? ==> e.member.at == m && e.member.value.shuttingDown == s.members[m].shuttingDown)
      && e.pool.Set? && e.pool.at == p && id in e.pool.value.entries && e.pool.value.entries[id] == m
  }

  /** Only members that are shut down are announced. */
  ghost predicate AnnounceMove(s: State, e: Effect) {
    e.task.Set? && (e.task.value.Notifying? || e.task.value.Notified?) ==>
      var m := e.task.value.member;
      if e.member.Set? then e.member.at == m && e.member.value.shuttingDown && e.member.value.shutDown
      else m in s.members && s.members[m].shuttingDown && s.members[m].shutDown
  }

  lemma {:induction false} OutcomeLeaves(c: Config, s: State, step: Step)
    requires Inv(c, s) && HandedOutOk(c, s) && Enabled(c, s, step)
    ensures LeaveMove(s, Outcome(c, s, step))
  {
    if step.Created? { assert SlotOk(c, s, step.t); }
    if step.Notify? { assert NotifierOk(s, step.t); }
    hide LocksOk, NoticesOk, PassesOk, EntriesOk, SlotsOk, HandedOutOk, Held, Stale;
  }

  lemma {:induction false} OutcomeReturns(c: Config, s: State, step: Step)
    requires Inv(c, s) && Enabled(c, s, step)
    ensures ReturnMove(c, s, Outcome(c, s, step))
  {
    if step.Check? {
      var task := s.tasks[step.t];
      var id := c.toInternal(task.pool, task.ext);
      if id in s.pools[task.pool].entries { assert EntryOk(s, task.pool, id); }
    }
    hide LocksOk, NoticesOk, PassesOk, EntriesOk, SlotsOk, Held, Stale;
  }

  lemma {:induction false} OutcomeAnnounces(c: Config, s: State, step: Step)
    requires HandedOutOk(c, s) && Enabled(c, s, step)
    ensures AnnounceMove(s, Outcome(c, s, step))
  {
    if step.Notify? { assert NotifierOk(s, step.t); }
    hide HandedOutOk, Held, Stale;
  }

  lemma {:induction false} ReturnStep(c: Config, s: State, e: Effect, s': State, t: TaskRef)
    requires s' == Commit(s, e) && LeaveMove(s, e) && ReturnMove(c, s, e) && AnnounceMove(s, e)
    requires s'.pools.Keys == s.pools.Keys
    requires t in s'.tasks && (t in s.tasks ==> NotifierOk(s, t) && ReturnedOk(c, s, t))
    requires forall m :: m in s.members ==> m in s'.members && Ages(s.members[m], s'.members[m], s.now)
    ensures NotifierOk(s', t) && ReturnedOk(c, s', t)
  {
  }

  lemma {:induction false} RunReturns(c: Config, states: seq<State>, steps: seq<Step>, i: nat)
    requires IsRun(c, states, steps) && i < |states|
    ensures HandedOutOk(c, states[i])
  {
    if i > 0 {
      var s, step := states[i - 1], steps[i - 1];
      RunReturns(c, states, steps, i - 1);
      RunInv(c, states, steps, i - 1);
      assert Takes(c, s, step, states[i - 1 + 1]);
      OutcomeLeaves(c, s, step);
      OutcomeReturns(c, s, step);
      OutcomeAnnounces(c, s, step);
      StepFrame(c, s, step, states[i]);
      hide Outcome, LeaveMove, ReturnMove, AnnounceMove, Inv, NotifierOk, ReturnedOk, Commit;
      forall t | t in states[i].tasks ensures NotifierOk(states[i], t) && ReturnedOk(c, states[i], t) {
        ReturnStep(c, s, Outcome(c, s, step), states[i], t);
      }
    }
  }

  /** In every run: a member that some `get` of a pool has returned, and that is not going away, stands in that pool
      under its id. */
  lemma {:induction false} ReturnedMemberIsInPool(c: Config, states: seq<State>, steps: seq<Step>, i: nat, t: TaskRef)
    requires IsRun(c, states, steps) && i < |states| && t in states[i].tasks && states[i].tasks[t].Returned?
    ensures var s, task := states[i], states[i].tasks[t];
            var id := c.toInternal(task.pool, task.ext);
            && task.pool in s.pools && task.member in s.members && s.members[task.member].id == id
            && (!s.members[task.member].shuttingDown ==>
                  id in s.pools[task.pool].entries && s.pools[task.pool].entries[id] == task.member)
  {
    RunReturns(c, states, steps, i);
    assert ReturnedOk(c, states[i], t);
  }

  /** Two calls for one internal id of a pool return one member, or one of the two is going away. */
  lemma {:induction false} OneMemberPerId(c: Config, states: seq<State>, steps: seq<Step>, i: nat, t: TaskRef,
        t': TaskRef)
    requires IsRun(c, states, steps) && i < |states| && t in states[i].tasks && t' in states[i].tasks
    requires var task, task' := states[i].tasks[t], states[i].tasks[t'];
             && task.Returned? && task'.Returned? && task.pool == task'.pool
             && c.toInternal(task.pool, task.ext) == c.toInternal(task.pool, task'.ext)
    ensures var s, m, m' := states[i], states[i].tasks[t].member, states[i].tasks[t'].member;
            m in s.members && m' in s.members
            && (m == m' || s.members[m].shuttingDown || s.members[m'].shuttingDown)
  {
    ReturnedMemberIsInPool(c, states, steps, i, t);
    ReturnedMemberIsInPool(c, states, steps, i, t');
  }

  /** A later call in a running pool finds the member that an earlier call has returned, unless it is going away. */
  lemma {:induction false} LaterGetFindsIt(c: Config, states: seq<State>, steps: seq<Step>, i: nat, t: TaskRef,
        t': TaskRef)
    requires IsRun(c, states, steps) && i < |steps| && steps[i] == Check(t')
    requires t in states[i].tasks && states[i].tasks[t].Returned? && t' in states[i].tasks && states[i].tasks[t'].Get?
    requires var task, task' := states[i].tasks[t], states[i].tasks[t'];
             && task.pool == task'.pool && c.toInternal(task.pool, task.ext) == c.toInternal(task.pool, task'.ext)
             && task.pool in states[i].pools && states[i].pools[task.pool].Running()
             && task.member in states[i].members && !states[i].members[task.member].shuttingDown
    ensures t' in states[i + 1].tasks
    ensures states[i + 1].tasks[t'] ==
            Returned(states[i].tasks[t].pool, states[i].tasks[t'].ext, states[i].tasks[t].member, states[i].now)
  {
    ReturnedMemberIsInPool(c, states, steps, i, t);
    assert Takes(c, states[i], steps[i], states[i + 1]);
  }

  /** From the request on, whatever else happens, no `get` finds the member any more. */
  lemma {:induction false} NeverFoundAgain(c: Config, states: seq<State>, steps: seq<Step>, i: nat, j: nat,
        m: MemberRef, t: TaskRef)
    requires IsRun(c, states, steps) && i < j < |steps| && steps[i] == RequestMemberShutdown(m) && steps[j] == Check(t)
    ensures m in states[j].members && states[j].members[m].shuttingDown
    ensures t in states[j + 1].tasks ==> states[j + 1].tasks[t].Returned? ==> states[j + 1].tasks[t].member != m
  {
    assert Takes(c, states[i], steps[i], states[i + 1]);
    StaysShuttingDown(c, states, steps, i + 1, j, m);
    if t in states[j + 1].tasks && states[j + 1].tasks[t].Returned? {
      FoundMemberIsRunning(c, states, steps, j, t);
    }
  }

  lemma {:induction false} StaysShuttingDown(c: Config, states: seq<State>, steps: seq<Step>, i: nat, j: nat,
        m: MemberRef)
    requires IsRun(c, states, steps) && i <= j < |states| && m in states[i].members && states[i].members[m].shuttingDown
    ensures m in states[j].members && states[j].members[m].shuttingDown
    decreases j
  {
    if i < j {
      StaysShuttingDown(c, states, steps, i, j - 1, m);
      assert Takes(c, states[j - 1], steps[j - 1], states[j - 1 + 1]);
      StepFrame(c, states[j - 1], steps[j - 1], states[j]);
    }
  }

  /** A pool that is started runs until it is shut down, and one that is shut down does not run until it is started. */
  lemma {:induction false} RunsFromStartToShutdown(c: Config, states: seq<State>, steps: seq<Step>, i: nat, j: nat,
        p: PoolRef)
    requires IsRun(c, states, steps) && i < j < |states| && p in states[i].pools
    requires steps[i] == StartPool(p) || steps[i] == RequestPoolShutdown(p)
    requires forall n :: i < n < j ==> steps[n] != StartPool(p) && steps[n] != RequestPoolShutdown(p)
    ensures p in states[j].pools && (states[j].pools[p].Running() <==> steps[i] == StartPool(p))
    decreases j
  {
    var s, step := states[j - 1], steps[j - 1];
    assert Takes(c, s, step, states[j - 1 + 1]);
    if i < j - 1 {
      RunsFromStartToShutdown(c, states, steps, i, j - 1, p);
      SameStanding(c, s, step, p);
    }
  }

  lemma {:induction false} SameStanding(c: Config, s: State, step: Step, p: PoolRef)
    requires Enabled(c, s, step) && p in s.pools && step != StartPool(p) && step != RequestPoolShutdown(p)
    ensures p in Apply(c, s, step).pools && Apply(c, s, step).pools[p].Running() == s.pools[p].Running()
  {
  }

  // ---------------------------------------------------------------- no lock is lost

  ghost predicate LockHeld(c: Config, s: State, p: PoolRef, name: LockName)
    requires p in s.pools && name in s.pools[p].locks
  {
    var t := s.pools[p].locks[name];
    t in s.tasks && Held(c, s, s.tasks[t]) == (true, p, name)
  }

  ghost predicate LocksHeld(c: Config, s: State) {
    forall p, name :: p in s.pools && name in s.pools[p].locks ==> LockHeld(c, s, p, name)
  }

  /** A step takes a lock for the task that then holds it, and a task that gives up a lock takes it out. */
  ghost predicate HoldMove(c: Config, s: State, e: Effect) {
    && (e.pool.Set? ==> e.pool.at in s.pools && forall name :: name in e.pool.value.locks ==>
          || (name in s.pools[e.pool.at].locks && s.pools[e.pool.at].locks[name] == e.pool.value.locks[name])
          || (e.task.Set? && e.pool.value.locks[name] == e.task.at
              && Held(c, s, e.task.value) == (true, e.pool.at, name)))
    && (e.task.Set? && e.task.at in s.tasks ==>
          var (held, p, name) := Held(c, s, s.tasks[e.task.at]);
          held ==>
            || Held(c, s, e.task.value) == (held, p, name)
            || (e.pool.Set? && e.pool.at == p && name !in e.pool.value.locks))
  }

  lemma {:induction false} OutcomeHolds(c: Config, s: State, step: Step)
    requires Inv(c, s) && Enabled(c, s, step)
    ensures HoldMove(c, s, Outcome(c, s, step))
  {
    hide LocksOk, EntriesOk, SlotsOk, NoticesOk, PassOk;
  }

  lemma {:induction false} HoldStep(c: Config, s: State, e: Effect, s': State, p: PoolRef, name: LockName)
    requires s' == Commit(s, e) && HoldMove(c, s, e) && LocksHeld(c, s) && s'.pools.Keys == s.pools.Keys
    requires p in s'.pools && name in s'.pools[p].locks
    requires forall t :: t in s'.tasks ==> Held(c, s', s'.tasks[t]) == Held(c, s, s'.tasks[t])
    ensures LockHeld(c, s', p, name)
  {
    hide Held;
    if name in s.pools[p].locks { assert LockHeld(c, s, p, name); }
  }

  lemma {:induction false} RunHolds(c: Config, states: seq<State>, steps: seq<Step>, i: nat)
    requires IsRun(c, states, steps) && i < |states|
    ensures LocksHeld(c, states[i])
  {
    if i > 0 {
      var s, step, s' := states[i - 1], steps[i - 1], states[i];
      RunHolds(c, states, steps, i - 1);
      RunInv(c, states, steps, i - 1);
      assert Takes(c, s, step, states[i - 1 + 1]);
      OutcomeHolds(c, s, step);
      OutcomeMembers(c, s, step);
      StepFrame(c, s, step, s');
      hide Outcome, HoldMove, Held, LockHeld, Inv;
      forall t | t in s'.tasks ensures Held(c, s', s'.tasks[t]) == Held(c, s, s'.tasks[t]) {
        HeldAfter(c, s, step, s', s'.tasks[t]);
      }
      forall p, name | p in s'.pools && name in s'.pools[p].locks ensures LockHeld(c, s', p, name) {
        HoldStep(c, s, Outcome(c, s, step), s', p, name);
      }
    }
  }

  /** In every run: a lock that is taken belongs to a `get` or a cleanup that is still under way. */
  lemma {:induction false} NoLockIsLost(c: Config, states: seq<State>, steps: seq<Step>, i: nat, p: PoolRef,
        name: LockName)
    requires IsRun(c, states, steps) && i < |states| && p in states[i].pools && name in states[i].pools[p].locks
    ensures var t := states[i].pools[p].locks[name];
            && t in states[i].tasks
            && ((states[i].tasks[t].Get? && states[i].tasks[t].pool == p)
                || (states[i].tasks[t].Cleanup? && states[i].tasks[t].pool == p))
  {
    RunHolds(c, states, steps, i);
    assert LockHeld(c, states[i], p, name);
  }

  /** No deadlock: a call that waits for its lock can take it, or the task that holds the lock can go on. */
  lemma {:induction false} WaitingIsTemporary(c: Config, states: seq<State>, steps: seq<Step>, i: nat, t: TaskRef)
    returns (step: Step)
    requires IsRun(c, states, steps) && i < |states| && t in states[i].tasks
    requires var task := states[i].tasks[t];
             && (task.Get? || task.Cleanup?) && task.pool in states[i].pools
             && (task.Get? ==> task.phase == Waiting) && (task.Cleanup? ==> task.progress == Locking)
    ensures Enabled(c, states[i], step)
    ensures || step == AcquireForGet(t) || step == AcquireForCleanup(t)
            || ((step.Check? || step.HookReturned? || step.HookRaised? || step.Recheck? || step.Closed?)
                && step.t in states[i].pools[states[i].tasks[t].pool].locks.Values)
  {
    var s := states[i];
    var p := s.tasks[t].pool;
    RunInv(c, states, steps, i);
    assert PassOk(s, t);
    var name := if s.tasks[t].Get? then c.lockName(c.toInternal(p, s.tasks[t].ext))
                else c.lockName(s.members[s.tasks[t].members[s.tasks[t].at]].id);
    if name !in s.pools[p].locks {
      step := if s.tasks[t].Get? then AcquireForGet(t) else AcquireForCleanup(t);
    } else {
      RunHolds(c, states, steps, i);
      assert LockHeld(c, s, p, name);
      step := HolderGoesOn(c, s, s.pools[p].locks[name], p, name);
    }
  }

  lemma {:induction false} HolderGoesOn(c: Config, s: State, t: TaskRef, p: PoolRef, name: LockName)
    returns (step: Step)
    requires Inv(c, s) && t in s.tasks && p in s.pools && Held(c, s, s.tasks[t]) == (true, p, name)
    ensures Enabled(c, s, step)
    ensures (step.Check? || step.HookReturned? || step.HookRaised? || step.Recheck? || step.Closed?) && step.t == t
  {
    match s.tasks[t]
    case Get(_, _, phase) =>
      step := match phase
        case Locked => Check(t)
        case Creating => HookRaised(t)
        case _ => HookReturned(t);
    case Cleanup(_, _, _, _, _, progress) =>
      assert PassOk(s, t);
      step := if progress == Rechecking then Recheck(t, false) else Closed(t);
  }

  // ---------------------------------------------------------------- what a pass achieves

  /** A member that a pass has dealt with is going away, or has not been idle for too long. */
  ghost predicate Cleared(s: State, task: Task, j: nat)
    requires task.Cleanup? && task.pool in s.pools && j < |task.members| && task.members[j] in s.members
  {
    var m := s.members[task.members[j]];
    !m.Running() || m.lastUsed >= Oldest(s, task.pool, task.start) || m.lastUsed >= task.start
  }

  ghost predicate PassClears(s: State, t: TaskRef)
    requires t in s.tasks
  {
    var task := s.tasks[t];
    task.Cleanup? ==>
      && PassOk(s, t) && (forall j: nat :: j < task.at ==> Cleared(s, task, j))
      && (task.progress == Closing ==> s.members[task.members[task.at]].shuttingDown)
  }

  /** Every member that the pass `t` has asked about so far could be cleaned. */
  ghost predicate AllCleanable(steps: seq<Step>, t: TaskRef, i: nat)
    requires i <= |steps|
  {
    forall n :: 0 <= n < i ==> steps[n] != Look(t, false) && steps[n] != Recheck(t, false)
  }

  /** How a step may take a pass on: over a member only if it is dealt with. */
  ghost predicate ClearMove(s: State, e: Effect) {
    e.task.Set? && e.task.value.Cleanup? ==>
      var task := e.task.value;
      || (task.at == 0 && task.progress == Looking)
      || (e.task.at in s.tasks && s.tasks[e.task.at].Cleanup?
          && var was := s.tasks[e.task.at];
             && task.pool == was.pool && task.start == was.start && task.members == was.members
             && was.pool in s.pools && was.at < |was.members| && was.members[was.at] in s.members
             && (task.at == was.at || (task.at == was.at + 1 && Cleared(s, was, was.at)))
             && (task.progress == Closing ==>
                   e.member.Set? && e.member.at == task.members[was.at] && e.member.value.shuttingDown
                   && task.at == was.at))
  }

  lemma {:induction false} ClearedStays(s: State, s': State, task: Task, j: nat)
    requires task.Cleanup? && task.pool in s.pools && j < |task.members| && task.members[j] in s.members
    requires Cleared(s, task, j) && task.start <= s.now
    requires task.pool in s'.pools && s'.pools[task.pool].retention == s.pools[task.pool].retention
    requires task.members[j] in s'.members
    requires Ages(s.members[task.members[j]], s'.members[task.members[j]], s.now)
    ensures Cleared(s', task, j)
  {
  }

  lemma {:induction false} ClearStep(s: State, e: Effect, s': State, t: TaskRef)
    requires s' == Commit(s, e) && t in s'.tasks && PassOk(s', t)
    requires e.task.Set? && e.task.at == t ==> ClearMove(s, e)
    requires t in s.tasks ==> PassClears(s, t)
    requires s'.pools.Keys == s.pools.Keys && forall p :: p in s.pools ==> s'.pools[p].retention == s.pools[p].retention
    requires forall m :: m in s.members ==> m in s'.members && Ages(s.members[m], s'.members[m], s.now)
    ensures PassClears(s', t)
  {
    var task := s'.tasks[t];
    if task.Cleanup? {
      forall j: nat | j < task.at ensures Cleared(s', task, j) {
        var was := s.tasks[t];
        assert Cleared(s, was, j);
        ClearedStays(s, s', was, j);
      }
    }
  }

  lemma {:induction false} RunClears(c: Config, states: seq<State>, steps: seq<Step>, i: nat, t: TaskRef)
    requires IsRun(c, states, steps) && i < |states| && t in states[i].tasks && AllCleanable(steps, t, i)
    ensures PassClears(states[i], t)
  {
    if i > 0 {
      var s, step, s' := states[i - 1], steps[i - 1], states[i];
      if t in s.tasks { RunClears(c, states, steps, i - 1, t); }
      RunInv(c, states, steps, i);
      assert PassOk(s', t);
      assert Takes(c, s, step, states[i - 1 + 1]);
      StepFrame(c, s, step, s');
      ClearsOrOther(c, s, step, t);
      hide Outcome, Inv, PassClears, ClearMove, Commit, PassOk;
      ClearStep(s, Outcome(c, s, step), s', t);
    }
  }

  lemma {:induction false} ClearsOrOther(c: Config, s: State, step: Step, t: TaskRef)
    requires Enabled(c, s, step) && step != Look(t, false) && step != Recheck(t, false)
    requires t in s.tasks ==> PassClears(s, t)
    ensures var e := Outcome(c, s, step); e.task.Set? && e.task.at == t ==> ClearMove(s, e)
  {
    hide PassOk, LockedBy, EntryOk;
  }

  /** A pass that can clean every member leaves none idle: when it ends, each member that it listed is going away, or
      has been used since the start less the retention time. */
  lemma {:induction false} PassLeavesNoneIdle(c: Config, states: seq<State>, steps: seq<Step>, i: nat, t: TaskRef,
        m: MemberRef)
    requires IsRun(c, states, steps) && i < |steps| && steps[i] == EndCleanup(t) && AllCleanable(steps, t, i)
    requires t in states[i].tasks && states[i].tasks[t].Cleanup? && m in states[i].tasks[t].members
    requires states[i].tasks[t].pool in states[i].pools && states[i].pools[states[i].tasks[t].pool].retention >= 0.0
    ensures m in states[i].members
    ensures || !states[i].members[m].Running()
            || states[i].members[m].lastUsed >= Oldest(states[i], states[i].tasks[t].pool, states[i].tasks[t].start)
  {
    RunClears(c, states, steps, i, t);
    assert Takes(c, states[i], steps[i], states[i + 1]);
    var pass := states[i].tasks[t];
    var j: nat :| j < |pass.members| && pass.members[j] == m;
    assert Cleared(states[i], pass, j);
  }

  /** This member, as it was in the `n`th state, is what a wake-up `wait` after the start less the retention time is due
      to. */
  ghost predicate DueTo(states: seq<State>, n: nat, pass: Task, m: MemberRef, wait: real)
    requires pass.Cleanup? && n < |states|
  {
    && m in pass.members && m in states[n].members && pass.pool in states[n].pools
    && wait == states[n].members[m].lastUsed - Oldest(states[n], pass.pool, pass.start)
  }

  ghost predicate SomeDue(states: seq<State>, i: nat, pass: Task, wait: real)
    requires pass.Cleanup? && i < |states|
  {
    exists n: nat, m :: n <= i && DueTo(states, n, pass, m, wait)
  }

  ghost predicate Attained(states: seq<State>, i: nat, pass: Task)
    requires pass.Cleanup? && i < |states|
  {
    pass.pool in states[i].pools &&
    (|| pass.nextIn == states[i].pools[pass.pool].retention
     || SomeDue(states, i, pass, pass.nextIn))
  }

  /** A step leaves the next wake-up of a pass alone, or moves it to the expiry of the member looked at. */
  lemma {:induction false} NextInMoves(c: Config, s: State, step: Step, t: TaskRef)
    requires Enabled(c, s, step)
    ensures var e := Outcome(c, s, step);
            e.task.Set? && e.task.at == t && e.task.value.Cleanup? ==>
              var task := e.task.value;
              && task.pool in s.pools
              && (|| task.nextIn == s.pools[task.pool].retention
                  || (t in s.tasks && s.tasks[t].Cleanup?
                      && var was := s.tasks[t];
                         && task.pool == was.pool && task.start == was.start && task.members == was.members
                         && was.at < |was.members| && was.members[was.at] in s.members
                         && (|| task.nextIn == was.nextIn
                             || task.nextIn
                                == s.members[was.members[was.at]].lastUsed - Oldest(s, was.pool, was.start))))
  {
  }

  lemma {:induction false} RunAttains(c: Config, states: seq<State>, steps: seq<Step>, i: nat, t: TaskRef)
    requires IsRun(c, states, steps) && i < |states| && t in states[i].tasks && states[i].tasks[t].Cleanup?
    ensures Attained(states, i, states[i].tasks[t])
  {
    if i > 0 {
      var s, step, s' := states[i - 1], steps[i - 1], states[i];
      assert Takes(c, s, step, states[i - 1 + 1]);
      StepFrame(c, s, step, s');
      NextInMoves(c, s, step, t);
      var pass := s'.tasks[t];
      hide Outcome, Attained, DueTo, Commit, Ages;
      if t in s.tasks && s.tasks[t].Cleanup? {
        RunAttains(c, states, steps, i - 1, t);
        Carried(states, i, s.tasks[t], pass);
      } else {
        NewPass(states, i, pass);
      }
    }
  }

  lemma {:induction false} NewPass(states: seq<State>, i: nat, pass: Task)
    requires pass.Cleanup? && i < |states| && pass.pool in states[i].pools
    requires pass.nextIn == states[i].pools[pass.pool].retention
    ensures Attained(states, i, pass)
  {
  }

  lemma {:induction false} Carried(states: seq<State>, i: nat, was: Task, pass: Task)
    requires 0 < i < |states| && was.Cleanup? && pass.Cleanup? && Attained(states, i - 1, was)
    requires pass.pool in states[i].pools && pass.pool in states[i - 1].pools
    requires states[i].pools[pass.pool].retention == states[i - 1].pools[pass.pool].retention
    requires || pass.nextIn == states[i].pools[pass.pool].retention
             || (&& pass.pool == was.pool && pass.start == was.start && pass.members == was.members
                 && (|| pass.nextIn == was.nextIn
                     || exists j: nat ::
                          && j < |was.members| && was.members[j] in states[i - 1].members
                          && pass.nextIn == states[i - 1].members[was.members[j]].lastUsed
                                            - Oldest(states[i - 1], was.pool, was.start)))
    ensures Attained(states, i, pass)
  {
    if pass.nextIn != states[i].pools[pass.pool].retention {
      if pass.nextIn == was.nextIn {
        assert SomeDue(states, i - 1, was, was.nextIn);
        var n: nat, m :| n <= i - 1 && DueTo(states, n, was, m, was.nextIn);
        assert DueTo(states, n, pass, m, pass.nextIn);
      } else {
        var j: nat :|
          && j < |was.members| && was.members[j] in states[i - 1].members
          && pass.nextIn == states[i - 1].members[was.members[j]].lastUsed - Oldest(states[i - 1], was.pool, was.start);
        assert DueTo(states, i - 1, pass, was.members[j], pass.nextIn);
      }
    }
  }

  /** Nor does it wake up for nothing: the next pass is due after half a second, when a member used at the start of this
      one would expire, or when some member expires, by its last use at the time when the pass looked at it. */
  lemma {:induction false} NextCleanupIsNotEarly(c: Config, states: seq<State>, steps: seq<Step>, i: nat, t: TaskRef)
    requires IsRun(c, states, steps) && i < |steps| && steps[i] == EndCleanup(t)
    requires t in states[i].tasks && states[i].tasks[t].Cleanup? && states[i].tasks[t].pool in states[i].pools
    ensures t in states[i + 1].tasks && states[i + 1].tasks[t].Cleaned?
    ensures var pass, end, sleep := states[i].tasks[t], states[i].now, states[i + 1].tasks[t].sleep;
            || sleep == 0.5
            || end + sleep == pass.start + states[i].pools[pass.pool].retention
            || SomeDue(states, i, pass, end + sleep - pass.start)
  {
    RunAttains(c, states, steps, i, t);
    assert Takes(c, states[i], steps[i], states[i + 1]);
    var pass := states[i].tasks[t];
    var sleep := states[i + 1].tasks[t].sleep;
    assert sleep == Max(0.5, pass.nextIn - (states[i].now - pass.start));
    assert sleep != 0.5 ==> states[i].now + sleep - pass.start == pass.nextIn;
  }
}
