/** The timer queue: a list sorted by expiry, from which one thread takes due tasks, runs their handlers
    outside the lock and puts repeating tasks back, while other threads add and cancel. Each locked
    operation is one step; a run is any sequence of steps. Times are in ms. */
module TimerQueue {

  const DEVIATION := 10

  /** TimerTask, its handler apart. */
  datatype Task = Task(id: nat, interval: nat, repeat: bool, expire: int)

  /** A queued task and the number of its insertion. */
  datatype Entry = Entry(task: Task, serial: nat)

  /** Ahead in the queue: earlier expiry, or inserted earlier at equal expiry. */
  predicate Ahead(a: Entry, b: Entry) {
    a.task.expire < b.task.expire || (a.task.expire == b.task.expire && a.serial < b.serial)
  }

  ghost predicate Ordered(q: seq<Entry>) {
    forall i, j | 0 <= i < j < |q| :: Ahead(q[i], q[j])
  }

  ghost predicate SerialsBelow(q: seq<Entry>, next: nat) {
    forall i | 0 <= i < |q| :: q[i].serial < next
  }

  /** upper_bound: the first place whose expiry is greater. */
  function UpperBound(q: seq<Entry>, expire: int): (p: nat)
    ensures p <= |q|
    ensures forall i | 0 <= i < p :: q[i].task.expire <= expire
    ensures p < |q| ==> q[p].task.expire > expire
  {
    if |q| == 0 || q[0].task.expire > expire then 0 else 1 + UpperBound(q[1..], expire)
  }

  function Inserted(q: seq<Entry>, e: Entry): seq<Entry> {
    var p := UpperBound(q, e.task.expire);
    q[..p] + [e] + q[p..]
  }

  /** The place of the first task with an id, or the length. */
  function Find(q: seq<Entry>, id: nat): (p: nat)
    ensures p <= |q|
    ensures p < |q| ==> q[p].task.id == id
    ensures forall i | 0 <= i < p :: q[i].task.id != id
  {
    if |q| == 0 || q[0].task.id == id then 0 else 1 + Find(q[1..], id)
  }

  function Without(q: seq<Entry>, p: nat): seq<Entry>
    requires p < |q|
  {
    q[..p] + q[p + 1..]
  }

  /** A task inserted last goes behind all others of its expiry and leaves the list in order. */
  lemma InsertKeepsOrder(q: seq<Entry>, e: Entry)
    requires Ordered(q) && SerialsBelow(q, e.serial)
    ensures Ordered(Inserted(q, e))
  {
    var p := UpperBound(q, e.task.expire);
    var r := Inserted(q, e);
    forall i | p <= i < |q|
      ensures q[i].task.expire > e.task.expire
    {
      if i > p {
        assert Ahead(q[p], q[i]);
      }
    }
    forall i, j | 0 <= i < j < |r|
      ensures Ahead(r[i], r[j])
    {
      var a, b := if i > p then i - 1 else i, if j > p then j - 1 else j;
      if i != p && j != p {
        assert Ahead(q[a], q[b]);
      }
    }
  }

  // ---------- runs ----------

  /** The expiry of a repeating task put back: one interval on, or, when that has passed at the clock
      reading tested, an interval from the next reading. */
  function NextExpire(t: Task, tested: int, base: int): int {
    if t.expire + t.interval < tested then t.interval + base else t.expire + t.interval
  }

  datatype Running = Idle | Running(task: Task)

  /** The queue, the task whose handler is running, and what has happened to all tasks ever added. */
  datatype State = State(queue: seq<Entry>, running: Running, next: nat,
                         added: multiset<Task>, cancelled: multiset<Task>, ended: multiset<Task>)

  datatype Step =
    | Insert(task: Task, now: int)                       // the second half of add
    | Remove(id: nat)                                    // cancel, and the first half of add
    | Clear
    | Checkout(now: int)                                 // checkoutFront
    | Finish(done: bool, tested: int, base: int)         // the handler has returned

  /** A task without its expiry: what is conserved. */
  function Job(t: Task): Task {
    t.(expire := 0)
  }

  function Jobs(q: seq<Entry>): multiset<Task> {
    multiset(JobList(q))
  }

  function RunningJob(r: Running): multiset<Task> {
    if r.Idle? then multiset{} else multiset{Job(r.task)}
  }

  function Put(s: State, t: Task): State {
    State(Inserted(s.queue, Entry(t, s.next)), s.running, s.next + 1, s.added, s.cancelled, s.ended)
  }

  function Next(s: State, step: Step): State {
    match step
    case Insert(t, now) => Put(s, t.(expire := t.interval + now)).(added := s.added + multiset{Job(t)})
    case Remove(id) =>
      var p := Find(s.queue, id);
      if p == |s.queue| then s
      else s.(queue := Without(s.queue, p), cancelled := s.cancelled + multiset{Job(s.queue[p].task)})
    case Clear => s.(queue := [], cancelled := s.cancelled + Jobs(s.queue))
    case Checkout(now) =>
      if s.running.Idle? && |s.queue| > 0 && s.queue[0].task.expire <= now + DEVIATION
      then s.(queue := s.queue[1..], running := Running(s.queue[0].task)) else s
    case Finish(done, tested, base) =>
      if s.running.Idle? then s
      else
        var t := s.running.task;
        var idle := s.(running := Idle);
        if done && t.repeat then Put(idle, t.(expire := NextExpire(t, tested, base)))
        else idle.(ended := s.ended + multiset{Job(t)})
  }

  function After(steps: seq<Step>): State {
    if |steps| == 0 then State([], Idle, 0, multiset{}, multiset{}, multiset{})
    else Next(After(steps[..|steps| - 1]), steps[|steps| - 1])
  }

  /** In order, and every task added is queued, running, cancelled or ended, exactly once. */
  ghost predicate Consistent(s: State) {
    && Ordered(s.queue) && SerialsBelow(s.queue, s.next)
    && s.added == Jobs(s.queue) + RunningJob(s.running) + s.cancelled + s.ended
  }

  function JobList(q: seq<Entry>): seq<Task> {
    seq(|q|, i requires 0 <= i < |q| => Job(q[i].task))
  }

  lemma JobsSplit(q: seq<Entry>, p: nat, e: Entry)
    requires p <= |q|
    ensures Jobs(q[..p] + [e] + q[p..]) == Jobs(q) + multiset{Job(e.task)}
  {
    var a, b := JobList(q[..p]), JobList(q[p..]);
    assert JobList(q) == a + b;
    assert JobList(q[..p] + [e] + q[p..]) == a + [Job(e.task)] + b;
  }

  lemma JobsWithout(q: seq<Entry>, p: nat)
    requires p < |q|
    ensures Jobs(q) == Jobs(Without(q, p)) + multiset{Job(q[p].task)}
  {
    var w := Without(q, p);
    JobsSplit(w, p, q[p]);
    assert w[..p] == q[..p] && w[p..] == q[p + 1..];
    assert q[..p] + [q[p]] + q[p + 1..] == q;
  }

  lemma PutKeeps(s: State, t: Task)
    requires Ordered(s.queue) && SerialsBelow(s.queue, s.next)
    ensures var r := Put(s, t);
            Ordered(r.queue) && SerialsBelow(r.queue, r.next) && Jobs(r.queue) == Jobs(s.queue) + multiset{Job(t)}
  {
    var e := Entry(t, s.next);
    InsertKeepsOrder(s.queue, e);
    JobsSplit(s.queue, UpperBound(s.queue, t.expire), e);
  }

  lemma WithoutKeeps(q: seq<Entry>, p: nat, next: nat)
    requires p < |q| && Ordered(q) && SerialsBelow(q, next)
    ensures Ordered(Without(q, p)) && SerialsBelow(Without(q, p), next)
  {
  }

  lemma StepKeeps(s: State, step: Step)
    requires Consistent(s)
    ensures Consistent(Next(s, step))
  {
    hide Consistent, Next;
    match step
    case Insert(t, now) => InsertStep(s, t, now);
    case Remove(id) => RemoveStep(s, id);
    case Clear => ClearStep(s);
    case Checkout(now) => CheckoutStep(s, now);
    case Finish(done, tested, base) => FinishStep(s, done, tested, base);
  }

  /** The books balance when what leaves one of them enters another. */
  lemma Balanced(added: multiset<Task>, queued: multiset<Task>, running: multiset<Task>,
                 cancelled: multiset<Task>, ended: multiset<Task>, j: multiset<Task>)
    requires added == queued + running + cancelled + ended
    ensures added + j == (queued + j) + running + cancelled + ended
    ensures added + j == queued + (running + j) + cancelled + ended
    ensures added + j == queued + running + (cancelled + j) + ended
    ensures added + j == queued + running + cancelled + (ended + j)
  {
  }

  lemma InsertStep(s: State, t: Task, now: int)
    requires Consistent(s)
    ensures Consistent(Next(s, Insert(t, now)))
  {
    hide Ordered, Jobs, Inserted, SerialsBelow, RunningJob;
    PutKeeps(s, t.(expire := t.interval + now));
    Balanced(s.added, Jobs(s.queue), RunningJob(s.running), s.cancelled, s.ended, multiset{Job(t)});
  }

  lemma RemoveStep(s: State, id: nat)
    requires Consistent(s)
    ensures Consistent(Next(s, Remove(id)))
  {
    hide Ordered, Jobs, Without, SerialsBelow, RunningJob;
    var p := Find(s.queue, id);
    if p < |s.queue| {
      JobsWithout(s.queue, p);
      WithoutKeeps(s.queue, p, s.next);
      var w, j := Jobs(Without(s.queue, p)), multiset{Job(s.queue[p].task)};
      Balanced(w + RunningJob(s.running) + s.cancelled + s.ended, w, RunningJob(s.running), s.cancelled, s.ended, j);
    }
  }

  lemma ClearStep(s: State)
    requires Consistent(s)
    ensures Consistent(Next(s, Clear))
  {
    hide RunningJob;
    EmptyValid(s.next);
  }

  lemma CheckoutStep(s: State, now: int)
    requires Consistent(s)
    ensures Consistent(Next(s, Checkout(now)))
  {
    hide Ordered, Jobs, SerialsBelow;
    if |s.queue| > 0 && s.running.Idle? {
      FrontTaken(s.queue, s.next);
      var w, j := Jobs(s.queue[1..]), multiset{Job(s.queue[0].task)};
      Balanced(w + multiset{} + s.cancelled + s.ended, w, multiset{}, s.cancelled, s.ended, j);
    }
  }

  lemma FinishStep(s: State, done: bool, tested: int, base: int)
    requires Consistent(s)
    ensures Consistent(Next(s, Finish(done, tested, base)))
  {
    hide Ordered, Jobs, SerialsBelow, Inserted;
    if s.running.Running? {
      var t := s.running.task;
      PutKeeps(s.(running := Idle), t.(expire := NextExpire(t, tested, base)));
      var w, j := Jobs(s.queue), multiset{Job(t)};
      Balanced(w + multiset{} + s.cancelled + s.ended, w, multiset{}, s.cancelled, s.ended, j);
    }
  }

  lemma EmptyValid(next: nat)
    ensures Ordered([]) && SerialsBelow([], next) && Jobs([]) == multiset{}
  {
  }

  lemma FrontTaken(q: seq<Entry>, next: nat)
    requires |q| > 0 && Ordered(q) && SerialsBelow(q, next)
    ensures Ordered(q[1..]) && SerialsBelow(q[1..], next)
    ensures Jobs(q) == Jobs(q[1..]) + multiset{Job(q[0].task)}
  {
    WithoutKeeps(q, 0, next);
    JobsWithout(q, 0);
    assert Without(q, 0) == q[1..];
  }

  /** Over any interleaving the list stays in order and no task is lost or duplicated. */
  lemma {:induction false} EveryRun(steps: seq<Step>)
    ensures Consistent(After(steps))
  {
    if |steps| == 0 {
      EmptyValid(0);
    } else {
      EveryRun(steps[..|steps| - 1]);
      StepKeeps(After(steps[..|steps| - 1]), steps[|steps| - 1]);
    }
  }

  /** Only a task of least expiry is taken, the first inserted among equals, and at most 10 ms before its
      time. */
  lemma TakesEarliest(s: State, now: int)
    requires Consistent(s) && s.running.Idle?
    ensures var r := Next(s, Checkout(now));
            r.running.Running? ==>
              && s.queue[0].task == r.running.task && r.running.task.expire <= now + 10
              && forall i | 0 < i < |s.queue| :: Ahead(s.queue[0], s.queue[i])
    ensures Next(s, Checkout(now)).running.Idle? ==>
              forall i | 0 <= i < |s.queue| :: s.queue[i].task.expire > now + 10
  {
    assert forall i | 0 < i < |s.queue| :: Ahead(s.queue[0], s.queue[i]);
  }

  /** A task put back is due one interval after it was due before, or one interval after a clock reading;
      with a clock that does not run backwards never before the reading tested. */
  lemma RequeuedOnTime(t: Task, tested: int, base: int)
    requires tested <= base
    ensures var e := NextExpire(t, tested, base);
            && (e == t.expire + t.interval || e == base + t.interval)
            && e >= tested
            && (e != t.expire + t.interval ==> t.expire + t.interval < tested)
  {
  }

  // ---------- the class ----------

  /** The list as the program holds it, against the queue of a state. */
  ghost predicate Holds(list: seq<Task>, q: seq<Entry>) {
    |list| == |q| && forall i | 0 <= i < |q| :: list[i] == q[i].task
  }

  /** A task has come into the list, behind every task due no later and before every later one. */
  ghost predicate Queued(was: seq<Task>, t: Task, now: seq<Task>) {
    exists p :: 0 <= p <= |was| && QueuedAt(was, t, now, p)
  }

  ghost predicate QueuedAt(was: seq<Task>, t: Task, now: seq<Task>, p: nat)
    requires p <= |was|
  {
    && now == was[..p] + [t] + was[p..]
    && (forall i | 0 <= i < p :: was[i].expire <= t.expire)
    && (forall i | p <= i < |was| :: was[i].expire > t.expire)
  }

  /** The first task with an id has gone. */
  ghost predicate FirstGone(was: seq<Task>, id: nat, now: seq<Task>) {
    exists p :: 0 <= p < |was| && now == was[..p] + was[p + 1..] && was[p].id == id
                && forall i | 0 <= i < p :: was[i].id != id
  }

  /** The place found is the one between the tasks due no later and the later ones. */
  lemma BoundSplits(list: seq<Task>, q: seq<Entry>, t: Task)
    requires Holds(list, q) && Ordered(q)
    ensures var p := UpperBound(q, t.expire); p <= |list| && QueuedAt(list, t, list[..p] + [t] + list[p..], p)
  {
    var p := UpperBound(q, t.expire);
    forall i | p <= i < |list|
      ensures list[i].expire > t.expire
    {
      if i > p {
        assert Ahead(q[p], q[i]);
      }
    }
  }

  lemma InsertIs(list: seq<Task>, s: State, t: Task)
    requires Holds(list, s.queue) && Ordered(s.queue)
    ensures var p := UpperBound(s.queue, t.expire);
            && p <= |list|
            && Holds(list[..p] + [t] + list[p..], Put(s, t).queue)
            && Queued(list, t, list[..p] + [t] + list[p..])
  {
    hide Ordered, QueuedAt;
    BoundSplits(list, s.queue, t);
  }

  /** When the first task is not due, none is. */
  lemma NoneDue(list: seq<Task>, q: seq<Entry>, limit: int)
    requires Holds(list, q) && Ordered(q) && (|list| > 0 ==> list[0].expire > limit)
    ensures forall i | 0 <= i < |list| :: list[i].expire > limit
  {
    forall i | 0 <= i < |list|
      ensures list[i].expire > limit
    {
      if i > 0 {
        assert Ahead(q[0], q[i]);
      }
    }
  }

  lemma QueuedIn(was: seq<Task>, t: Task, now: seq<Task>)
    requires Queued(was, t, now)
    ensures t in now
  {
    var p :| 0 <= p <= |was| && QueuedAt(was, t, now, p);
    assert now[p] == t;
  }

  /** CTimerQueue. The state follows the locked steps done so far; the list is all the program keeps. */
  class CTimerQueue {
    var taskList: seq<Task>
    ghost var state: State

    ghost predicate Valid()
      reads this
    {
      Consistent(state) && Holds(taskList, state.queue)
    }

    constructor ()
      ensures Valid() && state == After([])
    {
      EmptyValid(0);
      taskList, state := [], After([]);
    }

    /** findWithExpire. */
    method FindWithExpire(expire: int) returns (p: nat)
      requires Valid()
      ensures p == UpperBound(state.queue, expire)
    {
      p := 0;
      while p < |taskList| && taskList[p].expire <= expire
        invariant 0 <= p <= |taskList|
        invariant UpperBound(state.queue, expire) == p + UpperBound(state.queue[p..], expire)
      {
        assert state.queue[p..][1..] == state.queue[p + 1..];
        p := p + 1;
      }
    }

    /** insertTask. */
    method InsertTask(task: Task)
      requires Valid()
      modifies this`taskList
      ensures Holds(taskList, Put(state, task).queue) && Queued(old(taskList), task, taskList)
    {
      hide Ordered, Put, Queued, Holds;
      var p := FindWithExpire(task.expire);
      InsertIs(taskList, state, task);
      taskList := taskList[..p] + [task] + taskList[p..];
    }

    /** The second half of add, at clock reading now: the task is due one interval later. */
    method AddExpiring(task: Task, now: int)
      requires Valid()
      modifies this
      ensures Valid() && state == Next(old(state), Insert(task, now))
      ensures Queued(old(taskList), Task(task.id, task.interval, task.repeat, now + task.interval), taskList)
    {
      hide Consistent, Inserted, UpperBound, Queued;
      StepKeeps(state, Insert(task, now));
      InsertTask(task.(expire := task.interval + now));
      state := Next(state, Insert(task, now));
    }

    /** find: the first task with the id, or the length. */
    method FindTask(id: nat) returns (p: nat)
      requires Valid()
      ensures p == Find(state.queue, id)
    {
      hide Consistent;
      p := 0;
      while p < |taskList| && taskList[p].id != id
        invariant 0 <= p <= |taskList|
        invariant Find(state.queue, id) == p + Find(state.queue[p..], id)
      {
        assert state.queue[p..][1..] == state.queue[p + 1..];
        p := p + 1;
      }
    }

    /** remove. */
    method RemoveTask(id: nat) returns (found: bool)
      requires Valid()
      modifies this
      ensures Valid() && state == Next(old(state), Remove(id))
      ensures found <==> exists i | 0 <= i < |old(taskList)| :: old(taskList)[i].id == id
      ensures if found then FirstGone(old(taskList), id, taskList) else taskList == old(taskList)
    {
      hide Consistent, Jobs;
      StepKeeps(state, Remove(id));
      var p := FindTask(id);
      found := p < |taskList|;
      state := Next(state, Remove(id));
      if found {
        taskList := taskList[..p] + taskList[p + 1..];
      }
    }

    /** add, when no other step comes between its two halves. */
    method Add(task: Task, now: int) returns (isNew: bool)
      requires Valid()
      modifies this
      ensures Valid() && state == Next(Next(old(state), Remove(task.id)), Insert(task, now))
      ensures isNew <==> forall i | 0 <= i < |old(taskList)| :: old(taskList)[i].id != task.id
    {
      hide Next, Consistent;
      var found := RemoveTask(task.id);
      AddExpiring(task, now);
      isNew := !found;
    }

    /** clear. */
    method ClearTasks()
      requires Valid()
      modifies this
      ensures Valid() && state == Next(old(state), Clear) && taskList == []
    {
      hide Ordered, Jobs, Inserted, UpperBound, SerialsBelow;
      StepKeeps(state, Clear);
      taskList, state := [], Next(state, Clear);
    }

    /** checkoutFront: a due task, or how long to wait; -1 with nothing queued. */
    method CheckoutFront(now: int) returns (found: bool, task: Task, timeout: int)
      requires Valid() && state.running.Idle?
      modifies this
      ensures Valid() && state == Next(old(state), Checkout(now))
      ensures found == state.running.Running? && (found ==> task == state.running.task && timeout == 0)
      ensures !found ==> timeout == if taskList == [] then -1 else taskList[0].expire - now
      ensures !found && taskList != [] ==> timeout > 10
      ensures if found then |old(taskList)| > 0 && taskList == old(taskList)[1..] && task == old(taskList)[0]
                            && task.expire <= now + 10
              else taskList == old(taskList) && forall i | 0 <= i < |taskList| :: taskList[i].expire > now + 10
    {
      hide Ordered, Jobs, Inserted, UpperBound, SerialsBelow;
      StepKeeps(state, Checkout(now));
      if |taskList| > 0 && taskList[0].expire > now + DEVIATION {
        NoneDue(taskList, state.queue, now + DEVIATION);
      }
      found, timeout, task := false, -1, Task(0, 0, false, 0);
      state := Next(state, Checkout(now));
      if |taskList| > 0 {
        task := taskList[0];
        if task.expire <= now + DEVIATION {
          taskList := taskList[1..];
          timeout, found := 0, true;
        } else {
          timeout := task.expire - now;
        }
      }
    }

    /** The end of checkExpire, the handler having returned done; tested and base are the two readings
        of the clock. */
    method FinishTask(task: Task, done: bool, tested: int, base: int)
      requires Valid() && state.running == Running(task)
      modifies this
      ensures Valid() && state == Next(old(state), Finish(done, tested, base))
      ensures var due := task.expire + task.interval;
              if done && task.repeat
              then Queued(old(taskList), task.(expire := if due < tested then base + task.interval else due), taskList)
              else taskList == old(taskList)
    {
      hide Ordered, Jobs, Inserted, UpperBound, SerialsBelow, Queued;
      StepKeeps(state, Finish(done, tested, base));
      if done && task.repeat {
        var expire := task.expire + task.interval;
        if expire < tested {
          expire := task.interval + base;
        }
        InsertTask(task.(expire := expire));
      }
      state := Next(state, Finish(done, tested, base));
    }
  }

  /** A task added at one clock reading is not taken, and not lost, at a reading more than 10 ms before its
      interval has passed. */
  method AddAndLook(q: CTimerQueue, task: Task, now: int, reading: int) returns (found: bool, got: Task)
    requires q.Valid() && q.state.running.Idle? && reading < now + task.interval - 10
    modifies q
    ensures q.Valid() && Task(task.id, task.interval, task.repeat, now + task.interval) in q.taskList
    ensures found ==> got.expire < now + task.interval
  {
    hide Consistent, Queued, Holds, Inserted, UpperBound;
    ghost var due := Task(task.id, task.interval, task.repeat, now + task.interval);
    ghost var was := q.taskList;
    q.AddExpiring(task, now);
    QueuedIn(was, due, q.taskList);
    var timeout;
    ghost var list := q.taskList;
    found, got, timeout := q.CheckoutFront(reading);
    if found {
      assert list == [list[0]] + list[1..];
    }
  }
}
