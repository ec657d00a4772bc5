/**
 * The worker thread and the REST threads that feed it, as interleaved steps. Storing a message is two
 * steps, a dump of the object in memory and the write of the dump, and other steps may come between.
 */
module Worker {
  import opened Common

  datatype Status = InProgress | Failed | Success

  /**
   * The REST thread of a message: `send_message` stores it and then enqueues it, and
   * `produce_rest_answer_202` stores it once more before the answer goes out.
   */
  datatype RestPhase = Created | FirstDumped(dump: Status) | FirstStored | Queued | Dumped(dump: Status) | Answered

  /** The four instants that matter later are recorded as the steps take place. */
  datatype Message = Message(
    status: Status, stored: Option<Status>, rest: RestPhase,
    dumpedAt: Option<nat>, answeredAt: Option<nat>, finishedAt: Option<nat>, savedAt: Option<nat>)

  datatype WorkerPhase = Idle | Handling(id: nat) | Finished(id: nat) | Saving(id: nat, dump: Status)

  /** `sent` and `taken` are the messages put into and got from the queue so far, in order. */
  datatype System = System(
    messages: seq<Message>, queue: seq<nat>, worker: WorkerPhase, sent: seq<nat>, taken: seq<nat>, clock: nat)

  datatype Action = Rest(id: nat) | Get | Finish(ok: bool) | Dump | Save

  const NEW := Message(InProgress, None, Created, None, None, None, None)

  function Start(n: nat): (s: System)
    ensures |s.messages| == n && forall i :: 0 <= i < n ==> s.messages[i] == NEW
  {
    System(seq(n, _ => NEW), [], Idle, [], [], 0)
  }

  /** The message after the next step of its REST thread. */
  function RestOf(m: Message, clock: nat): Message {
    match m.rest
    case Created => m.(rest := FirstDumped(m.status))
    case FirstDumped(d) => m.(stored := Some(d), rest := FirstStored)
    case FirstStored => m.(rest := Queued)
    case Queued => m.(rest := Dumped(m.status), dumpedAt := Some(clock))
    case Dumped(d) => m.(stored := Some(d), rest := Answered, answeredAt := Some(clock))
    case Answered => m
  }

  function StepRest(s: System, id: nat): System
    requires id < |s.messages|
  {
    var m := s.messages[id];
    var after := s.(messages := s.messages[id := RestOf(m, s.clock)]);
    if m.rest.FirstStored? then after.(queue := s.queue + [id], sent := s.sent + [id]) else after
  }

  /** One step of the whole; an action that cannot take place now changes nothing but the clock. */
  function Step(s: System, a: Action): System {
    var after :=
      match a
      case Rest(id) => if id < |s.messages| then StepRest(s, id) else s
      case Get =>
        if s.worker.Idle? && s.queue != []
        then s.(queue := s.queue[1..], worker := Handling(s.queue[0]), taken := s.taken + [s.queue[0]])
        else s
      case Finish(ok) =>
        if s.worker.Handling? && s.worker.id < |s.messages| then
          var id := s.worker.id;
          var m := s.messages[id].(status := if ok then Success else Failed, finishedAt := Some(s.clock));
          s.(messages := s.messages[id := m], worker := Finished(id))
        else s
      case Dump =>
        if s.worker.Finished? && s.worker.id < |s.messages|
        then s.(worker := Saving(s.worker.id, s.messages[s.worker.id].status))
        else s
      case Save =>
        if s.worker.Saving? && s.worker.id < |s.messages| then
          var id := s.worker.id;
          var m := s.messages[id].(stored := Some(s.worker.dump), savedAt := Some(s.clock));
          s.(messages := s.messages[id := m], worker := Idle)
        else s;
    after.(clock := s.clock + 1)
  }

  function Run(s: System, actions: seq<Action>): System {
    Fold(Step, s, actions)
  }

  // ---------------------------------------------------------------- the invariant

  predicate WasSent(m: Message) {
    m.rest.Queued? || m.rest.Dumped? || m.rest.Answered?
  }

  predicate Before(a: Option<nat>, b: Option<nat>) {
    a.Some? && b.Some? && a.value < b.value
  }

  predicate Past(a: Option<nat>, clock: nat) {
    a.Some? ==> a.value < clock
  }

  /** What the second dump of the REST thread holds, told from the order of the steps. */
  function SecondDump(m: Message): Status {
    if Before(m.finishedAt, m.dumpedAt) then m.status else InProgress
  }

  ghost predicate Instants(m: Message, clock: nat) {
    && (m.dumpedAt.Some? <==> m.rest.Dumped? || m.rest.Answered?)
    && (m.answeredAt.Some? <==> m.rest.Answered?)
    && (m.finishedAt.Some? <==> m.status != InProgress)
    && (m.savedAt.Some? ==> Before(m.finishedAt, m.savedAt))
    && (m.answeredAt.Some? ==> Before(m.dumpedAt, m.answeredAt))
    && Past(m.dumpedAt, clock) && Past(m.answeredAt, clock) && Past(m.finishedAt, clock) && Past(m.savedAt, clock)
    && (m.dumpedAt.Some? && m.finishedAt.Some? ==> m.dumpedAt != m.finishedAt)
    && (m.answeredAt.Some? && m.savedAt.Some? ==> m.answeredAt != m.savedAt)
  }

  /** What the database holds: nothing at first, then `InProgress`, and then what the last late write put there. */
  ghost predicate StoredOk(m: Message) {
    && (m.rest.FirstDumped? ==> m.rest.dump == InProgress)
    && (m.rest.Created? || m.rest.FirstDumped? ==> m.stored == None)
    && (!m.rest.Created? && !m.rest.FirstDumped? && m.savedAt.None? && m.answeredAt.None?
        ==> m.stored == Some(InProgress))
    && (m.rest.Dumped? ==> m.rest.dump == SecondDump(m))
    && (m.savedAt.Some? && !Before(m.savedAt, m.answeredAt) ==> m.stored == Some(m.status))
    && (m.answeredAt.Some? && !Before(m.answeredAt, m.savedAt) ==> m.stored == Some(SecondDump(m)))
  }

  /** What holds of a message, given whether it has been sent and taken, and what the worker is at. */
  ghost predicate Ok(m: Message, clock: nat, id: nat, sent: bool, taken: bool, worker: WorkerPhase) {
    && Instants(m, clock) && StoredOk(m)
    && (WasSent(m) <==> sent)
    && (m.status != InProgress ==> taken)
    && (taken && worker != Handling(id) ==> m.status != InProgress)
    && (worker == Handling(id) ==> m.status == InProgress)
    && (m.savedAt.Some? <==> m.status != InProgress && worker != Finished(id) && !(worker.Saving? && worker.id == id))
    && (worker.Saving? && worker.id == id ==> worker.dump == m.status)
    && (!worker.Idle? && worker.id == id && !worker.Handling? ==> m.status != InProgress)
  }

  ghost predicate MessageOk(s: System, id: nat)
    requires id < |s.messages|
  {
    Ok(s.messages[id], s.clock, id, id in s.sent, id in s.taken, s.worker)
  }

  ghost predicate Invariant(s: System) {
    && s.taken + s.queue == s.sent && NoDup(s.sent)
    && (forall id <- s.sent :: id < |s.messages|)
    && (!s.worker.Idle? ==> s.taken != [] && Last(s.taken) == s.worker.id)
    && (forall id: nat :: id < |s.messages| ==> MessageOk(s, id))
  }

  /** A message stays right while the worker turns from and to other messages. */
  lemma OtherOk(m: Message, clock: nat, id: nat, sent: bool, taken: bool, worker: WorkerPhase, next: WorkerPhase)
    requires Ok(m, clock, id, sent, taken, worker)
    requires next == worker || ((!worker.Idle? ==> worker.id != id) && (!next.Idle? ==> next.id != id))
    ensures Ok(m, clock + 1, id, sent, taken, next)
  {
  }

  lemma RestOk(m: Message, clock: nat, id: nat, sent: bool, taken: bool, worker: WorkerPhase)
    requires Ok(m, clock, id, sent, taken, worker) && (taken ==> sent)
    ensures Ok(RestOf(m, clock), clock + 1, id, sent || m.rest.FirstStored?, taken, worker)
  {
  }

  lemma RestMessages(s: System, id: nat, i: nat)
    requires Invariant(s) && id < |s.messages| && i < |s.messages|
    ensures MessageOk(Step(s, Rest(id)), i)
  {
    assert MessageOk(s, i);
    if i == id {
      assert id in s.taken ==> id in s.taken + s.queue;
      RestOk(s.messages[id], s.clock, id, id in s.sent, id in s.taken, s.worker);
    } else {
      OtherOk(s.messages[i], s.clock, i, i in s.sent, i in s.taken, s.worker, s.worker);
    }
  }

  lemma RestQueue(s: System, id: nat)
    requires Invariant(s) && id < |s.messages| && s.messages[id].rest.FirstStored?
    ensures s.taken + (s.queue + [id]) == s.sent + [id] && NoDup(s.sent + [id])
  {
    assert MessageOk(s, id);
    assert s.taken + (s.queue + [id]) == (s.taken + s.queue) + [id];
  }

  lemma RestKeeps(s: System, id: nat)
    requires Invariant(s) && id < |s.messages|
    ensures Invariant(Step(s, Rest(id)))
  {
    if s.messages[id].rest.FirstStored? {
      RestQueue(s, id);
    }
    forall i: nat | i < |s.messages|
      ensures MessageOk(Step(s, Rest(id)), i)
    {
      RestMessages(s, id, i);
    }
  }

  lemma GetKeeps(s: System)
    requires Invariant(s)
    ensures Invariant(Step(s, Get))
  {
    var after := Step(s, Get);
    if s.worker.Idle? && s.queue != [] {
      var id := s.queue[0];
      assert s.sent[|s.taken|] == id;
      assert after.taken + after.queue == s.sent;
      assert forall k :: 0 <= k < |s.taken| ==> s.sent[k] == s.taken[k];
      assert id !in s.taken;
    }
    forall i: nat | i < |s.messages|
      ensures MessageOk(after, i)
    {
      assert MessageOk(s, i);
    }
  }

  lemma FinishOk(m: Message, clock: nat, id: nat, sent: bool, ok: bool)
    requires Ok(m, clock, id, sent, true, Handling(id))
    ensures var m' := m.(status := if ok then Success else Failed, finishedAt := Some(clock));
            Ok(m', clock + 1, id, sent, true, Finished(id))
  {
  }

  lemma FinishKeeps(s: System, ok: bool)
    requires Invariant(s)
    ensures Invariant(Step(s, Finish(ok)))
  {
    var after := Step(s, Finish(ok));
    if !s.worker.Idle? {
      WorkerHasTaken(s);
    }
    forall i: nat | i < |s.messages|
      ensures MessageOk(after, i)
    {
      assert MessageOk(s, i);
      if s.worker == Handling(i) {
        FinishOk(s.messages[i], s.clock, i, i in s.sent, ok);
      } else {
        OtherOk(s.messages[i], s.clock, i, i in s.sent, i in s.taken, s.worker, after.worker);
      }
    }
  }

  /** The worker is at a message that it has taken. */
  lemma WorkerHasTaken(s: System)
    requires Invariant(s) && !s.worker.Idle?
    ensures s.worker.id in s.taken && s.worker.id < |s.messages|
  {
    var id := s.taken[|s.taken| - 1];
    assert id in s.taken && id in s.taken + s.queue;
  }

  lemma DumpOk(m: Message, clock: nat, id: nat, sent: bool, taken: bool)
    requires Ok(m, clock, id, sent, taken, Finished(id))
    ensures Ok(m, clock + 1, id, sent, taken, Saving(id, m.status))
  {
  }

  lemma SaveOk(m: Message, clock: nat, id: nat, sent: bool, taken: bool, dump: Status)
    requires Ok(m, clock, id, sent, taken, Saving(id, dump)) && (taken ==> sent)
    ensures Ok(m.(stored := Some(dump), savedAt := Some(clock)), clock + 1, id, sent, taken, Idle)
  {
  }

  lemma SaveKeeps(s: System, a: Action)
    requires Invariant(s) && (a.Dump? || a.Save?)
    ensures Invariant(Step(s, a))
  {
    var after := Step(s, a);
    forall i: nat | i < |s.messages|
      ensures MessageOk(after, i)
    {
      var m := s.messages[i];
      assert MessageOk(s, i);
      if a.Dump? && s.worker == Finished(i) {
        DumpOk(m, s.clock, i, i in s.sent, i in s.taken);
      } else if a.Save? && s.worker.Saving? && s.worker.id == i {
        assert i in s.taken ==> i in s.taken + s.queue;
        SaveOk(m, s.clock, i, i in s.sent, i in s.taken, s.worker.dump);
      } else {
        OtherOk(m, s.clock, i, i in s.sent, i in s.taken, s.worker, after.worker);
      }
    }
  }

  lemma StepKeeps(s: System, a: Action)
    requires Invariant(s)
    ensures Invariant(Step(s, a))
  {
    match a
    case Rest(id) =>
      if id < |s.messages| {
        RestKeeps(s, id);
      } else {
        forall i: nat | i < |s.messages| ensures MessageOk(Step(s, a), i) { assert MessageOk(s, i); }
      }
    case Get => GetKeeps(s);
    case Finish(ok) => FinishKeeps(s, ok);
    case _ => SaveKeeps(s, a);
  }

  lemma {:induction false} RunKeeps(n: nat, actions: seq<Action>)
    ensures Invariant(Run(Start(n), actions)) && |Run(Start(n), actions).messages| == n
  {
    if actions != [] {
      RunKeeps(n, Front(actions));
      StepKeeps(Run(Start(n), Front(actions)), Last(actions));
    }
  }

  // ---------------------------------------------------------------- what it gives

  /** The queue is fed and emptied in the order of time: what was sent or taken by then comes first. */
  lemma {:induction false} LongerRun(n: nat, actions: seq<Action>, k: nat)
    requires k <= |actions|
    ensures var before, s := Run(Start(n), actions[..k]), Run(Start(n), actions);
            before.sent <= s.sent && before.taken <= s.taken
  {
    if k == |actions| {
      assert actions[..k] == actions;
    } else {
      assert Front(actions)[..k] == actions[..k];
      LongerRun(n, Front(actions), k);
    }
  }

  /**
   * Over every interleaving messages are taken in the order they were sent, each at most once; and what
   * was sent or taken earlier in the run comes first.
   */
  lemma FirstInFirstOut(n: nat, actions: seq<Action>, k: nat)
    requires k <= |actions|
    ensures var before, s := Run(Start(n), actions[..k]), Run(Start(n), actions);
            && s.taken <= s.sent && NoDup(s.taken)
            && before.sent <= s.sent && before.taken <= s.taken
  {
    RunKeeps(n, actions);
    LongerRun(n, actions, k);
    var s := Run(Start(n), actions);
    assert forall i :: 0 <= i < |s.taken| ==> s.sent[i] == s.taken[i];
  }

  // ---------------------------------------------------------------- which action did what

  datatype Event = Finishes(ok: bool) | Saves | DumpsAgain | Answers

  /** The action is the one with which this happens to the message. */
  ghost predicate Occurs(s: System, a: Action, id: nat, e: Event)
    requires id < |s.messages|
  {
    match e
    case Finishes(ok) => s.worker == Handling(id) && a == Finish(ok)
    case Saves => s.worker.Saving? && s.worker.id == id && a == Save
    case DumpsAgain => s.messages[id].rest.Queued? && a == Rest(id)
    case Answers => s.messages[id].rest.Dumped? && a == Rest(id)
  }

  /** The message says that this happened to it at this time. */
  ghost predicate Records(m: Message, e: Event, k: nat) {
    match e
    case Finishes(ok) => m.finishedAt == Some(k) && m.status == if ok then Success else Failed
    case Saves => m.savedAt == Some(k)
    case DumpsAgain => m.dumpedAt == Some(k)
    case Answers => m.answeredAt == Some(k)
  }

  lemma StepRecords(s: System, a: Action, id: nat, e: Event, k: nat)
    requires Invariant(s) && id < |s.messages|
    ensures Records(Step(s, a).messages[id], e, k)
       <==> Records(s.messages[id], e, k) || (k == s.clock && Occurs(s, a, id, e))
  {
    assert MessageOk(s, id);
  }

  /** The state in which the action at this place of the run was taken. */
  ghost function At(n: nat, actions: seq<Action>, k: nat): System
    requires k <= |actions|
  {
    Run(Start(n), actions[..k])
  }

  lemma {:induction false} ClockTicks(n: nat, actions: seq<Action>)
    ensures Run(Start(n), actions).clock == |actions|
  {
    if actions != [] {
      ClockTicks(n, Front(actions));
    }
  }

  lemma {:induction false} RecordsExact(n: nat, actions: seq<Action>, id: nat, e: Event, k: nat)
    requires id < n
    ensures |Run(Start(n), actions).messages| == n && (k < |actions| ==> |At(n, actions, k).messages| == n)
    ensures Records(Run(Start(n), actions).messages[id], e, k)
       <==> k < |actions| && Occurs(At(n, actions, k), actions[k], id, e)
  {
    RunKeeps(n, actions);
    if actions != [] {
      var before := Front(actions);
      RecordsExact(n, before, id, e, k);
      RunKeeps(n, before);
      ClockTicks(n, before);
      StepRecords(Run(Start(n), before), Last(actions), id, e, k);
      if k < |before| {
        assert actions[..k] == before[..k];
      } else if k == |before| {
        assert actions[..k] == before;
      }
    }
  }

  /** The worker was at the message when it finished its operation at this place of the run. */
  ghost predicate FinishedAt(n: nat, actions: seq<Action>, id: nat, ok: bool, k: nat) {
    k < |actions| && actions[k] == Finish(ok) && At(n, actions, k).worker == Handling(id)
  }

  /**
   * In every interleaving a message has the status `Success` exactly when its operation has finished well,
   * and `Failed` exactly when it has finished with an exception; it never finishes twice.
   */
  lemma StatusExact(n: nat, actions: seq<Action>, id: nat)
    requires id < n
    ensures |Run(Start(n), actions).messages| == n
    ensures var m := Run(Start(n), actions).messages[id];
            && (m.status == Success <==> exists k: nat :: FinishedAt(n, actions, id, true, k))
            && (m.status == Failed <==> exists k: nat :: FinishedAt(n, actions, id, false, k))
            && forall k: nat, l: nat, ok, ok' ::
                 FinishedAt(n, actions, id, ok, k) && FinishedAt(n, actions, id, ok', l) ==> k == l
  {
    RunKeeps(n, actions);
    var m := Run(Start(n), actions).messages[id];
    assert MessageOk(Run(Start(n), actions), id);
    forall k: nat, ok
      ensures Records(m, Finishes(ok), k) <==> FinishedAt(n, actions, id, ok, k)
    {
      RecordsExact(n, actions, id, Finishes(ok), k);
    }
    if m.finishedAt.Some? {
      assert Records(m, Finishes(m.status == Success), m.finishedAt.value);
    }
  }

  /** A status that is no longer `InProgress` never changes again, whatever follows. */
  lemma {:induction false} TerminalForGood(n: nat, actions: seq<Action>, more: seq<Action>, id: nat)
    requires id < n && |Run(Start(n), actions).messages| == n
    requires Run(Start(n), actions).messages[id].status != InProgress
    ensures |Run(Start(n), actions + more).messages| == n
    ensures Run(Start(n), actions + more).messages[id].status == Run(Start(n), actions).messages[id].status
  {
    if more == [] {
      assert actions + more == actions;
    } else {
      TerminalForGood(n, actions, Front(more), id);
      assert Front(actions + more) == actions + Front(more);
      RunKeeps(n, actions + Front(more));
      assert MessageOk(Run(Start(n), actions + Front(more)), id);
    }
  }

  /** All threads have come to rest. */
  ghost predicate Quiescent(s: System) {
    s.worker.Idle? && s.queue == [] && forall m <- s.messages :: m.rest.Answered?
  }

  /**
   * At rest, in every interleaving, every message has a terminal status; and the database disagrees
   * with it exactly when the REST thread took its second dump before the worker finished and wrote it
   * after the worker had saved.
   */
  lemma LostUpdateExact(n: nat, actions: seq<Action>, id: nat)
    requires id < n && Quiescent(Run(Start(n), actions))
    ensures |Run(Start(n), actions).messages| == n
    ensures var m := Run(Start(n), actions).messages[id];
            && m.status != InProgress
            && (m.stored != Some(m.status) <==>
                Before(m.dumpedAt, m.finishedAt) && Before(m.savedAt, m.answeredAt))
  {
    RunKeeps(n, actions);
    var s := Run(Start(n), actions);
    assert MessageOk(s, id);
    assert s.messages[id] in s.messages;
    assert s.taken == s.sent;
  }

  /**
   * What the database holds of a message, at any time of any interleaving: nothing before the first write,
   * then `InProgress`, and after a late write of either thread what the last of these two had dumped: the
   * worker the terminal status, the REST thread that status if the worker had finished before its dump.
   */
  lemma StoredExact(n: nat, actions: seq<Action>, id: nat)
    requires id < n
    ensures |Run(Start(n), actions).messages| == n
    ensures var m := Run(Start(n), actions).messages[id];
            m.stored
            == if m.rest.Created? || m.rest.FirstDumped? then None
               else if m.savedAt.None? && m.answeredAt.None? then Some(InProgress)
               else if m.answeredAt.None? || Before(m.answeredAt, m.savedAt) then Some(m.status)
               else if Before(m.finishedAt, m.dumpedAt) then Some(m.status)
               else Some(InProgress)
  {
    RunKeeps(n, actions);
    assert MessageOk(Run(Start(n), actions), id);
  }

  /** Without a step between dump and write of the second storing, nothing is ever lost. */
  lemma AtomicStoringAgrees(n: nat, actions: seq<Action>, id: nat)
    requires id < n && Quiescent(Run(Start(n), actions)) && |Run(Start(n), actions).messages| == n
    requires var m := Run(Start(n), actions).messages[id];
             m.dumpedAt.Some? ==> m.answeredAt == Some(m.dumpedAt.value + 1)
    ensures var m := Run(Start(n), actions).messages[id];
            m.stored == Some(m.status)
  {
    RunKeeps(n, actions);
    LostUpdateExact(n, actions, id);
    assert MessageOk(Run(Start(n), actions), id);
  }

  lemma Extend(actions: seq<Action>, s: System, a: Action) returns (longer: seq<Action>, after: System)
    requires Run(Start(1), actions) == s
    ensures Run(Start(1), longer) == after && after == Step(s, a)
  {
    longer, after := actions + [a], Step(s, a);
    assert Front(actions + [a]) == actions;
  }

  /** The message while the worker handles it and the REST thread holds its second dump. */
  const OVERTAKEN := System(
    [Message(InProgress, Some(InProgress), Dumped(InProgress), Some(3), None, None, None)], [],
    Handling(0), [0], [0], 5)

  lemma ReachOvertaken() returns (actions: seq<Action>)
    ensures Run(Start(1), actions) == OVERTAKEN
  {
    var s := Start(1);
    actions := [];
    actions, s := Extend(actions, s, Rest(0));
    actions, s := Extend(actions, s, Rest(0));
    actions, s := Extend(actions, s, Rest(0));
    actions, s := Extend(actions, s, Rest(0));
    actions, s := Extend(actions, s, Get);
    assert s == OVERTAKEN;
  }

  /** So there is a run that loses the update: the operation succeeds and the database says `InProgress`. */
  lemma LostUpdateRun() returns (actions: seq<Action>)
    ensures var s := Run(Start(1), actions);
            && Quiescent(s) && |s.messages| == 1
            && s.messages[0].status == Success && s.messages[0].stored == Some(InProgress)
  {
    actions := ReachOvertaken();
    var s := OVERTAKEN;
    actions, s := Extend(actions, s, Finish(true));
    actions, s := Extend(actions, s, Dump);
    actions, s := Extend(actions, s, Save);
    actions, s := Extend(actions, s, Rest(0));
  }
}
