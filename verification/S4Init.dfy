/** The asynchronous transfers of src/s4_init.cpp as an event loop: transfers are submitted, callbacks run while the
    loop is driven, and one callback resubmits its own transfer. Which callbacks run, in which order, with which status
    and in which turn of the loop, is arbitrary; a deadline is a turn that finds it expired. */
module S4Init {
  import opened Sequences

  datatype Status = Completed | TimedOut | Cancelled | NoDevice | Error | Stall | Overflow

  /** One callback: of transfer `id`, with `status`; `resubmitOk` is what a resubmission would be answered. */
  datatype Completion = Completion(id: nat, status: Status, resubmitOk: bool)

  /** One turn of the event loop: the callbacks it runs, and whether the deadline is then found expired. */
  datatype Turn = Turn(batch: seq<Completion>, expired: bool)

  /** Transfers are numbered as they are allocated. `live`: allocated and not freed. `pending`: submitted, callback not
      yet run. `drains`: those whose callback is drain84_cb. `done`: the XferState of those whose xfer_cb has run.
      `drain`, `active`: the two fields of s_drain. */
  datatype LoopState = LoopState(
    next: nat, live: set<nat>, pending: set<nat>, drains: set<nat>, done: map<nat, Status>,
    drain: Option<nat>, active: bool)

  predicate EndsDrain(s: Status) {
    s == Cancelled || s == NoDevice || s == Error
  }

  function Fire(st: LoopState, c: Completion): LoopState {
    if c.id !in st.pending then st
    else if c.id in st.drains then
      if EndsDrain(c.status) || !c.resubmitOk then st.(pending := st.pending - {c.id}, active := false) else st
    else st.(pending := st.pending - {c.id}, done := st.done[c.id := c.status])
  }

  function FireAll(st: LoopState, batch: seq<Completion>): LoopState {
    if batch == [] then st else Fire(FireAll(st, batch[..|batch| - 1]), batch[|batch| - 1])
  }

  /** All callbacks of the first n turns. */
  function Callbacks(turns: seq<Turn>, n: nat): seq<Completion>
    requires n <= |turns|
  {
    if n == 0 then [] else Callbacks(turns, n - 1) + turns[n - 1].batch
  }

  /** The first turn that finds the deadline expired; the number of turns if none does. */
  function FirstExpired(turns: seq<Turn>): (e: nat)
    ensures e <= |turns| && (e < |turns| ==> turns[e].expired)
    ensures forall j | 0 <= j < e :: !turns[j].expired
  {
    if turns == [] || turns[0].expired then 0 else 1 + FirstExpired(turns[1..])
  }

  /** The first n turns run a callback of transfer id. */
  ghost predicate Ran(turns: seq<Turn>, n: nat, id: nat)
    requires n <= |turns|
  {
    exists c :: c in Callbacks(turns, n) && c.id == id
  }

  /** Among the first n turns transfer id has a callback, and its first one has this status. */
  ghost predicate RanWith(turns: seq<Turn>, n: nat, id: nat, status: Status)
    requires n <= |turns|
  {
    var ran := Callbacks(turns, n);
    exists at :: 0 <= at < |ran| && ran[at].id == id && ran[at].status == status
                 && forall j | 0 <= j < at :: ran[j].id != id
  }

  ghost predicate AllRan(turns: seq<Turn>, n: nat, ids: set<nat>)
    requires n <= |turns|
  {
    forall id | id in ids :: Ran(turns, n, id)
  }

  /** The least number of turns from n on after which all of these transfers have run a callback; all turns if none. */
  ghost function FirstRan(turns: seq<Turn>, ids: set<nat>, n: nat): (r: nat)
    requires n <= |turns|
    ensures n <= r <= |turns| && (r < |turns| ==> AllRan(turns, r, ids))
    ensures forall m | n <= m < r :: !AllRan(turns, m, ids)
    decreases |turns| - n
  {
    if n == |turns| || AllRan(turns, n, ids) then n else FirstRan(turns, ids, n + 1)
  }

  // ---------- Invariants ----------

  /** Numbers are fresh, and callbacks belong to one kind of transfer. */
  ghost predicate WellFormed(st: LoopState) {
    && (forall id | id in st.live :: id < st.next)
    && (forall id | id in st.pending :: id < st.next)
    && (forall id | id in st.drains :: id < st.next)
    && (forall id | id in st.done :: id < st.next)
    && st.drains !! st.done.Keys
    && (st.drain.Some? ==> st.drain.value in st.drains && st.drain.value in st.live)
  }

  /** No transfer has been freed while its callback was still to come. */
  predicate Owned(st: LoopState) {
    st.pending <= st.live
  }

  /** s_drain.active says exactly whether the drain transfer is pending, and no other drain transfer is. */
  ghost predicate DrainTracked(st: LoopState) {
    && (st.active <==> st.drain.Some? && st.drain.value in st.pending)
    && (forall id | id in st.pending && id in st.drains :: st.drain == Some(id))
  }

  /** A command transfer has run its callback exactly when it is no longer pending. */
  predicate Settled(st: LoopState, id: nat) {
    id in st.done <==> id !in st.pending
  }

  /** What every callback schedule keeps, through any number of resubmissions. */
  lemma {:induction false} CallbacksKeep(st: LoopState, batch: seq<Completion>)
    requires WellFormed(st)
    ensures var r := FireAll(st, batch);
            && WellFormed(r)
            && (Owned(st) ==> Owned(r))
            && (DrainTracked(st) ==> DrainTracked(r))
            && r.pending <= st.pending
            && r.live == st.live && r.drain == st.drain && r.drains == st.drains && r.next == st.next
  {
    if batch != [] {
      var init := batch[..|batch| - 1];
      CallbacksKeep(st, init);
      CallbackKeeps(FireAll(st, init), batch[|batch| - 1]);
    }
  }

  lemma CallbackKeeps(st: LoopState, c: Completion)
    requires WellFormed(st)
    ensures var r := Fire(st, c);
            && WellFormed(r)
            && (Owned(st) ==> Owned(r))
            && (DrainTracked(st) ==> DrainTracked(r))
            && r.pending <= st.pending
            && r.live == st.live && r.drain == st.drain && r.drains == st.drains && r.next == st.next
  {
  }

  lemma {:induction false} CallbacksSettle(st: LoopState, batch: seq<Completion>, id: nat)
    requires WellFormed(st) && Settled(st, id) && id !in st.drains
    ensures Settled(FireAll(st, batch), id)
  {
    if batch != [] {
      var init := batch[..|batch| - 1];
      CallbacksSettle(st, init, id);
      CallbacksKeep(st, init);
    }
  }

  lemma {:induction false} FireAllAppend(st: LoopState, a: seq<Completion>, b: seq<Completion>)
    ensures FireAll(st, a + b) == FireAll(FireAll(st, a), b)
    decreases |b|
  {
    hide Fire;
    if b == [] {
      assert a + b == a;
    } else {
      assert (a + b)[..|a + b| - 1] == a + b[..|b| - 1];
      FireAllAppend(st, a, b[..|b| - 1]);
    }
  }

  /** The drain transfer is still pending after any callbacks exactly if each of its own resubmitted it; once ended it
      stays ended. */
  lemma {:induction false} DrainPendingIff(st: LoopState, batch: seq<Completion>, id: nat)
    requires WellFormed(st) && id in st.drains && id in st.pending
    ensures id in FireAll(st, batch).pending
       <==> forall c | c in batch && c.id == id :: c.status !in {Cancelled, NoDevice, Error} && c.resubmitOk
  {
    if batch != [] {
      var init, last := batch[..|batch| - 1], batch[|batch| - 1];
      assert forall c :: c in batch <==> c in init || c == last;
      DrainPendingIff(st, init, id);
      CallbacksKeep(st, init);
    }
  }

  /** A pending command transfer is done after any callbacks exactly if one of them was its own, and then with the
      status of the first. */
  lemma {:induction false} DoneIff(st: LoopState, batch: seq<Completion>, id: nat)
    requires WellFormed(st) && id !in st.drains && id in st.pending && id !in st.done
    ensures var r := FireAll(st, batch);
            && (id in r.done <==> exists c :: c in batch && c.id == id)
            && (id in r.done <==> id !in r.pending)
            && (id in r.done ==>
                  exists at :: 0 <= at < |batch| && batch[at].id == id && r.done[id] == batch[at].status
                            && forall j | 0 <= j < at :: batch[j].id != id)
  {
    if batch != [] {
      var init, last := batch[..|batch| - 1], batch[|batch| - 1];
      assert forall c :: c in batch <==> c in init || c == last;
      DoneIff(st, init, id);
      CallbacksKeep(st, init);
      var before, after := FireAll(st, init), FireAll(st, batch);
      if id in before.done {
        var at :| 0 <= at < |init| && init[at].id == id && before.done[id] == init[at].status
                  && forall j | 0 <= j < at :: init[j].id != id;
        assert batch[at].id == id && after.done[id] == batch[at].status && forall j | 0 <= j < at :: batch[j].id != id;
      } else if last.id == id {
        assert forall j | 0 <= j < |init| :: init[j] in init && batch[j] == init[j];
        assert batch[|init|].id == id && after.done[id] == batch[|init|].status;
      }
    }
  }

  lemma {:induction false} CallbacksGrow(turns: seq<Turn>, m: nat, n: nat)
    requires m <= n <= |turns|
    ensures Callbacks(turns, m) <= Callbacks(turns, n)
  {
    if m < n {
      CallbacksGrow(turns, m, n - 1);
    }
  }

  lemma RanStays(turns: seq<Turn>, m: nat, n: nat, id: nat)
    requires m <= n <= |turns| && Ran(turns, m, id)
    ensures Ran(turns, n, id)
  {
    CallbacksGrow(turns, m, n);
    var c :| c in Callbacks(turns, m) && c.id == id;
    assert c in Callbacks(turns, n);
  }

  lemma DoneIffRan(st: LoopState, turns: seq<Turn>, n: nat, id: nat)
    requires WellFormed(st) && id !in st.drains && id in st.pending && id !in st.done && n <= |turns|
    ensures id in FireAll(st, Callbacks(turns, n)).done <==> Ran(turns, n, id)
  {
    hide FireAll, Callbacks;
    DoneIff(st, Callbacks(turns, n), id);
  }

  lemma DoneWithIffRanWith(st: LoopState, turns: seq<Turn>, n: nat, id: nat, status: Status)
    requires WellFormed(st) && id !in st.drains && id in st.pending && id !in st.done && n <= |turns|
    requires id in FireAll(st, Callbacks(turns, n)).done
    ensures FireAll(st, Callbacks(turns, n)).done[id] == status <==> RanWith(turns, n, id, status)
  {
    hide FireAll, Callbacks, WellFormed;
    DoneIff(st, Callbacks(turns, n), id);
  }

  /** The first callback stays the first. */
  lemma RanWithStays(turns: seq<Turn>, m: nat, n: nat, id: nat, status: Status)
    requires m <= n <= |turns| && Ran(turns, m, id)
    ensures RanWith(turns, m, id, status) <==> RanWith(turns, n, id, status)
  {
    hide Callbacks;
    CallbacksGrow(turns, m, n);
    FirstStaysFirst(Callbacks(turns, m), Callbacks(turns, n), id);
  }

  lemma FirstStaysFirst(few: seq<Completion>, many: seq<Completion>, id: nat)
    requires few <= many && exists c :: c in few && c.id == id
    ensures forall at | 0 <= at < |many| && many[at].id == id && forall j | 0 <= j < at :: many[j].id != id ::
              at < |few| && many[at] == few[at]
  {
    var c :| c in few && c.id == id;
    var j :| 0 <= j < |few| && few[j] == c;
    assert many[j] == few[j];
  }

  // ---------- Allocation, submission, release ----------

  function Submitted(st: LoopState): LoopState {
    st.(next := st.next + 1, live := st.live + {st.next}, pending := st.pending + {st.next})
  }

  function Freed(st: LoopState, id: nat): LoopState {
    st.(live := st.live - {id})
  }

  /** start_drain84: what it leaves when allocation and submission are answered so. */
  function Started(st: LoopState, allocOk: bool, submitOk: bool): LoopState {
    if !allocOk then st.(drain := None)
    else st.(next := st.next + 1, live := st.live + {st.next}, drains := st.drains + {st.next}, drain := Some(st.next),
             pending := if submitOk then st.pending + {st.next} else st.pending, active := submitOk)
  }

  /** Starting the drain establishes the meaning of `active` exactly when no earlier drain transfer is still pending;
      an initialisation that failed half-way leaves one behind. */
  lemma StartTracksIff(st: LoopState, allocOk: bool, submitOk: bool)
    requires WellFormed(st)
    ensures WellFormed(Started(st, allocOk, submitOk))
    ensures Owned(st) ==> Owned(Started(st, allocOk, submitOk))
    ensures DrainTracked(Started(st, allocOk, submitOk))
       <==> (forall id | id in st.pending :: id !in st.drains) && (allocOk || !st.active)
  {
    var r := Started(st, allocOk, submitOk);
    if id :| id in st.pending && id in st.drains {
      assert id in r.pending && id in r.drains && id < st.next;
    }
  }

  lemma SubmitKeeps(st: LoopState)
    requires WellFormed(st)
    ensures WellFormed(Submitted(st)) && Settled(Submitted(st), st.next) && st.next !in Submitted(st).drains
    ensures Owned(st) ==> Owned(Submitted(st))
    ensures DrainTracked(st) ==> DrainTracked(Submitted(st))
  {
  }

  // ---------- The program ----------

  datatype CmdOutcome = Answered | CmdAllocFailed | InRejected | OutRejected | OutFailed | CmdTimedOut | CmdWaiting

  /** One call of `cmd` or `led_async`, with everything it is answered. */
  datatype InitStep =
    | CmdStep(inAlloc: bool, outAlloc: bool, inOk: bool, outOk: bool, turns: seq<Turn>)
    | LedStep(allocOk: bool, submitOk: bool, turns: seq<Turn>)

  /** How far the initialisation gets. */
  datatype InitOutcome = WakeStopped(at: nat) | DumpStopped(at: nat) | Initialised

  /** No transfer of an earlier attempt is left behind. */
  ghost predicate Clean(st: LoopState) {
    Owned(st) && DrainTracked(st) && st.drain == None
  }

  /** What `cmd` leaves: `ran` are the callbacks that ran inside it, `waits` says that it is still inside. */
  ghost function CmdState(st: LoopState, inAlloc: bool, outAlloc: bool, inOk: bool, outOk: bool, waits: bool,
                          ran: seq<Completion>): LoopState
  {
    var i, o := st.next, st.next + 1;
    if !inAlloc && !outAlloc then st
    else if !inAlloc || !outAlloc then st.(next := st.next + 1, live := st.live + {i})
    else if !inOk then st.(next := st.next + 2, live := st.live - {i, o})
    else if !outOk then st.(next := st.next + 2, live := st.live - {i, o}, pending := st.pending + {i})
    else
      var fired := FireAll(Submitted(Submitted(st)), ran);
      if waits then fired else Freed(Freed(fired, i), o)
  }

  /** The turns that `cmd` drives: until both callbacks have run, or through the turn that finds the deadline expired.
      `i` numbers its IN transfer. */
  ghost function CmdUsed(turns: seq<Turn>, i: nat): (used: nat)
    ensures used <= |turns|
  {
    Min(FirstRan(turns, {i, i + 1}, 0), Min(FirstExpired(turns) + 1, |turns|))
  }

  /** The outcome of `cmd` once both transfers are submitted, in terms of the schedule alone. */
  ghost predicate CmdEnds(turns: seq<Turn>, i: nat, outcome: CmdOutcome) {
    var e, o := FirstExpired(turns), i + 1;
    && (outcome == Answered <==> Ran(turns, e, i) && RanWith(turns, e, o, Completed))
    && (outcome == OutFailed <==> Ran(turns, e, i) && Ran(turns, e, o) && !RanWith(turns, e, o, Completed))
    && (outcome == CmdWaiting <==> e == |turns| && !(Ran(turns, e, i) && Ran(turns, e, o)))
  }

  /** A command that leaves a transfer pending and freed: its OUT submission is refused, or its deadline is found
      expired in a turn up to which not both callbacks have run. `i` numbers its IN transfer. */
  ghost predicate CmdLeaves(inOk: bool, outOk: bool, turns: seq<Turn>, i: nat) {
    var e := FirstExpired(turns);
    inOk && (!outOk || (e < |turns| && !(Ran(turns, e + 1, i) && Ran(turns, e + 1, i + 1))))
  }

  ghost predicate StepLeaves(step: InitStep, i: nat) {
    step.CmdStep? && step.inAlloc && step.outAlloc && CmdLeaves(step.inOk, step.outOk, step.turns, i)
  }

  /** A step returns normally: everything is allocated and submitted, its callbacks run before the turn that finds the
      deadline expired, and the first status of its OUT transfer is Completed. `i` numbers its first transfer. */
  ghost predicate StepPasses(step: InitStep, i: nat) {
    match step
    case CmdStep(inAlloc, outAlloc, inOk, outOk, turns) =>
      && inAlloc && outAlloc && inOk && outOk
      && Ran(turns, FirstExpired(turns), i) && RanWith(turns, FirstExpired(turns), i + 1, Completed)
    case LedStep(allocOk, submitOk, turns) =>
      allocOk && submitOk && RanWith(turns, FirstExpired(turns), i, Completed)
  }

  /** What a step leaves, whether it passes or not. */
  ghost function StepState(st: LoopState, step: InitStep): LoopState {
    match step
    case CmdStep(inAlloc, outAlloc, inOk, outOk, turns) =>
      var e := FirstExpired(turns);
      var waits := e == |turns| && !(Ran(turns, e, st.next) && Ran(turns, e, st.next + 1));
      CmdState(st, inAlloc, outAlloc, inOk, outOk, waits, Callbacks(turns, CmdUsed(turns, st.next)))
    case LedStep(allocOk, submitOk, turns) =>
      if !allocOk then st
      else if !submitOk then st.(next := st.next + 1)
      else
        var ran := FireAll(Submitted(st), Callbacks(turns, FirstRan(turns, {st.next}, 0)));
        if Ran(turns, |turns|, st.next) then Freed(ran, st.next) else ran
  }

  ghost function StepsState(st: LoopState, steps: seq<InitStep>, n: nat): LoopState
    requires n <= |steps|
  {
    if n == 0 then st else StepState(StepsState(st, steps, n - 1), steps[n - 1])
  }

  /** The number of transfers of the first n steps: two for a command, one for an LED write. */
  function Transfers(steps: seq<InitStep>, n: nat): nat
    requires n <= |steps|
  {
    if n == 0 then 0 else Transfers(steps, n - 1) + if steps[n - 1].CmdStep? then 2 else 1
  }

  ghost predicate PassUpTo(steps: seq<InitStep>, i: nat, n: nat)
    requires n <= |steps|
  {
    forall j | 0 <= j < n :: StepPasses(steps[j], i + Transfers(steps, j))
  }

  /** The steps pass up to number `at`, which does not. `i` numbers the first transfer. */
  ghost predicate StopsAt(steps: seq<InitStep>, i: nat, at: nat) {
    && at <= |steps| && PassUpTo(steps, i, at)
    && (at < |steps| ==> !StepPasses(steps[at], i + Transfers(steps, at)))
  }

  /** What stop_drain84 leaves; `ran` are the callbacks that ran inside it. */
  ghost function StopState(st: LoopState, ran: seq<Completion>): LoopState {
    if st.drain == None then st
    else Freed(FireAll(st, ran), st.drain.value).(drain := None, active := false)
  }

  /** Some callback of the drain, within the deadline, ends it; or it is not active to begin with. */
  ghost predicate StopsClean(st: LoopState, turns: seq<Turn>) {
    st.active && st.drain.Some? ==>
      exists c :: c in Callbacks(turns, |turns|) && c.id == st.drain.value
                  && (c.status in {Cancelled, NoDevice, Error} || !c.resubmitOk)
  }

  datatype LedOutcome = Written | AllocFailed | SubmitFailed | TransferFailed | WriteTimedOut | StillWaiting

  class TransferLoop {
    var next: nat
    var live: set<nat>
    var pending: set<nat>
    var drains: set<nat>
    var done: map<nat, Status>
    var drain: Option<nat>
    var active: bool

    ghost function State(): LoopState
      reads this
    {
      LoopState(next, live, pending, drains, done, drain, active)
    }

    method XferCb(id: nat, status: Status)
      requires id in pending && id !in drains
      modifies this
      ensures forall resubmitOk :: State() == Fire(old(State()), Completion(id, status, resubmitOk))
    {
      pending := pending - {id};
      done := done[id := status];
    }

    method Drain84Cb(id: nat, status: Status, resubmitOk: bool)
      requires id in pending && id in drains
      modifies this
      ensures State() == Fire(old(State()), Completion(id, status, resubmitOk))
    {
      ghost var was := pending;
      pending := pending - {id};
      if status == Cancelled || status == NoDevice || status == Error {
        active := false;
        return;
      }
      if resubmitOk {
        pending := pending + {id};
        assert pending == was;
      } else {
        active := false;
      }
    }

    /** libusb_handle_events: run the callbacks of one turn; only submitted transfers complete. */
    method HandleEvents(batch: seq<Completion>)
      modifies this
      ensures State() == FireAll(old(State()), batch)
    {
      for i := 0 to |batch|
        invariant State() == FireAll(old(State()), batch[..i])
      {
        assert batch[..i + 1][..i] == batch[..i];
        var c := batch[i];
        if c.id in pending {
          if c.id in drains {
            Drain84Cb(c.id, c.status, c.resubmitOk);
          } else {
            XferCb(c.id, c.status);
          }
        }
      }
      assert batch[..|batch|] == batch;
    }

    method Free(id: nat)
      modifies this`live
      ensures State() == Freed(old(State()), id)
    {
      live := live - {id};
    }

    /** cmd: the IN transfer, numbered first, and the OUT transfer. Unlike led_async it frees without waiting, so it
        keeps ownership exactly when it does not leave by a rejected OUT submission, nor by its deadline with one of
        the two callbacks still to come. */
    method Cmd(inAlloc: bool, outAlloc: bool, inOk: bool, outOk: bool, turns: seq<Turn>)
      returns (outcome: CmdOutcome, used: nat)
      requires WellFormed(State())
      modifies this
      ensures used <= |turns| && WellFormed(State())
      ensures old(DrainTracked(State())) ==> DrainTracked(State())
      ensures outcome == CmdAllocFailed <==> !(inAlloc && outAlloc)
      ensures outcome == InRejected <==> inAlloc && outAlloc && !inOk
      ensures outcome == OutRejected <==> inAlloc && outAlloc && inOk && !outOk
      ensures State() == CmdState(old(State()), inAlloc, outAlloc, inOk, outOk, outcome == CmdWaiting,
                                  Callbacks(turns, used))
      ensures used == if inAlloc && outAlloc && inOk && outOk then CmdUsed(turns, old(next)) else 0
      ensures inAlloc && outAlloc && inOk && outOk ==> CmdEnds(turns, old(next), outcome)
      ensures inAlloc && outAlloc && outcome != CmdWaiting ==> live == old(live)
      ensures old(Owned(State())) ==>
        (Owned(State()) <==> !(inAlloc && outAlloc && CmdLeaves(inOk, outOk, turns, old(next))))
    {
      hide FireAll, Fire, WellFormed, Owned, DrainTracked, Submitted, Callbacks, CmdLeaves, FirstExpired;
      hide CmdEnds, CmdUsed;
      used := 0;
      ghost var before := State();
      if inAlloc {
        next, live := next + 1, live + {next};
      }
      if outAlloc {
        next, live := next + 1, live + {next};
      }
      if !inAlloc || !outAlloc {
        Allocated(before);
        return CmdAllocFailed, used;
      }
      outcome, used := SubmitCmd(inOk, outOk, turns, before);
    }

    /** The rest of `cmd`, with both transfers allocated. */
    method SubmitCmd(inOk: bool, outOk: bool, turns: seq<Turn>, ghost before: LoopState)
      returns (outcome: CmdOutcome, used: nat)
      requires WellFormed(before)
      requires State() == before.(next := before.next + 2, live := before.live + {before.next} + {before.next + 1})
      modifies this
      ensures used <= |turns| && WellFormed(State()) && (DrainTracked(before) ==> DrainTracked(State()))
      ensures outcome != CmdAllocFailed
      ensures outcome == InRejected <==> !inOk
      ensures outcome == OutRejected <==> inOk && !outOk
      ensures State() == CmdState(before, true, true, inOk, outOk, outcome == CmdWaiting, Callbacks(turns, used))
      ensures used == if inOk && outOk then CmdUsed(turns, before.next) else 0
      ensures inOk && outOk ==> CmdEnds(turns, before.next, outcome)
      ensures outcome != CmdWaiting ==> live == before.live
      ensures Owned(before) ==> (Owned(State()) <==> !CmdLeaves(inOk, outOk, turns, before.next))
    {
      hide FireAll, Fire, WellFormed, Owned, DrainTracked, Submitted, Callbacks, CmdLeaves, FirstExpired;
      hide CmdEnds, CmdUsed;
      used := 0;
      var inT, outT := next - 2, next - 1;
      if !inOk {
        Free(inT);
        Free(outT);
        CmdRefused(before, outOk, turns);
        return InRejected, used;
      }
      pending := pending + {inT};
      if !outOk {
        Free(inT);
        Free(outT);
        CmdRefused(before, outOk, turns);
        return OutRejected, used;
      }
      pending := pending + {outT};
      SubmitsBoth(before, State());
      outcome, used := FinishCmd(inT, outT, turns, before);
    }

    /** The end of `cmd`, with both transfers submitted. */
    method FinishCmd(inT: nat, outT: nat, turns: seq<Turn>, ghost before: LoopState)
      returns (outcome: CmdOutcome, used: nat)
      requires WellFormed(before) && inT == before.next && outT == inT + 1 && State() == Submitted(Submitted(before))
      modifies this
      ensures outcome in {Answered, OutFailed, CmdTimedOut, CmdWaiting}
      ensures used <= |turns| && WellFormed(State()) && (DrainTracked(before) ==> DrainTracked(State()))
      ensures State() == CmdState(before, true, true, true, true, outcome == CmdWaiting, Callbacks(turns, used))
      ensures CmdEnds(turns, inT, outcome) && used == CmdUsed(turns, inT)
      ensures outcome != CmdWaiting ==> live == before.live
      ensures Owned(before) ==> (Owned(State()) <==> !CmdLeaves(true, true, turns, inT))
    {
      hide FireAll, Fire, WellFormed, Owned, DrainTracked, Submitted, Callbacks, CmdLeaves, FirstExpired;
      hide CmdEnds, CmdUsed;
      var expired;
      used, expired := DriveBoth(inT, outT, turns);
      CmdDriven(before, turns, used, expired);
      if !expired && (inT !in done || outT !in done) {
        return CmdWaiting, used;
      }
      Free(inT);
      Free(outT);
      if expired {
        return CmdTimedOut, used;
      }
      outcome := if done[outT] == Completed then Answered else OutFailed;
    }

    /** Drive the event loop until both callbacks have run, the deadline is found expired, or the turns run out. */
    method DriveBoth(a: nat, b: nat, turns: seq<Turn>) returns (used: nat, expired: bool)
      modifies this
      ensures used <= |turns| && State() == FireAll(old(State()), Callbacks(turns, used))
      ensures expired ==> used == FirstExpired(turns) + 1
      ensures forall m | 0 <= m < used ::
                var before := FireAll(old(State()), Callbacks(turns, m)); a !in before.done || b !in before.done
      ensures !expired ==> used <= FirstExpired(turns) && ((a in done && b in done) || used == |turns|)
    {
      hide FireAll, Fire, FirstExpired, Callbacks;
      used, expired := 0, false;
      NothingRan(State(), turns);
      while a !in done || b !in done
        invariant used <= FirstExpired(turns) && State() == FireAll(old(State()), Callbacks(turns, used))
        invariant forall m | 0 <= m < used ::
                    var before := FireAll(old(State()), Callbacks(turns, m)); a !in before.done || b !in before.done
        decreases |turns| - used
      {
        if used == |turns| {
          return;
        }
        RunTurn(old(State()), turns, used);
        HandleEvents(turns[used].batch);
        used := used + 1;
        if turns[used - 1].expired {
          expired := true;
          return;
        }
      }
    }

    /** led_async, driven by `turns`; `used` counts the turns it took. StillWaiting: the turns ran out inside it.
        On every other exit the transfer has been freed and was not pending at that moment, so the ledger of transfers
        is as before; and the callbacks that ran meanwhile, of the drain too, have had their effect. It succeeds or
        fails by its status exactly if its callback runs before the turn that finds the deadline expired: one that runs
        in that very turn is reported as a timeout. */
    method LedAsync(allocOk: bool, submitOk: bool, turns: seq<Turn>) returns (outcome: LedOutcome, used: nat)
      requires WellFormed(State())
      modifies this
      ensures used <= |turns| && WellFormed(State())
      ensures old(Owned(State())) ==> Owned(State())
      ensures old(DrainTracked(State())) ==> DrainTracked(State())
      ensures drain == old(drain)
      ensures outcome == AllocFailed <==> !allocOk
      ensures outcome == SubmitFailed <==> allocOk && !submitOk
      ensures !(allocOk && submitOk) ==> used == 0
      ensures !allocOk ==> State() == old(State())
      ensures allocOk && !submitOk ==> State() == old(State()).(next := old(next) + 1)
      ensures allocOk && submitOk ==>
        var id, ran := old(next), FireAll(Submitted(old(State())), Callbacks(turns, used));
        && State() == (if outcome == StillWaiting then ran else Freed(ran, id))
        && (outcome == StillWaiting ==> used == |turns|)
        && (outcome != StillWaiting ==> id in ran.done && id !in ran.pending && live == old(live))
        && used == FirstRan(turns, {id}, 0)
        && (outcome == StillWaiting <==> !Ran(turns, |turns|, id))
        && (outcome == Written <==> RanWith(turns, FirstExpired(turns), id, Completed))
        && (outcome == TransferFailed <==>
              Ran(turns, FirstExpired(turns), id) && !RanWith(turns, FirstExpired(turns), id, Completed))
    {
      hide FireAll, Fire, WellFormed, Owned, DrainTracked, Settled, FirstExpired, Ran, RanWith, Callbacks, Submitted;
      hide FirstRan;
      used := 0;
      if !allocOk {
        return AllocFailed, used;
      }
      var id := next;
      ghost var before := State();
      next, live := next + 1, live + {id};
      if !submitOk {
        Free(id);
        Unsubmitted(before);
        return SubmitFailed, used;
      }
      pending := pending + {id};
      assert State() == Submitted(before) by { SubmitsOne(before, State()); }
      NothingRan(State(), turns);
      while id !in done
        invariant used <= FirstExpired(turns) && State() == FireAll(Submitted(before), Callbacks(turns, used))
        invariant forall m | 0 <= m < used :: id !in FireAll(Submitted(before), Callbacks(turns, m)).done
        decreases |turns| - used
      {
        LedKeeps(before, turns, used);
        if used == |turns| {
          LedUsed(before, turns, used);
          LedStatus(before, turns, used);
          return StillWaiting, used;
        }
        RunTurn(Submitted(before), turns, used);
        HandleEvents(turns[used].batch);
        used := used + 1;
        if turns[used - 1].expired {
          // Cancelled; wait for the callback before freeing.
          while id !in done
            invariant FirstExpired(turns) < used <= |turns|
            invariant State() == FireAll(Submitted(before), Callbacks(turns, used))
            invariant forall m | 0 <= m < used :: id !in FireAll(Submitted(before), Callbacks(turns, m)).done
            decreases |turns| - used
          {
            if used == |turns| {
              LedUsed(before, turns, used);
              LedStatus(before, turns, used);
              LedKeeps(before, turns, used);
              return StillWaiting, used;
            }
            RunTurn(Submitted(before), turns, used);
            HandleEvents(turns[used].batch);
            used := used + 1;
          }
          LedUsed(before, turns, used);
          LedStatus(before, turns, used);
          LedKeeps(before, turns, used);
          Free(id);
          return WriteTimedOut, used;
        }
      }
      LedUsed(before, turns, used);
      LedStatus(before, turns, used);
      LedKeeps(before, turns, used);
      Free(id);
      outcome := if done[id] == Completed then Written else TransferFailed;
    }

    method StartDrain84(allocOk: bool, submitOk: bool)
      modifies this
      ensures State() == Started(old(State()), allocOk, submitOk)
    {
      if !allocOk {
        drain := None;
        return;
      }
      drain := Some(next);
      next, live, drains := next + 1, live + {next}, drains + {next};
      if submitOk {
        pending := pending + {next - 1};
      }
      active := submitOk;
    }

    /** stop_drain84, with the callbacks of the turns that fit before its deadline. It frees the transfer either way,
        so an active drain keeps ownership exactly if one of its own callbacks ends it before the deadline. */
    method StopDrain84(turns: seq<Turn>) returns (used: nat)
      requires WellFormed(State())
      modifies this
      ensures used <= |turns| && WellFormed(State()) && drain == None
      ensures State() == StopState(old(State()), Callbacks(turns, used))
      ensures if old(drain).None? then used == 0
              else && (forall m | 0 <= m < used :: FireAll(old(State()), Callbacks(turns, m)).active)
                   && (used < |turns| ==> !FireAll(old(State()), Callbacks(turns, used)).active)
                   && live == old(live) - {old(drain).value} && !active
      ensures old(Owned(State()) && DrainTracked(State())) ==>
        && (Owned(State()) <==> StopsClean(old(State()), turns))
        && (DrainTracked(State()) <==> StopsClean(old(State()), turns))
    {
      hide FireAll, Fire, Callbacks, WellFormed, Owned, DrainTracked, StopsClean;
      used := 0;
      ghost var start := State();
      NothingRan(start, turns);
      if drain == None {
        StopStates(start, turns, 0);
        return;
      }
      while active && used < |turns|
        invariant used <= |turns| && State() == FireAll(start, Callbacks(turns, used))
        invariant forall m | 0 <= m < used :: FireAll(start, Callbacks(turns, m)).active
      {
        RunTurn(start, turns, used);
        HandleEvents(turns[used].batch);
        used := used + 1;
      }
      StopStates(start, turns, used);
      Free(drain.value);
      drain := None;
      active := false;
    }

    /** A sequence of `cmd` and `led_async` calls, up to the first that throws or still waits. */
    method RunSteps(steps: seq<InitStep>) returns (at: nat)
      requires WellFormed(State())
      modifies this
      ensures at <= |steps| && StopsAt(steps, old(next), at)
      ensures State() == StepsState(old(State()), steps, if at < |steps| then at + 1 else at)
      ensures at == |steps| ==> next == old(next) + Transfers(steps, at)
      ensures WellFormed(State()) && drain == old(drain)
      ensures old(DrainTracked(State())) ==> DrainTracked(State())
      ensures old(Owned(State())) ==>
        (Owned(State()) <==> !(at < |steps| && StepLeaves(steps[at], old(next) + Transfers(steps, at))))
    {
      hide FireAll, Fire, Callbacks, WellFormed, Owned, DrainTracked, CmdLeaves, Submitted, CmdEnds, CmdUsed;
      hide StepPasses, StepState, FirstRan, Ran, RanWith, CmdState;
      hide StepsState, Transfers, PassUpTo, StopsAt, StepLeaves;
      at := 0;
      NoSteps(State(), steps, next);
      while at < |steps|
        invariant at <= |steps| && WellFormed(State()) && drain == old(drain)
        invariant State() == StepsState(old(State()), steps, at) && next == old(next) + Transfers(steps, at)
        invariant PassUpTo(steps, old(next), at)
        invariant old(DrainTracked(State())) ==> DrainTracked(State())
        invariant old(Owned(State())) ==> Owned(State())
      {
        ghost var before := State();
        OneMoreStep(old(State()), steps, old(next), at);
        var passed := RunStep(steps[at]);
        if !passed {
          return;
        }
        PassedStep(before, steps[at]);
        at := at + 1;
      }
      AllPassed(steps, old(next));
    }

    /** One call; false where it throws or still waits. */
    method RunStep(step: InitStep) returns (passed: bool)
      requires WellFormed(State())
      modifies this
      ensures passed <==> StepPasses(step, old(next))
      ensures State() == StepState(old(State()), step)
      ensures WellFormed(State()) && drain == old(drain)
      ensures old(DrainTracked(State())) ==> DrainTracked(State())
      ensures old(Owned(State())) ==> (Owned(State()) <==> !StepLeaves(step, old(next)))
    {
      hide FireAll, Fire, Callbacks, WellFormed, Owned, DrainTracked, CmdLeaves, Submitted, CmdUsed;
      hide FirstRan, Ran, RanWith, FirstExpired;
      ghost var before := State();
      match step {
        case CmdStep(inAlloc, outAlloc, inOk, outOk, turns) =>
          var outcome, used := Cmd(inAlloc, outAlloc, inOk, outOk, turns);
          CmdStateFrame(before, inAlloc, outAlloc, inOk, outOk, outcome == CmdWaiting, Callbacks(turns, used));
          passed := outcome == Answered;
        case LedStep(allocOk, submitOk, turns) =>
          var outcome, used := LedAsync(allocOk, submitOk, turns);
          passed := outcome == Written;
      }
    }

    /** The shape of s4_mk1_init: commands and LED writes, then the drain around the LED dump. `beforeStop` is the state
        in which the drain is stopped. The outcome, and the state it leaves, are those of the schedule: it stops at the
        first step that does not pass. Started without transfers of an earlier attempt, it keeps `active` meaningful
        and every transfer owned on every path, except exactly for a command that leaves one pending or a stop that
        the drain outlives; and when it completes with every transfer owned, the next initialisation starts as clean. */
    method Initialise(wake: seq<InitStep>, startAllocOk: bool, startSubmitOk: bool, dump: seq<InitStep>,
                      stopTurns: seq<Turn>)
      returns (outcome: InitOutcome, ghost beforeStop: LoopState, ghost used: nat)
      requires WellFormed(State()) && forall st | st in dump :: st.LedStep?
      modifies this
      ensures WellFormed(State()) && used <= |stopTurns|
      ensures
        var first := old(next);
        var woken := StepsState(old(State()), wake, |wake|);
        var started := Started(woken, startAllocOk, startSubmitOk);
        var second := first + Transfers(wake, |wake|) + if startAllocOk then 1 else 0;
        match outcome
        case WakeStopped(at) =>
          at < |wake| && StopsAt(wake, first, at) && State() == StepsState(old(State()), wake, at + 1)
        case DumpStopped(at) =>
          && StopsAt(wake, first, |wake|)
          && at < |dump| && StopsAt(dump, second, at) && State() == StepsState(started, dump, at + 1)
        case Initialised =>
          && StopsAt(wake, first, |wake|) && StopsAt(dump, second, |dump|)
          && beforeStop == StepsState(started, dump, |dump|)
          && State() == StopState(beforeStop, Callbacks(stopTurns, used))
      ensures old(Clean(State())) ==>
        match outcome
        case WakeStopped(at) =>
          && DrainTracked(State()) && drain == None
          && (Owned(State()) <==> !StepLeaves(wake[at], old(next) + Transfers(wake, at)))
        case DumpStopped(at) => DrainTracked(State()) && Owned(State())
        case Initialised =>
          && drain == None && Owned(beforeStop) && DrainTracked(beforeStop)
          && (Owned(State()) <==> StopsClean(beforeStop, stopTurns))
          && (Owned(State()) <==> Clean(State()))
    {
      hide FireAll, Fire, Callbacks, WellFormed, Owned, DrainTracked, StopsClean, StepsState, StepPasses, StopState;
      hide StopsAt, Transfers, StepLeaves;
      beforeStop, used := State(), 0;
      var at := RunSteps(wake);
      if at < |wake| {
        return WakeStopped(at), beforeStop, used;
      }
      StartKeeps(State(), startAllocOk, startSubmitOk);
      StartDrain84(startAllocOk, startSubmitOk);
      at := RunSteps(dump);
      if at < |dump| {
        assert dump[at] in dump && forall i: nat :: !StepLeaves(dump[at], i) by {
          LedLeavesNothing();
        }
        return DumpStopped(at), beforeStop, used;
      }
      beforeStop := State();
      used := StopDrain84(stopTurns);
      StoppedHasNone(beforeStop, Callbacks(stopTurns, used));
      outcome := Initialised;
    }
  }

  lemma StoppedHasNone(st: LoopState, ran: seq<Completion>)
    ensures StopState(st, ran).drain == None
  {
  }

  lemma LedLeavesNothing()
    ensures forall step: InitStep, i: nat | step.LedStep? :: !StepLeaves(step, i)
  {
  }

  lemma NoSteps(st: LoopState, steps: seq<InitStep>, i: nat)
    ensures StepsState(st, steps, 0) == st && Transfers(steps, 0) == 0 && PassUpTo(steps, i, 0)
  {
  }

  lemma OneMoreStep(st: LoopState, steps: seq<InitStep>, i: nat, n: nat)
    requires n < |steps| && PassUpTo(steps, i, n)
    ensures StepsState(st, steps, n + 1) == StepState(StepsState(st, steps, n), steps[n])
    ensures Transfers(steps, n + 1) == Transfers(steps, n) + if steps[n].CmdStep? then 2 else 1
    ensures if StepPasses(steps[n], i + Transfers(steps, n)) then PassUpTo(steps, i, n + 1) else StopsAt(steps, i, n)
  {
    hide StepState, StepPasses;
  }

  lemma AllPassed(steps: seq<InitStep>, i: nat)
    requires PassUpTo(steps, i, |steps|)
    ensures StopsAt(steps, i, |steps|)
  {
  }

  /** A step that passes takes the next numbers, and leaves nothing behind. */
  lemma PassedStep(st: LoopState, step: InitStep)
    requires WellFormed(st) && StepPasses(step, st.next)
    ensures StepState(st, step).next == st.next + if step.CmdStep? then 2 else 1
    ensures !StepLeaves(step, st.next)
  {
    hide FireAll, Callbacks, Ran, RanWith, FirstRan, Submitted, CmdUsed, FirstExpired;
    match step
    case CmdStep(inAlloc, outAlloc, inOk, outOk, turns) =>
      CmdStateFrame(st, true, true, true, true, false, Callbacks(turns, CmdUsed(turns, st.next)));
      AnsweredIsOwned(turns, st.next);
    case LedStep(allocOk, submitOk, turns) =>
      LedFrame(st, turns, FirstRan(turns, {st.next}, 0));
  }

  lemma NothingRan(st: LoopState, turns: seq<Turn>)
    ensures FireAll(st, Callbacks(turns, 0)) == st
  {
  }

  lemma RunTurn(st: LoopState, turns: seq<Turn>, used: nat)
    requires used < |turns|
    ensures FireAll(st, Callbacks(turns, used + 1)) == FireAll(FireAll(st, Callbacks(turns, used)), turns[used].batch)
  {
    hide FireAll;
    FireAllAppend(st, Callbacks(turns, used), turns[used].batch);
  }

  /** After any turns: the invariants hold, and the command transfer may be freed exactly when its callback has run. */
  lemma RanKeeps(start: LoopState, turns: seq<Turn>, used: nat, id: nat)
    requires used <= |turns| && WellFormed(start) && Settled(start, id) && id !in start.drains
    ensures var ran := FireAll(start, Callbacks(turns, used));
            && WellFormed(ran) && Settled(ran, id) && ran.live == start.live && ran.drain == start.drain
            && (Owned(start) ==> Owned(ran)) && (DrainTracked(start) ==> DrainTracked(ran))
            && (Owned(ran) ==> (Owned(Freed(ran, id)) <==> id in ran.done))
  {
    hide FireAll;
    CallbacksKeep(start, Callbacks(turns, used));
    CallbacksSettle(start, Callbacks(turns, used), id);
  }

  lemma FreedBoth(ran: LoopState, a: nat, b: nat)
    requires Owned(ran) && Settled(ran, a) && Settled(ran, b)
    ensures Owned(Freed(Freed(ran, a), b)) <==> a in ran.done && b in ran.done
  {
    if a !in ran.done {
      assert a in ran.pending && a !in Freed(Freed(ran, a), b).live;
    }
    if b !in ran.done {
      assert b in ran.pending && b !in Freed(Freed(ran, a), b).live;
    }
  }

  lemma Unsubmitted(st: LoopState)
    requires WellFormed(st)
    ensures st.live + {st.next} - {st.next} == st.live
    ensures var r := st.(next := st.next + 1);
            WellFormed(r) && (Owned(st) ==> Owned(r)) && (DrainTracked(st) ==> DrainTracked(r))
  {
  }

  lemma SubmitsOne(st: LoopState, r: LoopState)
    requires r == st.(next := st.next + 1, live := st.live + {st.next}, pending := st.pending + {st.next})
    ensures r == Submitted(st)
  {
  }

  /** The state inside led_async after any turns, and after the free when the callback has run. */
  lemma LedKeeps(st: LoopState, turns: seq<Turn>, used: nat)
    requires WellFormed(st) && used <= |turns|
    ensures var id, ran := st.next, FireAll(Submitted(st), Callbacks(turns, used));
            && WellFormed(ran) && (Owned(st) ==> Owned(ran)) && (DrainTracked(st) ==> DrainTracked(ran))
            && ran.drain == st.drain
            && (id in ran.done ==>
                  var r := Freed(ran, id);
                  && id !in ran.pending && r.live == st.live
                  && WellFormed(r) && (Owned(st) ==> Owned(r)) && (DrainTracked(st) ==> DrainTracked(r)))
    ensures var id, ran, e := st.next, FireAll(Submitted(st), Callbacks(turns, used)), FirstExpired(turns);
            && (id in ran.done ==> Ran(turns, |turns|, id) && (used <= e ==> Ran(turns, e, id)))
            && (id !in ran.done && used >= e ==> !Ran(turns, e, id))
            && (id !in ran.done && used == |turns| ==> !Ran(turns, |turns|, id))
  {
    var id, e, start := st.next, FirstExpired(turns), Submitted(st);
    assert id in start.pending && id !in start.done && id !in start.drains;
    SubmitKeeps(st);
    hide FireAll, Callbacks, Ran;
    RanKeeps(start, turns, used, id);
    DoneIffRan(start, turns, used, id);
    CallbacksKeep(start, Callbacks(turns, used));
    var ran := FireAll(start, Callbacks(turns, used));
    assert ran.live - {id} == st.live;
    if id in ran.done {
      RanStays(turns, used, |turns|, id);
      if used <= e {
        RanStays(turns, used, e, id);
      }
    } else if used >= e && Ran(turns, e, id) {
      RanStays(turns, e, used, id);
    }
  }

  lemma LedDone(st: LoopState, turns: seq<Turn>, m: nat)
    requires WellFormed(st) && m <= |turns|
    ensures var id, ran := st.next, FireAll(Submitted(st), Callbacks(turns, m));
            && (id in ran.done <==> Ran(turns, m, id))
            && (id in ran.done ==> (ran.done[id] == Completed <==> RanWith(turns, m, id, Completed)))
  {
    var id, start := st.next, Submitted(st);
    assert id in start.pending && id !in start.done && id !in start.drains;
    SubmitKeeps(st);
    hide FireAll, Callbacks, Ran, RanWith, WellFormed, Submitted;
    DoneIffRan(start, turns, m, id);
    if id in FireAll(start, Callbacks(turns, m)).done {
      DoneWithIffRanWith(start, turns, m, id, Completed);
    }
  }

  /** led_async drives the least number of turns after which its callback has run. */
  lemma LedUsed(st: LoopState, turns: seq<Turn>, used: nat)
    requires WellFormed(st) && used <= |turns|
    requires forall m | 0 <= m < used :: st.next !in FireAll(Submitted(st), Callbacks(turns, m)).done
    requires st.next in FireAll(Submitted(st), Callbacks(turns, used)).done || used == |turns|
    ensures used == FirstRan(turns, {st.next}, 0)
    ensures used > FirstExpired(turns) ==> !Ran(turns, FirstExpired(turns), st.next)
  {
    hide FireAll, Callbacks, Ran, WellFormed, Submitted, FirstExpired;
    var id := st.next;
    var ids := {id};
    LedDone(st, turns, used);
    forall m | 0 <= m < used
      ensures !AllRan(turns, m, ids) && !Ran(turns, m, id)
    {
      LedDone(st, turns, m);
      assert id in ids;
    }
    assert Ran(turns, used, id) ==> AllRan(turns, used, ids);
    hide AllRan;
    assert used == FirstRan(turns, ids, 0);
  }

  /** Its status is that of the first callback. */
  lemma LedStatus(st: LoopState, turns: seq<Turn>, used: nat)
    requires WellFormed(st) && used <= |turns|
    requires used > FirstExpired(turns) ==> !Ran(turns, FirstExpired(turns), st.next)
    requires st.next in FireAll(Submitted(st), Callbacks(turns, used)).done || used == |turns|
    ensures var id, ran, e := st.next, FireAll(Submitted(st), Callbacks(turns, used)), FirstExpired(turns);
            && (id in ran.done && used <= e ==> (ran.done[id] == Completed <==> RanWith(turns, e, id, Completed)))
            && (used > e || id !in ran.done ==> !RanWith(turns, e, id, Completed))
  {
    hide FireAll, Callbacks, Ran, RanWith, WellFormed, Submitted, FirstExpired;
    var id, e := st.next, FirstExpired(turns);
    LedDone(st, turns, used);
    if RanWith(turns, e, id, Completed) {
      RanWithIsRan(turns, e, id, Completed);
    }
    if Ran(turns, used, id) && used <= e {
      RanWithStays(turns, used, e, id, Completed);
    } else if !Ran(turns, used, id) && Ran(turns, e, id) {
      RanStays(turns, e, |turns|, id);
    }
  }

  lemma LedFrame(st: LoopState, turns: seq<Turn>, used: nat)
    requires WellFormed(st) && used <= |turns|
    ensures FireAll(Submitted(st), Callbacks(turns, used)).next == st.next + 1
  {
    hide FireAll, Callbacks;
    SubmitKeeps(st);
    CallbacksKeep(Submitted(st), Callbacks(turns, used));
  }

  lemma Allocated(st: LoopState)
    requires WellFormed(st)
    ensures WellFormed(st.(next := st.next + 1, live := st.live + {st.next}))
    ensures var r := st.(next := st.next + 1, live := st.live + {st.next});
            (Owned(st) ==> Owned(r)) && (DrainTracked(st) ==> DrainTracked(r))
  {
  }

  lemma CmdRefused(st: LoopState, outOk: bool, turns: seq<Turn>)
    requires WellFormed(st)
    ensures var i, o := st.next, st.next + 1;
            && st.live + {i} + {o} - {i} - {o} == st.live - {i, o} == st.live
            && (var r := st.(next := i + 2, live := st.live - {i, o});
                WellFormed(r) && (Owned(st) ==> Owned(r)) && (DrainTracked(st) ==> DrainTracked(r)))
            && (var r := st.(next := i + 2, live := st.live - {i, o}, pending := st.pending + {i});
                WellFormed(r) && !Owned(r) && (DrainTracked(st) ==> DrainTracked(r)))
            && !CmdLeaves(false, outOk, turns, i) && CmdLeaves(true, false, turns, i)
  {
    assert st.live + {st.next} + {st.next + 1} - {st.next} - {st.next + 1} == st.live - {st.next, st.next + 1};
    var r := st.(live := st.live - {st.next, st.next + 1}, pending := st.pending + {st.next});
    assert st.next in r.pending && st.next !in r.live;
  }

  lemma SubmitsBoth(st: LoopState, r: LoopState)
    requires r == st.(next := st.next + 2, live := st.live + {st.next} + {st.next + 1},
                      pending := st.pending + {st.next} + {st.next + 1})
    ensures r == Submitted(Submitted(st))
  {
  }

  lemma FreedKeeps(ran: LoopState, id: nat)
    requires WellFormed(ran) && (ran.drain.Some? ==> ran.drain.value != id)
    ensures WellFormed(Freed(ran, id)) && (DrainTracked(ran) ==> DrainTracked(Freed(ran, id)))
    ensures Freed(ran, id).drain == ran.drain
  {
  }

  lemma BothKeep(st: LoopState, turns: seq<Turn>, used: nat)
    requires WellFormed(st) && used <= |turns|
    ensures var i, o, ran := st.next, st.next + 1, FireAll(Submitted(Submitted(st)), Callbacks(turns, used));
            && WellFormed(ran) && (DrainTracked(st) ==> DrainTracked(ran))
            && WellFormed(Freed(Freed(ran, i), o)) && (DrainTracked(st) ==> DrainTracked(Freed(Freed(ran, i), o)))
            && (i in ran.done <==> Ran(turns, used, i)) && (o in ran.done <==> Ran(turns, used, o))
            && (Owned(st) ==> Owned(ran))
            && (Owned(st) ==> (Owned(Freed(Freed(ran, i), o)) <==> i in ran.done && o in ran.done))
            && ran.drain == st.drain && ran.next == st.next + 2 && Freed(Freed(ran, i), o).live == st.live
  {
    var i, o, start := st.next, st.next + 1, Submitted(Submitted(st));
    assert i in start.pending && o in start.pending && {i, o} !! start.done.Keys && {i, o} !! start.drains;
    assert st.drain.Some? ==> st.drain.value < i;
    SubmitKeeps(st);
    SubmitKeeps(Submitted(st));
    hide FireAll, Callbacks, Ran, DrainTracked, WellFormed;
    DoneIffRan(start, turns, used, i);
    DoneIffRan(start, turns, used, o);
    RanKeeps(start, turns, used, i);
    RanKeeps(start, turns, used, o);
    var ran := FireAll(start, Callbacks(turns, used));
    CallbacksKeep(start, Callbacks(turns, used));
    FreedKeeps(ran, i);
    FreedKeeps(Freed(ran, i), o);
    if Owned(st) {
      FreedBoth(ran, i, o);
    }
  }

  lemma CmdUsedIs(turns: seq<Turn>, i: nat, ids: set<nat>, used: nat)
    requires ids == {i, i + 1} && used <= Min(FirstExpired(turns) + 1, |turns|)
    requires forall m | 0 <= m < used :: !AllRan(turns, m, ids)
    requires AllRan(turns, used, ids) || used == Min(FirstExpired(turns) + 1, |turns|)
    ensures used == CmdUsed(turns, i)
  {
    hide AllRan, FirstExpired;
  }

  lemma RanWithIsRan(turns: seq<Turn>, n: nat, id: nat, status: Status)
    requires n <= |turns| && RanWith(turns, n, id, status)
    ensures Ran(turns, n, id)
  {
    hide Callbacks;
  }

  /** Driving stops after the least number of turns. */
  lemma CmdDrivenFor(st: LoopState, turns: seq<Turn>, used: nat)
    requires WellFormed(st) && used <= Min(FirstExpired(turns) + 1, |turns|)
    requires forall m | 0 <= m < used ::
               var before := FireAll(Submitted(Submitted(st)), Callbacks(turns, m));
               st.next !in before.done || st.next + 1 !in before.done
    requires var ran := FireAll(Submitted(Submitted(st)), Callbacks(turns, used));
             (st.next in ran.done && st.next + 1 in ran.done) || used == Min(FirstExpired(turns) + 1, |turns|)
    ensures used == CmdUsed(turns, st.next)
  {
    hide FireAll, Callbacks, Ran, DrainTracked, WellFormed, Owned, Submitted, CmdUsed, FirstExpired;
    var i := st.next;
    var ids := {i, i + 1};
    BothKeep(st, turns, used);
    forall m | 0 <= m < used
      ensures !AllRan(turns, m, ids)
    {
      BothKeep(st, turns, m);
      assert i in ids && i + 1 in ids;
    }
    CmdUsedIs(turns, i, ids, used);
  }

  /** `cmd` after driving the loop: which of its ends it has reached, and whether it may free. */
  lemma CmdDriven(st: LoopState, turns: seq<Turn>, used: nat, expired: bool)
    requires WellFormed(st) && used <= |turns|
    requires expired ==> used == FirstExpired(turns) + 1
    requires !expired ==>
      var ran := FireAll(Submitted(Submitted(st)), Callbacks(turns, used));
      used <= FirstExpired(turns) && ((st.next in ran.done && st.next + 1 in ran.done) || used == |turns|)
    requires forall m | 0 <= m < used ::
               var before := FireAll(Submitted(Submitted(st)), Callbacks(turns, m));
               st.next !in before.done || st.next + 1 !in before.done
    ensures var i, o, ran := st.next, st.next + 1, FireAll(Submitted(Submitted(st)), Callbacks(turns, used));
            var waiting := !expired && (i !in ran.done || o !in ran.done);
            var r := if waiting then ran else Freed(Freed(ran, i), o);
            && WellFormed(r) && (DrainTracked(st) ==> DrainTracked(r))
            && (Owned(st) ==> (Owned(r) <==> !CmdLeaves(true, true, turns, i)))
            && (!expired && !waiting ==> o in r.done)
            && (!waiting ==> r.live == st.live)
            && used == CmdUsed(turns, i)
            && CmdEnds(turns, i,
                 if waiting then CmdWaiting else if expired then CmdTimedOut
                 else if r.done[o] == Completed then Answered else OutFailed)
  {
    hide FireAll, Callbacks, Ran, RanWith, DrainTracked, WellFormed, Owned, Submitted, CmdUsed;
    var i, o, e := st.next, st.next + 1, FirstExpired(turns);
    BothKeep(st, turns, used);
    CmdDrivenFor(st, turns, used);
    if expired {
      BothKeep(st, turns, e);
    }
    if RanWith(turns, e, o, Completed) {
      RanWithIsRan(turns, e, o, Completed);
    }
    if !expired && Ran(turns, used, i) && Ran(turns, used, o) {
      RanStays(turns, used, e, i);
      RanStays(turns, used, e, o);
      RanWithStays(turns, used, e, o, Completed);
      OutStatus(st, turns, used);
      if e < |turns| {
        RanStays(turns, e, e + 1, i);
        RanStays(turns, e, e + 1, o);
      }
    }
  }

  lemma OutStatus(st: LoopState, turns: seq<Turn>, used: nat)
    requires WellFormed(st) && used <= |turns|
    requires st.next + 1 in FireAll(Submitted(Submitted(st)), Callbacks(turns, used)).done
    ensures var o, ran := st.next + 1, FireAll(Submitted(Submitted(st)), Callbacks(turns, used));
            ran.done[o] == Completed <==> RanWith(turns, used, o, Completed)
  {
    var start := Submitted(Submitted(st));
    assert st.next + 1 in start.pending && st.next + 1 !in start.done && st.next + 1 !in start.drains;
    SubmitKeeps(st);
    SubmitKeeps(Submitted(st));
    hide FireAll, Callbacks, RanWith, WellFormed;
    DoneWithIffRanWith(start, turns, used, st.next + 1, Completed);
  }

  lemma CmdStateFrame(st: LoopState, inAlloc: bool, outAlloc: bool, inOk: bool, outOk: bool, waits: bool,
                      ran: seq<Completion>)
    requires WellFormed(st)
    ensures var r := CmdState(st, inAlloc, outAlloc, inOk, outOk, waits, ran);
            && r.drain == st.drain && st.next <= r.next <= st.next + 2
            && (inAlloc && outAlloc ==> r.next == st.next + 2)
  {
    hide FireAll;
    SubmitKeeps(st);
    SubmitKeeps(Submitted(st));
    CallbacksKeep(Submitted(Submitted(st)), ran);
  }

  lemma AnsweredIsOwned(turns: seq<Turn>, i: nat)
    requires Ran(turns, FirstExpired(turns), i) && RanWith(turns, FirstExpired(turns), i + 1, Completed)
    ensures !CmdLeaves(true, true, turns, i)
  {
    hide Ran, RanWith;
    var e := FirstExpired(turns);
    RanWithIsRan(turns, e, i + 1, Completed);
    if e < |turns| {
      RanStays(turns, e, e + 1, i);
      RanStays(turns, e, e + 1, i + 1);
    }
  }

  /** stop_drain84 after the turns it used: all of them if the drain is then still active. */
  lemma StopStates(st: LoopState, turns: seq<Turn>, used: nat)
    requires WellFormed(st) && used <= |turns|
    requires var ran := FireAll(st, Callbacks(turns, used)); st.drain.Some? && ran.active ==> used == |turns|
    ensures FireAll(st, Callbacks(turns, used)).drain == st.drain && FireAll(st, Callbacks(turns, used)).live == st.live
    ensures var r := StopState(st, Callbacks(turns, used));
            && WellFormed(r)
            && (Owned(st) && DrainTracked(st) ==>
                  (Owned(r) <==> StopsClean(st, turns)) && (DrainTracked(r) <==> StopsClean(st, turns)))
  {
    hide FireAll, Callbacks;
    CallbacksKeep(st, Callbacks(turns, used));
    if Owned(st) && DrainTracked(st) && st.drain.Some? {
      var id, ran, r := st.drain.value, FireAll(st, Callbacks(turns, used)), StopState(st, Callbacks(turns, used));
      if st.active {
        DrainPendingIff(st, Callbacks(turns, used), id);
        CallbacksGrow(turns, used, |turns|);
        if c :| c in Callbacks(turns, used) && c.id == id
                && (c.status in {Cancelled, NoDevice, Error} || !c.resubmitOk)
        {
          assert c in Callbacks(turns, |turns|);
        }
      }
      if ran.active {
        assert id in r.pending && id !in r.live && id in r.drains;
      }
    }
  }

  lemma StartKeeps(st: LoopState, allocOk: bool, submitOk: bool)
    requires WellFormed(st)
    ensures WellFormed(Started(st, allocOk, submitOk))
    ensures Clean(st) ==> Owned(Started(st, allocOk, submitOk)) && DrainTracked(Started(st, allocOk, submitOk))
  {
    StartTracksIff(st, allocOk, submitOk);
  }
}
