/** Single.Do of common/singledo/singledo.go as interleaved steps of any number of callers.

    Each step is what a caller does while it holds the mutex, or one access outside it.
    The result is read outside the mutex, value first and error second. */
module SingleDo {
  import opened Collections

  /** One run of a caller's function: when its caller read the clock, and how it ended. */
  datatype Call = Call(began: int, outcome: Option<(int, int)>)

  /** Where a caller is.  `c`, `v` and `e` are numbers of calls; `now` is the caller's clock reading. */
  datatype Caller =
    | Idle
    | Sharing(now: int)            // found a recent result, has the value and the error still to read
    | HasValue(now: int, v: nat)   // has the value of call v
    | Waiting(c: nat)              // found call c in flight
    | Running(c: nat)              // runs its function as call c
    | Finished(c: nat)             // has the outcome and woken the waiters, has it still to publish
    | Shared(now: int, v: nat, e: nat)
    | Joined(c: nat)
    | Led(c: nat)

  /** `last` is the zero time, 0, or a clock reading; `result` and `call` are numbers of calls. */
  datatype State = State(wait: int, clock: int, last: int, call: Option<nat>, result: Option<nat>,
                         calls: seq<Call>, callers: map<nat, Caller>)

  datatype Event =
    | Enter(id: nat, now: int)
    | ReadValue(id: nat)
    | ReadError(id: nat)
    | Return(id: nat, outcome: (int, int))
    | Publish(id: nat)
    | Wake(id: nat)
    | Reset

  function At(st: State, id: nat): Caller {
    if id in st.callers then st.callers[id] else Idle
  }

  /** Before any call; the clock is at least `wait` past the zero time. */
  ghost predicate Initial(st: State) {
    && 0 <= st.wait <= st.clock && 0 < st.clock && st.last == 0 && st.call == None && st.result == None && st.calls == []
    && forall id :: id in st.callers ==> st.callers[id] == Idle
  }

  predicate Enabled(st: State, ev: Event) {
    match ev
    case Enter(id, now) => (At(st, id).Idle? || At(st, id).Shared? || At(st, id).Joined? || At(st, id).Led?) && st.clock <= now
    case ReadValue(id) => At(st, id).Sharing? && st.result.Some?
    case ReadError(id) => At(st, id).HasValue? && st.result.Some?
    case Return(id, _) => At(st, id).Running? && At(st, id).c < |st.calls|
    case Publish(id) => At(st, id).Finished? && At(st, id).c < |st.calls|
    case Wake(id) => At(st, id).Waiting? && At(st, id).c < |st.calls| && st.calls[At(st, id).c].outcome.Some?
    case Reset => true
  }

  function Move(st: State, id: nat, caller: Caller): State {
    st.(callers := st.callers[id := caller])
  }

  function Step(st: State, ev: Event): State
    requires Enabled(st, ev)
  {
    match ev
    case Enter(id, now) =>
      var st := st.(clock := now);
      if now < st.last + st.wait then Move(st, id, Sharing(now))
      else if st.call.Some? then Move(st, id, Waiting(st.call.value))
      else Move(st.(call := Some(|st.calls|), calls := st.calls + [Call(now, None)]), id, Running(|st.calls|))
    case ReadValue(id) => Move(st, id, HasValue(At(st, id).now, st.result.value))
    case ReadError(id) => Move(st, id, Shared(At(st, id).now, At(st, id).v, st.result.value))
    case Return(id, outcome) =>
      var c := At(st, id).c;
      Move(st.(calls := st.calls[c := st.calls[c].(outcome := Some(outcome))]), id, Finished(c))
    case Publish(id) =>
      var c := At(st, id).c;
      Move(st.(call := None, result := Some(c), last := st.calls[c].began), id, Led(c))
    case Wake(id) => Move(st, id, Joined(At(st, id).c))
    case Reset => st.(last := 0)
  }

  /** After Reset the next caller does not get the old outcome: it leads a run of its own, or joins the one in flight. */
  lemma {:induction false} ResetForgets(st: State, id: nat, now: int)
    requires st.wait <= now && Enabled(st, Enter(id, now))
    ensures var st' := Step(Step(st, Reset), Enter(id, now));
            if st.call.Some? then At(st', id) == Waiting(st.call.value)
            else At(st', id) == Running(|st.calls|) && st'.calls == st.calls + [Call(now, None)] && st'.call == Some(|st.calls|)
  {
  }

  /** Once a run is published, callers share its outcome until `wait` has passed since it began, and then one leads anew. */
  lemma {:induction false} SharedUntil(st: State, id: nat, other: nat, now: int)
    requires Enabled(st, Publish(id)) && Enabled(Step(st, Publish(id)), Enter(other, now))
    ensures var (c, st') := (At(st, id).c, Step(Step(st, Publish(id)), Enter(other, now)));
            if now < st.calls[c].began + st.wait then At(st', other) == Sharing(now) && st'.result == Some(c) && st'.calls == st.calls
            else At(st', other) == Running(|st.calls|) && st'.calls == st.calls + [Call(now, None)]
  {
  }

  /** The state after the events, if each was possible in its turn. */
  function Run(st: State, evs: seq<Event>): Option<State> {
    if evs == [] then Some(st)
    else
      var mid := Run(st, evs[..|evs| - 1]);
      if mid.Some? && Enabled(mid.value, evs[|evs| - 1]) then Some(Step(mid.value, evs[|evs| - 1])) else None
  }

  // ------------------------------------------------------------ the invariant

  /** The call a caller leads, from registering it until publishing it. */
  function Leads(caller: Caller): Option<nat> {
    match caller
    case Running(c) => Some(c)
    case Finished(c) => Some(c)
    case _ => None
  }

  ghost predicate Settled(st: State, c: nat) {
    c < |st.calls| && st.calls[c].outcome.Some?
  }

  /** Call c began less than `wait` before `now`, or later. */
  ghost predicate Recent(st: State, c: nat, now: int) {
    Settled(st, c) && st.result.Some? && c <= st.result.value && now < st.calls[c].began + st.wait
  }

  ghost predicate CallerOk(st: State, caller: Caller) {
    match caller
    case Idle => true
    case Sharing(now) => st.result.Some? && Recent(st, st.result.value, now)
    case HasValue(now, v) => Recent(st, v, now)
    case Waiting(c) => c < |st.calls|
    case Running(c) => c < |st.calls| && st.call == Some(c) && st.calls[c].outcome.None?
    case Finished(c) => st.call == Some(c) && Settled(st, c)
    case Shared(now, v, e) => v <= e && Recent(st, v, now) && Recent(st, e, now)
    case Joined(c) => Settled(st, c)
    case Led(c) => Settled(st, c)
  }

  /** The calls: in order of their clock readings, settled but for the one in flight, which is the latest. */
  ghost predicate CallsOk(st: State) {
    && (forall i :: 0 <= i < |st.calls| ==> 0 < st.calls[i].began <= st.clock)
    && (forall i, j :: 0 <= i < j < |st.calls| ==> st.calls[i].began <= st.calls[j].began)
    && (forall i :: 0 <= i < |st.calls| && st.call != Some(i) ==> st.calls[i].outcome.Some?)
    && (st.call.Some? ==> st.call.value == |st.calls| - 1)
  }

  /** The fields: `last` is the zero time or the reading of the call whose outcome is the result. */
  ghost predicate FieldsOk(st: State) {
    && 0 <= st.wait <= st.clock && 0 < st.clock && CallsOk(st)
    && (st.result.Some? ==> st.result.value < |st.calls| && st.call != Some(st.result.value))
    && (st.last == 0 || (st.result.Some? && st.result.value < |st.calls| && st.last == st.calls[st.result.value].began))
  }

  ghost predicate CallersOk(st: State) {
    && (forall id :: id in st.callers ==> CallerOk(st, st.callers[id]))
    && (forall a, b :: a in st.callers && b in st.callers && a != b
                       ==> Leads(st.callers[a]).None? || Leads(st.callers[b]).None?)
    && (st.call.Some? ==> exists id :: id in st.callers && Leads(st.callers[id]) == st.call)
  }

  ghost predicate Ok(st: State) {
    FieldsOk(st) && CallersOk(st)
  }

  lemma {:induction false} InitialOk(st: State)
    requires Initial(st)
    ensures Ok(st)
  {
  }

  /** What a step may do to the shared fields, seen from a caller that does not lead. */
  ghost predicate Advances(st: State, st': State) {
    && st'.wait == st.wait && |st.calls| <= |st'.calls|
    && (forall i :: 0 <= i < |st.calls| ==> st'.calls[i].began == st.calls[i].began && (st.calls[i].outcome.Some? ==> st'.calls[i] == st.calls[i]))
    && (st.result.Some? ==> st'.result.Some? && st.result.value <= st'.result.value)
  }

  lemma {:induction false} FollowerOk(st: State, st': State, caller: Caller)
    requires FieldsOk(st) && FieldsOk(st') && Advances(st, st') && CallerOk(st, caller) && Leads(caller).None?
    ensures CallerOk(st', caller)
  {
    if caller.Sharing? {
      assert st'.calls[st.result.value].began == st.calls[st.result.value].began;
    }
  }

  /** A step of caller `id` that leaves the other callers where they are. */
  lemma {:induction false} OthersOk(st: State, st': State, id: nat)
    requires Ok(st) && FieldsOk(st') && Advances(st, st')
    requires st'.callers == st.callers[id := At(st', id)] && CallerOk(st', At(st', id))
    requires Leads(At(st', id)).Some? ==> Leads(At(st, id)).Some? || st.call.None?
    requires Leads(At(st, id)).None? ==> forall c :: c < |st.calls| && st.call == Some(c) ==> st'.call == Some(c) && st'.calls[c] == st.calls[c]
    requires st'.call.Some? ==> Leads(At(st', id)) == st'.call || (st'.call == st.call && Leads(At(st, id)).None?)
    ensures CallersOk(st')
  {
    forall i | i in st'.callers
      ensures CallerOk(st', st'.callers[i])
    {
      if i != id && Leads(st.callers[i]).None? {
        FollowerOk(st, st', st.callers[i]);
      }
    }
    if st'.call.Some? && Leads(At(st', id)) != st'.call {
      var i :| i in st.callers && Leads(st.callers[i]) == st.call;
      assert i in st'.callers && Leads(st'.callers[i]) == st'.call;
    }
  }

  lemma {:induction false} StepOk(st: State, ev: Event)
    requires Ok(st) && Enabled(st, ev)
    ensures Ok(Step(st, ev)) && Advances(st, Step(st, ev))
  {
    match ev
    case Enter(id, now) => EnterOk(st, id, now);
    case ReadValue(id) => PrivateOk(st, ev, id);
    case ReadError(id) => PrivateOk(st, ev, id);
    case Return(id, outcome) => ReturnOk(st, id, outcome);
    case Publish(id) => PublishOk(st, id);
    case Wake(id) => PrivateOk(st, ev, id);
    case Reset => ResetOk(st);
  }

  /** Steps that only move the caller. */
  lemma {:induction false} PrivateOk(st: State, ev: Event, id: nat)
    requires Ok(st) && Enabled(st, ev) && (ev == ReadValue(id) || ev == ReadError(id) || ev == Wake(id))
    ensures Ok(Step(st, ev)) && Advances(st, Step(st, ev))
  {
    assert id in st.callers && CallerOk(st, st.callers[id]);
    OthersOk(st, Step(st, ev), id);
  }

  lemma {:induction false} ResetOk(st: State)
    requires Ok(st)
    ensures Ok(st.(last := 0)) && Advances(st, st.(last := 0))
  {
    var st' := st.(last := 0);
    forall i | i in st'.callers
      ensures CallerOk(st', st'.callers[i])
    {
      assert CallerOk(st, st.callers[i]);
    }
  }

  lemma {:induction false} EnterOk(st: State, id: nat, now: int)
    requires Ok(st) && Enabled(st, Enter(id, now))
    ensures Ok(Step(st, Enter(id, now))) && Advances(st, Step(st, Enter(id, now)))
  {
    var st' := Step(st, Enter(id, now));
    EnterFields(st, id, now);
    OthersOk(st, st', id);
  }

  lemma {:induction false} EnterFields(st: State, id: nat, now: int)
    requires Ok(st) && Enabled(st, Enter(id, now))
    ensures var st' := Step(st, Enter(id, now));
            FieldsOk(st') && Advances(st, st') && CallerOk(st', At(st', id))
  {
    if now >= st.last + st.wait && st.call.None? {
      EnterLeads(st, id, now);
    }
  }

  lemma {:induction false} EnterLeads(st: State, id: nat, now: int)
    requires FieldsOk(st) && Enabled(st, Enter(id, now)) && now >= st.last + st.wait && st.call.None?
    ensures var st' := Step(st, Enter(id, now));
            FieldsOk(st') && Advances(st, st') && CallerOk(st', At(st', id))
  {
    var st' := Step(st, Enter(id, now));
    assert forall i :: 0 <= i < |st.calls| ==> st'.calls[i] == st.calls[i];
  }

  lemma {:induction false} ReturnOk(st: State, id: nat, outcome: (int, int))
    requires Ok(st) && Enabled(st, Return(id, outcome))
    ensures Ok(Step(st, Return(id, outcome))) && Advances(st, Step(st, Return(id, outcome)))
  {
    var st' := Step(st, Return(id, outcome));
    assert id in st.callers && CallerOk(st, st.callers[id]);
    OthersOk(st, st', id);
  }

  lemma {:induction false} PublishOk(st: State, id: nat)
    requires Ok(st) && Enabled(st, Publish(id))
    ensures Ok(Step(st, Publish(id))) && Advances(st, Step(st, Publish(id)))
  {
    var st' := Step(st, Publish(id));
    assert id in st.callers && CallerOk(st, st.callers[id]);
    OthersOk(st, st', id);
  }

  lemma {:induction false} RunOk(st0: State, evs: seq<Event>)
    requires Initial(st0) && Run(st0, evs).Some?
    ensures Ok(Run(st0, evs).value)
  {
    if evs == [] {
      InitialOk(st0);
    } else {
      RunOk(st0, evs[..|evs| - 1]);
      StepOk(Run(st0, evs[..|evs| - 1]).value, evs[|evs| - 1]);
    }
  }

  // ------------------------------------------------------------ what every interleaving keeps

  /** At most one function runs at a time, and it is the call in flight. */
  lemma {:induction false} OneRunAtATime(st0: State, evs: seq<Event>, a: nat, b: nat)
    requires Initial(st0) && Run(st0, evs).Some?
    ensures var st := Run(st0, evs).value;
            && (At(st, a).Running? ==> st.call == Some(At(st, a).c))
            && (At(st, a).Running? && At(st, b).Running? ==> a == b)
  {
    RunOk(st0, evs);
  }

  /** The result is never read before it is set. */
  lemma {:induction false} ResultIsThere(st0: State, evs: seq<Event>, id: nat)
    requires Initial(st0) && Run(st0, evs).Some?
    ensures var st := Run(st0, evs).value;
            && (At(st, id).Sharing? ==> Enabled(st, ReadValue(id)))
            && (At(st, id).HasValue? ==> Enabled(st, ReadError(id)))
  {
    RunOk(st0, evs);
  }

  /** What a caller shares without waiting comes from finished runs that began no earlier than `wait` before its own clock reading. */
  lemma {:induction false} SharedIsRecent(st0: State, evs: seq<Event>, id: nat)
    requires Initial(st0) && Run(st0, evs).Some? && At(Run(st0, evs).value, id).Shared?
    ensures var (st, caller) := (Run(st0, evs).value, At(Run(st0, evs).value, id));
            && caller.v < |st.calls| && caller.e < |st.calls|
            && st.calls[caller.v].outcome.Some? && st.calls[caller.e].outcome.Some?
            && caller.now - st.wait < st.calls[caller.v].began && caller.now - st.wait < st.calls[caller.e].began
  {
    RunOk(st0, evs);
  }

  /** A caller that waited for call c found it in flight when it last took the lock to enter. */
  lemma {:induction false} JoinedInFlight(st0: State, evs: seq<Event>, id: nat, c: nat) returns (k: nat)
    requires Initial(st0) && Run(st0, evs).Some?
    requires At(Run(st0, evs).value, id) == Joined(c) || At(Run(st0, evs).value, id) == Waiting(c)
    ensures k < |evs| && evs[k].Enter? && evs[k].id == id
    ensures forall j :: k < j < |evs| ==> !(evs[j].Enter? && evs[j].id == id)
    ensures Run(st0, evs[..k]).Some? && Run(st0, evs[..k]).value.call == Some(c)
    ensures At(Run(st0, evs).value, id) == Joined(c) ==> Settled(Run(st0, evs).value, c)
  {
    k := EnteredWith(st0, evs, id, c);
    RunOk(st0, evs);
  }

  lemma {:induction false} EnteredWith(st0: State, evs: seq<Event>, id: nat, c: nat) returns (k: nat)
    requires At(st0, id).Idle? && Run(st0, evs).Some?
    requires At(Run(st0, evs).value, id) == Joined(c) || At(Run(st0, evs).value, id) == Waiting(c)
    ensures k < |evs| && evs[k].Enter? && evs[k].id == id
    ensures forall j :: k < j < |evs| ==> !(evs[j].Enter? && evs[j].id == id)
    ensures Run(st0, evs[..k]).Some? && Run(st0, evs[..k]).value.call == Some(c)
  {
    var prefix, ev := evs[..|evs| - 1], evs[|evs| - 1];
    JoinStep(Run(st0, prefix).value, ev, id, c);
    if ev.Enter? && ev.id == id {
      k := |evs| - 1;
    } else {
      k := EnteredWith(st0, prefix, id, c);
      assert prefix[..k] == evs[..k];
      assert forall j :: k < j < |prefix| ==> evs[j] == prefix[j];
    }
  }

  lemma {:induction false} JoinStep(st: State, ev: Event, id: nat, c: nat)
    requires Enabled(st, ev) && (At(Step(st, ev), id) == Joined(c) || At(Step(st, ev), id) == Waiting(c))
    ensures if ev.Enter? && ev.id == id then st.call == Some(c) else At(st, id) == Joined(c) || At(st, id) == Waiting(c)
  {
  }

  // ------------------------------------------------------------ value and error together

  ghost predicate Silent(evs: seq<Event>, id: nat) {
    forall i :: 0 <= i < |evs| ==> evs[i].Reset? || evs[i].id != id
  }

  ghost predicate Publishes(evs: seq<Event>) {
    exists i :: 0 <= i < |evs| && evs[i].Publish?
  }

  lemma {:induction false} ResultMoves(st: State, evs: seq<Event>, id: nat)
    requires Ok(st) && Run(st, evs).Some? && Silent(evs, id) && st.result.Some?
    ensures var st' := Run(st, evs).value;
            && Ok(st') && At(st', id) == At(st, id) && st'.result.Some? && st.result.value <= st'.result.value
            && (st'.result.value == st.result.value <==> !Publishes(evs))
  {
    if evs != [] {
      var prefix, ev := evs[..|evs| - 1], evs[|evs| - 1];
      var mid := Run(st, prefix).value;
      ResultMoves(st, prefix, id);
      StepOk(mid, ev);
      ResultStep(mid, ev, id);
      PublishesLast(evs);
    }
  }

  lemma {:induction false} PublishesLast(evs: seq<Event>)
    requires evs != []
    ensures Publishes(evs) <==> Publishes(evs[..|evs| - 1]) || evs[|evs| - 1].Publish?
  {
    var prefix := evs[..|evs| - 1];
    if i :| 0 <= i < |prefix| && prefix[i].Publish? {
      assert evs[i].Publish?;
    }
    if i :| 0 <= i < |evs| && evs[i].Publish? {
      assert i < |prefix| ==> prefix[i].Publish?;
    }
  }

  lemma {:induction false} ResultStep(st: State, ev: Event, id: nat)
    requires Ok(st) && Enabled(st, ev) && st.result.Some? && (ev.Reset? || ev.id != id)
    ensures var st' := Step(st, ev);
            && At(st', id) == At(st, id) && st'.result.Some?
            && (if ev.Publish? then st.result.value < st'.result.value else st'.result == st.result)
  {
    if ev.Publish? {
      assert ev.id in st.callers && CallerOk(st, st.callers[ev.id]);
    }
  }

  /** The value and the error a caller shares are of one run exactly if nothing was published between the two reads. */
  lemma {:induction false} TornIffPublished(st0: State, before: seq<Event>, between: seq<Event>, id: nat)
    requires Initial(st0) && Run(st0, before).Some? && Enabled(Run(st0, before).value, ReadValue(id))
    requires Silent(between, id) && Run(Step(Run(st0, before).value, ReadValue(id)), between).Some?
    ensures var st := Run(Step(Run(st0, before).value, ReadValue(id)), between).value;
            && Enabled(st, ReadError(id))
            && var caller := At(Step(st, ReadError(id)), id);
               caller.Shared? && (caller.v == caller.e <==> !Publishes(between))
  {
    RunOk(st0, before);
    var read := Step(Run(st0, before).value, ReadValue(id));
    StepOk(Run(st0, before).value, ReadValue(id));
    ResultMoves(read, between, id);
  }

  lemma {:induction false} RunMore(st: State, evs: seq<Event>, mid: State, ev: Event)
    requires Run(st, evs) == Some(mid) && Enabled(mid, ev)
    ensures Run(st, evs + [ev]) == Some(Step(mid, ev))
  {
    assert (evs + [ev])[..|evs|] == evs;
  }

  /** One run is published. */
  lemma {:induction false} FirstRun(st0: State) returns (evs: seq<Event>, st: State)
    requires Initial(st0)
    ensures Run(st0, evs) == Some(st)
    ensures st == st0.(last := st0.clock, result := Some(0), calls := [Call(st0.clock, Some((1, 1)))],
                       callers := st0.callers[0 := Led(0)])
  {
    var t := st0.clock;
    FirstEnter(st0);
    st, evs := Follow(st0, st0, [], Enter(0, t));
    FirstReturn(st0);
    st, evs := Follow(st0, st, evs, Return(0, (1, 1)));
    FirstPublish(st0);
    st, evs := Follow(st0, st, evs, Publish(0));
  }

  function Started(st0: State): State {
    st0.(call := Some(0), calls := [Call(st0.clock, None)], callers := st0.callers[0 := Running(0)])
  }

  function Returned(st0: State): State {
    st0.(call := Some(0), calls := [Call(st0.clock, Some((1, 1)))], callers := st0.callers[0 := Finished(0)])
  }

  lemma {:induction false} FirstEnter(st0: State)
    requires Initial(st0)
    ensures Enabled(st0, Enter(0, st0.clock)) && Step(st0, Enter(0, st0.clock)) == Started(st0)
  {
  }

  lemma {:induction false} FirstReturn(st0: State)
    ensures Enabled(Started(st0), Return(0, (1, 1))) && Step(Started(st0), Return(0, (1, 1))) == Returned(st0)
  {
    assert st0.callers[0 := Running(0)][0 := Finished(0)] == st0.callers[0 := Finished(0)];
  }

  lemma {:induction false} FirstPublish(st0: State)
    ensures Enabled(Returned(st0), Publish(0))
    ensures Step(Returned(st0), Publish(0)) ==
            st0.(call := None, last := st0.clock, result := Some(0), calls := [Call(st0.clock, Some((1, 1)))],
                 callers := st0.callers[0 := Led(0)])
  {
    assert st0.callers[0 := Finished(0)][0 := Led(0)] == st0.callers[0 := Led(0)];
  }

  /** And caller 1 has read its value. */
  lemma {:induction false} HalfRead(st0: State) returns (evs: seq<Event>, st: State)
    requires Initial(st0) && st0.wait > 0
    ensures Run(st0, evs) == Some(st)
    ensures st == st0.(last := st0.clock, result := Some(0), calls := [Call(st0.clock, Some((1, 1)))],
                       callers := st0.callers[0 := Led(0)][1 := HasValue(st0.clock, 0)])
  {
    var t := st0.clock;
    evs, st := FirstRun(st0);
    st, evs := Follow(st0, st, evs, Enter(1, t));
    assert At(st, 1) == Sharing(t);
    st, evs := Follow(st0, st, evs, ReadValue(1));
  }

  /** It does happen whenever results are shared at all: a caller gets the value of the first run and the error of
      the second, which began `wait` later. */
  lemma {:induction false} TornRead(st0: State) returns (evs: seq<Event>)
    requires Initial(st0) && st0.wait > 0
    ensures Run(st0, evs).Some? && At(Run(st0, evs).value, 1) == Shared(st0.clock, 0, 1)
  {
    var st;
    evs, st := HalfRead(st0);
    st, evs := Follow(st0, st, evs, Enter(0, st0.clock + st0.wait));
    assert At(st, 0) == Running(1) && At(st, 1) == HasValue(st0.clock, 0) && |st.calls| == 2;
    st, evs := Follow(st0, st, evs, Return(0, (2, 2)));
    assert At(st, 0) == Finished(1) && At(st, 1) == HasValue(st0.clock, 0);
    st, evs := Follow(st0, st, evs, Publish(0));
    assert st.result == Some(1) && At(st, 1) == HasValue(st0.clock, 0);
    st, evs := Follow(st0, st, evs, ReadError(1));
  }

  ghost predicate NobodyShares(st: State) {
    forall id :: id in st.callers ==> !st.callers[id].Sharing? && !st.callers[id].HasValue? && !st.callers[id].Shared?
  }

  lemma {:induction false} NeverShares(st0: State, evs: seq<Event>)
    requires Initial(st0) && st0.wait == 0 && Run(st0, evs).Some?
    ensures NobodyShares(Run(st0, evs).value) && Run(st0, evs).value.wait == 0
  {
    if evs != [] {
      NeverShares(st0, evs[..|evs| - 1]);
      RunOk(st0, evs[..|evs| - 1]);
      NoShareStep(Run(st0, evs[..|evs| - 1]).value, evs[|evs| - 1]);
    }
  }

  lemma {:induction false} NoShareStep(st: State, ev: Event)
    requires FieldsOk(st) && st.wait == 0 && NobodyShares(st) && Enabled(st, ev)
    ensures NobodyShares(Step(st, ev)) && Step(st, ev).wait == 0
  {
  }

  ghost predicate Torn(st: State, id: nat) {
    At(st, id).Shared? && At(st, id).v != At(st, id).e
  }

  /** No caller ever gets a value and an error of different runs exactly if nothing is shared without waiting: `wait` is 0. */
  lemma {:induction false} NeverTornIff(st0: State)
    requires Initial(st0)
    ensures (forall evs, id :: Run(st0, evs).Some? ==> !Torn(Run(st0, evs).value, id)) <==> st0.wait == 0
  {
    if st0.wait == 0 {
      forall evs, id: nat | Run(st0, evs).Some?
        ensures !Torn(Run(st0, evs).value, id)
      {
        NeverShares(st0, evs);
      }
    } else {
      var evs := TornRead(st0);
      assert Torn(Run(st0, evs).value, 1);
    }
  }

  lemma {:induction false} Follow(st0: State, st: State, evs: seq<Event>, ev: Event) returns (st': State, evs': seq<Event>)
    requires Run(st0, evs) == Some(st) && Enabled(st, ev)
    ensures evs' == evs + [ev] && st' == Step(st, ev) && Run(st0, evs') == Some(st')
  {
    RunMore(st0, evs, st, ev);
    st', evs' := Step(st, ev), evs + [ev];
  }
}
