/** The two copying lanes of the relay in tunnel/connection.go as interleaved steps.

    Each lane reads a piece from its source and writes it to its destination until its input ends or
    something fails; then it closes its source and after that its destination, which are the
    destination and the source of the other lane. */
module RelayLanes {
  import opened Collections
  import opened Bytes

  datatype Way = ToRight | ToLeft

  /** `eof` is whether the lane came to the end of its input; `closes` how many connections it has closed since. */
  datatype Phase = Copying | Ended(eof: bool, closes: nat)

  /** What the source has still to give, the piece read and not yet written, and what the destination has got. */
  datatype Lane = Lane(unread: seq<byte>, held: seq<byte>, sent: seq<byte>, phase: Phase)

  datatype State = State(toRight: Lane, toLeft: Lane, leftOpen: bool, rightOpen: bool)

  /** A failure covers deadlines and resets as well as the connections the other lane has closed; a write
      that fails may have sent the first n bytes of the piece. */
  datatype Event =
    | Read(way: Way, n: nat)
    | Write(way: Way)
    | End(way: Way)
    | Fail(way: Way, n: nat)
    | Close(way: Way)

  function Other(way: Way): Way {
    if way == ToRight then ToLeft else ToRight
  }

  function LaneOf(st: State, way: Way): Lane {
    if way == ToRight then st.toRight else st.toLeft
  }

  function WithLane(st: State, way: Way, lane: Lane): State {
    if way == ToRight then st.(toRight := lane) else st.(toLeft := lane)
  }

  predicate SrcOpen(st: State, way: Way) {
    if way == ToRight then st.leftOpen else st.rightOpen
  }

  predicate DstOpen(st: State, way: Way) {
    SrcOpen(st, Other(way))
  }

  function CloseSrc(st: State, way: Way): State {
    if way == ToRight then st.(leftOpen := false) else st.(rightOpen := false)
  }

  predicate Enabled(st: State, ev: Event) {
    var lane := LaneOf(st, ev.way);
    match ev
    case Read(way, n) => lane.phase.Copying? && lane.held == [] && SrcOpen(st, way) && 0 < n <= |lane.unread|
    case Write(way) => lane.phase.Copying? && lane.held != [] && DstOpen(st, way)
    case End(way) => lane.phase.Copying? && lane.held == [] && SrcOpen(st, way) && lane.unread == []
    case Fail(way, n) => lane.phase.Copying? && n <= |lane.held| && (!DstOpen(st, way) ==> n == 0)
    case Close(_) => lane.phase.Ended? && lane.phase.closes < 2
  }

  function Step(st: State, ev: Event): State
    requires Enabled(st, ev)
  {
    var lane := LaneOf(st, ev.way);
    match ev
    case Read(way, n) => WithLane(st, way, lane.(held := lane.unread[..n], unread := lane.unread[n..]))
    case Write(way) => WithLane(st, way, lane.(sent := lane.sent + lane.held, held := []))
    case End(way) => WithLane(st, way, lane.(phase := Ended(true, 0)))
    case Fail(way, n) => WithLane(st, way, lane.(sent := lane.sent + lane.held[..n], held := lane.held[n..], phase := Ended(false, 0)))
    case Close(way) =>
      var closed := lane.phase.closes;
      WithLane(CloseSrc(st, if closed == 0 then way else Other(way)), way, lane.(phase := lane.phase.(closes := closed + 1)))
  }

  /** The state after the events, if each was possible in its turn. */
  function Run(st: State, es: seq<Event>): Option<State> {
    if es == [] then Some(st)
    else
      var mid := Run(st, es[..|es| - 1]);
      if mid.Some? && Enabled(mid.value, es[|es| - 1]) then Some(Step(mid.value, es[|es| - 1])) else None
  }

  /** Everything the source gives, from the bytes that the destination has already. */
  function Stream(lane: Lane): seq<byte> {
    lane.sent + (lane.held + lane.unread)
  }

  ghost predicate Start(st: State) {
    && st.leftOpen && st.rightOpen
    && st.toRight.phase.Copying? && st.toRight.held == [] && st.toLeft.phase.Copying? && st.toLeft.held == []
  }

  /** The start with what has been sent already and what there is to copy. */
  lemma {:induction false} StartOf(right: seq<byte>, fromLeft: seq<byte>, left: seq<byte>, fromRight: seq<byte>) returns (st: State)
    ensures Start(st) && st.toRight.sent == right && st.toRight.unread == fromLeft && st.toLeft.sent == left && st.toLeft.unread == fromRight
    ensures Stream(st.toRight) == right + fromLeft && Stream(st.toLeft) == left + fromRight
  {
    st := State(Lane(fromLeft, [], right, Copying), Lane(fromRight, [], left, Copying), true, true);
    assert [] + fromLeft == fromLeft && [] + fromRight == fromRight;
  }

  predicate Finished(st: State) {
    st.toRight.phase.Ended? && st.toRight.phase.closes == 2 && st.toLeft.phase.Ended? && st.toLeft.phase.closes == 2
  }

  predicate Delivered(lane: Lane) {
    lane.unread == [] && lane.held == []
  }

  /** A failure that comes of a closed connection: of the source when the lane reads, of the destination when it writes. */
  predicate Caused(st: State, ev: Event) {
    ev.Fail? ==> if LaneOf(st, ev.way).held == [] then !SrcOpen(st, ev.way) else !DstOpen(st, ev.way)
  }

  /** Nothing fails but for the closes of the lanes themselves. */
  ghost predicate Undisturbed(st: State, es: seq<Event>) {
    forall i :: 0 <= i < |es| && Run(st, es[..i]).Some? ==> Caused(Run(st, es[..i]).value, es[i])
  }

  // ------------------------------------------------------------ a lane on its own

  lemma {:induction false} Follow(st0: State, st: State, es: seq<Event>, ev: Event) returns (st': State, es': seq<Event>)
    requires Run(st0, es) == Some(st) && Enabled(st, ev)
    ensures es' == es + [ev] && st' == Step(st, ev) && Run(st0, es') == Some(st')
    ensures Undisturbed(st0, es) && Caused(st, ev) ==> Undisturbed(st0, es')
  {
    assert (es + [ev])[..|es|] == es;
    st', es' := Step(st, ev), es + [ev];
    assert forall i :: 0 <= i < |es| ==> es'[..i] == es[..i];
  }

  /** The lane copies the piece b, after which `rest` is left. */
  lemma {:induction false} LaneCopies(st: State, es: seq<Event>, way: Way, lane: Lane, b: seq<byte>, rest: seq<byte>)
    returns (es': seq<Event>, lane': Lane)
    requires Run(st, es) == Some(WithLane(st, way, lane)) && SrcOpen(st, way) && DstOpen(st, way)
    requires lane == Lane(b + rest, [], lane.sent, Copying) && b != []
    ensures lane' == Lane(rest, [], lane.sent + b, Copying) && Run(st, es') == Some(WithLane(st, way, lane'))
    ensures Undisturbed(st, es) ==> Undisturbed(st, es')
  {
    var st';
    st', es' := Follow(st, WithLane(st, way, lane), es, Read(way, |b|));
    st', es' := Follow(st, st', es', Write(way));
    lane' := Lane(rest, [], lane.sent + b, Copying);
  }

  lemma {:induction false} LaneEnds(st: State, es: seq<Event>, way: Way, lane: Lane) returns (es': seq<Event>)
    requires Run(st, es) == Some(WithLane(st, way, lane)) && SrcOpen(st, way)
    requires lane == Lane([], [], lane.sent, Copying)
    ensures Run(st, es') == Some(WithLane(st, way, lane.(phase := Ended(true, 0))))
  {
    var st';
    st', es' := Follow(st, WithLane(st, way, lane), es, End(way));
  }

  // ------------------------------------------------------------ what every interleaving keeps

  ghost predicate LaneOk(lane: Lane) {
    lane.phase.Ended? ==> lane.phase.closes <= 2 && (lane.phase.eof ==> Delivered(lane))
  }

  ghost predicate Ok(st: State) {
    && LaneOk(st.toRight) && LaneOk(st.toLeft)
    && (st.toRight.phase.Ended? && st.toRight.phase.closes > 0 ==> !st.leftOpen)
    && (st.toLeft.phase.Ended? && st.toLeft.phase.closes > 0 ==> !st.rightOpen)
  }

  lemma {:induction false} StepKeeps(st: State, ev: Event)
    requires Ok(st) && Enabled(st, ev)
    ensures Ok(Step(st, ev))
    ensures Stream(Step(st, ev).toRight) == Stream(st.toRight) && Stream(Step(st, ev).toLeft) == Stream(st.toLeft)
  {
    StreamKept(LaneOf(st, ev.way), ev);
  }

  lemma {:induction false} StreamKept(lane: Lane, ev: Event)
    ensures ev.Read? && lane.held == [] && ev.n <= |lane.unread| ==>
              Stream(lane.(held := lane.unread[..ev.n], unread := lane.unread[ev.n..])) == Stream(lane)
    ensures ev.Write? ==> Stream(lane.(sent := lane.sent + lane.held, held := [])) == Stream(lane)
    ensures ev.Fail? && ev.n <= |lane.held| ==>
              Stream(lane.(sent := lane.sent + lane.held[..ev.n], held := lane.held[ev.n..])) == Stream(lane)
  {
    if ev.Read? && ev.n <= |lane.unread| {
      assert lane.unread[..ev.n] + lane.unread[ev.n..] == lane.unread;
    } else if ev.Fail? && ev.n <= |lane.held| {
      assert lane.held == lane.held[..ev.n] + lane.held[ev.n..];
    }
  }

  lemma {:induction false} RunKeeps(st: State, es: seq<Event>)
    requires Ok(st) && Run(st, es).Some?
    ensures Ok(Run(st, es).value)
    ensures Stream(Run(st, es).value.toRight) == Stream(st.toRight) && Stream(Run(st, es).value.toLeft) == Stream(st.toLeft)
  {
    if es != [] {
      RunKeeps(st, es[..|es| - 1]);
      StepKeeps(Run(st, es[..|es| - 1]).value, es[|es| - 1]);
    }
  }

  /** In every interleaving each side has received a prefix of the other's stream, with nothing lost, repeated or
      moved before its end; and a lane that came to the end of its input has delivered all of it. */
  lemma {:induction false} EachGetsAPrefix(st: State, es: seq<Event>, way: Way)
    requires Start(st) && Run(st, es).Some?
    ensures var lane := LaneOf(Run(st, es).value, way);
            && lane.sent <= Stream(LaneOf(st, way)) && lane.sent + (lane.held + lane.unread) == Stream(LaneOf(st, way))
            && (lane.phase.Ended? && lane.phase.eof ==> lane.sent == Stream(LaneOf(st, way)))
  {
    RunKeeps(st, es);
    var lane := LaneOf(Run(st, es).value, way);
    if Delivered(lane) {
      assert lane.sent + ([] + []) == lane.sent;
    }
  }

  // ------------------------------------------------------------ every run comes to an end

  function PhaseWork(phase: Phase): nat {
    match phase
    case Copying => 3
    case Ended(_, closes) => if closes < 2 then 2 - closes else 0
  }

  function Work(lane: Lane): nat {
    2 * |lane.unread| + |lane.held| + PhaseWork(lane.phase)
  }

  /** No run is longer than twice the bytes to copy and the steps of ending. */
  lemma {:induction false} RunsEnd(st: State, es: seq<Event>)
    requires Run(st, es).Some?
    ensures |es| + Work(Run(st, es).value.toRight) + Work(Run(st, es).value.toLeft) <= Work(st.toRight) + Work(st.toLeft)
  {
    if es != [] {
      RunsEnd(st, es[..|es| - 1]);
      StepWorks(Run(st, es[..|es| - 1]).value, es[|es| - 1]);
    }
  }

  lemma {:induction false} StepWorks(st: State, ev: Event)
    requires Enabled(st, ev)
    ensures Work(Step(st, ev).toRight) + Work(Step(st, ev).toLeft) < Work(st.toRight) + Work(st.toLeft)
  {
  }

  /** And a run that is not finished can go on without a failure out of nowhere. */
  lemma {:induction false} RunsGoOn(st: State, es: seq<Event>) returns (ev: Event)
    requires Start(st) && Run(st, es).Some? && !Finished(Run(st, es).value)
    ensures Enabled(Run(st, es).value, ev) && Caused(Run(st, es).value, ev)
  {
    RunKeeps(st, es);
    var end := Run(st, es).value;
    var way := if end.toRight.phase.Ended? && end.toRight.phase.closes == 2 then ToLeft else ToRight;
    ev := NextOf(end, way);
  }

  /** What a lane that has not done with closing does next. */
  lemma {:induction false} NextOf(st: State, way: Way) returns (ev: Event)
    requires LaneOf(st, way).phase.Ended? ==> LaneOf(st, way).phase.closes < 2
    ensures Enabled(st, ev) && Caused(st, ev)
  {
    var lane := LaneOf(st, way);
    if lane.phase.Ended? {
      ev := Close(way);
    } else if lane.held != [] {
      ev := if DstOpen(st, way) then Write(way) else Fail(way, 0);
    } else if !SrcOpen(st, way) {
      ev := Fail(way, 0);
    } else {
      ev := if lane.unread == [] then End(way) else Read(way, |lane.unread|);
    }
  }

  // ------------------------------------------------------------ the first close

  /** Once its destination is closed a lane delivers nothing more. */
  lemma {:induction false} ClosedIsFrozen(st: State, es: seq<Event>, way: Way)
    requires Run(st, es).Some?
    requires !DstOpen(st, way) || LaneOf(st, way).phase.Ended?
    ensures var end := Run(st, es).value;
            && (!DstOpen(end, way) || LaneOf(end, way).phase.Ended?)
            && LaneOf(end, way).sent == LaneOf(st, way).sent
  {
    if es != [] {
      ClosedIsFrozen(st, es[..|es| - 1], way);
      var mid, ev := Run(st, es[..|es| - 1]).value, es[|es| - 1];
      if ev.way == way && ev.Fail? {
        assert LaneOf(mid, way).held[..0] == [];
      }
    }
  }

  lemma {:induction false} SentIsAll(lane: Lane, stream: seq<byte>)
    requires Stream(lane) == stream
    ensures lane.sent == stream <==> Delivered(lane)
  {
    if Delivered(lane) {
      assert lane.sent + ([] + []) == lane.sent;
    } else {
      assert |Stream(lane)| > |lane.sent|;
    }
  }

  /** Both streams arrive whole exactly if at the first close nothing of either is unread or held; after an end of
      input that is: nothing of the other one. */
  lemma {:induction false} BothArriveIff(st: State, before: seq<Event>, way: Way, after: seq<Event>)
    requires Start(st) && Run(st, before).Some?
    requires Run(st, before).value.leftOpen && Run(st, before).value.rightOpen && Enabled(Run(st, before).value, Close(way))
    requires Run(Step(Run(st, before).value, Close(way)), after).Some?
    ensures var (mid, end) := (Run(st, before).value, Run(Step(Run(st, before).value, Close(way)), after).value);
            var whole := end.toRight.sent == Stream(st.toRight) && end.toLeft.sent == Stream(st.toLeft);
            && (whole <==> Delivered(mid.toRight) && Delivered(mid.toLeft))
            && (LaneOf(mid, way).phase.eof ==> (whole <==> Delivered(LaneOf(mid, Other(way)))))
  {
    RunKeeps(st, before);
    var mid := Run(st, before).value;
    var closed := Step(mid, Close(way));
    assert Other(Other(way)) == way;
    ClosedIsFrozen(closed, after, way);
    ClosedIsFrozen(closed, after, Other(way));
    SentIsAll(mid.toRight, Stream(st.toRight));
    SentIsAll(mid.toLeft, Stream(st.toLeft));
  }

  // ------------------------------------------------------------ runs that cut a stream off

  /** One lane copies all of its input, if there is any. */
  lemma {:induction false} CopyAll(st: State, way: Way) returns (es: seq<Event>, st': State)
    requires Start(st)
    ensures Run(st, es) == Some(st') && Undisturbed(st, es)
    ensures st' == WithLane(st, way, Lane([], [], Stream(LaneOf(st, way)), Copying))
  {
    var lane := LaneOf(st, way);
    es := [];
    assert WithLane(st, way, lane) == st && lane.sent + ([] + lane.unread) == lane.sent + lane.unread;
    if lane.unread == [] {
      assert lane.sent + [] == lane.sent;
    } else {
      assert lane.unread + [] == lane.unread;
      es, lane := LaneCopies(st, es, way, lane, lane.unread, []);
    }
    st' := WithLane(st, way, lane);
  }

  /** The end of one stream closes both connections, and all of the other that was still to come is lost. */
  lemma {:induction false} HalfCloseCuts(st: State, way: Way) returns (es: seq<Event>)
    requires Start(st)
    ensures Run(st, es).Some? && Finished(Run(st, es).value) && Undisturbed(st, es)
    ensures LaneOf(Run(st, es).value, way).sent == Stream(LaneOf(st, way))
    ensures LaneOf(Run(st, es).value, Other(way)) == LaneOf(st, Other(way)).(phase := Ended(false, 2))
  {
    var end;
    es, end := CopyAll(st, way);
    end, es := Follow(st, end, es, End(way));
    end, es := LaneCloses(st, end, es, way);
    end, es := LaneFails(st, end, es, Other(way));
    end, es := LaneCloses(st, end, es, Other(way));
  }

  /** A lane that has ended closes its source and its destination. */
  lemma {:induction false} LaneCloses(st0: State, st: State, es: seq<Event>, way: Way) returns (st': State, es': seq<Event>)
    requires Run(st0, es) == Some(st) && LaneOf(st, way).phase.Ended? && LaneOf(st, way).phase.closes == 0
    ensures Run(st0, es') == Some(st') && !st'.leftOpen && !st'.rightOpen
    ensures LaneOf(st', way) == LaneOf(st, way).(phase := LaneOf(st, way).phase.(closes := 2))
    ensures LaneOf(st', Other(way)) == LaneOf(st, Other(way))
    ensures Undisturbed(st0, es) ==> Undisturbed(st0, es')
  {
    CloseSteps(st, way);
    st', es' := Follow(st0, st, es, Close(way));
    st', es' := Follow(st0, st', es', Close(way));
  }

  lemma {:induction false} CloseSteps(st: State, way: Way)
    requires LaneOf(st, way).phase.Ended? && LaneOf(st, way).phase.closes == 0
    ensures Enabled(st, Close(way)) && Enabled(Step(st, Close(way)), Close(way))
    ensures var st' := Step(Step(st, Close(way)), Close(way));
            && !st'.leftOpen && !st'.rightOpen && LaneOf(st', Other(way)) == LaneOf(st, Other(way))
            && LaneOf(st', way) == LaneOf(st, way).(phase := LaneOf(st, way).phase.(closes := 2))
  {
  }

  /** A lane that has nothing in hand fails to read from the closed source. */
  lemma {:induction false} LaneFails(st0: State, st: State, es: seq<Event>, way: Way) returns (st': State, es': seq<Event>)
    requires Run(st0, es) == Some(st) && LaneOf(st, way).phase.Copying? && LaneOf(st, way).held == [] && !SrcOpen(st, way)
    ensures Run(st0, es') == Some(st') && st' == WithLane(st, way, LaneOf(st, way).(phase := Ended(false, 0)))
    ensures Undisturbed(st0, es) ==> Undisturbed(st0, es')
  {
    st', es' := Follow(st0, st, es, Fail(way, 0));
    var lane := LaneOf(st, way);
    assert lane.sent + lane.held[..0] == lane.sent && lane.held[0..] == lane.held;
  }

  ghost predicate BothWhole(st: State, end: State) {
    end.toRight.sent == Stream(st.toRight) && end.toLeft.sent == Stream(st.toLeft)
  }

  /** Both streams arrive whole in all runs exactly if there is nothing to copy, whether connections fail or not: every
      byte that one side sends after the lanes have started can be cut off by the end of the other stream alone. */
  lemma {:induction false} AlwaysWholeIff(st: State)
    requires Start(st)
    ensures (forall es :: Run(st, es).Some? && Finished(Run(st, es).value) ==> BothWhole(st, Run(st, es).value))
            <==> st.toRight.unread == [] && st.toLeft.unread == []
    ensures (forall es :: Undisturbed(st, es) && Run(st, es).Some? && Finished(Run(st, es).value) ==> BothWhole(st, Run(st, es).value))
            <==> st.toRight.unread == [] && st.toLeft.unread == []
  {
    if st.toRight.unread == [] && st.toLeft.unread == [] {
      forall es | Run(st, es).Some?
        ensures BothWhole(st, Run(st, es).value)
      {
        NothingLost(st, es);
      }
    } else {
      var way := if st.toRight.unread != [] then ToLeft else ToRight;
      var es := HalfCloseCuts(st, way);
      SentIsAll(st.toRight, Stream(st.toRight));
      SentIsAll(st.toLeft, Stream(st.toLeft));
      assert !BothWhole(st, Run(st, es).value);
    }
  }

  lemma {:induction false} NothingLost(st: State, es: seq<Event>)
    requires Start(st) && st.toRight.unread == [] && st.toLeft.unread == [] && Run(st, es).Some?
    ensures BothWhole(st, Run(st, es).value)
  {
    SentIsAll(st.toRight, Stream(st.toRight));
    SentIsAll(st.toLeft, Stream(st.toLeft));
    NothingToCopy(st, es);
  }

  lemma {:induction false} NothingToCopy(st: State, es: seq<Event>)
    requires Start(st) && st.toRight.unread == [] && st.toLeft.unread == [] && Run(st, es).Some?
    ensures Delivered(Run(st, es).value.toRight) && Run(st, es).value.toRight.sent == st.toRight.sent
    ensures Delivered(Run(st, es).value.toLeft) && Run(st, es).value.toLeft.sent == st.toLeft.sent
  {
    if es != [] {
      NothingToCopy(st, es[..|es| - 1]);
    }
  }

  /** It can go well: copy both streams, then end. */
  lemma {:induction false} BothCanArrive(st: State) returns (es: seq<Event>)
    requires Start(st)
    ensures Run(st, es).Some? && Finished(Run(st, es).value) && Undisturbed(st, es) && BothWhole(st, Run(st, es).value)
  {
    var first, mid := CopyAll(st, ToRight);
    var rest := HalfCloseCuts(mid, ToLeft);
    assert LaneOf(mid, Other(ToLeft)) == mid.toRight;
    es := first + rest;
    RunConcat(st, first, rest);
    UndisturbedConcat(st, first, mid, rest);
  }

  lemma {:induction false} UndisturbedConcat(st: State, a: seq<Event>, mid: State, b: seq<Event>)
    requires Run(st, a) == Some(mid) && Undisturbed(st, a) && Undisturbed(mid, b)
    ensures Undisturbed(st, a + b)
  {
    forall i | 0 <= i < |a + b| && Run(st, (a + b)[..i]).Some?
      ensures Caused(Run(st, (a + b)[..i]).value, (a + b)[i])
    {
      if i < |a| {
        assert (a + b)[..i] == a[..i];
      } else {
        assert (a + b)[..i] == a + b[..i - |a|];
        RunConcat(st, a, b[..i - |a|]);
      }
    }
  }

  lemma {:induction false} RunConcat(st: State, a: seq<Event>, b: seq<Event>)
    requires Run(st, a).Some?
    ensures Run(st, a + b) == Run(Run(st, a).value, b)
  {
    if b == [] {
      assert a + b == a;
    } else {
      RunConcat(st, a, b[..|b| - 1]);
      assert (a + b)[..|a + b| - 1] == a + b[..|b| - 1];
    }
  }
}
