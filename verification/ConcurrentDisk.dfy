/** Several workers busy at once: overlapping commands on one backend are linearizable. */
module ConcurrentDisk {
  import opened Bytes
  import opened CbcMode
  import opened CommandWorker
  import opened TransparentDisk

  /** A worker is idle, or holds the message of a command submitted by action number `submitted`, when `since`
      commands had been placed in order; a read is placed at `since`, when its data is fetched. */
  datatype Slot = Idle | Busy(ev: Event, msg: seq<byte>, submitted: nat, since: nat)

  datatype Action = Submit(ev: Event) | Finish(worker: nat)

  /** The answer to the command `ev`, submitted and finished by the actions of these numbers and placed at `at`. */
  datatype Response = Response(ev: Event, submitted: nat, finished: nat, at: nat, answer: Answer)

  /** The device while workers overlap, after `now` actions. `order` places each command where it takes effect: a
      read when its data is fetched from the backend, a storing command when its ciphertext is applied. */
  datatype Device = Device(
    now: nat, backend: seq<byte>, buffers: seq<seq<byte>>, slots: seq<Slot>, order: seq<Event>, responses: seq<Response>)

  ghost predicate WellFormed(d: Device)
  {
    && |d.slots| == |d.buffers|
    && (forall w | 0 <= w < |d.buffers| :: |d.buffers[w]| == BUFFER_SIZE)
    && (forall w | 0 <= w < |d.slots| && d.slots[w].Busy? ::
          d.slots[w].ev.cmd.Accepted(|d.backend|) && |d.slots[w].msg| == 64 + d.slots[w].ev.cmd.Size())
  }

  ghost predicate Start(d: Device)
  {
    && WellFormed(d) && |d.backend| % 512 == 0
    && (forall w | 0 <= w < |d.slots| :: d.slots[w].Idle?)
    && d.now == 0 && d.order == [] && d.responses == []
  }

  predicate Enabled(d: Device, a: Action)
  {
    match a
    case Submit(ev) => ev.worker < |d.slots| && |ev.rest| == 63 && d.slots[ev.worker].Idle?
    case Finish(w) => w < |d.slots| && d.slots[w].Busy?
  }

  /** What holds between any two actions, relative to the system `s` the run began with. */
  ghost predicate Inv(aes: BlockCipher, s: System, d: Device)
  {
    && s.Valid() && WellFormed(d) && |s.buffers| == |d.slots|
    && (forall i | 0 <= i < |d.order| :: s.Serves(d.order[i]))
    && d.backend == Run(aes, s, d.order).0.backend
    && (forall w | 0 <= w < |d.slots| :: SlotOk(aes, s, d, w))
    && (forall k | 0 <= k < |d.responses| :: ResponseOk(aes, s, d, d.responses[k]))
  }

  /** A held message belongs to an accepted command; a read's carries the backend as it was when it was placed. */
  ghost predicate SlotOk(aes: BlockCipher, s: System, d: Device, w: nat)
    requires w < |d.slots| && s.Valid() && forall i | 0 <= i < |d.order| :: s.Serves(d.order[i])
  {
    var slot := d.slots[w];
    slot.Busy? ==>
      && slot.ev.worker == w && s.Serves(slot.ev) && slot.ev.cmd.Accepted(|s.backend|)
      && slot.since <= |d.order|
      && if slot.ev.cmd.Read? then
           && slot.since < |d.order| && d.order[slot.since] == slot.ev
           && slot.msg == MessageOf(Run(aes, s, d.order[..slot.since]).0.backend, slot.ev)
         else
           slot.msg == MessageOf(s.backend, slot.ev)
  }

  ghost predicate ResponseOk(aes: BlockCipher, s: System, d: Device, c: Response)
    requires s.Valid() && forall i | 0 <= i < |d.order| :: s.Serves(d.order[i])
  {
    c.at < |d.order| && d.order[c.at] == c.ev && c.answer == Run(aes, s, d.order).1[c.at]
  }

  ghost function Act(aes: BlockCipher, d: Device, a: Action): (e: Device)
    requires WellFormed(d) && Enabled(d, a)
    ensures WellFormed(e)
  {
    var n, d' := |d.order|, d.(now := d.now + 1);
    match a
    case Submit(ev) =>
      if !ev.cmd.Accepted(|d.backend|) then
        d'.(order := d.order + [ev], responses := d.responses + [Response(ev, d.now, d.now, n, Refused)])
      else
        var busy := Busy(ev, MessageOf(d.backend, ev), d.now, n);
        d'.(slots := d.slots[ev.worker := busy], order := if ev.cmd.Read? then d.order + [ev] else d.order)
    case Finish(w) =>
      var slot := d.slots[w];
      var reply := Reply(aes, slot.msg, slot.ev.faults, d.buffers[w]);
      var ok := reply[14..16] == [0, 0];
      var d'' := d'.(buffers := d.buffers[w := Splice(d.buffers[w], 0, reply)], slots := d.slots[w := Idle]);
      if slot.ev.cmd.Read? then
        var answer := if ok then Data(reply[16..]) else Failed;
        d''.(responses := d.responses + [Response(slot.ev, slot.submitted, d.now, slot.since, answer)])
      else
        var answer := if ok then Done else Failed;
        d''.(backend := if ok then Splice(d.backend, 512 * slot.ev.cmd.lba, reply[16..]) else d.backend,
             order := d.order + [slot.ev],
             responses := d.responses + [Response(slot.ev, slot.submitted, d.now, n, answer)])
  }

  // ---------------------------------------------------------------------------
  // Placing one more command

  lemma RunExtends(aes: BlockCipher, s: System, order: seq<Event>, ev: Event)
    requires s.Valid() && s.Serves(ev) && forall i | 0 <= i < |order| :: s.Serves(order[i])
    ensures forall i | 0 <= i < |order + [ev]| :: s.Serves((order + [ev])[i])
    ensures var (mid, answers) := Run(aes, s, order);
            var (end, answer) := Step(aes, mid, ev);
            Run(aes, s, order + [ev]) == (end, answers + [answer])
  {
    hide Step;
    var all := order + [ev];
    assert forall i | 0 <= i < |all| :: s.Serves(all[i]);
    assert all[..|all| - 1] == order;
  }

  lemma {:induction false} RunAnswerAt(aes: BlockCipher, s: System, order: seq<Event>, i: nat)
    requires s.Valid() && (forall i | 0 <= i < |order| :: s.Serves(order[i])) && i < |order|
    ensures Run(aes, s, order).1[i] == Step(aes, Run(aes, s, order[..i]).0, order[i]).1
    decreases |order|
  {
    hide Step;
    var n := |order| - 1;
    if i < n {
      RunAnswerAt(aes, s, order[..n], i);
      assert order[..n][..i] == order[..i];
    }
  }

  /** Placing a command keeps what is known of the slots and of the responses so far. */
  lemma Placed(aes: BlockCipher, s: System, d: Device, ev: Event, e: Device)
    requires Inv(aes, s, d) && s.Serves(ev) && e.order == d.order + [ev]
    ensures forall i | 0 <= i < |e.order| :: s.Serves(e.order[i])
    ensures forall w | 0 <= w < |d.slots| && w < |e.slots| && e.slots[w] == d.slots[w] :: SlotOk(aes, s, e, w)
    ensures forall k | 0 <= k < |d.responses| :: ResponseOk(aes, s, e, d.responses[k])
  {
    hide Run, MessageOf;
    RunExtends(aes, s, d.order, ev);
    forall w | 0 <= w < |d.slots| && w < |e.slots| && e.slots[w] == d.slots[w]
      ensures SlotOk(aes, s, e, w)
    {
      assert SlotOk(aes, s, d, w);
      if d.slots[w].Busy? && d.slots[w].ev.cmd.Read? {
        assert e.order[..d.slots[w].since] == d.order[..d.slots[w].since];
      }
    }
    forall k | 0 <= k < |d.responses|
      ensures ResponseOk(aes, s, e, d.responses[k])
    {
      assert ResponseOk(aes, s, d, d.responses[k]);
    }
  }

  // ---------------------------------------------------------------------------
  // One action

  /** Serving the message of a command through any buffer gives the answer and backend of its atomic step. */
  lemma ServedAsStep(aes: BlockCipher, mid: System, ev: Event, buffer: seq<byte>)
    requires mid.Valid() && mid.Serves(ev) && ev.cmd.Accepted(|mid.backend|) && |buffer| == BUFFER_SIZE
    ensures var reply := Reply(aes, MessageOf(mid.backend, ev), ev.faults, buffer);
            var ok := reply[14..16] == [0, 0];
            var (end, answer) := Step(aes, mid, ev);
            && answer == (if !ok then Failed else if ev.cmd.Read? then Data(reply[16..]) else Done)
            && end.backend == if ok && !ev.cmd.Read? then Splice(mid.backend, 512 * ev.cmd.lba, reply[16..]) else mid.backend
  {
    hide Reply, MessageOf, Splice, Lucky;
    ReplyOutcome(aes, mid.backend, ev, buffer);
    ReplyOutcome(aes, mid.backend, ev, mid.buffers[ev.worker]);
  }

  lemma SubmitKeeps(aes: BlockCipher, s: System, d: Device, a: Action)
    requires Inv(aes, s, d) && a.Submit? && Enabled(d, a)
    ensures Inv(aes, s, Act(aes, d, a))
  {
    hide Run, MessageOf, Step, Reply;
    var ev, e := a.ev, Act(aes, d, a);
    var mid := Run(aes, s, d.order).0;
    if !ev.cmd.Accepted(|d.backend|) || ev.cmd.Read? {
      Placed(aes, s, d, ev, e);
      RunExtends(aes, s, d.order, ev);
      PlacedFirst(aes, mid, ev);
      assert e.order[..|d.order|] == d.order;
    } else {
      SameOrder(aes, s, d, e);
      StoringMessage(d.backend, s.backend, ev);
    }
  }

  /** The message of a storing command does not depend on the backend. */
  lemma StoringMessage(b: seq<byte>, c: seq<byte>, ev: Event)
    requires |b| == |c| && ev.cmd.Accepted(|b|) && |ev.rest| == 63 && !ev.cmd.Read?
    ensures MessageOf(b, ev) == MessageOf(c, ev)
  {
  }

  /** A refused command and a read leave the backend alone; a refused one is answered so. */
  lemma PlacedFirst(aes: BlockCipher, mid: System, ev: Event)
    requires mid.Valid() && mid.Serves(ev)
    requires ev.cmd.Accepted(|mid.backend|) ==> ev.cmd.Read?
    ensures Step(aes, mid, ev).0.backend == mid.backend
    ensures !ev.cmd.Accepted(|mid.backend|) ==> Step(aes, mid, ev).1 == Refused
  {
    hide Reply;
  }

  lemma SameOrder(aes: BlockCipher, s: System, d: Device, e: Device)
    requires Inv(aes, s, d) && e.order == d.order
    ensures forall w | 0 <= w < |d.slots| && w < |e.slots| && e.slots[w] == d.slots[w] :: SlotOk(aes, s, e, w)
    ensures forall k | 0 <= k < |d.responses| :: ResponseOk(aes, s, e, d.responses[k])
  {
    hide Run, MessageOf;
    forall w | 0 <= w < |d.slots| && w < |e.slots| && e.slots[w] == d.slots[w]
      ensures SlotOk(aes, s, e, w)
    {
      assert SlotOk(aes, s, d, w);
    }
    forall k | 0 <= k < |d.responses|
      ensures ResponseOk(aes, s, e, d.responses[k])
    {
      assert ResponseOk(aes, s, d, d.responses[k]);
    }
  }

  lemma FinishReadKeeps(aes: BlockCipher, s: System, d: Device, w: nat)
    requires Inv(aes, s, d) && Enabled(d, Finish(w)) && d.slots[w].ev.cmd.Read?
    ensures Inv(aes, s, Act(aes, d, Finish(w)))
  {
    hide Run, MessageOf, Step, Reply, Splice;
    assert SlotOk(aes, s, d, w);
    var slot := d.slots[w];
    RunAnswerAt(aes, s, d.order, slot.since);
    ServedAsStep(aes, Run(aes, s, d.order[..slot.since]).0, slot.ev, d.buffers[w]);
    SameOrder(aes, s, d, Act(aes, d, Finish(w)));
  }

  lemma FinishWriteKeeps(aes: BlockCipher, s: System, d: Device, w: nat)
    requires Inv(aes, s, d) && Enabled(d, Finish(w)) && !d.slots[w].ev.cmd.Read?
    ensures Inv(aes, s, Act(aes, d, Finish(w)))
  {
    hide Run, Step, Reply, Splice;
    assert SlotOk(aes, s, d, w);
    var slot, e := d.slots[w], Act(aes, d, Finish(w));
    Placed(aes, s, d, slot.ev, e);
    RunExtends(aes, s, d.order, slot.ev);
    ServedAsStep(aes, Run(aes, s, d.order).0, slot.ev, d.buffers[w]);
  }

  // ---------------------------------------------------------------------------
  // Whole runs

  function Front(actions: seq<Action>): seq<Action>
    requires actions != []
  {
    actions[..|actions| - 1]
  }

  ghost predicate Possible(aes: BlockCipher, d: Device, actions: seq<Action>)
    requires WellFormed(d)
    decreases |actions|, 0
  {
    actions == []
    || (Possible(aes, d, Front(actions)) && Enabled(Exec(aes, d, Front(actions)), actions[|actions| - 1]))
  }

  ghost function Exec(aes: BlockCipher, d: Device, actions: seq<Action>): (e: Device)
    requires WellFormed(d) && Possible(aes, d, actions)
    ensures WellFormed(e)
    decreases |actions|, 1
  {
    if actions == [] then d else Act(aes, Exec(aes, d, Front(actions)), actions[|actions| - 1])
  }

  lemma {:induction false} Invariant(aes: BlockCipher, d: Device, actions: seq<Action>)
    requires Start(d) && Possible(aes, d, actions)
    ensures Inv(aes, System(d.backend, d.buffers), Exec(aes, d, actions))
    decreases |actions|
  {
    hide Act;
    var s := System(d.backend, d.buffers);
    if actions != [] {
      Invariant(aes, d, Front(actions));
      var mid, a := Exec(aes, d, Front(actions)), actions[|actions| - 1];
      if a.Submit? {
        SubmitKeeps(aes, s, mid, a);
      } else if mid.slots[a.worker].ev.cmd.Read? {
        FinishReadKeeps(aes, s, mid, a.worker);
      } else {
        FinishWriteKeeps(aes, s, mid, a.worker);
      }
    }
  }


  lemma {:induction false} OnlyGrows(aes: BlockCipher, d: Device, actions: seq<Action>, i: nat)
    requires WellFormed(d) && Possible(aes, d, actions) && i <= |actions|
    ensures Possible(aes, d, actions[..i])
    ensures Exec(aes, d, actions[..i]).order <= Exec(aes, d, actions).order
    decreases |actions|
  {
    hide Reply, MessageOf, Splice;
    if i < |actions| {
      assert Front(actions)[..i] == actions[..i];
      OnlyGrows(aes, d, Front(actions), i);
    } else {
      assert actions[..i] == actions;
    }
  }

  /** How many commands had been placed before action number `i`. */
  ghost function PlacedBefore(aes: BlockCipher, d: Device, actions: seq<Action>, i: nat): nat
    requires WellFormed(d) && Possible(aes, d, actions) && i <= |actions|
  {
    OnlyGrows(aes, d, actions, i);
    |Exec(aes, d, actions[..i]).order|
  }

  /** A response is to the command that was submitted, by the worker it was submitted to, and that command was
      placed no earlier than its submission and no later than its response. */
  ghost predicate RightResponse(aes: BlockCipher, d: Device, actions: seq<Action>, r: Response)
    requires WellFormed(d) && Possible(aes, d, actions)
  {
    && r.submitted <= r.finished < |actions|
    && actions[r.submitted] == Submit(r.ev)
    && actions[r.finished] == (if r.answer.Refused? then Submit(r.ev) else Finish(r.ev.worker))
    && PlacedBefore(aes, d, actions, r.submitted) <= r.at < PlacedBefore(aes, d, actions, r.finished + 1)
  }

  ghost predicate RightSlot(aes: BlockCipher, d: Device, actions: seq<Action>, w: nat, slot: Slot)
    requires WellFormed(d) && Possible(aes, d, actions)
  {
    slot.Busy? ==>
      && slot.ev.worker == w && slot.submitted < |actions| && actions[slot.submitted] == Submit(slot.ev)
      && slot.since == PlacedBefore(aes, d, actions, slot.submitted)
  }

  /** One action more leaves the numbers of the earlier ones. */
  lemma PlacedBeforeFront(aes: BlockCipher, d: Device, actions: seq<Action>, i: nat)
    requires WellFormed(d) && Possible(aes, d, actions) && i < |actions|
    ensures PlacedBefore(aes, d, Front(actions), i) == PlacedBefore(aes, d, actions, i)
  {
    assert Front(actions)[..i] == actions[..i];
  }

  lemma PlacedBeforeEnd(aes: BlockCipher, d: Device, actions: seq<Action>)
    requires WellFormed(d) && Possible(aes, d, actions)
    ensures PlacedBefore(aes, d, actions, |actions|) == |Exec(aes, d, actions).order|
  {
    assert actions[..|actions|] == actions;
  }

  lemma PlacedBeforeGrows(aes: BlockCipher, d: Device, actions: seq<Action>, i: nat, j: nat)
    requires WellFormed(d) && Possible(aes, d, actions) && i <= j <= |actions|
    ensures PlacedBefore(aes, d, actions, i) <= PlacedBefore(aes, d, actions, j)
  {
    hide Exec;
    OnlyGrows(aes, d, actions, j);
    OnlyGrows(aes, d, actions[..j], i);
    assert actions[..j][..i] == actions[..i];
  }

  lemma RightLonger(aes: BlockCipher, d: Device, actions: seq<Action>)
    requires WellFormed(d) && Possible(aes, d, actions) && actions != []
    ensures forall r | RightResponse(aes, d, Front(actions), r) :: RightResponse(aes, d, actions, r)
    ensures forall w: nat, slot | RightSlot(aes, d, Front(actions), w, slot) :: RightSlot(aes, d, actions, w, slot)
  {
    hide PlacedBefore, Exec;
    forall i | 0 <= i < |actions|
      ensures PlacedBefore(aes, d, Front(actions), i) == PlacedBefore(aes, d, actions, i)
    {
      PlacedBeforeFront(aes, d, actions, i);
    }
  }

  lemma {:induction false} Recorded(aes: BlockCipher, d: Device, actions: seq<Action>)
    requires Start(d) && Possible(aes, d, actions)
    ensures var e := Exec(aes, d, actions);
            && e.now == |actions|
            && (forall k | 0 <= k < |e.responses| :: RightResponse(aes, d, actions, e.responses[k]))
            && (forall w | 0 <= w < |e.slots| :: RightSlot(aes, d, actions, w, e.slots[w]))
    decreases |actions|
  {
    hide PlacedBefore, Act;
    if actions != [] {
      Recorded(aes, d, Front(actions));
      RecordedStep(aes, d, actions, Exec(aes, d, Front(actions)));
    }
  }

  lemma RecordedStep(aes: BlockCipher, d: Device, actions: seq<Action>, mid: Device)
    requires Start(d) && Possible(aes, d, actions) && actions != [] && mid == Exec(aes, d, Front(actions))
    requires mid.now == |actions| - 1
    requires forall k | 0 <= k < |mid.responses| :: RightResponse(aes, d, Front(actions), mid.responses[k])
    requires forall w | 0 <= w < |mid.slots| :: RightSlot(aes, d, Front(actions), w, mid.slots[w])
    ensures var e := Act(aes, mid, actions[|actions| - 1]);
            && e.now == |actions|
            && (forall k | 0 <= k < |e.responses| :: RightResponse(aes, d, actions, e.responses[k]))
            && (forall w | 0 <= w < |e.slots| :: RightSlot(aes, d, actions, w, e.slots[w]))
  {
    hide PlacedBefore, Inv, Run, Reply, MessageOf, Splice;
    var n, a := |actions| - 1, actions[|actions| - 1];
    var e := Act(aes, mid, a);
    assert e == Exec(aes, d, actions);
    hide Exec;
    PlacedBeforeFront(aes, d, actions, n);
    PlacedBeforeEnd(aes, d, Front(actions));
    PlacedBeforeEnd(aes, d, actions);
    RightLonger(aes, d, actions);
    if a.Finish? {
      ReadsArePlaced(aes, d, Front(actions), a.worker);
      var slot := mid.slots[a.worker];
      assert RightSlot(aes, d, actions, a.worker, slot);
      PlacedBeforeGrows(aes, d, actions, slot.submitted, n);
    }
    forall k | 0 <= k < |e.responses|
      ensures RightResponse(aes, d, actions, e.responses[k])
    {
      if k < |mid.responses| {
        assert e.responses[k] == mid.responses[k];
      }
    }
  }

  lemma ReadsArePlaced(aes: BlockCipher, d: Device, actions: seq<Action>, w: nat)
    requires Start(d) && Possible(aes, d, actions) && w < |Exec(aes, d, actions).slots|
    ensures var e := Exec(aes, d, actions);
            var slot := e.slots[w];
            slot.Busy? && slot.ev.cmd.Read? ==> slot.since < |e.order| && e.order[slot.since] == slot.ev
  {
    hide Exec, Run, MessageOf;
    Invariant(aes, d, actions);
    assert SlotOk(aes, System(d.backend, d.buffers), Exec(aes, d, actions), w);
  }

  // ---------------------------------------------------------------------------
  // Linearizability

  /** However the commands overlap in the workers, the backend is what the commands leave when run one at a time
      in their order, and so is what an ordinary disk holds; every response is to a submitted command, and gives
      the answer of that run, and of the ordinary disk, at the place of the command. */
  lemma Linearizable(aes: BlockCipher, d: Device, actions: seq<Action>)
    requires aes.Invertible(KEY) && Start(d) && Possible(aes, d, actions)
    ensures var s, e := System(d.backend, d.buffers), Exec(aes, d, actions);
            && s.Valid() && (forall i | 0 <= i < |e.order| :: s.Serves(e.order[i]))
            && var (end, answers) := Run(aes, s, e.order);
            && e.backend == end.backend
            && PlainRun(View(aes, d.backend), e.order) == (View(aes, e.backend), answers)
            && (forall k | 0 <= k < |e.responses| ::
                  var r := e.responses[k];
                  && r.submitted < |actions| && actions[r.submitted] == Submit(r.ev)
                  && r.at < |e.order| && e.order[r.at] == r.ev
                  && r.answer == answers[r.at])
  {
    hide Run, PlainRun, View, Exec, PlacedBefore;
    Invariant(aes, d, actions);
    Recorded(aes, d, actions);
    var s, e := System(d.backend, d.buffers), Exec(aes, d, actions);
    Transparent(aes, s, e.order);
    forall k | 0 <= k < |e.responses|
      ensures RightResponse(aes, d, actions, e.responses[k]) && ResponseOk(aes, s, e, e.responses[k])
    {
    }
  }

  /** Real time: every command is placed between its submission and its response, so one whose response came
      before another was submitted is placed before that other. */
  lemma RealTime(aes: BlockCipher, d: Device, actions: seq<Action>)
    requires Start(d) && Possible(aes, d, actions)
    ensures var rs := Exec(aes, d, actions).responses;
            && (forall k | 0 <= k < |rs| :: RightResponse(aes, d, actions, rs[k]))
            && (forall j, k | 0 <= j < |rs| && 0 <= k < |rs| && rs[j].finished < rs[k].submitted :: rs[j].at < rs[k].at)
  {
    hide Exec;
    Recorded(aes, d, actions);
    var rs := Exec(aes, d, actions).responses;
    forall j, k | 0 <= j < |rs| && 0 <= k < |rs| && rs[j].finished < rs[k].submitted
      ensures rs[j].at < rs[k].at
    {
      assert RightResponse(aes, d, actions, rs[j]) && RightResponse(aes, d, actions, rs[k]);
      PlacedBeforeGrows(aes, d, actions, rs[j].finished + 1, rs[k].submitted);
    }
  }

  // ---------------------------------------------------------------------------
  // Nothing is lost and nothing is served twice

  /** What responses and busy workers are counted by: the place of their command, or its submission. */
  datatype Key = Place | Submission

  predicate InUse(key: Key, d: Device, actions: seq<Action>, p: int)
  {
    match key
    case Place => 0 <= p < |d.order|
    case Submission => 0 <= p < |actions| && actions[p].Submit?
  }

  predicate Answers(key: Key, d: Device, k: int, p: int)
  {
    0 <= k < |d.responses| && p == if key.Place? then d.responses[k].at else d.responses[k].submitted
  }

  /** Worker `w` is serving the command of `p`; a storing command has no place yet. */
  predicate Holds(key: Key, d: Device, w: int, p: int)
  {
    && 0 <= w < |d.slots| && d.slots[w].Busy?
    && if key.Place? then d.slots[w].ev.cmd.Read? && d.slots[w].since == p else d.slots[w].submitted == p
  }

  ghost predicate Owned(key: Key, d: Device, p: int)
  {
    (exists k :: Answers(key, d, k, p)) || (exists w :: Holds(key, d, w, p))
  }

  /** Exactly one response or busy worker for each. */
  ghost predicate OneOwnerEach(key: Key, d: Device, actions: seq<Action>)
  {
    && (forall p | InUse(key, d, actions, p) :: Owned(key, d, p))
    && (forall k, p | Answers(key, d, k, p) :: InUse(key, d, actions, p))
    && (forall w, p | Holds(key, d, w, p) :: InUse(key, d, actions, p))
    && (forall j, k, p | Answers(key, d, j, p) && Answers(key, d, k, p) :: j == k)
    && (forall v, w, p | Holds(key, d, v, p) && Holds(key, d, w, p) :: v == w)
    && (forall k, w, p | Answers(key, d, k, p) :: !Holds(key, d, w, p))
  }

  lemma ActOneOwner(key: Key, aes: BlockCipher, d: Device, actions: seq<Action>, a: Action)
    requires WellFormed(d) && Enabled(d, a) && d.now == |actions| && OneOwnerEach(key, d, actions)
    ensures OneOwnerEach(key, Act(aes, d, a), actions + [a])
  {
    hide Reply, MessageOf, Splice;
    var e, all := Act(aes, d, a), actions + [a];
    var u := if a.Submit? then a.ev.worker else a.worker;
    var last, n := |d.responses|, if key.Place? then |d.order| else d.now;
    forall p
      ensures InUse(key, e, all, p) <==> InUse(key, d, actions, p) || (p == n && InUse(key, e, all, n))
      ensures InUse(key, d, actions, p) ==> p != n
      ensures Answers(key, e, last, p) ==> (p == n && InUse(key, e, all, n)) || Holds(key, d, u, p)
      ensures Answers(key, e, last, p) ==> !Holds(key, e, u, p)
      ensures Holds(key, e, u, p) ==> p == n && InUse(key, e, all, n)
      ensures Holds(key, d, u, p) ==> Answers(key, e, last, p)
    {
    }
    assert InUse(key, e, all, n) ==> Answers(key, e, last, n) || Holds(key, e, u, n);
    OwnersFrom(key, d, actions, e, all, u, n);
  }

  /** The argument for one action: `u` is the worker involved and `n` the new number, if there is one. */
  lemma OwnersFrom(key: Key, d: Device, actions: seq<Action>, e: Device, all: seq<Action>, u: nat, n: nat)
    requires OneOwnerEach(key, d, actions)
    requires forall k, p | k != |d.responses| :: Answers(key, e, k, p) <==> Answers(key, d, k, p)
    requires forall w, p | w != u :: Holds(key, e, w, p) <==> Holds(key, d, w, p)
    requires forall p :: InUse(key, e, all, p) <==> InUse(key, d, actions, p) || (p == n && InUse(key, e, all, n))
    requires !InUse(key, d, actions, n) && forall p :: !Answers(key, d, |d.responses|, p)
    requires InUse(key, e, all, n) ==> Answers(key, e, |d.responses|, n) || Holds(key, e, u, n)
    requires forall p | Answers(key, e, |d.responses|, p) ::
               !Holds(key, e, u, p) && ((p == n && InUse(key, e, all, n)) || Holds(key, d, u, p))
    requires forall p | Holds(key, e, u, p) :: p == n && InUse(key, e, all, n)
    requires forall p | Holds(key, d, u, p) :: Answers(key, e, |d.responses|, p)
    ensures OneOwnerEach(key, e, all)
  {
    hide InUse, Answers, Holds;
    forall p | InUse(key, e, all, p)
      ensures Owned(key, e, p)
    {
      if InUse(key, d, actions, p) {
        assert Owned(key, d, p);
        if w :| Holds(key, d, w, p) {
          assert w == u || Holds(key, e, w, p);
        } else {
          var k :| Answers(key, d, k, p);
          assert k == |d.responses| || Answers(key, e, k, p);
        }
      }
    }
  }

  lemma {:induction false} OneOwnerEachAlways(key: Key, aes: BlockCipher, d: Device, actions: seq<Action>)
    requires Start(d) && Possible(aes, d, actions)
    ensures OneOwnerEach(key, Exec(aes, d, actions), actions)
    decreases |actions|
  {
    hide Act;
    if actions != [] {
      hide OneOwnerEach;
      var before := Front(actions);
      OneOwnerEachAlways(key, aes, d, before);
      Recorded(aes, d, before);
      ActOneOwner(key, aes, Exec(aes, d, before), before, actions[|actions| - 1]);
      assert before + [actions[|actions| - 1]] == actions;
    }
  }

  /** Over any run, every place in the order and every submission has exactly one response or busy worker; and a
      busy worker holds the command that was submitted to it, at its place if it is a read. */
  lemma ServedExactlyOnce(aes: BlockCipher, d: Device, actions: seq<Action>)
    requires Start(d) && Possible(aes, d, actions)
    ensures var e := Exec(aes, d, actions);
            && OneOwnerEach(Place, e, actions) && OneOwnerEach(Submission, e, actions)
            && (forall w | 0 <= w < |e.slots| && e.slots[w].Busy? ::
                  var slot := e.slots[w];
                  && slot.ev.worker == w && slot.submitted < |actions| && actions[slot.submitted] == Submit(slot.ev)
                  && (slot.ev.cmd.Read? ==> slot.since < |e.order| && e.order[slot.since] == slot.ev))
  {
    hide Exec, OneOwnerEach, PlacedBefore;
    OneOwnerEachAlways(Place, aes, d, actions);
    OneOwnerEachAlways(Submission, aes, d, actions);
    Recorded(aes, d, actions);
    var e := Exec(aes, d, actions);
    forall w | 0 <= w < |e.slots| && e.slots[w].Busy? && e.slots[w].ev.cmd.Read?
      ensures e.slots[w].since < |e.order| && e.order[e.slots[w].since] == e.slots[w].ev
    {
      ReadsArePlaced(aes, d, actions, w);
    }
  }

  // ---------------------------------------------------------------------------
  // Nothing gets stuck

  /** Over any backend of whole sectors, any number of idle workers is a start. */
  lemma AnyWorkersStart(backend: seq<byte>, buffers: seq<seq<byte>>)
    requires |backend| % 512 == 0 && forall w | 0 <= w < |buffers| :: |buffers[w]| == 262144
    ensures Start(Device(0, backend, buffers, seq(|buffers|, _ => Idle), [], []))
  {
  }

  lemma OneMoreAction(aes: BlockCipher, d: Device, actions: seq<Action>, a: Action)
    requires WellFormed(d) && Possible(aes, d, actions) && Enabled(Exec(aes, d, actions), a)
    ensures Possible(aes, d, actions + [a]) && Exec(aes, d, actions + [a]) == Act(aes, Exec(aes, d, actions), a)
  {
    hide Act;
    assert Front(actions + [a]) == actions;
  }

  /** The first `w` workers can all finish. */
  lemma {:induction false} CanFinish(aes: BlockCipher, d: Device, actions: seq<Action>, w: nat) returns (rest: seq<Action>)
    requires WellFormed(d) && Possible(aes, d, actions) && w <= |Exec(aes, d, actions).slots|
    ensures forall a | a in rest :: a.Finish?
    ensures Possible(aes, d, actions + rest)
    ensures var e := Exec(aes, d, actions + rest);
            |e.slots| == |Exec(aes, d, actions).slots| && forall v | 0 <= v < w :: e.slots[v].Idle?
  {
    hide Exec, Possible, Reply, MessageOf, Splice;
    if w == 0 {
      rest := [];
      assert actions + rest == actions;
    } else {
      rest := CanFinish(aes, d, actions, w - 1);
      if Exec(aes, d, actions + rest).slots[w - 1].Busy? {
        OneMoreAction(aes, d, actions + rest, Finish(w - 1));
        assert actions + rest + [Finish(w - 1)] == actions + (rest + [Finish(w - 1)]);
        rest := rest + [Finish(w - 1)];
      }
    }
  }

  /** From wherever a run has got to, an idle worker takes any command, and the busy workers can finish, after
      which every command submitted so far has its response. */
  lemma NeverStuck(aes: BlockCipher, d: Device, actions: seq<Action>) returns (rest: seq<Action>)
    requires Start(d) && Possible(aes, d, actions)
    ensures forall ev: Event | ev.worker < |Exec(aes, d, actions).slots| && |ev.rest| == 63 ::
              Exec(aes, d, actions).slots[ev.worker].Idle? ==> Possible(aes, d, actions + [Submit(ev)])
    ensures forall a | a in rest :: a.Finish?
    ensures Possible(aes, d, actions + rest)
    ensures forall i | 0 <= i < |actions| && actions[i].Submit? ::
              exists k :: 0 <= k < |Exec(aes, d, actions + rest).responses| && Exec(aes, d, actions + rest).responses[k].submitted == i
  {
    hide Exec, Act, Possible;
    forall ev: Event | ev.worker < |Exec(aes, d, actions).slots| && |ev.rest| == 63
      ensures Exec(aes, d, actions).slots[ev.worker].Idle? ==> Possible(aes, d, actions + [Submit(ev)])
    {
      if Exec(aes, d, actions).slots[ev.worker].Idle? {
        OneMoreAction(aes, d, actions, Submit(ev));
      }
    }
    rest := CanFinish(aes, d, actions, |Exec(aes, d, actions).slots|);
    var e := Exec(aes, d, actions + rest);
    OneOwnerEachAlways(Submission, aes, d, actions + rest);
    forall i | 0 <= i < |actions| && actions[i].Submit?
      ensures exists k :: 0 <= k < |e.responses| && e.responses[k].submitted == i
    {
      assert InUse(Submission, e, actions + rest, i);
      assert Owned(Submission, e, i);
      var k :| Answers(Submission, e, k, i);
      assert 0 <= k < |e.responses| && e.responses[k].submitted == i;
    }
  }
}
