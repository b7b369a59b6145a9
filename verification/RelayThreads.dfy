/** The two threads of the socket relay and the NVMe commands they issue. */
module RelayThreads {
  import opened Bytes

  /** Everything that can happen at the relay: what the client does, and the outcome of each call a thread makes. */
  datatype Label =
    | ClientSends(data: seq<byte>)
    | ClientLeaves
    | ToReads(data: seq<byte>)
    | ToReadEnds(n: int)
    | ToWrites(taken: nat, ok: bool)
    | ToCloses
    | FromReads(data: seq<byte>)
    | FromReadEnds(failed: bool)
    | FromWrites(n: int)
    | FromShuts
  {
    predicate ByClient() { ClientSends? || ClientLeaves? }

    predicate ByTo() { ToReads? || ToReadEnds? || ToWrites? || ToCloses? }

    predicate ByFrom() { !ByClient() && !ByTo() }
  }

  // ---------------------------------------------------------------------------
  // Control of the two threads

  /** Where the client-to-device thread is; `Aborted` keeps what the failed relay write left behind. */
  datatype ToPc = Reading | Writing(chunk: seq<byte>) | Closing | Closed | Aborted(lost: seq<byte>)
  {
    /** The calls it may be making, with outcomes their interfaces allow. */
    predicate Can(l: Label)
    {
      match this
      case Reading => (l.ToReads? && 1 <= |l.data| <= 4096) || (l.ToReadEnds? && l.n <= 0)
      case Writing(chunk) => l.ToWrites? && l.taken <= |chunk| && (l.ok ==> l.taken == |chunk|)
      case Closing => l.ToCloses?
      case _ => false
    }

    function After(l: Label): ToPc
      requires Can(l)
    {
      match l
      case ToReads(data) => Writing(data)
      case ToReadEnds(_) => Closing
      case ToWrites(taken, ok) => if ok then Reading else Aborted(chunk[taken..])
      case _ => Closed
    }

    predicate Ended() { Closed? || Aborted? }
  }

  /** Where the device-to-client thread is. */
  datatype FromPc = Fetching | Sending(chunk: seq<byte>) | Shutting | Finished
  {
    predicate Can(l: Label)
    {
      match this
      case Fetching => (l.FromReads? && 1 <= |l.data| <= 4092) || l.FromReadEnds?
      case Sending(chunk) => l.FromWrites? && l.n <= |chunk|
      case Shutting => l.FromShuts?
      case Finished => false
    }

    function After(l: Label): FromPc
      requires Can(l)
    {
      match l
      case FromReads(data) => Sending(data)
      case FromReadEnds(_) => Shutting
      case FromWrites(n) => if n <= 0 then Shutting else Fetching
      case _ => Finished
    }
  }

  /** The control point a thread reaches by a sequence of its own calls, each allowed where it is made. */
  ghost predicate ToPath(pc: ToPc, calls: seq<Label>, end: ToPc)
    decreases |calls|
  {
    if calls == [] then pc == end else pc.Can(calls[0]) && ToPath(pc.After(calls[0]), calls[1..], end)
  }

  ghost predicate FromPath(pc: FromPc, calls: seq<Label>, end: FromPc)
    decreases |calls|
  {
    if calls == [] then pc == end else pc.Can(calls[0]) && FromPath(pc.After(calls[0]), calls[1..], end)
  }

  lemma {:induction false} ToPathExtend(pc: ToPc, calls: seq<Label>, mid: ToPc, l: Label)
    requires ToPath(pc, calls, mid) && mid.Can(l)
    ensures ToPath(pc, calls + [l], mid.After(l))
    decreases |calls|
  {
    if calls == [] {
      assert (calls + [l])[1..] == [];
    } else {
      ToPathExtend(pc.After(calls[0]), calls[1..], mid, l);
      assert (calls + [l])[1..] == calls[1..] + [l];
    }
  }

  lemma {:induction false} FromPathExtend(pc: FromPc, calls: seq<Label>, mid: FromPc, l: Label)
    requires FromPath(pc, calls, mid) && mid.Can(l)
    ensures FromPath(pc, calls + [l], mid.After(l))
    decreases |calls|
  {
    if calls == [] {
      assert (calls + [l])[1..] == [];
    } else {
      FromPathExtend(pc.After(calls[0]), calls[1..], mid, l);
      assert (calls + [l])[1..] == calls[1..] + [l];
    }
  }

  // ---------------------------------------------------------------------------
  // Relay commands

  /** The 4096-byte frame of a relay read: the payload length as a little-endian word, then the payload. */
  function EncodeFrame(payload: seq<byte>): (frame: seq<byte>)
    requires |payload| <= 4092
    ensures |frame| == 4096
  {
    ToLe(|payload|, 4) + payload + seq(4092 - |payload|, _ => 0)
  }

  function FrameSize(frame: seq<byte>): nat
    requires |frame| == 4096
  {
    FromLe(frame[..4])
  }

  lemma FrameRoundTrip(payload: seq<byte>)
    requires |payload| <= 4092
    ensures var frame := EncodeFrame(payload);
            FrameSize(frame) == |payload| && frame[4..4 + |payload|] == payload
  {
    WordSizes();
    LeRoundTrip(|payload|, 4);
    assert EncodeFrame(payload)[..4] == ToLe(|payload|, 4);
  }

  /** The size is the word at the start of the frame, least significant byte first. */
  lemma FrameSizeBytes(frame: seq<byte>)
    requires |frame| == 4096
    ensures FrameSize(frame)
         == 0x100_0000 * (frame[3] as int) + 0x1_0000 * (frame[2] as int) + 0x100 * (frame[1] as int) + frame[0]
  {
    FromLeWords(frame[..4]);
  }

  /** tsp_nvme_read_relay: unpacks the frame the device filled into `data`. A size over 4092 would trip the
      assertion of the original. */
  method ReadRelay(frame: seq<byte>, fails: bool, data: array<byte>, len: nat) returns (ret: int)
    requires len <= data.Length
    requires |frame| == 4096 && (!fails ==> FrameSize(frame) <= 4092)
    modifies data
    ensures fails || len < 4092 ==> ret == -1 && data[..] == old(data[..])
    ensures !fails && 4092 <= len ==>
              && ret == FrameSize(frame)
              && data[..] == Splice(old(data[..]), 0, frame[4..4 + FrameSize(frame)])
  {
    if fails {
      return -1;
    }
    var size := FromLe(frame[..4]);
    if len < 4096 - 4 {
      return -1;
    }
    forall i | 0 <= i < size {
      data[i] := frame[4 + i];
    }
    return size;
  }

  /** tsp_nvme_write_relay: the 4096-byte frame it sends and the length it declares. Only the first 4096 bytes
      of the data travel, whatever length it declares. */
  method WriteRelay(data: array<byte>, len: nat) returns (frame: array<byte>, declared: nat)
    requires 0 < len <= data.Length
    ensures fresh(frame) && frame.Length == 4096 && declared == len
    ensures frame[..if len < 4096 then len else 4096] == data[..if len < 4096 then len else 4096]
  {
    frame := new byte[4096];
    var n := if len < 4096 then len else 4096;
    forall i | 0 <= i < n {
      frame[i] := data[i];
    }
    declared := len;
  }

  // ---------------------------------------------------------------------------
  // The thread bodies

  /** The outcomes one turn of the client-to-device loop meets: of the socket read, then of the relay write. */
  datatype ToTurn = Got(data: seq<byte>, taken: nat, ok: bool) | Ended(n: int)
  {
    predicate Sensible()
    {
      match this
      case Got(data, taken, ok) => 1 <= |data| <= 4096 && taken <= |data| && (ok ==> taken == |data|)
      case Ended(n) => n <= 0
    }
  }

  /** The calls that go with a sequence of turns, and the bytes the device accepts over them. */
  ghost function ToCalls(turns: seq<ToTurn>): seq<Label>
  {
    if turns == [] then [] else
    match turns[0]
    case Ended(n) => [ToReadEnds(n), ToCloses]
    case Got(data, taken, ok) => [ToReads(data), ToWrites(taken, ok)] + if ok then ToCalls(turns[1..]) else []
  }

  ghost function Accepted(turns: seq<ToTurn>): seq<byte>
    requires forall i | 0 <= i < |turns| :: turns[i].Sensible()
  {
    if turns == [] || turns[0].Ended? then []
    else
      assert turns[0].Sensible();
      turns[0].data[..turns[0].taken] + if turns[0].ok then Accepted(turns[1..]) else []
  }

  /** Where the thread is after its turns. */
  ghost function ToEnd(turns: seq<ToTurn>): ToPc
    requires forall i | 0 <= i < |turns| :: turns[i].Sensible()
  {
    if turns == [] then Reading
    else if turns[0].Ended? then Closed
    else
      assert turns[0].Sensible();
      if turns[0].ok then ToEnd(turns[1..]) else Aborted(turns[0].data[turns[0].taken..])
  }

  /** The calls of the loop body are a path of the thread's control graph. */
  lemma {:induction false} ToThreadPath(turns: seq<ToTurn>)
    requires forall i | 0 <= i < |turns| :: turns[i].Sensible()
    ensures ToPath(Reading, ToCalls(turns), ToEnd(turns))
    decreases |turns|
  {
    if turns != [] {
      assert turns[0].Sensible();
      var calls := ToCalls(turns);
      var tail := if turns[0].Got? && turns[0].ok then ToCalls(turns[1..]) else [];
      if turns[0].Got? && turns[0].ok {
        ToThreadPath(turns[1..]);
      }
      assert calls[1..] == [calls[1]] + tail && calls[1..][1..] == tail;
    }
  }

  /** After the first `i` turns, with the thread still reading. */
  ghost predicate ToSoFar(turns: seq<ToTurn>, i: nat, calls: seq<Label>, accepted: seq<byte>)
    requires i <= |turns| && forall j | 0 <= j < |turns| :: turns[j].Sensible()
  {
    && calls + ToCalls(turns[i..]) == ToCalls(turns)
    && accepted + Accepted(turns[i..]) == Accepted(turns)
    && ToEnd(turns[i..]) == ToEnd(turns)
  }

  lemma ToTurnsBegin(turns: seq<ToTurn>)
    requires forall j | 0 <= j < |turns| :: turns[j].Sensible()
    ensures ToSoFar(turns, 0, [], [])
  {
    assert turns[0..] == turns;
  }

  lemma ToTurnStep(turns: seq<ToTurn>, i: nat, calls: seq<Label>, accepted: seq<byte>)
    requires i <= |turns| && forall j | 0 <= j < |turns| :: turns[j].Sensible()
    requires ToSoFar(turns, i, calls, accepted)
    ensures i == |turns| ==> calls == ToCalls(turns) && accepted == Accepted(turns) && ToEnd(turns) == Reading
    ensures i < |turns| && turns[i].Ended? ==>
              && ToCalls(turns) == calls + [ToReadEnds(turns[i].n), ToCloses]
              && Accepted(turns) == accepted && ToEnd(turns) == Closed
    ensures i < |turns| && turns[i].Got? ==>
              var t := turns[i];
              var calls', accepted' := calls + [ToReads(t.data), ToWrites(t.taken, t.ok)], accepted + t.data[..t.taken];
              if t.ok then
                ToSoFar(turns, i + 1, calls', accepted')
              else
                ToCalls(turns) == calls' && Accepted(turns) == accepted' && ToEnd(turns) == Aborted(t.data[t.taken..])
  {
    if i < |turns| {
      var t, later := turns[i], turns[i + 1..];
      assert t.Sensible() && turns[i..][0] == t && turns[i..][1..] == later;
      if t.Got? && t.ok {
        Regroup(calls, [ToReads(t.data), ToWrites(t.taken, t.ok)], ToCalls(later));
        Regroup(accepted, t.data[..t.taken], Accepted(later));
      }
    }
  }

  /** relay_to_nvme_thread_fn, over the outcomes it meets. */
  method RelayToNvme(turns: seq<ToTurn>) returns (calls: seq<Label>, accepted: seq<byte>, pc: ToPc)
    requires forall i | 0 <= i < |turns| :: turns[i].Sensible()
    ensures calls == ToCalls(turns) && accepted == Accepted(turns) && pc == ToEnd(turns)
  {
    hide ToSoFar, ToCalls, Accepted, ToEnd, Splice;
    var buffer := new byte[4096];
    var i := 0;
    calls, accepted, pc := [], [], Reading;
    ToTurnsBegin(turns);
    while i < |turns|
      invariant i <= |turns| && pc == Reading
      invariant ToSoFar(turns, i, calls, accepted)
    {
      var turn := turns[i];
      assert turn.Sensible();
      ToTurnStep(turns, i, calls, accepted);
      var len := if turn.Got? then |turn.data| else turn.n;
      if len <= 0 {
        return calls + [ToReadEnds(len), ToCloses], accepted, Closed;
      }
      ReadBack(buffer[..], turn.data);
      WriteAt(buffer, 0, turn.data);
      var frame, declared := WriteRelay(buffer, len);
      assert frame[..len] == turn.data && frame[..turn.taken] == frame[..len][..turn.taken];
      calls := calls + [ToReads(turn.data), ToWrites(turn.taken, turn.ok)];
      accepted := accepted + frame[..turn.taken];
      if !turn.ok {
        return calls, accepted, Aborted(turn.data[turn.taken..]);
      }
      i := i + 1;
    }
    ToTurnStep(turns, i, calls, accepted);
  }

  /** The outcomes one turn of the device-to-client loop meets: the frame of the relay read, or its failure, and
      the result of the socket write. */
  datatype FromTurn = Fetched(frame: seq<byte>, n: int) | FetchFails
  {
    predicate Sensible()
    {
      Fetched? ==> |frame| == 4096 && FrameSize(frame) <= 4092 && n <= FrameSize(frame)
    }

    /** What the relay read returns. */
    function Length(): int
      requires Sensible()
    {
      if FetchFails? then -1 else FrameSize(frame)
    }

    function Payload(): (r: seq<byte>)
      requires Fetched? && Sensible()
      ensures |r| == Length()
    {
      frame[4..4 + FrameSize(frame)]
    }
  }

  ghost function FromCalls(turns: seq<FromTurn>): seq<Label>
    requires forall i | 0 <= i < |turns| :: turns[i].Sensible()
  {
    if turns == [] then [] else
    assert turns[0].Sensible();
    if turns[0].Length() <= 0 then [FromReadEnds(turns[0].FetchFails?), FromShuts]
    else [FromReads(turns[0].Payload()), FromWrites(turns[0].n)]
         + if turns[0].n <= 0 then [FromShuts] else FromCalls(turns[1..])
  }

  /** What the client receives: of each payload the prefix that the socket write took. */
  ghost function Delivered(turns: seq<FromTurn>): seq<byte>
    requires forall i | 0 <= i < |turns| :: turns[i].Sensible()
  {
    if turns == [] then [] else
    assert turns[0].Sensible();
    if turns[0].Length() <= 0 || turns[0].n <= 0 then []
    else turns[0].Payload()[..turns[0].n] + Delivered(turns[1..])
  }

  ghost function FromEnd(turns: seq<FromTurn>): FromPc
    requires forall i | 0 <= i < |turns| :: turns[i].Sensible()
  {
    if turns == [] then Fetching else
    assert turns[0].Sensible();
    if turns[0].Length() <= 0 || turns[0].n <= 0 then Finished else FromEnd(turns[1..])
  }

  lemma {:induction false} FromThreadPath(turns: seq<FromTurn>)
    requires forall i | 0 <= i < |turns| :: turns[i].Sensible()
    ensures FromPath(Fetching, FromCalls(turns), FromEnd(turns))
    decreases |turns|
  {
    if turns != [] {
      assert turns[0].Sensible();
      var calls := FromCalls(turns);
      if turns[0].Length() <= 0 {
        assert calls[1..] == [FromShuts] && calls[1..][1..] == [];
      } else if turns[0].n <= 0 {
        assert calls[1..] == [FromWrites(turns[0].n), FromShuts] && calls[1..][1..] == [FromShuts];
        assert FromPath(Shutting, calls[1..][1..], Finished) by { assert [FromShuts][1..] == []; }
      } else {
        FromThreadPath(turns[1..]);
        assert calls[1..][1..] == FromCalls(turns[1..]);
      }
    }
  }

  /** After the first `i` turns, with the thread still fetching. */
  ghost predicate FromSoFar(turns: seq<FromTurn>, i: nat, calls: seq<Label>, delivered: seq<byte>)
    requires i <= |turns| && forall j | 0 <= j < |turns| :: turns[j].Sensible()
  {
    && calls + FromCalls(turns[i..]) == FromCalls(turns)
    && delivered + Delivered(turns[i..]) == Delivered(turns)
    && FromEnd(turns[i..]) == FromEnd(turns)
  }

  lemma FromTurnsBegin(turns: seq<FromTurn>)
    requires forall j | 0 <= j < |turns| :: turns[j].Sensible()
    ensures FromSoFar(turns, 0, [], [])
  {
    assert turns[0..] == turns;
  }

  /** The whole of it, once the thread has left its loop after `calls`. */
  ghost predicate FromLeaves(turns: seq<FromTurn>, calls: seq<Label>, delivered: seq<byte>)
    requires forall j | 0 <= j < |turns| :: turns[j].Sensible()
  {
    FromCalls(turns) == calls + [FromShuts] && Delivered(turns) == delivered && FromEnd(turns) == Finished
  }

  lemma FromTurnStep(turns: seq<FromTurn>, i: nat, calls: seq<Label>, delivered: seq<byte>)
    requires i <= |turns| && forall j | 0 <= j < |turns| :: turns[j].Sensible()
    requires FromSoFar(turns, i, calls, delivered)
    ensures i == |turns| ==> calls == FromCalls(turns) && delivered == Delivered(turns) && FromEnd(turns) == Fetching
    ensures i < |turns| ==> turns[i].Sensible()
    ensures i < |turns| && turns[i].Length() <= 0 ==>
              FromLeaves(turns, calls + [FromReadEnds(turns[i].FetchFails?)], delivered)
    ensures i < |turns| && turns[i].Length() > 0 ==>
              var t := turns[i];
              var calls' := calls + [FromReads(t.Payload()), FromWrites(t.n)];
              if t.n <= 0 then FromLeaves(turns, calls', delivered)
              else FromSoFar(turns, i + 1, calls', delivered + t.Payload()[..t.n])
  {
    hide FrameSize;
    if i < |turns| {
      var t, later := turns[i], turns[i + 1..];
      assert t.Sensible() && turns[i..][0] == t && turns[i..][1..] == later;
      if t.Length() > 0 {
        Regroup(calls, [FromReads(t.Payload()), FromWrites(t.n)], if t.n <= 0 then [FromShuts] else FromCalls(later));
        if t.n > 0 {
          Regroup(delivered, t.Payload()[..t.n], Delivered(later));
        }
      }
    }
  }

  /** The relay read of one turn. */
  method Fetch(turn: FromTurn, buffer: array<byte>) returns (len: int)
    requires turn.Sensible() && buffer.Length == 4096
    modifies buffer
    ensures len == turn.Length() && (turn.Fetched? ==> buffer[..len] == turn.Payload())
  {
    hide Splice, FrameSize;
    if turn.FetchFails? {
      return -1;
    }
    ReadBack(buffer[..], turn.Payload());
    len := ReadRelay(turn.frame, false, buffer, 4096);
  }

  /** relay_from_nvme_thread_fn, over the outcomes it meets: however its loop ends, it shuts the socket down. */
  method RelayFromNvme(turns: seq<FromTurn>) returns (calls: seq<Label>, delivered: seq<byte>, pc: FromPc)
    requires forall i | 0 <= i < |turns| :: turns[i].Sensible()
    ensures calls == FromCalls(turns) && delivered == Delivered(turns) && pc == FromEnd(turns)
  {
    var buffer := new byte[4096];
    var i := 0;
    calls, delivered, pc := [], [], Fetching;
    FromTurnsBegin(turns);
    while i < |turns|
      invariant i <= |turns| && pc == Fetching
      invariant FromSoFar(turns, i, calls, delivered)
    {
      hide FromSoFar, FromLeaves, FromCalls, Delivered, FromEnd, FromTurn.Payload;
      var turn := turns[i];
      FromTurnStep(turns, i, calls, delivered);
      var len := Fetch(turn, buffer);
      if len <= 0 {
        calls := calls + [FromReadEnds(turn.FetchFails?)];
        pc := Shutting;
        break;
      }
      var payload := buffer[..len];
      len := turn.n;
      calls := calls + [FromReads(payload), FromWrites(len)];
      if len <= 0 {
        pc := Shutting;
        break;
      }
      delivered := delivered + payload[..len];
      i := i + 1;
    }
    hide FromSoFar;
    if pc.Shutting? {
      calls, pc := calls + [FromShuts], Finished;
    } else {
      FromTurnStep(turns, i, calls, delivered);
    }
  }
}
