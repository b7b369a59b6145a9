/** The socket relay as a whole: both threads, the client and the two descriptors they share, interleaved. */
module SocketRelay {
  import opened Bytes
  import opened RelayThreads

  /** `sent` is all the client has sent and `unread` the part still queued in the socket; `taken` is what the
      relay has read and `accepted` what the device has taken of it. `payloads` are the relay reads and
      `delivered` the part of each that the socket took. */
  datatype State = State(
    sent: seq<byte>, unread: seq<byte>, clientGone: bool, shut: bool,
    taken: seq<byte>, accepted: seq<byte>, to: ToPc,
    payloads: seq<seq<byte>>, delivered: seq<seq<byte>>, from: FromPc)

  const START := State([], [], false, false, [], [], Reading, [], [], Fetching)

  /** A socket read yields queued bytes, or end of file when none are left and none can come; the client can
      send until it leaves or the socket is shut down. */
  predicate Enabled(s: State, l: Label)
  {
    match l
    case ClientSends(_) => !s.clientGone && !s.shut
    case ClientLeaves => true
    case ToReads(data) => s.to.Can(l) && data <= s.unread
    case ToReadEnds(n) => s.to.Can(l) && (n == 0 ==> s.unread == [] && (s.clientGone || s.shut))
    case ToWrites(_, _) => s.to.Can(l)
    case ToCloses => s.to.Can(l)
    case _ => s.from.Can(l)
  }

  function Apply(s: State, l: Label): State
    requires Enabled(s, l)
  {
    match l
    case ClientSends(data) => s.(sent := s.sent + data, unread := s.unread + data)
    case ClientLeaves => s.(clientGone := true)
    case ToReads(data) => s.(taken := s.taken + data, unread := s.unread[|data|..], to := s.to.After(l))
    case ToReadEnds(_) => s.(to := s.to.After(l))
    case ToWrites(n, _) => s.(accepted := s.accepted + s.to.chunk[..n], to := s.to.After(l))
    case ToCloses => s.(to := s.to.After(l))
    case FromReads(data) => s.(payloads := s.payloads + [data], from := s.from.After(l))
    case FromReadEnds(_) => s.(from := s.from.After(l))
    case FromWrites(n) =>
      s.(delivered := if n <= 0 then s.delivered else s.delivered + [s.from.chunk[..n]], from := s.from.After(l))
    case FromShuts => s.(shut := true, from := s.from.After(l))
  }

  ghost predicate Possible(s: State, labels: seq<Label>)
    decreases |labels|, 0
  {
    labels == [] || (Possible(s, Front(labels)) && Enabled(Exec(s, Front(labels)), Last(labels)))
  }

  ghost function Exec(s: State, labels: seq<Label>): State
    requires Possible(s, labels)
    decreases |labels|, 1
  {
    if labels == [] then s else Apply(Exec(s, Front(labels)), Last(labels))
  }

  function Front(labels: seq<Label>): seq<Label>
    requires labels != []
  {
    labels[..|labels| - 1]
  }

  function Last(labels: seq<Label>): Label
    requires labels != []
  {
    labels[|labels| - 1]
  }

  lemma StepBack(s: State, labels: seq<Label>)
    requires Possible(s, labels) && labels != []
    ensures Possible(s, Front(labels)) && Enabled(Exec(s, Front(labels)), Last(labels))
    ensures Exec(s, labels) == Apply(Exec(s, Front(labels)), Last(labels))
  {
  }

  /** Each thread moves by its own calls alone, along its control graph. */
  lemma Moves(s: State, l: Label)
    requires Enabled(s, l)
    ensures (l.ByTo() ==> s.to.Can(l)) && (l.ByFrom() ==> s.from.Can(l))
    ensures Apply(s, l).to == if l.ByTo() then s.to.After(l) else s.to
    ensures Apply(s, l).from == if l.ByFrom() then s.from.After(l) else s.from
    ensures Apply(s, l).accepted == if l.ToWrites? then s.accepted + s.to.chunk[..l.taken] else s.accepted
    ensures Apply(s, l).delivered
         == if l.FromWrites? && l.n > 0 then s.delivered + [s.from.chunk[..l.n]] else s.delivered
    ensures Apply(s, l).payloads == if l.FromReads? then s.payloads + [l.data] else s.payloads
    ensures Apply(s, l).sent == if l.ClientSends? then s.sent + l.data else s.sent
    ensures Apply(s, l).taken == if l.ToReads? then s.taken + l.data else s.taken
    ensures (Apply(s, l).shut <==> s.shut || l.FromShuts?) && (Apply(s, l).clientGone <==> s.clientGone || l.ClientLeaves?)
  {
  }

  // ---------------------------------------------------------------------------
  // The streams, read off the labels alone

  /** The first `n` elements, or all there are. */
  function Take(s: seq<byte>, n: nat): seq<byte>
  {
    if n <= |s| then s[..n] else s
  }

  /** All the client has sent. */
  function SentBy(labels: seq<Label>): seq<byte>
    decreases |labels|
  {
    if labels == [] then [] else
    SentBy(Front(labels)) + if Last(labels).ClientSends? then Last(labels).data else []
  }

  /** All the relay has read from the client. */
  function ReadBy(labels: seq<Label>): seq<byte>
    decreases |labels|
  {
    if labels == [] then [] else
    ReadBy(Front(labels)) + if Last(labels).ToReads? then Last(labels).data else []
  }

  /** The chunk read last. */
  function LastRead(labels: seq<Label>): seq<byte>
    decreases |labels|
  {
    if labels == [] then [] else if Last(labels).ToReads? then Last(labels).data else LastRead(Front(labels))
  }

  /** All the device has accepted: of each chunk read, what the relay write after it took. */
  function AcceptedBy(labels: seq<Label>): seq<byte>
    decreases |labels|
  {
    if labels == [] then [] else
    var before := Front(labels);
    AcceptedBy(before) + if Last(labels).ToWrites? then Take(LastRead(before), Last(labels).taken) else []
  }

  /** The payloads read from the device. */
  function PayloadsOf(labels: seq<Label>): seq<seq<byte>>
    decreases |labels|
  {
    if labels == [] then [] else
    PayloadsOf(Front(labels)) + if Last(labels).FromReads? then [Last(labels).data] else []
  }

  function LastPayload(labels: seq<Label>): seq<byte>
    decreases |labels|
  {
    if labels == [] then [] else if Last(labels).FromReads? then Last(labels).data else LastPayload(Front(labels))
  }

  /** What each socket write passed on to the client: of the payload read before it, as much as it took. */
  function DeliveredOf(labels: seq<Label>): seq<seq<byte>>
    decreases |labels|
  {
    if labels == [] then [] else
    var before, l := Front(labels), Last(labels);
    DeliveredOf(before) + if l.FromWrites? && l.n > 0 then [Take(LastPayload(before), l.n)] else []
  }

  /** Some socket write took only part of the payload it was given. */
  predicate ShortWrite(labels: seq<Label>)
    decreases |labels|
  {
    if labels == [] then false else
    var before, l := Front(labels), Last(labels);
    ShortWrite(before) || (l.FromWrites? && 0 < l.n < |LastPayload(before)|)
  }

  /** The state of every run keeps exactly these streams. */
  lemma Ledger(labels: seq<Label>)
    requires Possible(START, labels)
    ensures var s := Exec(START, labels);
            && s.sent == SentBy(labels) && s.taken == ReadBy(labels) && s.accepted == AcceptedBy(labels)
            && s.payloads == PayloadsOf(labels) && s.delivered == DeliveredOf(labels)
            && (s.clientGone <==> ClientLeaves in labels) && (s.shut <==> FromShuts in labels)
  {
    hide Exec, Possible, SentBy, ReadBy, AcceptedBy, PayloadsOf, DeliveredOf;
    ToLedger(labels);
    FromLedger(labels);
    FlagLedger(labels);
  }

  lemma {:induction false} ToLedger(labels: seq<Label>)
    requires Possible(START, labels)
    ensures var s := Exec(START, labels);
            && s.sent == SentBy(labels) && s.taken == ReadBy(labels) && s.accepted == AcceptedBy(labels)
            && (s.to.Writing? ==> s.to.chunk == LastRead(labels))
    decreases |labels|
  {
    hide Apply, Enabled;
    if labels != [] {
      ToLedger(Front(labels));
      Moves(Exec(START, Front(labels)), Last(labels));
    }
  }

  lemma {:induction false} FromLedger(labels: seq<Label>)
    requires Possible(START, labels)
    ensures var s := Exec(START, labels);
            && s.payloads == PayloadsOf(labels) && s.delivered == DeliveredOf(labels)
            && (s.from.Sending? ==> s.from.chunk == LastPayload(labels))
    decreases |labels|
  {
    hide Apply, Enabled;
    if labels != [] {
      FromLedger(Front(labels));
      Moves(Exec(START, Front(labels)), Last(labels));
    }
  }

  lemma {:induction false} FlagLedger(labels: seq<Label>)
    requires Possible(START, labels)
    ensures Exec(START, labels).clientGone <==> ClientLeaves in labels
    ensures Exec(START, labels).shut <==> FromShuts in labels
    decreases |labels|
  {
    hide Apply, Enabled;
    if labels != [] {
      FlagLedger(Front(labels));
      Moves(Exec(START, Front(labels)), Last(labels));
      assert labels == Front(labels) + [Last(labels)];
    }
  }

  // ---------------------------------------------------------------------------
  // The invariant

  function InHand(pc: ToPc): seq<byte>
  {
    match pc
    case Writing(chunk) => chunk
    case Aborted(lost) => lost
    case _ => []
  }

  ghost predicate Inv(s: State)
  {
    && s.sent == s.taken + s.unread
    && s.taken == s.accepted + InHand(s.to)
    && |InHand(s.to)| <= 4096
    && (s.to.Closing? || s.to.Closed? || s.to.Reading? ==> InHand(s.to) == [])
    && |s.delivered| <= |s.payloads| <= |s.delivered| + 1
    && (forall i | 0 <= i < |s.delivered| :: 1 <= |s.delivered[i]| && s.delivered[i] <= s.payloads[i])
    && (s.from.Fetching? ==> |s.payloads| == |s.delivered|)
    && (s.from.Sending? ==> s.from.chunk != [] && |s.payloads| == |s.delivered| + 1 && s.from.chunk == s.payloads[|s.delivered|])
    && (s.shut <==> s.from.Finished?)
  }

  lemma ApplyInv(s: State, l: Label)
    requires Inv(s) && Enabled(s, l)
    ensures Inv(Apply(s, l))
  {
    hide Inv, Apply;
    if l.ByClient() {
      ClientKeepsInv(s, l);
    } else if l.ByTo() {
      ToKeepsInv(s, l);
    } else if l.FromReads? || l.FromWrites? {
      FromMovesKeepInv(s, l);
    } else {
      FromEndsKeepInv(s, l);
    }
  }

  lemma ClientKeepsInv(s: State, l: Label)
    requires Inv(s) && Enabled(s, l) && l.ByClient()
    ensures Inv(Apply(s, l))
  {
  }

  lemma ToKeepsInv(s: State, l: Label)
    requires Inv(s) && Enabled(s, l) && l.ByTo()
    ensures Inv(Apply(s, l))
  {
    var e := Apply(s, l);
    assert e.payloads == s.payloads && e.delivered == s.delivered && e.from == s.from && e.shut == s.shut;
    if l.ToReads? {
      assert s.unread == l.data + s.unread[|l.data|..];
      Regroup(s.taken, l.data, s.unread[|l.data|..]);
    } else if l.ToWrites? {
      assert s.to.chunk == s.to.chunk[..l.taken] + s.to.chunk[l.taken..];
      Regroup(s.accepted, s.to.chunk[..l.taken], s.to.chunk[l.taken..]);
    }
  }

  lemma FromMovesKeepInv(s: State, l: Label)
    requires Inv(s) && Enabled(s, l) && (l.FromReads? || l.FromWrites?)
    ensures Inv(Apply(s, l))
  {
  }

  lemma FromEndsKeepInv(s: State, l: Label)
    requires Inv(s) && Enabled(s, l) && (l.FromReadEnds? || l.FromShuts?)
    ensures Inv(Apply(s, l))
  {
  }

  lemma {:induction false} InvHolds(labels: seq<Label>)
    requires Possible(START, labels)
    ensures Inv(Exec(START, labels))
    decreases |labels|
  {
    if labels != [] {
      InvHolds(Front(labels));
      ApplyInv(Exec(START, Front(labels)), Last(labels));
    }
  }

  /** In every run nothing is lost on the way from the client to the relay and from the relay to the device except
      what is still queued or in the hand of the thread, and no more than one chunk is; and each payload but the one
      being passed on has been served by a non-empty prefix. */
  lemma Invariant(labels: seq<Label>)
    requires Possible(START, labels)
    ensures Inv(Exec(START, labels))
    ensures var s := Exec(START, labels);
            && SentBy(labels) == ReadBy(labels) + s.unread
            && ReadBy(labels) == AcceptedBy(labels) + InHand(s.to) && |InHand(s.to)| <= 4096
            && |DeliveredOf(labels)| <= |PayloadsOf(labels)| <= |DeliveredOf(labels)| + 1
  {
    hide Exec, Possible, SentBy, ReadBy, AcceptedBy, PayloadsOf, DeliveredOf;
    InvHolds(labels);
    Ledger(labels);
  }

  lemma {:induction false} PrefixPossible(s: State, labels: seq<Label>, i: nat)
    requires Possible(s, labels) && i <= |labels|
    ensures Possible(s, labels[..i])
    ensures i < |labels| ==> Enabled(Exec(s, labels[..i]), labels[i]) && Possible(s, labels[..i + 1])
    ensures i < |labels| ==> Exec(s, labels[..i + 1]) == Apply(Exec(s, labels[..i]), labels[i])
    decreases |labels|
  {
    if i < |labels| {
      assert labels[..i + 1][..i] == labels[..i];
      if i + 1 == |labels| {
        assert labels[..i + 1] == labels;
      } else {
        PrefixPossible(s, Front(labels), i);
        assert Front(labels)[..i] == labels[..i] && Front(labels)[..i + 1] == labels[..i + 1];
      }
    } else {
      assert labels[..i] == labels;
    }
  }

  /** In every run each thread's own calls are a path of its control graph, ending where it now is. */
  lemma {:induction false} ThreadsFollowTheirCode(labels: seq<Label>)
    requires Possible(START, labels)
    ensures ToPath(Reading, Only(labels, true), Exec(START, labels).to)
    ensures FromPath(Fetching, Only(labels, false), Exec(START, labels).from)
    decreases |labels|
  {
    hide Apply, Enabled;
    if labels != [] {
      ThreadsFollowTheirCode(Front(labels));
      var s, l := Exec(START, Front(labels)), Last(labels);
      Moves(s, l);
      if l.ByTo() {
        ToPathExtend(Reading, Only(Front(labels), true), s.to, l);
      } else if l.ByFrom() {
        FromPathExtend(Fetching, Only(Front(labels), false), s.from, l);
      }
    }
  }

  /** The calls of one of the threads. */
  ghost function Only(labels: seq<Label>, to: bool): seq<Label>
    decreases |labels|
  {
    if labels == [] then [] else
    var l, before := Last(labels), Only(Front(labels), to);
    if (to && l.ByTo()) || (!to && l.ByFrom()) then before + [l] else before
  }

  // ---------------------------------------------------------------------------
  // Client to device

  /** In every interleaving the device has accepted a prefix of what was read from the client, at most one 4096-byte
      chunk behind, and what was read is a prefix of what the client sent. Nothing read is missing once a read has
      returned 0 or less, and after an end of file the device holds everything the client ever sent. */
  lemma HostToDevice(labels: seq<Label>)
    requires Possible(START, labels)
    ensures var sent, read, accepted := SentBy(labels), ReadBy(labels), AcceptedBy(labels);
            && accepted <= read <= sent
            && |read| - |accepted| <= 4096
            && (Exec(START, labels).to.Reading? ==> accepted == read)
            && ((exists n :: ToReadEnds(n) in labels) ==> accepted == read)
            && (ToReadEnds(0) in labels ==> accepted == sent)
  {
    InvHolds(labels);
    Ledger(labels);
    if ToReadEnds(0) in labels {
      EndOfFileIsFinal(labels);
    }
    if n :| ToReadEnds(n) in labels {
      var i :| 0 <= i < |labels| && labels[i] == ToReadEnds(n);
      OnlyCloseFollows(labels, i);
    }
  }

  lemma {:induction false} EndOfFileIsFinal(labels: seq<Label>)
    requires Possible(START, labels)
    requires ToReadEnds(0) in labels
    ensures var s := Exec(START, labels);
            && s.unread == [] && (s.clientGone || s.shut) && (s.to.Closing? || s.to.Closed?)
    decreases |labels|
  {
    if ToReadEnds(0) in Front(labels) {
      EndOfFileIsFinal(Front(labels));
    } else {
      assert Last(labels) == ToReadEnds(0);
    }
  }

  // ---------------------------------------------------------------------------
  // Closing the relay

  /** Once the client-to-device thread has ended it makes no further call. */
  lemma {:induction false} EndedIsFinal(labels: seq<Label>, i: nat)
    requires Possible(START, labels) && i <= |labels|
    requires Possible(START, labels[..i]) && Exec(START, labels[..i]).to.Ended()
    ensures Exec(START, labels).to == Exec(START, labels[..i]).to
    ensures forall j | i <= j < |labels| :: !labels[j].ByTo()
    decreases |labels|
  {
    hide Apply, Enabled, Exec, Possible;
    if i < |labels| {
      StepBack(START, labels);
      assert Front(labels)[..i] == labels[..i];
      EndedIsFinal(Front(labels), i);
      Moves(Exec(START, Front(labels)), Last(labels));
    } else {
      assert labels[..i] == labels;
    }
  }

  /** While the thread is about to close, the last of its calls was a read that returned 0 or less. */
  lemma {:induction false} ClosingAfterReadEnd(labels: seq<Label>) returns (k: nat)
    requires Possible(START, labels) && Exec(START, labels).to.Closing?
    ensures k < |labels| && labels[k].ToReadEnds? && labels[k].n <= 0
    ensures forall j | k < j < |labels| :: !labels[j].ByTo()
    decreases |labels|
  {
    hide Apply, Enabled;
    Moves(Exec(START, Front(labels)), Last(labels));
    if Last(labels).ByTo() {
      k := |labels| - 1;
    } else {
      k := ClosingAfterReadEnd(Front(labels));
    }
  }

  /** The relay is closed at most once, right after a read that returned 0 or less, and no call of that thread,
      in particular no relay write, ever follows; and whenever such a read has returned, closing is the only
      call the thread can make next. */
  lemma CloseDiscipline(labels: seq<Label>, i: nat)
    requires Possible(START, labels) && i < |labels|
    ensures labels[i].ToCloses? ==>
              && Exec(START, labels).to.Closed?
              && (forall j | i < j < |labels| :: !labels[j].ByTo())
              && (exists k: nat | k < i ::
                    labels[k].ToReadEnds? && labels[k].n <= 0 && forall j | k < j < i :: !labels[j].ByTo())
    ensures labels[i].ToReadEnds? ==>
              forall j | i < j < |labels| && labels[j].ByTo() :: labels[j].ToCloses?
  {
    PrefixPossible(START, labels, i);
    if labels[i].ToCloses? {
      EndedIsFinal(labels, i + 1);
      var k := ClosingAfterReadEnd(labels[..i]);
      assert labels[k].ToReadEnds? && labels[k].n <= 0 && forall j | k < j < i :: labels[..i][j] == labels[j];
    }
    if labels[i].ToReadEnds? {
      OnlyCloseFollows(labels, i);
    }
  }

  lemma {:induction false} OnlyCloseFollows(labels: seq<Label>, i: nat)
    requires Possible(START, labels) && i < |labels| && labels[i].ToReadEnds?
    ensures Exec(START, labels).to.Closing? || Exec(START, labels).to.Closed?
    ensures forall j | i < j < |labels| && labels[j].ByTo() :: labels[j].ToCloses?
    decreases |labels|
  {
    hide Apply, Enabled;
    Moves(Exec(START, Front(labels)), Last(labels));
    if i < |labels| - 1 {
      OnlyCloseFollows(Front(labels), i);
    }
  }

  /** The relay stays open exactly when the thread has not ended, or ended on a failed relay write. */
  lemma {:induction false} ClosedExactlyAfterReadEnd(labels: seq<Label>)
    requires Possible(START, labels)
    ensures ToCloses in labels <==> Exec(START, labels).to.Closed?
    ensures Exec(START, labels).to.Aborted? <==> exists l :: l in labels && l.ToWrites? && !l.ok
    decreases |labels|
  {
    hide Apply, Enabled;
    if labels != [] {
      StepBack(START, labels);
      hide Exec, Possible;
      ClosedExactlyAfterReadEnd(Front(labels));
      Moves(Exec(START, Front(labels)), Last(labels));
      assert labels == Front(labels) + [Last(labels)];
    }
  }

  // ---------------------------------------------------------------------------
  // Shutting the socket down

  lemma {:induction false} FinishedIsFinal(labels: seq<Label>, i: nat)
    requires Possible(START, labels) && i <= |labels|
    requires Possible(START, labels[..i]) && Exec(START, labels[..i]).from.Finished?
    ensures Exec(START, labels).from.Finished?
    ensures forall j | i <= j < |labels| :: !labels[j].ByFrom()
    decreases |labels|
  {
    hide Apply, Enabled, Exec, Possible;
    if i < |labels| {
      StepBack(START, labels);
      assert Front(labels)[..i] == labels[..i];
      FinishedIsFinal(Front(labels), i);
      Moves(Exec(START, Front(labels)), Last(labels));
    } else {
      assert labels[..i] == labels;
    }
  }

  /** A relay read or socket write that makes the device-to-client thread leave its loop. */
  predicate LeavesLoop(l: Label)
  {
    l.FromReadEnds? || (l.FromWrites? && l.n <= 0)
  }

  lemma {:induction false} ShuttingAfterEnd(labels: seq<Label>) returns (k: nat)
    requires Possible(START, labels) && Exec(START, labels).from.Shutting?
    ensures k < |labels| && LeavesLoop(labels[k])
    ensures forall j | k < j < |labels| :: !labels[j].ByFrom()
    decreases |labels|
  {
    hide Apply, Enabled;
    Moves(Exec(START, Front(labels)), Last(labels));
    if Last(labels).ByFrom() {
      k := |labels| - 1;
    } else {
      k := ShuttingAfterEnd(Front(labels));
    }
  }

  lemma {:induction false} OnlyShutFollows(labels: seq<Label>, i: nat)
    requires Possible(START, labels) && i < |labels| && LeavesLoop(labels[i])
    ensures Exec(START, labels).from.Shutting? || Exec(START, labels).from.Finished?
    ensures forall j | i < j < |labels| && labels[j].ByFrom() :: labels[j].FromShuts?
    decreases |labels|
  {
    hide Apply, Enabled;
    Moves(Exec(START, Front(labels)), Last(labels));
    if i < |labels| - 1 {
      OnlyShutFollows(Front(labels), i);
    }
  }

  /** The socket is shut down at most once, right after a relay read that failed or gave no payload or a socket
      write that took nothing, and no call of that thread follows; and once such a call has returned, shutting
      down is the only call the thread can make next. */
  lemma ShutDiscipline(labels: seq<Label>, i: nat)
    requires Possible(START, labels) && i < |labels|
    ensures labels[i].FromShuts? ==>
              && (forall j | i < j < |labels| :: !labels[j].ByFrom())
              && (exists k: nat | k < i :: LeavesLoop(labels[k]) && forall j | k < j < i :: !labels[j].ByFrom())
    ensures labels[i].FromReadEnds? || (labels[i].FromWrites? && labels[i].n <= 0) ==>
              forall j | i < j < |labels| && labels[j].ByFrom() :: labels[j].FromShuts?
  {
    hide Apply, Enabled;
    PrefixPossible(START, labels, i);
    Moves(Exec(START, labels[..i]), labels[i]);
    if labels[i].FromShuts? {
      FinishedIsFinal(labels, i + 1);
      var k := ShuttingAfterEnd(labels[..i]);
      assert LeavesLoop(labels[k]) && forall j | k < j < i :: labels[..i][j] == labels[j];
    }
    if LeavesLoop(labels[i]) {
      OnlyShutFollows(labels, i);
    }
  }

  // ---------------------------------------------------------------------------
  // Device to client

  function Flatten(chunks: seq<seq<byte>>): seq<byte>
  {
    if chunks == [] then [] else chunks[0] + Flatten(chunks[1..])
  }

  lemma {:induction false} FlattenConcat(a: seq<seq<byte>>, b: seq<seq<byte>>)
    ensures Flatten(a + b) == Flatten(a) + Flatten(b)
    decreases |a|
  {
    if a == [] {
      assert a + b == b;
    } else {
      FlattenConcat(a[1..], b);
      assert (a + b)[1..] == a[1..] + b;
    }
  }

  ghost predicate ChunkPrefixes(parts: seq<seq<byte>>, wholes: seq<seq<byte>>)
  {
    |parts| == |wholes| && forall i | 0 <= i < |parts| :: parts[i] <= wholes[i]
  }

  /** Prefixes add up to the whole stream exactly when each of them is whole. */
  lemma {:induction false} WholeChunks(parts: seq<seq<byte>>, wholes: seq<seq<byte>>)
    requires ChunkPrefixes(parts, wholes)
    ensures |Flatten(parts)| <= |Flatten(wholes)|
    ensures |Flatten(parts)| == |Flatten(wholes)| <==> parts == wholes
    decreases |parts|
  {
    if parts != [] {
      WholeChunks(parts[1..], wholes[1..]);
      assert parts == [parts[0]] + parts[1..] && wholes == [wholes[0]] + wholes[1..];
      assert |parts[0]| == |wholes[0]| ==> parts[0] == wholes[0];
    }
  }

  lemma {:induction false} ShortWritesShow(labels: seq<Label>)
    requires Possible(START, labels)
    ensures var s := Exec(START, labels);
            && |s.delivered| <= |s.payloads|
            && (ShortWrite(labels) <==> s.delivered != s.payloads[..|s.delivered|])
    decreases |labels|
  {
    hide Apply, Enabled;
    if labels != [] {
      ShortWritesShow(Front(labels));
      InvHolds(Front(labels));
      var s, l := Exec(START, Front(labels)), Last(labels);
      Moves(s, l);
      FromLedger(Front(labels));
      var n := |s.delivered|;
      if l.FromWrites? && l.n > 0 {
        ServeOne(s.delivered, s.payloads, l.n);
      } else if l.FromReads? {
        assert (s.payloads + [l.data])[..n] == s.payloads[..n];
      }
    }
  }

  lemma ServeOne(delivered: seq<seq<byte>>, payloads: seq<seq<byte>>, n: nat)
    requires |delivered| < |payloads| && n <= |payloads[|delivered|]|
    ensures var k := |delivered|;
            delivered + [payloads[k][..n]] == payloads[..k + 1] <==> delivered == payloads[..k] && n == |payloads[k]|
  {
    var k := |delivered|;
    var chunk := payloads[k];
    assert payloads[..k + 1] == payloads[..k] + [chunk];
    assert (delivered + [chunk[..n]])[..k] == delivered && (delivered + [chunk[..n]])[k] == chunk[..n];
    assert (payloads[..k] + [chunk])[..k] == payloads[..k] && (payloads[..k] + [chunk])[k] == chunk;
    assert n == |chunk| ==> chunk[..n] == chunk;
  }

  /** In every interleaving the client receives the concatenation of one non-empty prefix per relay payload, in
      order, all but at most the last payload being served. Bytes of the served payloads are lost exactly when
      some socket write was short; when none was, the client's stream is a prefix of the device's. */
  lemma DeviceToHost(labels: seq<Label>)
    requires Possible(START, labels)
    ensures var payloads, delivered := PayloadsOf(labels), DeliveredOf(labels);
            var served := |delivered|;
            && served <= |payloads| <= served + 1
            && ChunkPrefixes(delivered, payloads[..served])
            && (forall i | 0 <= i < served :: delivered[i] != [])
            && (|Flatten(delivered)| < |Flatten(payloads[..served])| <==> ShortWrite(labels))
            && (!ShortWrite(labels) ==> Flatten(delivered) <= Flatten(payloads))
  {
    InvHolds(labels);
    ShortWritesShow(labels);
    Ledger(labels);
    var s := Exec(START, labels);
    var served := |s.delivered|;
    WholeChunks(s.delivered, s.payloads[..served]);
    FlattenConcat(s.payloads[..served], s.payloads[served..]);
    assert s.payloads == s.payloads[..served] + s.payloads[served..];
  }

  // ---------------------------------------------------------------------------
  // Termination

  /** The way out has begun: the socket is shut down, or the relay is closed, or one thread is gone and the
      other has left its loop. */
  predicate Winding(s: State)
  {
    s.shut || s.to.Closed? || (s.to.Aborted? && s.from.Shutting?)
  }

  /** Closing the relay completes the pending relay read, and any later one, with an error or size 0. */
  predicate Obeys(s: State, l: Label)
  {
    s.to.Closed? ==> !l.FromReads?
  }

  function ToBudget(s: State): nat
  {
    match s.to
    case Reading => 2 * |s.unread| + 2
    case Writing(_) => 2 * |s.unread| + 3
    case Closing => 1
    case _ => 0
  }

  function FromBudget(s: State): nat
  {
    match s.from
    case Fetching => 2
    case Sending(_) => 3
    case Shutting => 1
    case Finished => 0
  }

  /** The number of calls the two threads can still make. */
  function Budget(s: State): nat
  {
    ToBudget(s) + FromBudget(s)
  }

  predicate Over(s: State)
  {
    s.to.Ended() && s.from.Finished?
  }

  lemma WindingStep(s: State, l: Label)
    requires Inv(s) && Winding(s) && Enabled(s, l) && Obeys(s, l)
    ensures Winding(Apply(s, l))
    ensures Budget(Apply(s, l)) + (if l.ByClient() then 0 else 1) <= Budget(s)
  {
  }

  /** A call that a thread still running can complete without an error, whatever the other one does. */
  function NextCall(s: State): Label
    requires !Over(s)
  {
    match s.to
    case Reading => if s.unread != [] then ToReads(s.unread[..1]) else ToReadEnds(0)
    case Writing(chunk) => ToWrites(|chunk|, true)
    case Closing => ToCloses
    case _ =>
      match s.from
      case Fetching => FromReadEnds(false)
      case Sending(chunk) => FromWrites(|chunk|)
      case _ => FromShuts
  }

  /** A continuation of `s` in which relay reads obey the closing of the relay. */
  ghost predicate Continues(s: State, labels: seq<Label>)
    decreases |labels|
  {
    && Possible(s, labels)
    && (labels != [] ==> Continues(s, Front(labels)) && Obeys(Exec(s, Front(labels)), Last(labels)))
  }

  function Calls(labels: seq<Label>): nat
    decreases |labels|
  {
    if labels == [] then 0 else Calls(Front(labels)) + if Last(labels).ByClient() then 0 else 1
  }

  lemma {:induction false} WindingRuns(s: State, labels: seq<Label>)
    requires Inv(s) && Winding(s) && Continues(s, labels)
    ensures Inv(Exec(s, labels)) && Winding(Exec(s, labels))
    ensures Budget(Exec(s, labels)) + Calls(labels) <= Budget(s)
    decreases |labels|
  {
    if labels != [] {
      WindingRuns(s, Front(labels));
      ApplyInv(Exec(s, Front(labels)), Last(labels));
      WindingStep(Exec(s, Front(labels)), Last(labels));
    }
  }

  /** Joint termination: from the moment either thread has begun the way out, the threads make at most
      `Budget` further calls however they interleave with the client, and as long as one of them is still
      running there is a call it can complete; so both end, and `communicate` returns. */
  lemma JointTermination(s: State, labels: seq<Label>)
    requires Inv(s) && Continues(s, labels)
    requires s.shut || s.to.Closed? || (s.to.Aborted? && s.from.Shutting?)
    ensures Calls(labels) <= Budget(s) <= 2 * |s.unread| + 6
    ensures var end := Exec(s, labels);
            !Over(end) ==> !NextCall(end).ByClient() && Enabled(end, NextCall(end)) && Obeys(end, NextCall(end))
    ensures Calls(labels) == Budget(s) ==> Over(Exec(s, labels))
  {
    WindingRuns(s, labels);
  }

  /** A bound on the calls still to come. */
  ghost predicate Bounded(s: State, n: nat)
  {
    forall labels | Continues(s, labels) :: Calls(labels) <= n
  }

  /** The pending socket write, if any, then `n` turns of the device-to-client thread at one byte each. */
  ghost function Chatter(s: State, n: nat): seq<Label>
  {
    if n > 0 then Chatter(s, n - 1) + [FromReads([0])] + [FromWrites(1)]
    else if s.from.Sending? then [FromWrites(|s.from.chunk|)]
    else []
  }

  lemma {:induction false} ChatterGoesOn(s: State, n: nat)
    requires Inv(s) && s.to.Aborted? && (s.from.Fetching? || s.from.Sending?)
    ensures Continues(s, Chatter(s, n)) && Calls(Chatter(s, n)) >= 2 * n
    ensures Exec(s, Chatter(s, n)).to.Aborted? && Exec(s, Chatter(s, n)).from.Fetching?
  {
    if n > 0 {
      ChatterGoesOn(s, n - 1);
      OneMore(s, Chatter(s, n - 1), FromReads([0]));
      OneMore(s, Chatter(s, n - 1) + [FromReads([0])], FromWrites(1));
    } else if s.from.Sending? {
      OneMore(s, [], FromWrites(|s.from.chunk|));
      assert [] + [FromWrites(|s.from.chunk|)] == [FromWrites(|s.from.chunk|)];
    }
  }

  lemma OneMore(s: State, labels: seq<Label>, l: Label)
    requires Continues(s, labels) && Enabled(Exec(s, labels), l) && Obeys(Exec(s, labels), l)
    ensures Continues(s, labels + [l]) && Exec(s, labels + [l]) == Apply(Exec(s, labels), l)
    ensures Calls(labels + [l]) == Calls(labels) + if l.ByClient() then 0 else 1
  {
    assert Front(labels + [l]) == labels && Last(labels + [l]) == l;
  }

  /** Once the client-to-device thread has ended, `communicate` is bound to return exactly when the way out has
      begun: after a failed relay write the relay stays open, and the other thread can go on for ever. */
  lemma ReturnsExactlyWhenWinding(s: State)
    requires Inv(s) && s.to.Ended()
    ensures (exists n: nat :: Bounded(s, n)) <==> s.shut || s.to.Closed? || s.from.Shutting?
  {
    if Winding(s) {
      forall labels | Continues(s, labels)
        ensures Calls(labels) <= Budget(s)
      {
        WindingRuns(s, labels);
      }
      assert Bounded(s, Budget(s));
    } else {
      forall n: nat
        ensures !Bounded(s, n)
      {
        ChatterGoesOn(s, n + 1);
        assert Calls(Chatter(s, n + 1)) > n;
      }
    }
  }

  /** The failed relay write does happen: this run leaves the relay open with the other thread in its loop. */
  lemma FailedWriteLeavesRelayOpen()
    ensures var labels := [ClientSends([7]), ToReads([7]), ToWrites(0, false)];
            && Continues(START, labels)
            && Exec(START, labels).to == Aborted([7])
            && !Winding(Exec(START, labels))
  {
    OneMore(START, [], ClientSends([7]));
    assert [] + [ClientSends([7])] == [ClientSends([7])];
    OneMore(START, [ClientSends([7])], ToReads([7]));
    assert [ClientSends([7])] + [ToReads([7])] == [ClientSends([7]), ToReads([7])];
    OneMore(START, [ClientSends([7]), ToReads([7])], ToWrites(0, false));
    assert [ClientSends([7]), ToReads([7])] + [ToWrites(0, false)] == [ClientSends([7]), ToReads([7]), ToWrites(0, false)];
  }

  /** One payload served after `labels`, `n` bytes of it. */
  lemma Serve(labels: seq<Label>, data: seq<byte>, n: nat)
    requires Continues(START, labels) && Exec(START, labels).from.Fetching? && !Exec(START, labels).to.Closed?
    requires 1 <= n <= |data| <= 4092
    ensures var all := labels + [FromReads(data)] + [FromWrites(n)];
            && Continues(START, all) && Exec(START, all).from.Fetching? && !Exec(START, all).to.Closed?
            && PayloadsOf(all) == PayloadsOf(labels) + [data] && DeliveredOf(all) == DeliveredOf(labels) + [data[..n]]
            && (ShortWrite(all) <==> ShortWrite(labels) || n < |data|)
  {
    hide Apply, Exec;
    var s, read := Exec(START, labels), labels + [FromReads(data)];
    Moves(s, FromReads(data));
    OneMore(START, labels, FromReads(data));
    Moves(Apply(s, FromReads(data)), FromWrites(n));
    OneMore(START, read, FromWrites(n));
    assert Front(read) == labels && Last(read) == FromReads(data);
    assert Front(read + [FromWrites(n)]) == read && Last(read + [FromWrites(n)]) == FromWrites(n);
  }

  /** A short socket write does lose a byte: of a payload of two bytes the socket takes one, the thread reads on,
      and the client's stream is no prefix of the device's. */
  lemma ShortWriteLoses()
    ensures var labels := [FromReads([1, 2]), FromWrites(1), FromReads([3]), FromWrites(1)];
            && Possible(START, labels) && ShortWrite(labels)
            && PayloadsOf(labels) == [[1, 2], [3]] && Flatten(PayloadsOf(labels)) == [1, 2, 3]
            && DeliveredOf(labels) == [[1], [3]] && Flatten(DeliveredOf(labels)) == [1, 3]
  {
    hide Exec, Apply, PayloadsOf, DeliveredOf, ShortWrite;
    var one := [FromReads([1, 2]), FromWrites(1)];
    assert [] + [FromReads([1, 2])] + [FromWrites(1)] == one;
    assert one + [FromReads([3])] + [FromWrites(1)] == [FromReads([1, 2]), FromWrites(1), FromReads([3]), FromWrites(1)];
    Nothing(START);
    Serve([], [1, 2], 1);
    Serve(one, [3], 1);
    var a: seq<byte>, b: seq<byte> := [1, 2], [3];
    assert a[..1] == [1] && b[..1] == [3];
    NoStreams();
    assert PayloadsOf(one) == [[1, 2]] && DeliveredOf(one) == [[1]];
    TwoChunks([1, 2], [3]);
    TwoChunks([1], [3]);
  }

  lemma NoStreams()
    ensures PayloadsOf([]) == [] && DeliveredOf([]) == []
  {
  }

  lemma TwoChunks(a: seq<byte>, b: seq<byte>)
    ensures Flatten([a, b]) == a + b
  {
    FlattenConcat([a], [b]);
    FlattenOne(a);
    FlattenOne(b);
    assert [a] + [b] == [a, b];
  }

  // ---------------------------------------------------------------------------
  // The thread bodies inside the system

  lemma {:induction false} ExecConcat(s: State, a: seq<Label>, b: seq<Label>)
    requires Possible(s, a) && Possible(Exec(s, a), b)
    ensures Possible(s, a + b) && Exec(s, a + b) == Exec(Exec(s, a), b)
    ensures Only(a + b, true) == Only(a, true) + Only(b, true)
    ensures Only(a + b, false) == Only(a, false) + Only(b, false)
    decreases |b|
  {
    hide Apply, Enabled;
    if b == [] {
      assert a + b == a;
    } else {
      ExecConcat(s, a, Front(b));
      assert Front(a + b) == a + Front(b) && Last(a + b) == Last(b);
    }
  }

  /** One call in front of a run. */
  lemma Then(s: State, l: Label, rest: seq<Label>)
    requires Enabled(s, l) && Possible(Apply(s, l), rest)
    ensures Possible(s, [l] + rest) && Exec(s, [l] + rest) == Exec(Apply(s, l), rest)
    ensures Only([l] + rest, true) == if l.ByTo() then [l] + Only(rest, true) else Only(rest, true)
    ensures Only([l] + rest, false) == if l.ByFrom() then [l] + Only(rest, false) else Only(rest, false)
  {
    hide Apply, Enabled, Exec, Possible, Only;
    OneCall(s, l);
    ExecConcat(s, [l], rest);
  }

  lemma OneCall(s: State, l: Label)
    requires Enabled(s, l)
    ensures Possible(s, [l]) && Exec(s, [l]) == Apply(s, l)
    ensures Only([l], true) == (if l.ByTo() then [l] else []) && Only([l], false) == (if l.ByFrom() then [l] else [])
  {
    hide Apply, Enabled;
    assert Front([l]) == [];
  }

  /** Two calls of one thread in front of a run. */
  lemma ThenTwo(s: State, k: Label, l: Label, rest: seq<Label>)
    requires (k.ByTo() && l.ByTo()) || (k.ByFrom() && l.ByFrom())
    requires Enabled(s, k) && Enabled(Apply(s, k), l) && Possible(Apply(Apply(s, k), l), rest)
    ensures var all := [k, l] + rest;
            && Possible(s, all) && Exec(s, all) == Exec(Apply(Apply(s, k), l), rest)
            && Only(all, k.ByTo()) == [k, l] + Only(rest, k.ByTo())
  {
    hide Exec, Possible, Only, Apply, Enabled;
    Then(Apply(s, k), l, rest);
    Then(s, k, [l] + rest);
    assert [k] + ([l] + rest) == [k, l] + rest;
    var own := Only(rest, k.ByTo());
    assert [k] + ([l] + own) == [k, l] + own;
  }

  /** A run in which the client-to-device thread meets the given turns and the other thread waits. */
  ghost function ToSchedule(turns: seq<ToTurn>): seq<Label>
  {
    if turns == [] then [] else
    match turns[0]
    case Ended(n) => [ClientLeaves] + ([ToReadEnds(n), ToCloses] + [])
    case Got(data, taken, ok) =>
      [ClientSends(data)] + ([ToReads(data), ToWrites(taken, ok)] + if ok then ToSchedule(turns[1..]) else [])
  }

  lemma ToTurnEffect(s: State, data: seq<byte>, taken: nat, ok: bool)
    requires s.to.Reading? && s.unread == [] && !s.clientGone && !s.shut && Got(data, taken, ok).Sensible()
    ensures Enabled(s, ClientSends(data))
    ensures var s1 := Apply(s, ClientSends(data));
            && Enabled(s1, ToReads(data))
            && var s2 := Apply(s1, ToReads(data));
            && Enabled(s2, ToWrites(taken, ok))
            && var s3 := Apply(s2, ToWrites(taken, ok));
            && s3.to == (if ok then Reading else Aborted(data[taken..]))
            && s3.unread == [] && !s3.clientGone && !s3.shut && s3.accepted == s.accepted + data[..taken]
  {
  }

  lemma ToEndEffect(s: State, n: int)
    requires s.to.Reading? && s.unread == [] && n <= 0
    ensures var s1 := Apply(s, ClientLeaves);
            && Enabled(s1, ToReadEnds(n))
            && var s2 := Apply(s1, ToReadEnds(n));
            && Enabled(s2, ToCloses)
            && Apply(s2, ToCloses).to == Closed && Apply(s2, ToCloses).accepted == s.accepted
  {
  }

  lemma ToEndsInSystem(s: State, n: int)
    requires s.to.Reading? && s.unread == [] && n <= 0
    ensures var all := [ClientLeaves] + ([ToReadEnds(n), ToCloses] + []);
            && Possible(s, all) && Only(all, true) == [ToReadEnds(n), ToCloses]
            && Exec(s, all).to == Closed && Exec(s, all).accepted == s.accepted
  {
    hide Exec, Possible, Only, Apply;
    ToEndEffect(s, n);
    var s1 := Apply(s, ClientLeaves);
    Nothing(Apply(Apply(s1, ToReadEnds(n)), ToCloses));
    ThenTwo(s1, ToReadEnds(n), ToCloses, []);
    Then(s, ClientLeaves, [ToReadEnds(n), ToCloses] + []);
  }

  lemma ToTurnInSystem(s: State, data: seq<byte>, taken: nat, ok: bool, rest: seq<Label>)
    requires s.to.Reading? && s.unread == [] && !s.clientGone && !s.shut && Got(data, taken, ok).Sensible()
    requires Enabled(s, ClientSends(data)) && Enabled(Apply(s, ClientSends(data)), ToReads(data))
    requires var s2 := Apply(Apply(s, ClientSends(data)), ToReads(data));
             Enabled(s2, ToWrites(taken, ok)) && Possible(Apply(s2, ToWrites(taken, ok)), rest)
    ensures var all := [ClientSends(data)] + ([ToReads(data), ToWrites(taken, ok)] + rest);
            && Possible(s, all) && Only(all, true) == [ToReads(data), ToWrites(taken, ok)] + Only(rest, true)
            && Exec(s, all) == Exec(Apply(Apply(Apply(s, ClientSends(data)), ToReads(data)), ToWrites(taken, ok)), rest)
  {
    hide Exec, Possible, Only, Apply, Enabled;
    ThenTwo(Apply(s, ClientSends(data)), ToReads(data), ToWrites(taken, ok), rest);
    Then(s, ClientSends(data), [ToReads(data), ToWrites(taken, ok)] + rest);
  }

  /** Any outcomes the client-to-device thread can meet are met in a run of the system from `s`. */
  lemma {:induction false} ToThreadRuns(s: State, turns: seq<ToTurn>)
    requires s.to.Reading? && s.unread == [] && !s.clientGone && !s.shut
    requires forall i | 0 <= i < |turns| :: turns[i].Sensible()
    ensures Possible(s, ToSchedule(turns)) && Only(ToSchedule(turns), true) == ToCalls(turns)
    ensures var e := Exec(s, ToSchedule(turns));
            e.accepted == s.accepted + Accepted(turns) && e.to == ToEnd(turns)
    decreases |turns|
  {
    hide Exec, Possible, Only, Apply, Enabled;
    if turns == [] {
      Nothing(s);
    } else {
      assert turns[0].Sensible();
      match turns[0]
      case Ended(n) =>
        ToEndsInSystem(s, n);
      case Got(data, taken, ok) =>
        ToTurnEffect(s, data, taken, ok);
        var s3 := Apply(Apply(Apply(s, ClientSends(data)), ToReads(data)), ToWrites(taken, ok));
        if ok {
          ToThreadRuns(s3, turns[1..]);
          ToTurnInSystem(s, data, taken, ok, ToSchedule(turns[1..]));
          Regroup(s.accepted, data[..taken], Accepted(turns[1..]));
        } else {
          Nothing(s3);
          ToTurnInSystem(s, data, taken, ok, []);
        }
    }
  }

  lemma Nothing(s: State)
    ensures Possible(s, []) && Exec(s, []) == s && Only([], true) == [] == Only([], false)
  {
  }

  lemma FromTurnEffect(s: State, data: seq<byte>, n: int)
    requires s.from.Fetching? && 1 <= |data| <= 4092 && n <= |data|
    ensures Enabled(s, FromReads(data))
    ensures var s1 := Apply(s, FromReads(data));
            && Enabled(s1, FromWrites(n))
            && var s2 := Apply(s1, FromWrites(n));
            && s2.from == (if n <= 0 then Shutting else Fetching)
            && s2.delivered == if n <= 0 then s.delivered else s.delivered + [data[..n]]
  {
  }

  lemma FromEndsInSystem(s: State, failed: bool)
    requires s.from.Fetching?
    ensures var all := [FromReadEnds(failed), FromShuts];
            && Possible(s, all) && Only(all, false) == all
            && Exec(s, all).from.Finished? && Exec(s, all).delivered == s.delivered
  {
    var s2 := Apply(Apply(s, FromReadEnds(failed)), FromShuts);
    Nothing(s2);
    ThenTwo(s, FromReadEnds(failed), FromShuts, []);
    assert [FromReadEnds(failed), FromShuts] + [] == [FromReadEnds(failed), FromShuts];
  }

  lemma ShutEffect(s: State)
    requires s.from.Shutting?
    ensures Possible(s, [FromShuts]) && Only([FromShuts], false) == [FromShuts]
    ensures Exec(s, [FromShuts]).from.Finished? && Exec(s, [FromShuts]).delivered == s.delivered
  {
    Nothing(Apply(s, FromShuts));
    Then(s, FromShuts, []);
    assert [FromShuts] + [] == [FromShuts];
  }

  /** Any outcomes the device-to-client thread can meet are met in a run of the system from `s`. */
  lemma {:induction false} FromThreadRuns(s: State, turns: seq<FromTurn>)
    requires s.from.Fetching?
    requires forall i | 0 <= i < |turns| :: turns[i].Sensible()
    ensures Possible(s, FromCalls(turns)) && Only(FromCalls(turns), false) == FromCalls(turns)
    ensures var e := Exec(s, FromCalls(turns));
            Flatten(e.delivered) == Flatten(s.delivered) + Delivered(turns) && e.from == FromEnd(turns)
    decreases |turns|
  {
    hide Exec, Possible, Only, Flatten, Apply, Enabled;
    if turns == [] {
      Nothing(s);
    } else {
      assert turns[0].Sensible();
      if turns[0].Length() <= 0 {
        FromEndsInSystem(s, turns[0].FetchFails?);
      } else {
        var data, n := turns[0].Payload(), turns[0].n;
        FromTurnEffect(s, data, n);
        var rest := if n <= 0 then [FromShuts] else FromCalls(turns[1..]);
        var s2 := Apply(Apply(s, FromReads(data)), FromWrites(n));
        if n <= 0 {
          ShutEffect(s2);
        } else {
          FromThreadRuns(s2, turns[1..]);
          FlattenConcat(s.delivered, [data[..n]]);
          FlattenOne(data[..n]);
          Regroup(Flatten(s.delivered), data[..n], Delivered(turns[1..]));
        }
        ThenTwo(s, FromReads(data), FromWrites(n), rest);
      }
    }
  }

  lemma FlattenOne(chunk: seq<byte>)
    ensures Flatten([chunk]) == chunk
  {
    assert [chunk][1..] == [];
  }

  /** What the client-to-device thread has handed over depends on its own calls alone, in every interleaving. */
  lemma {:induction false} OwnCallsDecideTo(a: seq<Label>, b: seq<Label>)
    requires Possible(START, a) && Possible(START, b) && Only(a, true) == Only(b, true)
    ensures Exec(START, a).accepted == Exec(START, b).accepted && Exec(START, a).to == Exec(START, b).to
    decreases |a| + |b|
  {
    hide Apply, Enabled;
    if a != [] {
      Moves(Exec(START, Front(a)), Last(a));
    }
    if b != [] {
      Moves(Exec(START, Front(b)), Last(b));
    }
    if a != [] && !Last(a).ByTo() {
      OwnCallsDecideTo(Front(a), b);
    } else if b != [] && !Last(b).ByTo() {
      OwnCallsDecideTo(a, Front(b));
    } else if a != [] {
      SnocEqual(Only(Front(a), true), Last(a), Only(Front(b), true), Last(b));
      OwnCallsDecideTo(Front(a), Front(b));
    }
  }

  lemma {:induction false} OwnCallsDecideFrom(a: seq<Label>, b: seq<Label>)
    requires Possible(START, a) && Possible(START, b) && Only(a, false) == Only(b, false)
    ensures Exec(START, a).delivered == Exec(START, b).delivered && Exec(START, a).from == Exec(START, b).from
    decreases |a| + |b|
  {
    hide Apply, Enabled;
    if a != [] {
      Moves(Exec(START, Front(a)), Last(a));
    }
    if b != [] {
      Moves(Exec(START, Front(b)), Last(b));
    }
    if a != [] && !Last(a).ByFrom() {
      OwnCallsDecideFrom(Front(a), b);
    } else if b != [] && !Last(b).ByFrom() {
      OwnCallsDecideFrom(a, Front(b));
    } else if a != [] {
      SnocEqual(Only(Front(a), false), Last(a), Only(Front(b), false), Last(b));
      OwnCallsDecideFrom(Front(a), Front(b));
    }
  }

  lemma SnocEqual(a: seq<Label>, k: Label, b: seq<Label>, l: Label)
    requires a + [k] == b + [l]
    ensures a == b && k == l
  {
    assert a == (a + [k])[..|a|] && b == (b + [l])[..|b|];
    assert (a + [k])[|a|] == k && (b + [l])[|b|] == l;
  }

  /** In every interleaving in which the client-to-device thread makes the calls of its body, the device holds what
      the body hands over, and the thread is where the body ends; and there is such an interleaving. */
  lemma ToThreadInSystem(turns: seq<ToTurn>)
    requires forall i | 0 <= i < |turns| ::
               match turns[i]
               case Got(data, taken, ok) => 1 <= |data| <= 4096 && taken <= |data| && (ok ==> taken == |data|)
               case Ended(n) => n <= 0
    ensures forall i | 0 <= i < |turns| :: turns[i].Sensible()
    ensures forall labels | Possible(START, labels) && Only(labels, true) == ToCalls(turns) ::
              AcceptedBy(labels) == Accepted(turns) && Exec(START, labels).to == ToEnd(turns)
    ensures exists labels :: Possible(START, labels) && Only(labels, true) == ToCalls(turns)
  {
    hide Exec, Possible, Only;
    ToThreadRuns(START, turns);
    forall labels | Possible(START, labels) && Only(labels, true) == ToCalls(turns)
      ensures AcceptedBy(labels) == Accepted(turns) && Exec(START, labels).to == ToEnd(turns)
    {
      Ledger(labels);
      OwnCallsDecideTo(labels, ToSchedule(turns));
    }
  }

  /** The same for the device-to-client thread and what the client receives. */
  lemma FromThreadInSystem(turns: seq<FromTurn>)
    requires forall i | 0 <= i < |turns| && turns[i].Fetched? ::
               |turns[i].frame| == 4096 && FrameSize(turns[i].frame) <= 4092 && turns[i].n <= FrameSize(turns[i].frame)
    ensures forall i | 0 <= i < |turns| :: turns[i].Sensible()
    ensures forall labels | Possible(START, labels) && Only(labels, false) == FromCalls(turns) ::
              Flatten(DeliveredOf(labels)) == Delivered(turns) && Exec(START, labels).from == FromEnd(turns)
    ensures exists labels :: Possible(START, labels) && Only(labels, false) == FromCalls(turns)
  {
    hide Exec, Possible, Only;
    FromThreadRuns(START, turns);
    forall labels | Possible(START, labels) && Only(labels, false) == FromCalls(turns)
      ensures Flatten(DeliveredOf(labels)) == Delivered(turns) && Exec(START, labels).from == FromEnd(turns)
    {
      Ledger(labels);
      OwnCallsDecideFrom(labels, FromCalls(turns));
    }
  }
}
