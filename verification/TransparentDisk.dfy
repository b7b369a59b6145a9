/** The disk as the host sees it: commands redirected through any of several workers, over an encrypted backend. */
module TransparentDisk {
  import opened Bytes
  import opened CbcMode
  import opened Evp
  import opened Lba
  import opened CommandWorker

  datatype Command =
    | Read(lba: nat, count: nat)
    | Write(lba: nat, data: seq<byte>)
    | WriteZeroes(lba: nat, count: nat)
  {
    function Opcode(): byte
    {
      match this
      case Read(_, _) => NVME_CMD_READ
      case Write(_, _) => NVME_CMD_WRITE
      case WriteZeroes(_, _) => NVME_CMD_WRITE_ZEROES
    }

    /** The number of data bytes moved. */
    function Size(): nat
    {
      if Write? then |data| else 512 * count
    }

    /** The plaintext that a storing command stores. */
    function Stored(): (r: seq<byte>)
      ensures |r| == Size()
    {
      if Write? then data else seq(Size(), _ => 0)
    }

    /** Whole sectors, inside the disk, no more than one transfer: anything else is refused by the kernel side. */
    predicate Accepted(capacity: nat)
    {
      Size() % 512 == 0 && Size() <= MDTS && 512 * lba + Size() <= capacity
    }
  }

  /** A host command, the worker whose queue it lands in, the other 63 bytes of its submission entry, and the
      faults the cipher library meets while serving it. */
  datatype Event = Event(cmd: Command, worker: nat, rest: seq<byte>, faults: seq<Fault>)

  datatype Answer = Data(bytes: seq<byte>) | Done | Failed | Refused

  /** The backend storage and each worker's output buffer. */
  datatype System = System(backend: seq<byte>, buffers: seq<seq<byte>>)
  {
    ghost predicate Valid()
    {
      |backend| % 512 == 0 && forall i | 0 <= i < |buffers| :: |buffers[i]| == BUFFER_SIZE
    }

    ghost predicate Serves(ev: Event)
    {
      ev.worker < |buffers| && |ev.rest| == 63
    }
  }

  /** The message handed to user space: for a read, with the data already fetched from the backend. */
  function MessageOf(backend: seq<byte>, ev: Event): (msg: seq<byte>)
    requires ev.cmd.Accepted(|backend|) && |ev.rest| == 63
    ensures Message(msg) && |msg| == 64 + ev.cmd.Size()
  {
    var place := 512 * ev.cmd.lba;
    [ev.cmd.Opcode()] + ev.rest + if ev.cmd.Read? then backend[place..place + ev.cmd.Size()] else ev.cmd.Stored()
  }

  /** One command through one worker; a failed completion changes nothing but that worker's buffer. */
  ghost function Step(aes: BlockCipher, s: System, ev: Event): (r: (System, Answer))
    requires s.Valid() && s.Serves(ev)
    ensures r.0.Valid() && |r.0.buffers| == |s.buffers| && |r.0.backend| == |s.backend|
  {
    hide Reply, MessageOf, Splice;
    if !ev.cmd.Accepted(|s.backend|) then
      (s, Refused)
    else
      var buffer := s.buffers[ev.worker];
      var reply := Reply(aes, MessageOf(s.backend, ev), ev.faults, buffer);
      var s' := s.(buffers := s.buffers[ev.worker := Splice(buffer, 0, reply)]);
      if reply[14..16] != [0, 0] then (s', Failed)
      else if ev.cmd.Read? then (s', Data(reply[16..]))
      else (s'.(backend := Splice(s.backend, 512 * ev.cmd.lba, reply[16..])), Done)
  }

  ghost function Run(aes: BlockCipher, s: System, evs: seq<Event>): (r: (System, seq<Answer>))
    requires s.Valid() && forall i | 0 <= i < |evs| :: s.Serves(evs[i])
    ensures r.0.Valid() && |r.0.buffers| == |s.buffers| && |r.0.backend| == |s.backend|
    ensures |r.1| == |evs|
    decreases |evs|
  {
    if evs == [] then
      (s, [])
    else
      var n := |evs| - 1;
      var (mid, answers) := Run(aes, s, evs[..n]);
      assert s.Serves(evs[n]);
      var (end, answer) := Step(aes, mid, evs[n]);
      (end, answers + [answer])
  }

  // ---------------------------------------------------------------------------
  // An ordinary disk

  /** No cipher call for these bytes fails. */
  predicate Lucky(size: nat, faults: seq<Fault>)
  {
    forall i | 0 <= i < |faults| && 512 * (i + 1) <= size :: faults[i].NoFault?
  }

  /** Whole sectors, at most 128 KiB of them, inside the disk. */
  predicate InReach(capacity: nat, lba: nat, size: nat)
  {
    size % 512 == 0 && size <= 131072 && 512 * lba + size <= capacity
  }

  /** An array of sectors with no worker and no cipher in sight; a command may still fail. */
  function PlainStep(disk: seq<byte>, ev: Event): (r: (seq<byte>, Answer))
    ensures |r.0| == |disk|
  {
    match ev.cmd
    case Read(lba, count) =>
      if !InReach(|disk|, lba, 512 * count) then (disk, Refused)
      else if !Lucky(512 * count, ev.faults) then (disk, Failed)
      else (disk, Data(disk[512 * lba..512 * (lba + count)]))
    case Write(lba, data) =>
      if !InReach(|disk|, lba, |data|) then (disk, Refused)
      else if !Lucky(|data|, ev.faults) then (disk, Failed)
      else (Splice(disk, 512 * lba, data), Done)
    case WriteZeroes(lba, count) =>
      if !InReach(|disk|, lba, 512 * count) then (disk, Refused)
      else if !Lucky(512 * count, ev.faults) then (disk, Failed)
      else (Splice(disk, 512 * lba, seq(512 * count, _ => 0)), Done)
  }

  function PlainRun(disk: seq<byte>, evs: seq<Event>): (r: (seq<byte>, seq<Answer>))
    ensures |r.0| == |disk| && |r.1| == |evs|
    decreases |evs|
  {
    if evs == [] then
      (disk, [])
    else
      var n := |evs| - 1;
      var (mid, answers) := PlainRun(disk, evs[..n]);
      var (end, answer) := PlainStep(mid, evs[n]);
      (end, answers + [answer])
  }

  /** What the backend stands for: each of its sectors decrypted. */
  function View(aes: BlockCipher, backend: seq<byte>): (r: seq<byte>)
    ensures |backend| % 512 == 0 ==> |r| == |backend|
  {
    Sectors(Decrypt, aes, KEY, IV, backend)
  }

  // ---------------------------------------------------------------------------
  // One command

  /** An accepted command succeeds exactly when no cipher call fails, and then the reply carries the transform
      of its payload, whatever the worker's buffer held and whatever else the submission entry says. */
  lemma ReplyOutcome(aes: BlockCipher, backend: seq<byte>, ev: Event, buffer: seq<byte>)
    requires ev.cmd.Accepted(|backend|) && |ev.rest| == 63 && |buffer| == BUFFER_SIZE
    ensures var msg := MessageOf(backend, ev);
            var reply := Reply(aes, msg, ev.faults, buffer);
            && (reply[14..16] == [0, 0] <==> Lucky(ev.cmd.Size(), ev.faults))
            && (Lucky(ev.cmd.Size(), ev.faults) ==>
                 reply[16..] == Sectors(TransformOf(ev.cmd.Opcode()), aes, KEY, IV, Payload(msg)))
            && Payload(msg) == if ev.cmd.Read? then backend[512 * ev.cmd.lba..512 * ev.cmd.lba + ev.cmd.Size()] else ev.cmd.Stored()
  {
    hide Sectors, FirstFault;
    NoFaults(ev.faults, ev.cmd.Size() / 512);
  }

  /** The message of a command starts with its opcode, 2, 1 or 8, and carries what is to be transformed. */
  lemma MessageCarries(backend: seq<byte>, ev: Event)
    requires ev.cmd.Accepted(|backend|) && |ev.rest| == 63
    ensures var msg := MessageOf(backend, ev);
            && msg[1..64] == ev.rest
            && match ev.cmd
               case Read(lba, count) => msg[0] == 2 && msg[64..] == backend[512 * lba..512 * (lba + count)]
               case Write(lba, data) => msg[0] == 1 && msg[64..] == data
               case WriteZeroes(lba, count) => msg[0] == 8 && msg[64..] == seq(512 * count, _ => 0)
  {
  }

  /** Reading and overwriting sectors commute with decrypting all of them. */
  lemma ViewOfSplice(aes: BlockCipher, backend: seq<byte>, lba: nat, data: seq<byte>)
    requires |backend| % 512 == 0 && |data| % 512 == 0 && 512 * lba + |data| <= |backend|
    ensures View(aes, Splice(backend, 512 * lba, data)) == Splice(View(aes, backend), 512 * lba, View(aes, data))
    ensures View(aes, backend[512 * lba..512 * lba + |data|]) == View(aes, backend)[512 * lba..512 * lba + |data|]
  {
    hide Sectors;
    var end := 512 * lba + |data|;
    var a, b, c := backend[..512 * lba], backend[512 * lba..end], backend[end..];
    assert backend == a + b + c;
    SectorsConcat(Decrypt, aes, KEY, IV, a + b, c);
    SectorsConcat(Decrypt, aes, KEY, IV, a, b);
    SectorsConcat(Decrypt, aes, KEY, IV, a + data, c);
    SectorsConcat(Decrypt, aes, KEY, IV, a, data);
  }

  lemma StepRefines(aes: BlockCipher, s: System, ev: Event)
    requires aes.Invertible(KEY) && s.Valid() && s.Serves(ev)
    ensures var (s', answer) := Step(aes, s, ev);
            PlainStep(View(aes, s.backend), ev) == (View(aes, s'.backend), answer)
  {
    hide Sectors, Lucky, Reply, MessageOf, Splice;
    assert ev.cmd.Accepted(|s.backend|) <==> InReach(|s.backend|, ev.cmd.lba, ev.cmd.Size());
    if ev.cmd.Accepted(|s.backend|) {
      var place := 512 * ev.cmd.lba;
      ReplyOutcome(aes, s.backend, ev, s.buffers[ev.worker]);
      if ev.cmd.Read? {
        ViewOfSplice(aes, s.backend, ev.cmd.lba, s.backend[place..place + ev.cmd.Size()]);
      } else {
        var cipher := Sectors(Encrypt, aes, KEY, IV, ev.cmd.Stored());
        SectorsRoundTrip(Encrypt, aes, KEY, IV, ev.cmd.Stored());
        ViewOfSplice(aes, s.backend, ev.cmd.lba, cipher);
      }
    }
  }

  // ---------------------------------------------------------------------------
  // Whole runs

  /** The transparent disk: over any run, through any workers, with any failures, the host gets the answers of
      an ordinary disk that started as the decrypted backend; at the end that disk is the decrypted backend,
      and the backend is that disk encrypted. */
  lemma {:induction false} Transparent(aes: BlockCipher, s: System, evs: seq<Event>)
    requires aes.Invertible(KEY) && s.Valid()
    requires forall i | 0 <= i < |evs| :: s.Serves(evs[i])
    ensures var (s', answers) := Run(aes, s, evs);
            && PlainRun(View(aes, s.backend), evs) == (View(aes, s'.backend), answers)
            && s'.backend == Sectors(Encrypt, aes, KEY, IV, PlainRun(View(aes, s.backend), evs).0)
    decreases |evs|
  {
    hide Step, PlainStep, Sectors;
    SectorsRoundTrip(Decrypt, aes, KEY, IV, Run(aes, s, evs).0.backend);
    if evs != [] {
      var n := |evs| - 1;
      Transparent(aes, s, evs[..n]);
      StepRefines(aes, Run(aes, s, evs[..n]).0, evs[n]);
    }
  }

  /** The command stores something in sector `k` of a disk of this capacity. */
  predicate Stores(ev: Event, capacity: nat, k: nat)
  {
    match ev.cmd
    case Read(_, _) => false
    case Write(lba, data) =>
      InReach(capacity, lba, |data|) && Lucky(|data|, ev.faults) && lba <= k && 512 * (k + 1) <= 512 * lba + |data|
    case WriteZeroes(lba, count) =>
      InReach(capacity, lba, 512 * count) && Lucky(512 * count, ev.faults) && lba <= k < lba + count
  }

  /** The last of the commands that store something in sector `k`. */
  predicate LastStore(evs: seq<Event>, capacity: nat, k: nat, m: nat)
  {
    && m < |evs| && Stores(evs[m], capacity, k)
    && forall l | m < l < |evs| :: !Stores(evs[l], capacity, k)
  }

  /** A sector of a plain disk holds what the last command that stored in it put there. */
  lemma {:induction false} PlainDiskRemembers(disk: seq<byte>, evs: seq<Event>, k: nat, m: nat)
    requires |disk| % 512 == 0 && 512 * (k + 1) <= |disk| && LastStore(evs, |disk|, k, m)
    ensures SectorAt(PlainRun(disk, evs).0, k) == match evs[m].cmd
              case Write(lba, data) => data[512 * (k - lba)..512 * (k - lba + 1)]
              case WriteZeroes(_, _) => seq(512, _ => 0)
    decreases |evs|
  {
    hide Lucky, SectorAt, Splice;
    var n := |evs| - 1;
    var before := PlainRun(disk, evs[..n]).0;
    if m < n {
      PlainDiskRemembers(disk, evs[..n], k, m);
      PlainStepElsewhere(before, evs[n], k);
    } else {
      PlainStepStores(before, evs[n], k);
    }
  }

  /** A sector in which no command stored holds what it held at first. */
  lemma {:induction false} PlainDiskKeeps(disk: seq<byte>, evs: seq<Event>, k: nat)
    requires |disk| % 512 == 0 && 512 * (k + 1) <= |disk|
    requires forall l | 0 <= l < |evs| :: !Stores(evs[l], |disk|, k)
    ensures SectorAt(PlainRun(disk, evs).0, k) == SectorAt(disk, k)
    decreases |evs|
  {
    hide Stores, SectorAt, PlainStep;
    if evs != [] {
      var n := |evs| - 1;
      PlainDiskKeeps(disk, evs[..n], k);
      PlainStepElsewhere(PlainRun(disk, evs[..n]).0, evs[n], k);
    }
  }

  lemma PlainStepElsewhere(disk: seq<byte>, ev: Event, k: nat)
    requires |disk| % 512 == 0 && 512 * (k + 1) <= |disk| && !Stores(ev, |disk|, k)
    ensures SectorAt(PlainStep(disk, ev).0, k) == SectorAt(disk, k)
  {
    hide Lucky, SectorAt, Splice;
    match ev.cmd
    case Read(_, _) =>
    case Write(lba, data) =>
      if InReach(|disk|, lba, |data|) {
        SectorOfSplice(disk, lba, data, k);
      }
    case WriteZeroes(lba, count) =>
      if InReach(|disk|, lba, 512 * count) {
        SectorOfSplice(disk, lba, seq(512 * count, _ => 0), k);
      }
  }

  lemma PlainStepStores(disk: seq<byte>, ev: Event, k: nat)
    requires |disk| % 512 == 0 && 512 * (k + 1) <= |disk| && Stores(ev, |disk|, k)
    ensures SectorAt(PlainStep(disk, ev).0, k) == match ev.cmd
              case Write(lba, data) => data[512 * (k - lba)..512 * (k - lba + 1)]
              case WriteZeroes(_, _) => seq(512, _ => 0)
  {
    hide Lucky, Splice;
    match ev.cmd
    case Write(lba, data) =>
      SectorOfSplice(disk, lba, data, k);
    case WriteZeroes(lba, count) =>
      SectorOfSplice(disk, lba, seq(512 * count, _ => 0), k);
  }

  lemma SectorOfSplice(disk: seq<byte>, lba: nat, data: seq<byte>, k: nat)
    requires |disk| % 512 == 0 && |data| % 512 == 0 && 512 * lba + |data| <= |disk| && 512 * (k + 1) <= |disk|
    ensures SectorAt(Splice(disk, 512 * lba, data), k)
         == if lba <= k < lba + |data| / 512 then SectorAt(data, k - lba) else SectorAt(disk, k)
  {
    hide Splice;
    var r, at, end := Splice(disk, 512 * lba, data), 512 * lba, 512 * lba + |data|;
    SpliceParts(disk, at, data);
    if k < lba {
      SlicesAgree(r, disk, 0, at, 512 * k, 512 * (k + 1));
    } else if k < lba + |data| / 512 {
      SliceOfSlice(r, at, end, 512 * (k - lba), 512 * (k - lba + 1));
    } else {
      SlicesAgree(r, disk, end, |r|, 512 * k, 512 * (k + 1));
    }
  }

  /** Every command is answered as it should be: refused when out of reach, failed when a cipher call fails, and
      else done, or with as many sectors as were asked for. */
  lemma AnswersAreRight(aes: BlockCipher, s: System, evs: seq<Event>, i: nat)
    requires aes.Invertible(KEY) && |s.backend| % 512 == 0
    requires forall w | 0 <= w < |s.buffers| :: |s.buffers[w]| == 262144
    requires forall i | 0 <= i < |evs| :: evs[i].worker < |s.buffers| && |evs[i].rest| == 63
    requires i < |evs|
    ensures s.Valid() && forall i | 0 <= i < |evs| :: s.Serves(evs[i])
    ensures var answer, cmd, faults := Run(aes, s, evs).1[i], evs[i].cmd, evs[i].faults;
            var size := if cmd.Write? then |cmd.data| else 512 * cmd.count;
            var inReach := size % 512 == 0 && size <= 131072 && 512 * cmd.lba + size <= |s.backend|;
            var lucky := forall j | 0 <= j < |faults| && 512 * (j + 1) <= size :: faults[j].NoFault?;
            && (answer.Refused? <==> !inReach)
            && (answer.Failed? <==> inReach && !lucky)
            && (answer.Data? <==> inReach && lucky && cmd.Read?)
            && (answer.Done? <==> inReach && lucky && !cmd.Read?)
            && (answer.Data? ==> |answer.bytes| == size)
  {
    hide Run, PlainRun, View, Splice;
    Transparent(aes, s, evs);
    AnswerAt(View(aes, s.backend), evs, i);
  }

  /** Every successful read returns, sector by sector, what the last successful write or write-zeroes put there, or
      the decryption of the initial backend where there was none. */
  lemma ReadsReturnLastWrite(aes: BlockCipher, s: System, evs: seq<Event>, i: nat, j: nat)
    requires aes.Invertible(KEY) && |s.backend| % 512 == 0
    requires forall w | 0 <= w < |s.buffers| :: |s.buffers[w]| == 262144
    requires forall i | 0 <= i < |evs| :: evs[i].worker < |s.buffers| && |evs[i].rest| == 63
    requires i < |evs| && evs[i].cmd.Read? && j < evs[i].cmd.count
    ensures s.Valid() && forall i | 0 <= i < |evs| :: s.Serves(evs[i])
    ensures var answer, k, capacity := Run(aes, s, evs).1[i], evs[i].cmd.lba + j, |s.backend|;
            answer.Data? ==>
              && 512 * (j + 1) <= |answer.bytes| && 512 * (k + 1) <= |s.backend|
              && var sector := answer.bytes[512 * j..512 * (j + 1)];
              && (forall m: nat | LastStore(evs[..i], capacity, k, m) ::
                    sector == match evs[m].cmd
                      case Write(lba, data) => data[512 * (k - lba)..512 * (k - lba + 1)]
                      case WriteZeroes(_, _) => seq(512, _ => 0))
              && ((forall l | 0 <= l < i :: !Stores(evs[l], capacity, k)) ==>
                    sector == CbcMode.Cbc(Decrypt, aes, KEY, IV, s.backend[512 * k..512 * (k + 1)]))
  {
    hide Run, PlainRun, View, Lucky, Splice, InReach, CbcMode.Cbc, SectorAt;
    var disk, k := View(aes, s.backend), evs[i].cmd.lba + j;
    ReadSector(aes, s, evs, i, j);
    if Run(aes, s, evs).1[i].Data? {
      forall m: nat | LastStore(evs[..i], |s.backend|, k, m)
        ensures SectorAt(PlainRun(disk, evs[..i]).0, k) == match evs[m].cmd
                  case Write(lba, data) => data[512 * (k - lba)..512 * (k - lba + 1)]
                  case WriteZeroes(_, _) => seq(512, _ => 0)
      {
        assert evs[..i][m] == evs[m];
        PlainDiskRemembers(disk, evs[..i], k, m);
      }
      if forall l | 0 <= l < i :: !Stores(evs[l], |s.backend|, k) {
        PlainDiskKeeps(disk, evs[..i], k);
        ViewSector(aes, s.backend, k);
      }
    }
  }

  lemma ViewSector(aes: BlockCipher, backend: seq<byte>, k: nat)
    requires |backend| % 512 == 0 && 512 * (k + 1) <= |backend|
    ensures SectorAt(View(aes, backend), k) == CbcMode.Cbc(Decrypt, aes, KEY, IV, backend[512 * k..512 * (k + 1)])
  {
    hide Sectors, CbcMode.Cbc;
    SectorOfSectors(Decrypt, aes, KEY, IV, backend, k);
  }

  /** A successful read returns the sectors of the plain disk at that moment. */
  lemma ReadSector(aes: BlockCipher, s: System, evs: seq<Event>, i: nat, j: nat)
    requires aes.Invertible(KEY) && s.Valid()
    requires forall i | 0 <= i < |evs| :: s.Serves(evs[i])
    requires i < |evs| && evs[i].cmd.Read? && j < evs[i].cmd.count
    ensures var answer, k, disk := Run(aes, s, evs).1[i], evs[i].cmd.lba + j, View(aes, s.backend);
            answer.Data? ==>
              && 512 * (j + 1) <= |answer.bytes| && 512 * (k + 1) <= |s.backend|
              && answer.bytes[512 * j..512 * (j + 1)] == SectorAt(PlainRun(disk, evs[..i]).0, k)
  {
    hide Run, PlainRun, View, Lucky, Splice;
    var disk, cmd := View(aes, s.backend), evs[i].cmd;
    Transparent(aes, s, evs);
    AnswerAt(disk, evs, i);
    if Run(aes, s, evs).1[i].Data? {
      SectorOfSlice(PlainRun(disk, evs[..i]).0, cmd.lba, cmd.count, j);
    }
  }

  lemma SectorOfSlice(disk: seq<byte>, lba: nat, count: nat, j: nat)
    requires j < count && 512 * (lba + count) <= |disk|
    ensures SectorAt(disk[512 * lba..512 * lba + 512 * count], j) == SectorAt(disk, lba + j)
  {
    SliceOfSlice(disk, 512 * lba, 512 * lba + 512 * count, 512 * j, 512 * (j + 1));
  }

  lemma {:induction false} AnswerAt(disk: seq<byte>, evs: seq<Event>, i: nat)
    requires i < |evs|
    ensures PlainRun(disk, evs).1[i] == PlainStep(PlainRun(disk, evs[..i]).0, evs[i]).1
    decreases |evs|
  {
    hide PlainStep;
    var n := |evs| - 1;
    if i < n {
      AnswerAt(disk, evs[..n], i);
      assert evs[..n][..i] == evs[..i];
    }
  }

  // ---------------------------------------------------------------------------
  // Independence of the workers

  /** Step by step, neither the answer nor the backend depends on which worker serves a command, on what its
      buffer holds, or on the rest of the submission entry. */
  lemma StepIgnoresWorker(aes: BlockCipher, s: System, t: System, e: Event, f: Event)
    requires s.Valid() && t.Valid() && s.Serves(e) && t.Serves(f)
    requires s.backend == t.backend && e.cmd == f.cmd && e.faults == f.faults
    ensures Step(aes, s, e).1 == Step(aes, t, f).1
    ensures Step(aes, s, e).0.backend == Step(aes, t, f).0.backend
  {
    hide Sectors, Lucky, Reply, MessageOf, Splice;
    if e.cmd.Accepted(|s.backend|) {
      ReplyOutcome(aes, s.backend, e, s.buffers[e.worker]);
      ReplyOutcome(aes, t.backend, f, t.buffers[f.worker]);
    }
  }

  /** Any assignment of the commands to any number of workers gives the same answers and the same backend:
      with `t` a single worker, the one it would give alone. */
  lemma {:induction false} WorkersAreInterchangeable(aes: BlockCipher, s: System, t: System, evs: seq<Event>, fvs: seq<Event>)
    requires |s.backend| % 512 == 0 && s.backend == t.backend && |evs| == |fvs|
    requires forall w | 0 <= w < |s.buffers| :: |s.buffers[w]| == 262144
    requires forall w | 0 <= w < |t.buffers| :: |t.buffers[w]| == 262144
    requires forall i | 0 <= i < |evs| :: evs[i].worker < |s.buffers| && |evs[i].rest| == 63
    requires forall i | 0 <= i < |fvs| :: fvs[i].worker < |t.buffers| && |fvs[i].rest| == 63
    requires forall i | 0 <= i < |evs| :: evs[i].cmd == fvs[i].cmd && evs[i].faults == fvs[i].faults
    ensures s.Valid() && t.Valid() && forall i | 0 <= i < |evs| :: s.Serves(evs[i]) && t.Serves(fvs[i])
    ensures Run(aes, s, evs).1 == Run(aes, t, fvs).1
    ensures Run(aes, s, evs).0.backend == Run(aes, t, fvs).0.backend
    decreases |evs|
  {
    hide Step;
    if evs != [] {
      var n := |evs| - 1;
      WorkersAreInterchangeable(aes, s, t, evs[..n], fvs[..n]);
      StepIgnoresWorker(aes, Run(aes, s, evs[..n]).0, Run(aes, t, fvs[..n]).0, evs[n], fvs[n]);
    }
  }
}
