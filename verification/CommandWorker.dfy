/** The user-space worker of the self-encrypting disk: one message in, one completion and data out. */
module CommandWorker {
  import opened Bytes
  import opened CbcMode
  import opened Evp
  import opened Lba

  const MDTS: nat := 128 * 1024
  const BUFFER_SIZE: nat := 2 * MDTS

  /** ASCII "01234567890123456789012345678901" and "0123456789012345". */
  const DIGITS: seq<byte> := [48, 49, 50, 51, 52, 53, 54, 55, 56, 57]
  const KEY: Key := DIGITS + DIGITS + DIGITS + [48, 49]
  const IV: Block := DIGITS + [48, 49, 50, 51, 52, 53]

  /** The key and the IV run through the ten digits. */
  lemma KeyAndIv(i: nat)
    ensures i < 32 ==> KEY[i] == 48 + i % 10
    ensures i < 16 ==> IV[i] == 48 + i % 10
  {
    assert forall k | 0 <= k < 10 :: DIGITS[k] == 48 + k;
  }

  const NVME_CMD_WRITE: byte := 1
  const NVME_CMD_READ: byte := 2
  const NVME_CMD_WRITE_ZEROES: byte := 8
  const NVME_SC_INTERNAL: byte := 6

  /** `n - sizeof(struct nvme_command)` as a `size_t`. */
  function DataSize(n: nat): nat
  {
    AsSize(n - 64)
  }

  /** The number of bytes of the reply, `sizeof(struct nvme_completion) + data_size`, as a `size_t`. */
  function ReplySize(n: nat): nat
  {
    AsSize(16 + DataSize(n))
  }

  function AsSize(n: int): nat
  {
    n % 0x1_0000_0000_0000_0000
  }

  /** A `size_t` passed as an `int`: its low 32 bits in two's complement. */
  function AsInt(size: nat): (r: int)
    ensures -0x8000_0000 <= r < 0x8000_0000
  {
    var low := size % 0x1_0000_0000;
    if low < 0x8000_0000 then low else low - 0x1_0000_0000
  }

  predicate Transforms(opcode: byte)
  {
    opcode == NVME_CMD_READ || opcode == NVME_CMD_WRITE || opcode == NVME_CMD_WRITE_ZEROES
  }

  /** Serving `n` bytes read accesses nothing outside the two buffers: the sectors of a transform, or the bytes of
      a copy, lie in both data areas, and the reply in the output buffer. */
  predicate StaysInside(n: nat, opcode: byte)
  {
    var data := if Transforms(opcode) then AsInt(DataSize(n)) else DataSize(n);
    && ((Transforms(opcode) && (data < 0 || data % 512 != 0)) || 64 + data <= BUFFER_SIZE)
    && ReplySize(n) <= BUFFER_SIZE
  }

  /** Every access stays inside the buffers exactly when the message holds a whole command, or when it is short
      by at most 16 bytes and its opcode calls for a transform: the data size then wraps to a negative length,
      which the transform refuses, and the reply size wraps back. */
  lemma AccessesInside(n: nat, opcode: byte)
    requires n <= BUFFER_SIZE
    ensures StaysInside(n, opcode) <==> 64 <= n || (48 <= n && Transforms(opcode))
    ensures AsInt(DataSize(n)) == n - 64
    ensures DataSize(n) == n - 64 <==> 64 <= n
    ensures ReplySize(n) == n - 48 <==> 48 <= n
  {
    hide AsSize, AsInt;
    SizeOf(n - 64);
    SizeOf(n - 48);
    IntOf(n - 64);
  }

  lemma SizeOf(v: int)
    requires -0x1_0000_0000_0000_0000 <= v < 0x1_0000_0000_0000_0000
    ensures AsSize(v) == if v < 0 then v + 0x1_0000_0000_0000_0000 else v
    ensures AsSize(v + 0x1_0000_0000_0000_0000) == AsSize(v)
  {
    var m := 0x1_0000_0000_0000_0000;
    QuotientUnique(v, m, if v < 0 then -1 else 0, AsSize(v));
  }

  lemma IntOf(v: int)
    requires -0x8000_0000 <= v < 0x8000_0000
    ensures AsInt(AsSize(v)) == v
  {
  }

  // ---------------------------------------------------------------------------
  // What a reply is

  /** A message that holds a whole command. */
  predicate Message(msg: seq<byte>)
  {
    64 <= |msg| <= BUFFER_SIZE
  }

  /** A message that can be served inside the buffers. */
  predicate Servable(msg: seq<byte>)
  {
    48 <= |msg| <= BUFFER_SIZE && (Message(msg) || Transforms(msg[0]))
  }

  function Payload(msg: seq<byte>): (r: seq<byte>)
    requires Message(msg)
    ensures |r| == |msg| - 64
  {
    msg[64..]
  }

  function TransformOf(opcode: byte): Direction
  {
    if opcode == NVME_CMD_READ then Decrypt else Encrypt
  }

  predicate Succeeds(msg: seq<byte>, faults: seq<Fault>)
  {
    && Message(msg)
    && var d := |Payload(msg)|;
    d == 0 || (Transforms(msg[0]) && d % 512 == 0 && AllSectorsSucceed(faults, d / 512))
  }

  /** The 16-byte completion: all zero but for the little-endian status in its last two bytes. */
  function Completion(ok: bool): (r: seq<byte>)
    ensures |r| == 16
  {
    seq(14, _ => 0) + [if ok then 0 else NVME_SC_INTERNAL, 0]
  }

  /** The data part of the reply, written over an area that still holds `stale`. */
  function ReplyData(aes: BlockCipher, msg: seq<byte>, faults: seq<Fault>, stale: seq<byte>): (r: seq<byte>)
    requires Message(msg) && |stale| == |msg| - 64
    ensures |r| == |stale|
  {
    if Transforms(msg[0]) then BufferOutput(TransformOf(msg[0]), aes, KEY, IV, faults, Payload(msg), stale)
    else Payload(msg)
  }

  /** Completion and data as they stand at the start of an output buffer that held `buffer`. */
  function Served(aes: BlockCipher, msg: seq<byte>, faults: seq<Fault>, buffer: seq<byte>): (r: seq<byte>)
    requires Servable(msg) && |buffer| == BUFFER_SIZE
    ensures |r| == if Message(msg) then |msg| - 48 else 16
  {
    Completion(Succeeds(msg, faults)) + if Message(msg) then ReplyData(aes, msg, faults, buffer[16..|msg| - 48]) else []
  }

  /** The reply; to a message short of a whole command, not even the whole completion. */
  function Reply(aes: BlockCipher, msg: seq<byte>, faults: seq<Fault>, buffer: seq<byte>): (r: seq<byte>)
    requires Servable(msg) && |buffer| == BUFFER_SIZE
    ensures |r| == |msg| - 48
  {
    var served := Served(aes, msg, faults, buffer);
    if Message(msg) then served else served[..|msg| - 48]
  }

  // ---------------------------------------------------------------------------
  // The command loop

  /** One `read`: what it delivered, with the faults the cipher library will meet on it; or an error. */
  datatype ReadResult = Delivered(msg: seq<byte>, faults: seq<Fault>) | ReadError
  {
    /** The return value of `read`. */
    function Length(): int
    {
      if Delivered? then |msg| else -1
    }

    /** End of file, a read shorter than a pointer, or an error ends the loop. */
    predicate Stops()
    {
      ReadError? || |msg| < 8
    }

    predicate WellFramed()
    {
      Stops() || Servable(msg)
    }
  }

  ghost predicate AllWellFramed(inputs: seq<ReadResult>)
  {
    forall i | 0 <= i < |inputs| :: inputs[i].WellFramed()
  }

  /** The replies to a sequence of reads by a worker whose output buffer holds `buffer`. */
  ghost function Replies(aes: BlockCipher, buffer: seq<byte>, inputs: seq<ReadResult>): seq<seq<byte>>
    requires |buffer| == BUFFER_SIZE
    requires AllWellFramed(inputs)
    decreases |inputs|
  {
    if inputs == [] || inputs[0].Stops() then
      []
    else
      assert inputs[0].WellFramed();
      var msg, faults := inputs[0].msg, inputs[0].faults;
      [Reply(aes, msg, faults, buffer)] + Replies(aes, Splice(buffer, 0, Served(aes, msg, faults, buffer)), inputs[1..])
  }

  class Worker {
    const aes: BlockCipher
    const lib: Library
    const bufferIn: array<byte>
    const bufferOut: array<byte>

    predicate Valid()
    {
      bufferIn != bufferOut && bufferIn.Length == bufferOut.Length == BUFFER_SIZE
    }

    constructor (aes: BlockCipher)
      ensures Valid() && this.aes == aes && fresh(lib) && fresh(bufferIn) && fresh(bufferOut)
      ensures lib.created == lib.released
    {
      this.aes := aes;
      lib := new Library();
      bufferIn := new byte[BUFFER_SIZE];
      bufferOut := new byte[BUFFER_SIZE];
    }

    /** The body of the loop once `n` bytes have been read into the input buffer. */
    method Handle(n: nat, faults: seq<Fault>) returns (reply: seq<byte>)
      requires Valid() && n <= BUFFER_SIZE && Servable(bufferIn[..n])
      modifies lib, bufferOut
      ensures reply == Reply(aes, bufferIn[..n], faults, old(bufferOut[..]))
      ensures bufferOut[..] == Splice(old(bufferOut[..]), 0, Served(aes, bufferIn[..n], faults, old(bufferOut[..])))
      ensures lib.created - old(lib.created) == lib.released - old(lib.released)
    {
      hide Splice, BufferOutput, Region, FirstFault, AsInt, ReplySize;
      ghost var was := bufferOut[..];
      ghost var msg := bufferIn[..n];
      var dataSize := DataSize(n);
      AccessesInside(n, bufferIn[0]);
      WriteAt(bufferOut, 0, seq(16, _ => 0));
      ghost var d := if n < 64 then 0 else n - 64;
      Cleared(was, d);
      assert Region(bufferIn[..], 64, n - 64) == if n < 64 then [] else Payload(msg) by {
        PayloadRegion(bufferIn[..], n);
      }
      var ret := 0;
      if dataSize != 0 {
        if bufferIn[0] == NVME_CMD_READ {
          ret := LbaDecrypt(lib, aes, bufferOut, 16, bufferIn, 64, AsInt(dataSize), KEY, IV, faults);
        } else if bufferIn[0] == NVME_CMD_WRITE || bufferIn[0] == NVME_CMD_WRITE_ZEROES {
          ret := LbaEncrypt(lib, aes, bufferOut, 16, bufferIn, 64, AsInt(dataSize), KEY, IV, faults);
        } else {
          WriteAt(bufferOut, 16, bufferIn[64..64 + dataSize]);
        }
      }
      ghost var data := if Message(msg) then ReplyData(aes, msg, faults, was[16..16 + d]) else [];
      Framed(was, data);
      assert bufferOut[..] == Splice(Splice(was, 0, Completion(true)), 16, data);
      assert ret >= 0 && AsSize(ret) == dataSize <==> Succeeds(msg, faults);
      hide ReplyData, Succeeds, BufferReturns, DataSize;
      ReadBack(was, Served(aes, msg, faults, was));
      if ret < 0 || AsSize(ret) != dataSize {
        WriteAt(bufferOut, 14, [NVME_SC_INTERNAL, 0]);
      }
      reply := bufferOut[..ReplySize(n)];
    }

    /** The endless loop, over the reads it meets; `stopped` when one of them ends it. */
    method Run(inputs: seq<ReadResult>) returns (replies: seq<seq<byte>>, stopped: bool)
      requires Valid() && AllWellFramed(inputs)
      modifies lib, bufferIn, bufferOut
      ensures replies == Replies(aes, old(bufferOut[..]), inputs)
      ensures stopped <==> |replies| < |inputs|
      ensures stopped ==> inputs[|replies|].ReadError? || |inputs[|replies|].msg| < 8
      ensures |replies| <= |inputs| && forall i | 0 <= i < |replies| :: inputs[i].Delivered? && 8 <= |inputs[i].msg|
      ensures lib.created - old(lib.created) == lib.released - old(lib.released)
    {
      hide Reply, Served, Splice, Transforms;
      replies, stopped := [], false;
      ghost var buffer := bufferOut[..];
      assert inputs[0..] == inputs;
      while |replies| < |inputs|
        invariant |replies| <= |inputs|
        invariant forall j | 0 <= j < |replies| :: !inputs[j].Stops()
        invariant AllWellFramed(inputs[|replies|..])
        invariant replies + Replies(aes, bufferOut[..], inputs[|replies|..]) == Replies(aes, buffer, inputs)
        invariant lib.created - old(lib.created) == lib.released - old(lib.released)
      {
        ghost var rest := inputs[|replies|..];
        var input := inputs[|replies|];
        ghost var held := bufferOut[..];
        assert rest[0] == input && rest[1..] == inputs[|replies| + 1..];
        var ret := input.Length();
        if ret == 0 || AsSize(ret) < 8 || ret < 0 {
          stopped := true;
          return;
        }
        assert input.WellFramed();
        ghost var received := bufferIn[..];
        WriteAt(bufferIn, 0, input.msg);
        assert bufferIn[..ret] == input.msg by { ReadBack(received, input.msg); }
        var reply := Handle(ret, input.faults);
        ghost var later := Replies(aes, bufferOut[..], rest[1..]);
        assert Replies(aes, held, rest) == [reply] + later;
        assert replies + ([reply] + later) == replies + [reply] + later;
        replies := replies + [reply];
      }
    }
  }

  lemma PayloadRegion(s: seq<byte>, n: nat)
    requires n <= |s|
    ensures Region(s, 64, n - 64) == if n < 64 then [] else s[..n][64..]
  {
  }

  /** Clearing the completion leaves the data area as it was. */
  lemma Cleared(was: seq<byte>, n: nat)
    requires 16 + n <= |was|
    ensures Region(Splice(was, 0, seq(16, _ => 0)), 16, n) == was[16..16 + n]
  {
  }

  /** Completion and data written separately are one reply at the start of the buffer. */
  lemma Framed(was: seq<byte>, data: seq<byte>)
    requires 16 + |data| <= |was|
    ensures Splice(was, 0, seq(16, _ => 0)) == Splice(was, 0, Completion(true))
    ensures var cleared := Splice(was, 0, Completion(true));
            && Splice(cleared, 16, data) == Splice(was, 0, Completion(true) + data)
            && Splice(Splice(cleared, 16, data), 14, [NVME_SC_INTERNAL, 0]) == Splice(was, 0, Completion(false) + data)
            && (data == [] ==> cleared == Splice(was, 0, Completion(true) + data))
  {
    hide Splice;
    var zeros: seq<byte> := seq(16, _ => 0);
    assert zeros == Completion(true) && (data == [] ==> zeros + data == zeros);
    SpliceAdjacent(was, 0, zeros, data);
    SplicePatch(was, zeros + data, 14, [NVME_SC_INTERNAL, 0]);
    StatusPatch(data);
  }

  lemma StatusPatch(data: seq<byte>)
    ensures Splice(Completion(true) + data, 14, [NVME_SC_INTERNAL, 0]) == Completion(false) + data
  {
  }

  // ---------------------------------------------------------------------------
  // Properties of the replies

  /** The part of the completion that is sent: the status is success exactly when there is no data, or the opcode
      is read, write or write-zeroes, the data is whole sectors and no cipher call fails, and else the internal
      error; every other byte is zero. */
  ghost predicate RightCompletion(msg: seq<byte>, faults: seq<Fault>, reply: seq<byte>)
    requires msg != []
  {
    var d := |msg| - 64;
    && (forall i | 0 <= i < 16 && i < |reply| && i != 14 :: reply[i] == 0)
    && (14 < |reply| ==>
         && (reply[14] == 0 || reply[14] == 6)
         && (reply[14] == 0 <==>
              || d == 0
              || (d > 0 && msg[0] in {1, 2, 8} && d % 512 == 0
                  && forall i | 0 <= i < d / 512 && i < |faults| :: faults[i].NoFault?)))
  }

  lemma StatusOfReply(aes: BlockCipher, msg: seq<byte>, faults: seq<Fault>, buffer: seq<byte>)
    requires Servable(msg) && |buffer| == BUFFER_SIZE
    ensures RightCompletion(msg, faults, Reply(aes, msg, faults, buffer))
  {
    hide ReplyData;
    if Message(msg) {
      NoFaults(faults, (|msg| - 64) / 512);
    }
  }

  /** What the reply carries, opcode by opcode: a read is decrypted sector by sector, a write or write-zeroes
      encrypted, when no cipher call fails, and any other command gets its own data back. */
  lemma ReplyCarries(aes: BlockCipher, msg: seq<byte>, faults: seq<Fault>, buffer: seq<byte>, i: nat)
    requires 64 <= |msg| <= 262144 && |buffer| == 262144
    ensures msg[0] !in {1, 2, 8} ==> Reply(aes, msg, faults, buffer)[16..] == msg[64..]
    ensures (|msg| - 64) % 512 == 0 && 64 + 512 * (i + 1) <= |msg|
            && (forall j | 0 <= j < |faults| && 64 + 512 * (j + 1) <= |msg| :: faults[j].NoFault?) ==>
              var sector := Reply(aes, msg, faults, buffer)[16 + 512 * i..16 + 512 * (i + 1)];
              var given := msg[64 + 512 * i..64 + 512 * (i + 1)];
              && (msg[0] == 2 ==> sector == CbcMode.Cbc(Decrypt, aes, KEY, IV, given))
              && (msg[0] == 1 || msg[0] == 8 ==> sector == CbcMode.Cbc(Encrypt, aes, KEY, IV, given))
  {
    hide FirstFault, Sectors, CbcMode.Cbc;
    var stale := buffer[16..|msg| - 48];
    ReplySlices(aes, msg, faults, buffer);
    if (|msg| - 64) % 512 == 0 && 64 + 512 * (i + 1) <= |msg| && Transforms(msg[0])
       && forall j | 0 <= j < |faults| && 64 + 512 * (j + 1) <= |msg| :: faults[j].NoFault? {
      NoFaults(faults, (|msg| - 64) / 512);
      assert ReplyData(aes, msg, faults, stale) == Sectors(TransformOf(msg[0]), aes, KEY, IV, Payload(msg));
      SectorOfSectors(TransformOf(msg[0]), aes, KEY, IV, Payload(msg), i);
      SliceOfSlice(msg, 64, |msg|, 512 * i, 512 * (i + 1));
      SliceOfSlice(Reply(aes, msg, faults, buffer), 16, |msg| - 48, 512 * i, 512 * (i + 1));
    }
  }

  lemma ReplySlices(aes: BlockCipher, msg: seq<byte>, faults: seq<Fault>, buffer: seq<byte>)
    requires Message(msg) && |buffer| == BUFFER_SIZE
    ensures var reply, data := Reply(aes, msg, faults, buffer), ReplyData(aes, msg, faults, buffer[16..|msg| - 48]);
            reply[16..] == data && reply[16..|msg| - 48] == data && msg[64..|msg|] == Payload(msg)
  {
    hide ReplyData, Succeeds;
  }

  /** A failing cipher call that nevertheless overwrites its whole sector. */
  predicate Overwrites(fault: Fault)
  {
    fault.FinalFails? || (fault.UpdateFails? && |fault.junk| >= 512)
  }

  /** No byte of the reply's data area is left over from an earlier message: pass-through, no data, or whole
      sectors of which at most the last one fails, after overwriting its place. */
  predicate HistoryFree(msg: seq<byte>, faults: seq<Fault>)
    requires Servable(msg)
  {
    var d := |msg| - 64;
    || d <= 0
    || !Transforms(msg[0])
    || (d % 512 == 0 && var f := FirstFault(faults, 0, d / 512); f == d / 512 || (f == d / 512 - 1 && Overwrites(faults[f])))
  }

  /** The reply is a function of the message alone exactly when it is history-free; in particular every
      success and every pass-through reply is. */
  lemma ReplyHistory(aes: BlockCipher, msg: seq<byte>, faults: seq<Fault>)
    requires Servable(msg)
    ensures HistoryFree(msg, faults) <==>
              forall b1, b2 | |b1| == |b2| == BUFFER_SIZE :: Reply(aes, msg, faults, b1) == Reply(aes, msg, faults, b2)
    ensures Succeeds(msg, faults) || !Transforms(msg[0]) ==> HistoryFree(msg, faults)
  {
    hide Reply, FirstFault;
    if HistoryFree(msg, faults) {
      forall b1, b2 | |b1| == |b2| == BUFFER_SIZE
        ensures Reply(aes, msg, faults, b1) == Reply(aes, msg, faults, b2)
      {
        NoHistory(aes, msg, faults, b1, b2);
      }
    } else {
      HistoryShows(aes, msg, faults);
    }
  }

  lemma NoHistory(aes: BlockCipher, msg: seq<byte>, faults: seq<Fault>, b1: seq<byte>, b2: seq<byte>)
    requires Servable(msg) && |b1| == |b2| == BUFFER_SIZE
    requires HistoryFree(msg, faults)
    ensures Reply(aes, msg, faults, b1) == Reply(aes, msg, faults, b2)
  {
    hide FirstFault, BufferOutput;
    var n := |msg| - 48;
    if Transforms(msg[0]) && n > 16 {
      FreshOutput(TransformOf(msg[0]), aes, KEY, IV, faults, Payload(msg), b1[16..n], b2[16..n]);
    }
  }

  lemma FreshOutput(dir: Direction, aes: BlockCipher, key: Key, iv: Block, faults: seq<Fault>,
                    text: seq<byte>, was1: seq<byte>, was2: seq<byte>)
    requires |was1| == |was2| == |text| && |text| % 512 == 0
    requires var f := FirstFault(faults, 0, |text| / 512);
             f == |text| / 512 || (f == |text| / 512 - 1 && Overwrites(faults[f]))
    ensures BufferOutput(dir, aes, key, iv, faults, text, was1) == BufferOutput(dir, aes, key, iv, faults, text, was2)
  {
    hide Sectors, CbcMode.Cbc, FirstFault, SectorAt, OneShotOutput;
    var f := FirstFault(faults, 0, |text| / 512);
    if f < |text| / 512 {
      FreshSector(dir, aes, key, iv, faults[f], SectorAt(text, f), SectorAt(was1, f), SectorAt(was2, f));
    }
  }

  lemma FreshSector(dir: Direction, aes: BlockCipher, key: Key, iv: Block, fault: Fault,
                    sector: seq<byte>, was1: seq<byte>, was2: seq<byte>)
    requires |was1| == |was2| == |sector| == 512 && Overwrites(fault)
    ensures OneShotOutput(dir, aes, key, iv, fault, sector, was1) == OneShotOutput(dir, aes, key, iv, fault, sector, was2)
  {
    hide CbcMode.Cbc;
  }

  /** The place of a byte that a buffer call leaves as it was, when there is one. */
  function StaleIndex(faults: seq<Fault>, n: nat): nat
  {
    var f := FirstFault(faults, 0, n / 512);
    if n % 512 != 0 then 0
    else if f + 1 < n / 512 then 512 * (f + 1)
    else if f < n / 512 && faults[f].UpdateFails? then 512 * f + |faults[f].junk|
    else 512 * f
  }

  lemma StaleByte(dir: Direction, aes: BlockCipher, key: Key, iv: Block, faults: seq<Fault>,
                  text: seq<byte>, was: seq<byte>)
    requires |was| == |text|
    requires var n := |text|;
             var f := FirstFault(faults, 0, n / 512);
             n % 512 != 0 || f + 1 < n / 512 || (f == n / 512 - 1 && !Overwrites(faults[f]))
    ensures var k := StaleIndex(faults, |text|);
            k < |text| && BufferOutput(dir, aes, key, iv, faults, text, was)[k] == was[k]
  {
    hide Sectors, CbcMode.Cbc, FirstFault, OneShotOutput;
    var n := |text|;
    if n % 512 == 0 {
      var f := FirstFault(faults, 0, n / 512);
      FailedOutput(dir, aes, key, iv, faults, text, was, f);
      if f == n / 512 - 1 {
        StaleSector(dir, aes, key, iv, faults[f], SectorAt(text, f), SectorAt(was, f));
      }
    }
  }

  lemma StaleSector(dir: Direction, aes: BlockCipher, key: Key, iv: Block, fault: Fault, sector: seq<byte>, was: seq<byte>)
    requires |was| == |sector| == 512
    requires fault != NoFault && !Overwrites(fault)
    ensures var k := if fault.UpdateFails? then |fault.junk| else 0;
            k < 512 && OneShotOutput(dir, aes, key, iv, fault, sector, was)[k] == was[k]
  {
    hide CbcMode.Cbc;
  }

  lemma HistoryShows(aes: BlockCipher, msg: seq<byte>, faults: seq<Fault>)
    requires Servable(msg)
    requires !HistoryFree(msg, faults)
    ensures exists b1, b2 :: |b1| == |b2| == BUFFER_SIZE && Reply(aes, msg, faults, b1) != Reply(aes, msg, faults, b2)
  {
    hide BufferOutput, FirstFault;
    var b1: seq<byte> := seq(BUFFER_SIZE, _ => 0);
    var b2: seq<byte> := seq(BUFFER_SIZE, _ => 1);
    var d := |msg| - 64;
    var k := StaleIndex(faults, d);
    StaleByte(TransformOf(msg[0]), aes, KEY, IV, faults, Payload(msg), b1[16..d + 16]);
    StaleByte(TransformOf(msg[0]), aes, KEY, IV, faults, Payload(msg), b2[16..d + 16]);
    assert Reply(aes, msg, faults, b1)[16 + k] == 0;
    assert Reply(aes, msg, faults, b2)[16 + k] == 1;
    assert Reply(aes, msg, faults, b1) != Reply(aes, msg, faults, b2);
  }

  /** What a worker may answer to one read, depending on what its buffer holds. */
  ghost predicate IsReplyTo(aes: BlockCipher, input: ReadResult, reply: seq<byte>)
  {
    && !input.Stops() && Servable(input.msg)
    && exists buffer | |buffer| == BUFFER_SIZE :: reply == Reply(aes, input.msg, input.faults, buffer)
  }

  lemma {:induction false} RepliesInOrder(aes: BlockCipher, buffer: seq<byte>, inputs: seq<ReadResult>)
    requires |buffer| == BUFFER_SIZE && AllWellFramed(inputs)
    ensures var replies := Replies(aes, buffer, inputs);
            && |replies| <= |inputs| && (|replies| < |inputs| ==> inputs[|replies|].Stops())
            && forall i | 0 <= i < |replies| :: IsReplyTo(aes, inputs[i], replies[i])
    decreases |inputs|
  {
    hide Reply, Served, Splice;
    if inputs != [] && !inputs[0].Stops() {
      assert inputs[0].WellFramed();
      var first := Reply(aes, inputs[0].msg, inputs[0].faults, buffer);
      var buffer' := Splice(buffer, 0, Served(aes, inputs[0].msg, inputs[0].faults, buffer));
      var rest := Replies(aes, buffer', inputs[1..]);
      RepliesInOrder(aes, buffer', inputs[1..]);
      assert Replies(aes, buffer, inputs) == [first] + rest;
      forall i | 0 <= i < |[first] + rest|
        ensures IsReplyTo(aes, inputs[i], ([first] + rest)[i])
      {
        assert i > 0 ==> inputs[i] == inputs[1..][i - 1] && ([first] + rest)[i] == rest[i - 1];
      }
    }
  }

  /** Over any run, up to the read that stops it: exactly one reply per message, in order, 48 bytes shorter than it,
      with the right completion; and each history-free reply is the one a fresh worker would give to that message
      on its own. */
  lemma OneReplyPerMessage(aes: BlockCipher, buffer: seq<byte>, inputs: seq<ReadResult>)
    requires |buffer| == BUFFER_SIZE
    requires forall i | 0 <= i < |inputs| && inputs[i].Delivered? ::
               var n := |inputs[i].msg|;
               n < 8 || 64 <= n <= 262144 || (48 <= n < 64 && inputs[i].msg[0] in {1, 2, 8})
    ensures AllWellFramed(inputs)
    ensures var replies := Replies(aes, buffer, inputs);
            && |replies| <= |inputs|
            && (|replies| < |inputs| ==> inputs[|replies|].ReadError? || |inputs[|replies|].msg| < 8)
            && forall i | 0 <= i < |replies| ::
                 && inputs[i].Delivered? && 8 <= |inputs[i].msg|
                 && IsReplyTo(aes, inputs[i], replies[i])
                 && |replies[i]| == |inputs[i].msg| - 48
                 && RightCompletion(inputs[i].msg, inputs[i].faults, replies[i])
                 && (HistoryFree(inputs[i].msg, inputs[i].faults) ==>
                      replies[i] == Reply(aes, inputs[i].msg, inputs[i].faults, seq(BUFFER_SIZE, _ => 0)))
  {
    hide Reply, HistoryFree, Replies, RightCompletion;
    assert AllWellFramed(inputs);
    RepliesInOrder(aes, buffer, inputs);
    var replies := Replies(aes, buffer, inputs);
    forall i | 0 <= i < |replies|
      ensures IsReplyTo(aes, inputs[i], replies[i]) && |replies[i]| == |inputs[i].msg| - 48
      ensures RightCompletion(inputs[i].msg, inputs[i].faults, replies[i])
      ensures HistoryFree(inputs[i].msg, inputs[i].faults) ==>
                replies[i] == Reply(aes, inputs[i].msg, inputs[i].faults, seq(BUFFER_SIZE, _ => 0))
    {
      assert IsReplyTo(aes, inputs[i], replies[i]);
      var msg, faults := inputs[i].msg, inputs[i].faults;
      var held :| |held| == BUFFER_SIZE && replies[i] == Reply(aes, msg, faults, held);
      StatusOfReply(aes, msg, faults, held);
      if HistoryFree(msg, faults) {
        NoHistory(aes, msg, faults, held, seq(BUFFER_SIZE, _ => 0));
      }
    }
  }
}
