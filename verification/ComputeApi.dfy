/** Packed compute requests and device properties, and the 4096-byte buffer they travel through. */
module ComputeApi {
  import opened Bytes

  // ---------------------------------------------------------------------------
  // Compute requests: a 12-byte head (engine handle, function, NumArgs) and 20-byte arguments

  /** An argument as the caller gives it; `Unsupported` is any other type number. */
  datatype Arg =
    | Afdm(handle: nat, offset: nat)
    | Value32(v: nat)
    | Value64(v: nat)
    | Unsupported(kind: nat)
  {
    function Kind(): nat
    {
      match this
      case Afdm(_, _) => 1
      case Value32(_) => 2
      case Value64(_) => 3
      case Unsupported(kind) => kind
    }

    predicate InRange()
    {
      match this
      case Afdm(handle, offset) => handle < 0x1_0000_0000_0000_0000 && offset < 0x1_0000_0000_0000_0000
      case Value32(v) => v < 0x1_0000_0000
      case Value64(v) => v < 0x1_0000_0000_0000_0000
      case Unsupported(kind) => kind < 0x1_0000_0000 && kind !in {1, 2, 3}
    }

    /** The bytes of the union that setting this argument writes. */
    function Value(): (r: seq<byte>)
      ensures |r| <= 16
    {
      match this
      case Afdm(handle, offset) => ToLe(handle, 8) + ToLe(offset, 8)
      case Value32(v) => ToLe(v, 4)
      case Value64(v) => ToLe(v, 8)
      case Unsupported(_) => []
    }
  }

  function ArgOffset(i: nat): nat
  {
    12 + 20 * i
  }

  /** The request with argument `i` set. */
  function SetArg(image: seq<byte>, i: nat, arg: Arg): (r: seq<byte>)
    requires ArgOffset(i + 1) <= |image|
    ensures |r| == |image|
  {
    Splice(image, ArgOffset(i), ToLe(arg.Kind(), 4) + arg.Value())
  }

  /** Argument `i` as the device reads it. */
  function GetArg(image: seq<byte>, i: nat): Arg
    requires ArgOffset(i + 1) <= |image|
  {
    ReadArg(image[ArgOffset(i)..ArgOffset(i + 1)])
  }

  function ReadArg(cell: seq<byte>): Arg
    requires |cell| == 20
  {
    var kind := FromLe(cell[..4]);
    if kind == 1 then Afdm(FromLe(cell[4..12]), FromLe(cell[12..20]))
    else if kind == 2 then Value32(FromLe(cell[4..8]))
    else if kind == 3 then Value64(FromLe(cell[4..12]))
    else Unsupported(kind)
  }

  /** csHelperSetComputeArg: the type word, then the union member that goes with it; a null argument pointer,
      here a missing index, is ignored. */
  method HelperSetComputeArg(image: array<byte>, present: bool, i: nat, arg: Arg)
    requires present ==> ArgOffset(i + 1) <= image.Length
    modifies image
    ensures image[..] == if present then SetArg(old(image[..]), i, arg) else old(image[..])
  {
    hide Splice, ToLe;
    if present {
      var at := ArgOffset(i);
      ghost var was, kind := image[..], ToLe(arg.Kind(), 4);
      WriteAt(image, at, ToLe(arg.Kind(), 4));
      ghost var tagged := image[..];
      match arg {
        case Afdm(handle, offset) =>
          WriteAt(image, at + 4, ToLe(handle, 8));
          WriteAt(image, at + 12, ToLe(offset, 8));
          SpliceAdjacent(tagged, at + 4, ToLe(handle, 8), ToLe(offset, 8));
        case Value32(v) =>
          WriteAt(image, at + 4, ToLe(v, 4));
        case Value64(v) =>
          WriteAt(image, at + 4, ToLe(v, 8));
        case Unsupported(_) =>
          NoSplice(tagged, at + 4);
      }
      assert image[..] == Splice(Splice(was, at, kind), at + 4, arg.Value());
      SpliceAdjacent(was, at, kind, arg.Value());
    }
  }

  /** What is set is what the device reads. */
  lemma SetThenGet(image: seq<byte>, i: nat, arg: Arg)
    requires ArgOffset(i + 1) <= |image| && arg.InRange()
    ensures GetArg(SetArg(image, i, arg), i) == arg
  {
    hide Splice, ReadArg;
    var data := ToLe(arg.Kind(), 4) + arg.Value();
    var r := SetArg(image, i, arg);
    var cell := r[ArgOffset(i)..ArgOffset(i + 1)];
    SpliceParts(image, ArgOffset(i), data);
    SliceOfSlice(r, ArgOffset(i), ArgOffset(i + 1), 0, |data|);
    assert cell == data + cell[|data|..];
    ReadWritten(arg, cell[|data|..]);
  }

  /** The bytes of an argument: its type number, 1, 2 or 3, and its value, at their places in the request, least
      significant byte first; the bytes of the union that its kind does not use are left alone. */
  lemma ArgumentBytes(image: seq<byte>, i: nat, arg: Arg)
    requires 12 + 20 * (i + 1) <= |image| && arg.InRange()
    ensures var r, at := SetArg(image, i, arg), 12 + 20 * i;
            match arg
            case Afdm(handle, offset) =>
              FromLe(r[at..at + 4]) == 1 && FromLe(r[at + 4..at + 12]) == handle && FromLe(r[at + 12..at + 20]) == offset
            case Value32(v) =>
              FromLe(r[at..at + 4]) == 2 && FromLe(r[at + 4..at + 8]) == v && r[at + 8..at + 20] == image[at + 8..at + 20]
            case Value64(v) =>
              FromLe(r[at..at + 4]) == 3 && FromLe(r[at + 4..at + 12]) == v && r[at + 12..at + 20] == image[at + 12..at + 20]
            case Unsupported(kind) =>
              FromLe(r[at..at + 4]) == kind && r[at + 4..at + 20] == image[at + 4..at + 20]
  {
    hide Splice, ToLe, FromLe;
    WordSizes();
    var r, at, kind, value := SetArg(image, i, arg), ArgOffset(i), ToLe(arg.Kind(), 4), arg.Value();
    var end := at + 4 + |value|;
    SpliceParts(image, at, kind + value);
    SliceOfSlice(r, at, end, 0, 4);
    SliceOfConcat(kind, value, 0, 4);
    LeRoundTrip(arg.Kind(), 4);
    SlicesAgree(r, image, end, |r|, end, at + 20);
    match arg
    case Afdm(handle, offset) =>
      LeRoundTrip(handle, 8);
      LeRoundTrip(offset, 8);
      WordAt(r, at, kind, ToLe(handle, 8), ToLe(offset, 8));
    case Value32(v) =>
      LeRoundTrip(v, 4);
      WordAt(r, at, kind, value, []);
    case Value64(v) =>
      LeRoundTrip(v, 8);
      WordAt(r, at, kind, value, []);
    case Unsupported(_) =>
  }

  lemma WordAt(r: seq<byte>, at: nat, a: seq<byte>, b: seq<byte>, c: seq<byte>)
    requires at + |a| + |b| + |c| <= |r| && r[at..at + |a| + |b| + |c|] == a + (b + c)
    ensures r[at + |a|..at + |a| + |b|] == b && r[at + |a| + |b|..at + |a| + |b| + |c|] == c
  {
    Regroup(a, b, c);
    SliceOfSlice(r, at, at + |a| + |b| + |c|, |a|, |a| + |b|);
    SliceOfSlice(r, at, at + |a| + |b| + |c|, |a| + |b|, |a| + |b| + |c|);
    Middle(a, b, c);
    SliceOfConcat(a + b, c, |a| + |b|, |a| + |b| + |c|);
  }

  lemma ReadWritten(arg: Arg, rest: seq<byte>)
    requires arg.InRange() && |rest| == 16 - |arg.Value()|
    ensures ReadArg(ToLe(arg.Kind(), 4) + arg.Value() + rest) == arg
  {
    hide ToLe, FromLe;
    WordSizes();
    var kind := ToLe(arg.Kind(), 4);
    var cell := kind + arg.Value() + rest;
    LeRoundTrip(arg.Kind(), 4);
    assert cell[..4] == kind;
    match arg {
      case Afdm(handle, offset) =>
        LeRoundTrip(handle, 8);
        LeRoundTrip(offset, 8);
        assert cell[4..12] == ToLe(handle, 8);
        assert cell[12..20] == ToLe(offset, 8);
      case Value32(v) =>
        LeRoundTrip(v, 4);
        assert cell[4..8] == ToLe(v, 4);
      case Value64(v) =>
        LeRoundTrip(v, 8);
        assert cell[4..12] == ToLe(v, 8);
      case Unsupported(_) =>
    }
  }

  /** Setting one argument leaves every other argument and the head alone. */
  lemma SetKeepsOthers(image: seq<byte>, i: nat, j: nat, arg: Arg)
    requires ArgOffset(i + 1) <= |image| && ArgOffset(j + 1) <= |image|
    ensures SetArg(image, i, arg)[..12] == image[..12]
    ensures i != j ==> GetArg(SetArg(image, i, arg), j) == GetArg(image, j)
  {
    hide Splice, ToLe, ReadArg;
    var r := SetArg(image, i, arg);
    var at, end := ArgOffset(i), ArgOffset(i) + 4 + |arg.Value()|;
    var lo, hi := ArgOffset(j), ArgOffset(j + 1);
    SpliceParts(image, at, ToLe(arg.Kind(), 4) + arg.Value());
    SlicesAgree(r, image, 0, at, 0, 12);
    if j < i {
      SlicesAgree(r, image, 0, at, lo, hi);
    } else if i < j {
      SlicesAgree(r, image, end, |r|, lo, hi);
    }
  }

  /** The request after `args[0]`, `args[1]`, ... have been set in turn. */
  function SetAll(image: seq<byte>, args: seq<Arg>): (r: seq<byte>)
    requires ArgOffset(|args|) <= |image|
    ensures |r| == |image|
    decreases |args|
  {
    if args == [] then image
    else var n := |args| - 1; SetArg(SetAll(image, args[..n]), n, args[n])
  }

  /** A request filled argument by argument reads back as exactly those arguments under the same head. */
  lemma {:induction false} RequestRoundTrip(image: seq<byte>, args: seq<Arg>, i: nat)
    requires ArgOffset(|args|) <= |image| && i < |args| && args[i].InRange()
    ensures GetArg(SetAll(image, args), i) == args[i]
    ensures SetAll(image, args)[..12] == image[..12]
    decreases |args|
  {
    hide SetArg, GetArg;
    var n := |args| - 1;
    var before := SetAll(image, args[..n]);
    HeadKept(image, args[..n]);
    SetKeepsOthers(before, n, i, args[n]);
    if i < n {
      RequestRoundTrip(image, args[..n], i);
    } else {
      SetThenGet(before, n, args[n]);
    }
  }

  lemma {:induction false} HeadKept(image: seq<byte>, args: seq<Arg>)
    requires ArgOffset(|args|) <= |image|
    ensures SetAll(image, args)[..12] == image[..12]
    decreases |args|
  {
    hide SetArg;
    if args != [] {
      var n := |args| - 1;
      HeadKept(image, args[..n]);
      SetKeepsOthers(SetAll(image, args[..n]), n, n, args[n]);
    }
  }

  /** get_request_size in 64-bit unsigned arithmetic; `numArgs` is a 32-bit signed field. */
  function RequestSize(numArgs: int): nat
  {
    if numArgs != 0 then (32 + (numArgs - 1) * 20) % 0x1_0000_0000_0000_0000 else 32
  }

  /** The size covers the head and the arguments exactly, and fits the transfer buffer exactly for 0 to 204
      arguments; every negative count wraps to an enormous size. */
  lemma RequestFits(numArgs: int)
    requires -0x8000_0000 < numArgs < 0x8000_0000
    ensures RequestSize(numArgs) <= 4096 <==> 0 <= numArgs <= 204
    ensures 1 <= numArgs ==> RequestSize(numArgs) == ArgOffset(numArgs) == 32 + 20 * (numArgs - 1)
    ensures numArgs == 0 ==> RequestSize(numArgs) == 32
    ensures numArgs < 0 ==> RequestSize(numArgs) == 0x1_0000_0000_0000_0000 + 32 + 20 * (numArgs - 1)
  {
    var v, m := 32 + (numArgs - 1) * 20, 0x1_0000_0000_0000_0000;
    assert numArgs != 0 ==> RequestSize(numArgs) == v % m;
    if v < 0 {
      QuotientUnique(v, m, -1, v + m);
    } else {
      QuotientUnique(v, m, 0, v);
    }
  }

  /** The NumArgs field of a request. */
  function NumArgs(image: seq<byte>): int
    requires |image| >= 12
  {
    var n := FromLe(image[8..12]);
    if n < 0x8000_0000 then n else n - 0x1_0000_0000
  }

  /** The argument count is the signed word at byte 8. */
  lemma ArgumentCount(image: seq<byte>)
    requires |image| >= 12
    ensures NumArgs(image)
         == 0x100_0000 * (if image[11] < 128 then image[11] else image[11] - 256) + 0x1_0000 * (image[10] as int)
            + 0x100 * (image[9] as int) + image[8]
  {
    FromLeWords(image[8..12]);
  }

  /** tsp_compute_operation: the request copied into the transfer buffer, and the size announced with it. The
      original copies without a check: its caller must see to it that the copy stays inside both. */
  method ComputeOperation(req: array<byte>) returns (frame: array<byte>, announced: nat)
    requires 12 <= req.Length && RequestSize(NumArgs(req[..])) <= 4096 && RequestSize(NumArgs(req[..])) <= req.Length
    ensures fresh(frame) && frame.Length == 4096
    ensures announced == RequestSize(NumArgs(req[..])) && frame[..announced] == req[..announced]
  {
    ghost var image := req[..];
    var n := NumArgs(req[..]);
    frame := new byte[4096];
    announced := RequestSize(n);
    forall i | 0 <= i < announced {
      frame[i] := req[i];
    }
    assert req[..] == image;
  }

  /** The device reads from the transfer buffer the arguments the caller set. */
  lemma DeviceSeesRequest(frame: seq<byte>, req: seq<byte>, i: nat)
    requires |frame| == 4096 && 12 <= |req| && 0 <= i < NumArgs(req) <= 204
    requires RequestSize(NumArgs(req)) <= |req|
    requires frame[..RequestSize(NumArgs(req))] == req[..RequestSize(NumArgs(req))]
    ensures NumArgs(frame) == NumArgs(req)
    ensures ArgOffset(i + 1) <= |frame| && ArgOffset(i + 1) <= |req|
    ensures GetArg(frame, i) == GetArg(req, i)
  {
    hide ReadArg, FromLe;
    var n := NumArgs(req);
    var size := RequestSize(n);
    RequestFits(n);
    SliceOfSlice(frame, 0, size, 8, 12);
    SliceOfSlice(req, 0, size, 8, 12);
    SliceOfSlice(frame, 0, size, ArgOffset(i), ArgOffset(i + 1));
    SliceOfSlice(req, 0, size, ArgOffset(i), ArgOffset(i + 1));
  }

  /** From end to end: a request for up to 204 arguments, filled argument by argument and copied into the transfer
      buffer, gives the device exactly those arguments. */
  lemma RequestDelivered(image: seq<byte>, args: seq<Arg>, frame: seq<byte>, i: nat)
    requires |args| <= 204 && i < |args| && args[i].InRange()
    requires ArgOffset(|args|) <= |image| && NumArgs(image) == |args|
    requires |frame| == 4096 && frame[..RequestSize(|args|)] == SetAll(image, args)[..RequestSize(|args|)]
    ensures NumArgs(frame) == |args| && ArgOffset(i + 1) <= |frame| && GetArg(frame, i) == args[i]
  {
    hide SetAll, GetArg, FromLe;
    var req := SetAll(image, args);
    RequestFits(|args|);
    RequestRoundTrip(image, args, i);
    SliceOfSlice(req, 0, 12, 8, 12);
    SliceOfSlice(image, 0, 12, 8, 12);
    DeviceSeesRequest(frame, req, i);
  }

  // ---------------------------------------------------------------------------
  // Device properties: a 58-byte head ending in NumCSEs, and 50-byte engine records

  datatype Status = Success | DeviceNotAvailable | InvalidHandle | InvalidArg | InvalidLength

  function NumCSEs(frame: seq<byte>): nat
    requires |frame| == 4096
  {
    FromLe(frame[56..58])
  }

  /** The size tsp_nvme_get_properties asks for, capped at the transfer buffer. */
  function RequiredSize(numCSEs: nat): nat
  {
    if numCSEs <= 1 then 108
    else if 108 + 50 * (numCSEs - 1) > 4096 then 4096
    else 108 + 50 * (numCSEs - 1)
  }

  /** 58 bytes of head and 50 for each engine, but at least one and at most what the transfer buffer holds. */
  lemma SizeRequired(frame: seq<byte>)
    requires |frame| == 4096
    ensures var n := (frame[56] as int) + 256 * (frame[57] as int);
            && NumCSEs(frame) == n
            && RequiredSize(n) == if n > 80 then 4096 else 58 + 50 * (if n == 0 then 1 else n)
  {
    FromLeWords(frame[56..58]);
  }

  /** tsp_nvme_get_properties: `frame` is what the device put in the transfer buffer. */
  method GetProperties(fails: bool, frame: seq<byte>, size: nat, props: array<byte>) returns (status: Status)
    requires |frame| == 4096 && size <= props.Length
    modifies props
    ensures status == if fails then DeviceNotAvailable
                      else if size < RequiredSize(NumCSEs(frame)) then InvalidLength
                      else Success
    ensures status == Success ==> props[..] == Splice(old(props[..]), 0, frame[..RequiredSize(NumCSEs(frame))])
    ensures status == InvalidLength && 108 <= size ==> props[..] == Splice(old(props[..]), 0, frame[..108])
    ensures status == DeviceNotAvailable || (status == InvalidLength && size < 108) ==> props[..] == old(props[..])
  {
    if fails {
      return DeviceNotAvailable;
    }
    var requiredSize := 108;
    var numCSEs := FromLe(frame[56..58]);
    if numCSEs > 1 {
      requiredSize := requiredSize + 50 * (numCSEs - 1);
      if requiredSize > 4096 {
        requiredSize := 4096;
      }
    }
    if size < requiredSize {
      if size >= 108 {
        WriteAt(props, 0, frame[..108]);
      }
      return InvalidLength;
    }
    WriteAt(props, 0, frame[..requiredSize]);
    return Success;
  }

  /** csQueryDeviceProperties: the checks in their order, then the transfer. */
  method QueryDeviceProperties(handle: int, hasCompute: bool, lengthGiven: bool, length: int, buffer: array?<byte>,
                               fails: bool, frame: seq<byte>)
    returns (status: Status)
    requires |frame| == 4096
    requires lengthGiven && buffer != null ==> length <= buffer.Length
    modifies if buffer == null then {} else {buffer}
    ensures status == Success <==>
              && handle >= 0 && hasCompute && lengthGiven && buffer != null && !fails
              && (var n := (frame[56] as int) + 256 * (frame[57] as int);
                  (if n > 80 then 4096 else 58 + 50 * (if n == 0 then 1 else n)) <= length)
    ensures status == InvalidHandle <==> handle < 0
    ensures status == DeviceNotAvailable <==>
              handle >= 0 && (!hasCompute || (lengthGiven && length >= 108 && buffer != null && fails))
    ensures status == InvalidArg <==> handle >= 0 && hasCompute && (!lengthGiven || (length >= 108 && buffer == null))
    ensures status == InvalidLength <==>
              && handle >= 0 && hasCompute && lengthGiven
              && (length < 108 || (buffer != null && !fails && length < RequiredSize(NumCSEs(frame))))
    ensures status == Success ==>
              && buffer != null
              && var n := (frame[56] as int) + 256 * (frame[57] as int);
              var size := if n > 80 then 4096 else 58 + 50 * (if n == 0 then 1 else n);
              && size <= length <= buffer.Length
              && buffer[..size] == frame[..size] && buffer[size..] == old(buffer[size..])
    ensures buffer != null && lengthGiven && status == InvalidLength && 108 <= length ==>
              buffer[..] == Splice(old(buffer[..]), 0, frame[..108])
    ensures buffer != null && status != Success && !(status == InvalidLength && 108 <= length) ==>
              buffer[..] == old(buffer[..])
  {
    SizeRequired(frame);
    if handle < 0 {
      return InvalidHandle;
    }
    if !hasCompute {
      return DeviceNotAvailable;
    }
    if !lengthGiven {
      return InvalidArg;
    }
    if length < 0 || length < 108 {
      return InvalidLength;
    }
    if buffer == null {
      return InvalidArg;
    }
    ghost var was := buffer[..];
    status := GetProperties(fails, frame, length, buffer);
    if status == Success {
      var size := RequiredSize(NumCSEs(frame));
      assert buffer[..size] == frame[..size] && buffer[size..] == was[size..] by {
        SpliceParts(was, 0, frame[..size]);
      }
    }
  }

  /** The device's full property image: what the transfer buffer shows, continued past it. */
  ghost predicate Extends(image: seq<byte>, frame: seq<byte>)
    requires |frame| == 4096
  {
    |image| >= 4096 && |image| >= 58 + 50 * NumCSEs(frame) && image[..4096] == frame
  }

  /** The head and every record that the printing loop reads are the device's own. */
  ghost predicate Intact(props: seq<byte>, image: seq<byte>, numCSEs: nat)
  {
    && 58 + 50 * numCSEs <= |props| && 58 + 50 * numCSEs <= |image|
    && props[..58 + 50 * numCSEs] == image[..58 + 50 * numCSEs]
  }

  /** After a successful query into any buffer, the records are intact, whatever the device's image is past the
      transfer buffer, exactly when there are at most 80 of them. */
  lemma PropertiesIntact(frame: seq<byte>, was: seq<byte>)
    requires |frame| == 4096 && RequiredSize(NumCSEs(frame)) <= |was|
    ensures var n := NumCSEs(frame);
            var props := Splice(was, 0, frame[..RequiredSize(n)]);
            (forall image | Extends(image, frame) :: Intact(props, image, n)) <==> n <= 80
  {
    var n := NumCSEs(frame);
    var props := Splice(was, 0, frame[..RequiredSize(n)]);
    var end := 58 + 50 * n;
    if n <= 80 {
      forall image | Extends(image, frame)
        ensures Intact(props, image, n)
      {
        SliceOfSlice(image, 0, 4096, 0, end);
        SliceOfSlice(props, 0, RequiredSize(n), 0, end);
        SliceOfSlice(frame, 0, RequiredSize(n), 0, end);
      }
    } else {
      var image0, image1 := frame + seq(end, _ => 0), frame + seq(end, _ => 1);
      assert Extends(image0, frame) && Extends(image1, frame);
      assert image0[..end][4096] == 0 && image1[..end][4096] == 1;
      assert !(Intact(props, image0, n) && Intact(props, image1, n));
    }
  }
}
