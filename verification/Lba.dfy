/** Sector-wise encryption and decryption of a buffer of 512-byte logical blocks. */
module Lba {
  import opened Bytes
  import opened CbcMode
  import opened Evp

  function SectorAt(s: seq<byte>, i: nat): (r: seq<byte>)
    requires 512 * (i + 1) <= |s|
    ensures |r| == 512
  {
    s[512 * i..512 * (i + 1)]
  }

  /** Every whole sector of `text` put through CBC on its own, each from the same `iv`. */
  function Sectors(dir: Direction, aes: BlockCipher, key: Key, iv: Block, text: seq<byte>): (r: seq<byte>)
    ensures |r| == |text| / 512 * 512
    decreases |text|
  {
    hide CbcMode.Cbc;
    if |text| < 512 then [] else Cbc(dir, aes, key, iv, text[..512]) + Sectors(dir, aes, key, iv, text[512..])
  }

  /** The fault met by the cipher call for sector `i`; calls past the end of the list do not fail. */
  function FaultAt(faults: seq<Fault>, i: nat): Fault
  {
    if i < |faults| then faults[i] else NoFault
  }

  /** The first of the sectors `from..n` whose cipher call fails, or `n`. */
  function FirstFault(faults: seq<Fault>, from: nat, n: nat): (f: nat)
    requires from <= n
    ensures from <= f <= n
    ensures forall i | from <= i < f :: FaultAt(faults, i) == NoFault
    ensures f < n ==> FaultAt(faults, f) != NoFault
    decreases n - from
  {
    if from == n || FaultAt(faults, from) != NoFault then from else FirstFault(faults, from + 1, n)
  }

  lemma {:induction false} FirstFaultIs(faults: seq<Fault>, from: nat, n: nat, f: nat)
    requires from <= f <= n
    requires forall i | from <= i < f :: FaultAt(faults, i) == NoFault
    requires f < n ==> FaultAt(faults, f) != NoFault
    ensures FirstFault(faults, from, n) == f
    decreases n - from
  {
    if from < f {
      FirstFaultIs(faults, from + 1, n, f);
    }
  }

  predicate AllSectorsSucceed(faults: seq<Fault>, n: nat)
  {
    FirstFault(faults, 0, n) == n
  }

  // ---------------------------------------------------------------------------
  // The alignment test

  /** `x` as a 32-bit two's complement pattern. */
  function Bits32(x: int): nat
    requires -0x8000_0000 <= x < 0x8000_0000
  {
    if x < 0 then x + 0x1_0000_0000 else x
  }

  /** The bit-mask test of the length: non-zero low nine bits. */
  predicate Misaligned(len: int)
    requires -0x8000_0000 <= len < 0x8000_0000
  {
    BitAnd(Bits32(len), 512 - 1) != 0
  }

  /** The mask test is divisibility by the sector size, for negative lengths too. */
  lemma MisalignedIsRemainder(len: int)
    requires -0x8000_0000 <= len < 0x8000_0000
    ensures Misaligned(len) <==> len % 512 != 0
  {
    hide BitAnd;
    assert Pow2(9) == 512 by { assert Pow2(4) == 16; assert Pow2(8) == 256; }
    MaskIsRemainder(Bits32(len), 9);
  }

  /** No fault at all among the first `n` sectors. */
  lemma NoFaults(faults: seq<Fault>, n: nat)
    ensures AllSectorsSucceed(faults, n) <==> forall i | 0 <= i < n && i < |faults| :: faults[i].NoFault?
  {
    hide FirstFault;
    if forall i | 0 <= i < n && i < |faults| :: faults[i].NoFault? {
      FirstFaultIs(faults, 0, n, n);
    }
    assert AllSectorsSucceed(faults, n) ==> forall i | 0 <= i < n :: FaultAt(faults, i) == NoFault;
    assert forall i | 0 <= i < n && i < |faults| :: FaultAt(faults, i) == faults[i];
  }

  // ---------------------------------------------------------------------------
  // What a buffer call returns and writes

  function BufferReturns(len: int, faults: seq<Fault>): int
  {
    if len % 512 != 0 then -1
    else if len < 0 || AllSectorsSucceed(faults, len / 512) then len
    else -1
  }

  /** The full length when it is whole sectors and no call fails, else -1. */
  lemma BufferReturnValue(len: int, faults: seq<Fault>)
    ensures BufferReturns(len, faults)
         == if len % 512 == 0 && forall i | 0 <= i < |faults| && 512 * (i + 1) <= len :: faults[i].NoFault? then len else -1
  {
    if len >= 0 && len % 512 == 0 {
      NoFaults(faults, len / 512);
    }
  }

  /** The output area after a buffer call on `text` over an area that held `was`. With `f` the first sector to
      fail, the sectors before `f` are transformed, sector `f` is as the failing call left it, and the rest is
      untouched. */
  function BufferOutput(dir: Direction, aes: BlockCipher, key: Key, iv: Block, faults: seq<Fault>,
                        text: seq<byte>, was: seq<byte>): (r: seq<byte>)
    requires |was| == |text|
    ensures |r| == |text|
  {
    if |text| % 512 != 0 then
      was
    else
      var n := |text| / 512;
      var f := FirstFault(faults, 0, n);
      if f == n then
        Sectors(dir, aes, key, iv, text)
      else
        Sectors(dir, aes, key, iv, text[..512 * f])
        + OneShotOutput(dir, aes, key, iv, faults[f], SectorAt(text, f), SectorAt(was, f))
        + was[512 * (f + 1)..]
  }

  /** The first `i` sectors have been processed without a fault and nothing else has been written. */
  ghost predicate Progress(dir: Direction, aes: BlockCipher, key: Key, iv: Block, faults: seq<Fault>,
                           text: seq<byte>, was: seq<byte>, off: nat, i: nat, now: seq<byte>)
    requires 512 * i <= |text| && off + |text| <= |was|
  {
    && (forall j | 0 <= j < i :: FaultAt(faults, j) == NoFault)
    && now == Splice(was, off, Sectors(dir, aes, key, iv, text[..512 * i]))
  }

  /** lba_encrypt: sector by sector, stopping at the first failure. */
  method LbaEncrypt(lib: Library, aes: BlockCipher, ciphertext: array<byte>, outOff: nat,
                    plaintext: array<byte>, inOff: nat, plaintextLen: int, key: Key, iv: Block, faults: seq<Fault>)
    returns (ret: int)
    requires -0x8000_0000 <= plaintextLen < 0x8000_0000
    requires Fits(plaintextLen, ciphertext, outOff, plaintext, inOff)
    modifies lib, ciphertext
    ensures ret == BufferReturns(plaintextLen, faults)
    ensures ciphertext[..] == Splice(old(ciphertext[..]), outOff,
      BufferOutput(Encrypt, aes, key, iv, faults, Region(plaintext[..], inOff, plaintextLen),
                   Region(old(ciphertext[..]), outOff, plaintextLen)))
    ensures lib.created - old(lib.created) == lib.released - old(lib.released)
  {
    hide Splice, Progress, BufferOutput, OneShotOutput, Misaligned, SectorAt, Region, FirstFault, FaultAt;
    ghost var was := ciphertext[..];
    ghost var text := Region(plaintext[..], inOff, plaintextLen);
    Untouched(Encrypt, aes, key, iv, faults, text, was, outOff, plaintextLen);
    MisalignedIsRemainder(plaintextLen);
    if Misaligned(plaintextLen) {
      return -1;
    }
    var sz := 0;
    while sz < plaintextLen
      invariant sz % 512 == 0 && 0 <= sz && (sz <= plaintextLen || sz == 0)
      invariant Progress(Encrypt, aes, key, iv, faults, text, was, outOff, sz / 512, ciphertext[..])
      invariant lib.created - old(lib.created) == lib.released - old(lib.released)
    {
      var i := sz / 512;
      ghost var now := ciphertext[..];
      RegionSector(plaintext[..], inOff, plaintextLen, i);
      ret := AesEncrypt(lib, aes, ciphertext, outOff + sz, plaintext, inOff + sz, 512, key, iv, FaultAt(faults, i));
      if ret < 0 || ret != 512 {
        SectorFails(Encrypt, aes, key, iv, faults, text, was, outOff, i, now);
        return -1;
      }
      OneSectorMore(Encrypt, aes, key, iv, faults, text, was, outOff, i, now);
      sz := sz + 512;
    }
    AllSectorsDone(Encrypt, aes, key, iv, faults, text, was, outOff, ciphertext[..]);
    return plaintextLen;
  }

  /** lba_decrypt: the same loop in the other direction. */
  method LbaDecrypt(lib: Library, aes: BlockCipher, plaintext: array<byte>, outOff: nat,
                    ciphertext: array<byte>, inOff: nat, ciphertextLen: int, key: Key, iv: Block, faults: seq<Fault>)
    returns (ret: int)
    requires -0x8000_0000 <= ciphertextLen < 0x8000_0000
    requires Fits(ciphertextLen, plaintext, outOff, ciphertext, inOff)
    modifies lib, plaintext
    ensures ret == BufferReturns(ciphertextLen, faults)
    ensures plaintext[..] == Splice(old(plaintext[..]), outOff,
      BufferOutput(Decrypt, aes, key, iv, faults, Region(ciphertext[..], inOff, ciphertextLen),
                   Region(old(plaintext[..]), outOff, ciphertextLen)))
    ensures lib.created - old(lib.created) == lib.released - old(lib.released)
  {
    hide Splice, Progress, BufferOutput, OneShotOutput, Misaligned, SectorAt, Region, FirstFault, FaultAt;
    ghost var was := plaintext[..];
    ghost var text := Region(ciphertext[..], inOff, ciphertextLen);
    Untouched(Decrypt, aes, key, iv, faults, text, was, outOff, ciphertextLen);
    MisalignedIsRemainder(ciphertextLen);
    if Misaligned(ciphertextLen) {
      return -1;
    }
    var sz := 0;
    while sz < ciphertextLen
      invariant sz % 512 == 0 && 0 <= sz && (sz <= ciphertextLen || sz == 0)
      invariant Progress(Decrypt, aes, key, iv, faults, text, was, outOff, sz / 512, plaintext[..])
      invariant lib.created - old(lib.created) == lib.released - old(lib.released)
    {
      var i := sz / 512;
      ghost var now := plaintext[..];
      RegionSector(ciphertext[..], inOff, ciphertextLen, i);
      ret := AesDecrypt(lib, aes, plaintext, outOff + sz, ciphertext, inOff + sz, 512, key, iv, FaultAt(faults, i));
      if ret < 0 || ret != 512 {
        SectorFails(Decrypt, aes, key, iv, faults, text, was, outOff, i, now);
        return -1;
      }
      OneSectorMore(Decrypt, aes, key, iv, faults, text, was, outOff, i, now);
      sz := sz + 512;
    }
    AllSectorsDone(Decrypt, aes, key, iv, faults, text, was, outOff, plaintext[..]);
    return ciphertextLen;
  }

  lemma Untouched(dir: Direction, aes: BlockCipher, key: Key, iv: Block, faults: seq<Fault>,
                  text: seq<byte>, was: seq<byte>, off: nat, len: int)
    requires |text| == (if len < 0 then 0 else len) && off + |text| <= |was|
    ensures Progress(dir, aes, key, iv, faults, text, was, off, 0, was)
    ensures len % 512 != 0 ==>
              Splice(was, off, BufferOutput(dir, aes, key, iv, faults, text, Region(was, off, len))) == was
  {
    hide Splice;
    RegionUntouched(was, off, len);
    NoSplice(was, off);
  }

  /** The effect of the cipher call for sector `i`, seen from the start of the run. */
  lemma CallEffect(dir: Direction, aes: BlockCipher, key: Key, iv: Block, fault: Fault,
                   text: seq<byte>, was: seq<byte>, off: nat, i: nat)
    requires 512 * (i + 1) <= |text| && off + |text| <= |was|
    ensures var done := Sectors(dir, aes, key, iv, text[..512 * i]);
            var here := off + 512 * i;
            var now := Splice(was, off, done);
            var out := OneShotOutput(dir, aes, key, iv, fault, SectorAt(text, i), Region(now, here, 512));
            && Region(now, here, 512) == SectorAt(Region(was, off, |text|), i)
            && Splice(now, here, out) == Splice(was, off, done + out)
  {
    hide OneShotOutput, CbcMode.Cbc, Sectors, Splice, SectorAt;
    var done := Sectors(dir, aes, key, iv, text[..512 * i]);
    UnderPrefix(was, off, done, |text|, i);
    SpliceAdjacent(was, off, done,
      OneShotOutput(dir, aes, key, iv, fault, SectorAt(text, i), SectorAt(Region(was, off, |text|), i)));
  }

  lemma OneSectorMore(dir: Direction, aes: BlockCipher, key: Key, iv: Block, faults: seq<Fault>,
                      text: seq<byte>, was: seq<byte>, off: nat, i: nat, now: seq<byte>)
    requires |text| % 512 == 0 && 512 * (i + 1) <= |text| && off + |text| <= |was| == |now|
    requires Progress(dir, aes, key, iv, faults, text, was, off, i, now)
    requires FaultAt(faults, i) == NoFault
    ensures Progress(dir, aes, key, iv, faults, text, was, off, i + 1, Splice(now, off + 512 * i,
              OneShotOutput(dir, aes, key, iv, NoFault, SectorAt(text, i), Region(now, off + 512 * i, 512))))
  {
    hide OneShotOutput, CbcMode.Cbc, Sectors, Splice, SectorAt, FirstFault, Region;
    CallEffect(dir, aes, key, iv, NoFault, text, was, off, i);
    SectorsStep(dir, aes, key, iv, text, i);
    GoodSector(dir, aes, key, iv, SectorAt(text, i), Region(now, off + 512 * i, 512));
  }

  lemma SectorFails(dir: Direction, aes: BlockCipher, key: Key, iv: Block, faults: seq<Fault>,
                    text: seq<byte>, was: seq<byte>, off: nat, i: nat, now: seq<byte>)
    requires |text| % 512 == 0 && 512 * (i + 1) <= |text| && off + |text| <= |was| == |now|
    requires Progress(dir, aes, key, iv, faults, text, was, off, i, now)
    requires FaultAt(faults, i) != NoFault
    ensures !AllSectorsSucceed(faults, |text| / 512)
    ensures Splice(now, off + 512 * i,
              OneShotOutput(dir, aes, key, iv, FaultAt(faults, i), SectorAt(text, i), Region(now, off + 512 * i, 512)))
         == Splice(was, off, BufferOutput(dir, aes, key, iv, faults, text, Region(was, off, |text|)))
  {
    hide OneShotOutput, CbcMode.Cbc, Sectors, Splice, SectorAt, FirstFault, Region, BufferOutput;
    var area := Region(was, off, |text|);
    var done := Sectors(dir, aes, key, iv, text[..512 * i]);
    var out := OneShotOutput(dir, aes, key, iv, FaultAt(faults, i), SectorAt(text, i), Region(now, off + 512 * i, 512));
    CallEffect(dir, aes, key, iv, FaultAt(faults, i), text, was, off, i);
    FirstFaultIs(faults, 0, |text| / 512, i);
    FailedOutput(dir, aes, key, iv, faults, text, area, i);
    SpliceTail(was, off, done + out, |text|);
  }

  lemma FailedOutput(dir: Direction, aes: BlockCipher, key: Key, iv: Block, faults: seq<Fault>,
                     text: seq<byte>, was: seq<byte>, f: nat)
    requires |was| == |text| && |text| % 512 == 0 && 512 * (f + 1) <= |text|
    requires FirstFault(faults, 0, |text| / 512) == f
    ensures f < |faults|
    ensures BufferOutput(dir, aes, key, iv, faults, text, was)
         == Sectors(dir, aes, key, iv, text[..512 * f])
            + OneShotOutput(dir, aes, key, iv, faults[f], SectorAt(text, f), SectorAt(was, f))
            + was[512 * (f + 1)..]
  {
    hide OneShotOutput, CbcMode.Cbc, Sectors, SectorAt, FirstFault;
  }

  lemma AllSectorsDone(dir: Direction, aes: BlockCipher, key: Key, iv: Block, faults: seq<Fault>,
                       text: seq<byte>, was: seq<byte>, off: nat, now: seq<byte>)
    requires |text| % 512 == 0 && off + |text| <= |was|
    requires Progress(dir, aes, key, iv, faults, text, was, off, |text| / 512, now)
    ensures AllSectorsSucceed(faults, |text| / 512)
    ensures now == Splice(was, off, BufferOutput(dir, aes, key, iv, faults, text, Region(was, off, |text|)))
  {
    hide Sectors, Splice;
    FirstFaultIs(faults, 0, |text| / 512, |text| / 512);
    assert text[..512 * (|text| / 512)] == text;
  }

  lemma SectorsStep(dir: Direction, aes: BlockCipher, key: Key, iv: Block, text: seq<byte>, i: nat)
    requires 512 * (i + 1) <= |text|
    ensures Sectors(dir, aes, key, iv, text[..512 * (i + 1)])
         == Sectors(dir, aes, key, iv, text[..512 * i]) + Cbc(dir, aes, key, iv, SectorAt(text, i))
  {
    hide Sectors, CbcMode.Cbc;
    assert text[..512 * (i + 1)] == text[..512 * i] + SectorAt(text, i);
    SectorsConcat(dir, aes, key, iv, text[..512 * i], SectorAt(text, i));
    OneSector(dir, aes, key, iv, SectorAt(text, i));
  }

  lemma UnderPrefix(was: seq<byte>, off: nat, a: seq<byte>, n: nat, i: nat)
    requires |a| == 512 * i && 512 * (i + 1) <= n && off + n <= |was|
    ensures Region(Splice(was, off, a), off + 512 * i, 512) == SectorAt(Region(was, off, n), i)
  {
    hide Splice;
    var r, here := Splice(was, off, a), off + 512 * i;
    SpliceParts(was, off, a);
    SlicesAgree(r, was, here, |r|, here, here + 512);
    SliceOfSlice(was, off, off + n, 512 * i, 512 * (i + 1));
  }

  lemma RegionSector(s: seq<byte>, off: nat, len: nat, i: nat)
    requires 512 * (i + 1) <= len && off + len <= |s|
    ensures SectorAt(Region(s, off, len), i) == Region(s, off + 512 * i, 512)
  {
    SliceOfSlice(s, off, off + len, 512 * i, 512 * (i + 1));
  }

  lemma SpliceTail(was: seq<byte>, off: nat, a: seq<byte>, n: nat)
    requires |a| <= n && off + n <= |was|
    ensures Splice(was, off, a) == Splice(was, off, a + Region(was, off, n)[|a|..])
  {
  }

  lemma OneSector(dir: Direction, aes: BlockCipher, key: Key, iv: Block, sector: seq<byte>)
    requires |sector| == 512
    ensures Sectors(dir, aes, key, iv, sector) == Cbc(dir, aes, key, iv, sector)
  {
    hide CbcMode.Cbc;
    assert sector[..512] == sector;
  }

  lemma GoodSector(dir: Direction, aes: BlockCipher, key: Key, iv: Block, sector: seq<byte>, was: seq<byte>)
    requires |sector| == |was| == 512
    ensures OneShotOutput(dir, aes, key, iv, NoFault, sector, was) == Cbc(dir, aes, key, iv, sector)
  {
    hide CbcMode.Cbc;
  }

  // ---------------------------------------------------------------------------
  // Regrouping

  /** Sector-aligned pieces may be processed together or apart. */
  lemma {:induction false} SectorsConcat(dir: Direction, aes: BlockCipher, key: Key, iv: Block, a: seq<byte>, b: seq<byte>)
    requires |a| % 512 == 0
    ensures Sectors(dir, aes, key, iv, a + b) == Sectors(dir, aes, key, iv, a) + Sectors(dir, aes, key, iv, b)
    decreases |a|
  {
    hide CbcMode.Cbc;
    if a == [] {
      assert a + b == b;
    } else {
      SectorsConcat(dir, aes, key, iv, a[512..], b);
      assert (a + b)[..512] == a[..512];
      assert (a + b)[512..] == a[512..] + b;
    }
  }

  /** Any sector-aligned slice of the output is the output for that slice of the input. */
  lemma SectorsSlice(dir: Direction, aes: BlockCipher, key: Key, iv: Block, text: seq<byte>, lo: nat, hi: nat)
    requires lo <= hi && 512 * hi <= |text|
    ensures Sectors(dir, aes, key, iv, text)[512 * lo..512 * hi] == Sectors(dir, aes, key, iv, text[512 * lo..512 * hi])
  {
    hide Sectors;
    var a, b, c := text[..512 * lo], text[512 * lo..512 * hi], text[512 * hi..];
    assert text == a + b + c && |a| == 512 * lo && |b| == 512 * hi - 512 * lo;
    SectorsConcat(dir, aes, key, iv, a + b, c);
    SectorsConcat(dir, aes, key, iv, a, b);
    var x, y, z := Sectors(dir, aes, key, iv, a), Sectors(dir, aes, key, iv, b), Sectors(dir, aes, key, iv, c);
    assert |x| == 512 * lo && |x| + |y| == 512 * hi;
    Middle(x, y, z);
  }

  lemma SectorOfSectors(dir: Direction, aes: BlockCipher, key: Key, iv: Block, text: seq<byte>, i: nat)
    requires 512 * (i + 1) <= |text|
    ensures SectorAt(Sectors(dir, aes, key, iv, text), i) == Cbc(dir, aes, key, iv, SectorAt(text, i))
  {
    hide Sectors, CbcMode.Cbc;
    SectorsSlice(dir, aes, key, iv, text, i, i + 1);
    OneSector(dir, aes, key, iv, SectorAt(text, i));
  }

  // ---------------------------------------------------------------------------
  // Round trips

  lemma {:induction false} SectorsRoundTrip(dir: Direction, aes: BlockCipher, key: Key, iv: Block, text: seq<byte>)
    requires aes.Invertible(key)
    requires |text| % 512 == 0
    ensures Sectors(dir.Opposite(), aes, key, iv, Sectors(dir, aes, key, iv, text)) == text
    decreases |text|
  {
    hide CbcMode.Cbc;
    if text != [] {
      var head := Cbc(dir, aes, key, iv, text[..512]);
      var tail := Sectors(dir, aes, key, iv, text[512..]);
      CbcRoundTrip(dir, aes, key, iv, text[..512]);
      SectorsRoundTrip(dir, aes, key, iv, text[512..]);
      assert (head + tail)[..512] == head && (head + tail)[512..] == tail;
    }
  }

  /** A buffer sent through one call and then the opposite one comes back, whatever the two output areas
      held before, as soon as both calls return the full length. */
  lemma BufferRoundTrip(dir: Direction, aes: BlockCipher, key: Key, iv: Block, text: seq<byte>,
                        was1: seq<byte>, was2: seq<byte>, faults1: seq<Fault>, faults2: seq<Fault>)
    requires aes.Invertible(key)
    requires |text| == |was1| == |was2|
    requires BufferReturns(|text|, faults1) == BufferReturns(|text|, faults2) == |text|
    ensures var there := BufferOutput(dir, aes, key, iv, faults1, text, was1);
            BufferOutput(dir.Opposite(), aes, key, iv, faults2, there, was2) == text
  {
    hide Sectors, FirstFault;
    SectorsRoundTrip(dir, aes, key, iv, text);
  }

  /** Data encrypted in one command decrypts correctly under any other sector-aligned cut. */
  lemma SliceDecrypts(aes: BlockCipher, key: Key, iv: Block, text: seq<byte>, lo: nat, hi: nat)
    requires aes.Invertible(key)
    requires |text| % 512 == 0 && lo <= hi && 512 * hi <= |text|
    ensures Sectors(Decrypt, aes, key, iv, Sectors(Encrypt, aes, key, iv, text)[512 * lo..512 * hi])
         == text[512 * lo..512 * hi]
  {
    hide Sectors;
    SectorsSlice(Encrypt, aes, key, iv, text, lo, hi);
    SectorsRoundTrip(Encrypt, aes, key, iv, text[512 * lo..512 * hi]);
  }

  // ---------------------------------------------------------------------------
  // Change locality

  /** The CBC equations over a whole buffer: block `b` chains from block `b - 1`, except at a sector start. */
  lemma BufferEquations(dir: Direction, aes: BlockCipher, key: Key, iv: Block, text: seq<byte>, b: nat)
    requires |text| % 512 == 0 && 16 * (b + 1) <= |text|
    ensures var out := Sectors(dir, aes, key, iv, text);
            BlockAt(out, b) == match dir
              case Encrypt => aes.E(key, Xor(BlockAt(text, b), if b % 32 == 0 then iv else BlockAt(out, b - 1)))
              case Decrypt => Xor(aes.D(key, BlockAt(text, b)), if b % 32 == 0 then iv else BlockAt(text, b - 1))
  {
    hide Sectors, CbcMode.Cbc, Xor, BlockAt, SectorAt;
    var out := Sectors(dir, aes, key, iv, text);
    var i, j := b / 32, b % 32;
    SectorOfSectors(dir, aes, key, iv, text, i);
    CbcEquations(dir, aes, key, iv, SectorAt(text, i), j);
    BlockOfSector(text, i, j);
    BlockOfSector(out, i, j);
    if j > 0 {
      BlockOfSector(text, i, j - 1);
      BlockOfSector(out, i, j - 1);
    }
  }

  lemma BlockOfSector(s: seq<byte>, i: nat, j: nat)
    requires 512 * (i + 1) <= |s| && j < 32
    ensures BlockAt(SectorAt(s, i), j) == BlockAt(s, 32 * i + j)
  {
    SliceOfSlice(s, 512 * i, 512 * (i + 1), 16 * j, 16 * (j + 1));
  }

  /** Altering one plaintext block alters that ciphertext block and the later ones of its sector, nothing else. */
  lemma {:induction false} EncryptLocality(aes: BlockCipher, key: Key, iv: Block, x: seq<byte>, y: seq<byte>, b: nat, i: nat)
    requires aes.Invertible(key)
    requires |x| % 512 == 0 && DifferOnlyInBlock(x, y, b)
    requires 16 * (i + 1) <= |x|
    ensures BlockAt(Sectors(Encrypt, aes, key, iv, x), i) != BlockAt(Sectors(Encrypt, aes, key, iv, y), i)
       <==> b <= i && i / 32 == b / 32
    decreases i
  {
    hide Sectors, Xor, BlockAt;
    BufferEquations(Encrypt, aes, key, iv, x, i);
    BufferEquations(Encrypt, aes, key, iv, y, i);
    var u, v := BlockAt(x, i), BlockAt(y, i);
    if i % 32 == 0 {
      XorInjective(u, v, iv);
      EInjective(aes, key, Xor(u, iv), Xor(v, iv));
    } else {
      EncryptLocality(aes, key, iv, x, y, b, i - 1);
      var p := BlockAt(Sectors(Encrypt, aes, key, iv, x), i - 1);
      var q := BlockAt(Sectors(Encrypt, aes, key, iv, y), i - 1);
      EInjective(aes, key, Xor(u, p), Xor(v, q));
      if p == q {
        XorInjective(u, v, p);
      } else {
        assert u == v;
        XorInjective(p, q, u);
      }
    }
  }

  /** Altering one ciphertext block alters exactly that plaintext block and, unless it ends its sector, the next. */
  lemma DecryptLocality(aes: BlockCipher, key: Key, iv: Block, x: seq<byte>, y: seq<byte>, b: nat, i: nat)
    requires aes.Invertible(key)
    requires |x| % 512 == 0 && DifferOnlyInBlock(x, y, b)
    requires 16 * (i + 1) <= |x|
    ensures BlockAt(Sectors(Decrypt, aes, key, iv, x), i) != BlockAt(Sectors(Decrypt, aes, key, iv, y), i)
       <==> i == b || (i == b + 1 && i % 32 != 0)
  {
    hide Sectors, Xor, BlockAt;
    BufferEquations(Decrypt, aes, key, iv, x, i);
    BufferEquations(Decrypt, aes, key, iv, y, i);
    hide DifferOnlyInBlock;
    DifferAt(x, y, b, i);
    var first := i % 32 == 0;
    if !first {
      DifferAt(x, y, b, i - 1);
    }
    PlaintextsDiffer(aes, key, BlockAt(x, i), BlockAt(y, i),
      if first then iv else BlockAt(x, i - 1), if first then iv else BlockAt(y, i - 1));
  }

  lemma PlaintextsDiffer(aes: BlockCipher, key: Key, u: Block, v: Block, p: Block, q: Block)
    requires aes.Invertible(key) && (u == v || p == q)
    ensures Xor(aes.D(key, u), p) != Xor(aes.D(key, v), q) <==> u != v || p != q
  {
    hide Xor;
    DInjective(aes, key, u, v);
    if u == v {
      XorInjective(p, q, aes.D(key, u));
    } else {
      XorInjective(aes.D(key, u), aes.D(key, v), p);
    }
  }

  // ---------------------------------------------------------------------------
  // Failure frame

  /** When sector `f` is the first to fail, or the number of sectors if none does: every earlier sector is its full
      transform, sector `f` is as its call leaves it, and every later one is untouched. On a misaligned length
      nothing at all is written. */
  lemma FailureFrame(dir: Direction, aes: BlockCipher, key: Key, iv: Block, faults: seq<Fault>,
                     text: seq<byte>, was: seq<byte>, f: nat, i: nat)
    requires |was| == |text| && 512 * f <= |text|
    requires forall j | 0 <= j < f && j < |faults| :: faults[j].NoFault?
    requires 512 * (f + 1) <= |text| ==> f < |faults| && !faults[f].NoFault?
    requires 512 * (i + 1) <= |text|
    ensures var out := BufferOutput(dir, aes, key, iv, faults, text, was);
            && (|text| % 512 != 0 ==> out == was)
            && (|text| % 512 == 0 ==>
                 SectorAt(out, i) ==
                 if i < f then Cbc(dir, aes, key, iv, SectorAt(text, i))
                 else if i == f then OneShotOutput(dir, aes, key, iv, faults[f], SectorAt(text, f), SectorAt(was, f))
                 else SectorAt(was, i))
  {
    hide Sectors, CbcMode.Cbc, OneShotOutput, FirstFault, SectorAt;
    if |text| % 512 == 0 {
      var n := |text| / 512;
      FirstFaultIs(faults, 0, n, f);
      if f == n {
        SectorOfSectors(dir, aes, key, iv, text, i);
      } else {
        FailedOutput(dir, aes, key, iv, faults, text, was, f);
        FailedSectors(dir, aes, key, iv, faults[f], text, was, f, i);
      }
    }
  }

  lemma FailedSectors(dir: Direction, aes: BlockCipher, key: Key, iv: Block, fault: Fault,
                      text: seq<byte>, was: seq<byte>, f: nat, i: nat)
    requires |was| == |text| && |text| % 512 == 0 && 512 * (f + 1) <= |text| && 512 * (i + 1) <= |text|
    ensures var done := Sectors(dir, aes, key, iv, text[..512 * f]);
            var out := done + OneShotOutput(dir, aes, key, iv, fault, SectorAt(text, f), SectorAt(was, f))
                       + was[512 * (f + 1)..];
            SectorAt(out, i) ==
            if i < f then Cbc(dir, aes, key, iv, SectorAt(text, i))
            else if i == f then OneShotOutput(dir, aes, key, iv, fault, SectorAt(text, f), SectorAt(was, f))
            else SectorAt(was, i)
  {
    hide Sectors, CbcMode.Cbc, OneShotOutput, SectorAt;
    var done := Sectors(dir, aes, key, iv, text[..512 * f]);
    var spot := OneShotOutput(dir, aes, key, iv, fault, SectorAt(text, f), SectorAt(was, f));
    SectorOfConcat(done + spot, was[512 * (f + 1)..], f + 1, i);
    if i < f {
      SectorOfConcat(done, spot, f, i);
      SectorOfSectors(dir, aes, key, iv, text[..512 * f], i);
      assert text == text[..512 * f] + text[512 * f..];
      SectorOfConcat(text[..512 * f], text[512 * f..], f, i);
    } else if i == f {
      SectorOfConcat(done, spot, f, i);
      WholeSector(spot);
    } else {
      assert was == was[..512 * (f + 1)] + was[512 * (f + 1)..];
      SectorOfConcat(was[..512 * (f + 1)], was[512 * (f + 1)..], f + 1, i);
    }
  }

  lemma WholeSector(s: seq<byte>)
    requires |s| == 512
    ensures SectorAt(s, 0) == s
  {
  }

  lemma SectorOfConcat(a: seq<byte>, b: seq<byte>, f: nat, i: nat)
    requires |a| == 512 * f && 512 * (i + 1) <= |a| + |b|
    ensures SectorAt(a + b, i) == if i < f then SectorAt(a, i) else SectorAt(b, i - f)
  {
    SliceOfConcat(a, b, 512 * i, 512 * (i + 1));
  }
}
