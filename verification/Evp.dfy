/** The EVP cipher context with padding off, and the one-shot AES-CBC calls built on it. */
module Evp {
  import opened Bytes
  import opened CbcMode

  /** Which library call of a one-shot operation fails, if any. A failing update may leave anything in
      the area it was given, here `junk`. */
  datatype Fault = NoFault | NewFails | InitFails | UpdateFails(junk: seq<byte>) | FinalFails

  /** Counts the contexts handed out and taken back. */
  class Library {
    var created: nat
    var released: nat

    constructor ()
      ensures created == 0 && released == 0
    {
      created, released := 0, 0;
    }

    method NewContext(aes: BlockCipher, fails: bool) returns (ctx: Context?)
      modifies this
      ensures ctx == null <==> fails
      ensures fails ==> created == old(created)
      ensures !fails ==> fresh(ctx) && ctx.live && !ctx.initialised && ctx.aes == aes && created == old(created) + 1
      ensures released == old(released)
    {
      if fails {
        return null;
      }
      ctx := new Context(aes);
      created := created + 1;
    }
  }

  /** An EVP_CIPHER_CTX. `whole` is the part of its input that has been through the cipher. */
  class Context {
    const aes: BlockCipher
    var live: bool
    var initialised: bool
    var padding: bool
    var dir: Direction
    var key: Key
    var chain: Block
    var pending: seq<byte>

    ghost var iv: Block
    ghost var whole: seq<byte>

    ghost predicate Valid()
      reads this
    {
      && live && initialised
      && |whole| % 16 == 0 && |pending| < 16
      && chain == ChainAfter(dir, aes, key, iv, whole)
    }

    /** All the input of this context so far. */
    ghost function Consumed(): seq<byte>
      reads this
    {
      whole + pending
    }

    /** All the output of this context so far: the CBC of all its input, however it was cut up. */
    ghost function Emitted(): seq<byte>
      reads this
    {
      Cbc(dir, aes, key, iv, Consumed())
    }

    constructor (aes: BlockCipher)
      ensures live && !initialised && this.aes == aes
    {
      this.aes := aes;
      live, initialised, padding := true, false, true;
      dir, pending := Encrypt, [];
      key, chain := seq(32, _ => 0), seq(16, _ => 0);
      iv, whole := seq(16, _ => 0), [];
    }

    method Init(dir: Direction, key: Key, iv: Block, fails: bool) returns (ok: bool)
      requires live
      modifies this
      ensures ok == !fails && live
      ensures ok ==> Valid() && padding && this.dir == dir && this.key == key && this.iv == iv && Consumed() == []
    {
      if fails {
        return false;
      }
      this.dir, this.key, this.chain, this.iv := dir, key, iv, iv;
      initialised, padding := true, true;
      pending, whole := [], [];
      return true;
    }

    method SetPadding(on: bool)
      requires live
      modifies this`padding
      ensures padding == on
    {
      padding := on;
    }

    /** Emits the whole blocks now available and keeps the residue; a negative length is refused. */
    method Update(out: array<byte>, outOff: nat, inp: array<byte>, inOff: nat, inl: int, fault: Fault)
      returns (ok: bool, outl: nat)
      requires Valid() && !padding && out != inp
      requires 0 <= inl ==> outOff + |pending| + inl <= out.Length && inOff + inl <= inp.Length
      modifies this, out
      ensures live && !padding && dir == old(dir) && key == old(key) && iv == old(iv)
      ensures ok == (inl >= 0 && !fault.UpdateFails?)
      ensures ok ==> Valid() && Consumed() == old(Consumed()) + inp[inOff..inOff + inl]
      ensures ok ==> outl <= |old(pending)| + inl && Emitted() == old(Emitted()) + out[outOff..outOff + outl]
      ensures ok ==> out[..] == Splice(old(out[..]), outOff, out[outOff..outOff + outl])
      ensures !ok && inl >= 0 ==>
                out[..] == Splice(old(out[..]), outOff, Overlay(fault.junk, old(out[outOff..outOff + inl])))
      ensures inl < 0 ==> out[..] == old(out[..])
    {
      hide Splice, Overlay, CbcMode.Cbc, ChainAfter;
      if inl < 0 {
        return false, 0;
      }
      if fault.UpdateFails? {
        WriteAt(out, outOff, Overlay(fault.junk, out[outOff..outOff + inl]));
        return false, 0;
      }
      outl := Feed(out, outOff, inp[inOff..inOff + inl]);
      ok := true;
    }

    /** The successful update. */
    method Feed(out: array<byte>, outOff: nat, data: seq<byte>) returns (outl: nat)
      requires Valid() && outOff + |pending| + |data| <= out.Length
      modifies this`chain, this`pending, this`whole, out
      ensures Valid() && Consumed() == old(Consumed()) + data
      ensures outl <= |old(pending)| + |data| && Emitted() == old(Emitted()) + out[outOff..outOff + outl]
      ensures out[..] == Splice(old(out[..]), outOff, out[outOff..outOff + outl])
    {
      hide Splice, CbcMode.Cbc, ChainAfter;
      var text := pending + data;
      var n := |text| / 16 * 16;
      var t, residue := text[..n], text[n..];
      ghost var consumed := Consumed();
      Advance(dir, aes, key, iv, whole, pending, data);
      assert whole + t + residue == consumed + data;
      var result := Cbc(dir, aes, key, chain, t);
      SpliceParts(out[..], outOff, result);
      WriteAt(out, outOff, result);
      assert out[outOff..outOff + n] == result;
      chain, pending, whole := ChainAfter(dir, aes, key, chain, t), residue, whole + t;
      assert Consumed() == consumed + data;
      outl := n;
    }

    /** With padding off nothing is emitted, and a residue is an error. */
    method Final(fault: Fault) returns (ok: bool, outl: nat)
      requires Valid() && !padding
      ensures ok == (!fault.FinalFails? && |Consumed()| % 16 == 0) && outl == 0
    {
      ok, outl := !fault.FinalFails? && pending == [], 0;
    }

    method Free(lib: Library)
      requires live
      modifies this`live, lib`released
      ensures !live && lib.released == old(lib.released) + 1
    {
      live := false;
      lib.released := lib.released + 1;
    }
  }

  /** One update of the stream: with `t` the whole blocks now available, the output grows by the CBC of `t` from the
      current chaining value. */
  lemma Advance(dir: Direction, aes: BlockCipher, key: Key, iv: Block, whole: seq<byte>, pending: seq<byte>, data: seq<byte>)
    requires |whole| % 16 == 0 && |pending| < 16
    ensures var text, chain := pending + data, ChainAfter(dir, aes, key, iv, whole);
            var n := |text| / 16 * 16;
            && whole + text[..n] + text[n..] == whole + pending + data
            && Cbc(dir, aes, key, iv, whole + pending + data)
               == Cbc(dir, aes, key, iv, whole + pending) + Cbc(dir, aes, key, chain, text[..n])
            && ChainAfter(dir, aes, key, iv, whole + text[..n]) == ChainAfter(dir, aes, key, chain, text[..n])
  {
    hide CbcMode.Cbc, ChainAfter;
    var text := pending + data;
    var n := |text| / 16 * 16;
    assert text == text[..n] + text[n..];
    Regroup(whole, pending, data);
    Regroup(whole, text[..n], text[n..]);
    CbcWhole(dir, aes, key, iv, whole, pending);
    CbcSplit(dir, aes, key, iv, whole, text[..n]);
    CbcWhole(dir, aes, key, iv, whole + text[..n], text[n..]);
  }

  // ---------------------------------------------------------------------------
  // One-shot operations

  /** What a one-shot call leaves in an output area that held `was`. */
  function OneShotOutput(dir: Direction, aes: BlockCipher, key: Key, iv: Block, fault: Fault,
                         text: seq<byte>, was: seq<byte>): (r: seq<byte>)
    requires |was| == |text|
    ensures |r| == |was|
  {
    match fault
    case NewFails => was
    case InitFails => was
    case UpdateFails(junk) => Overlay(junk, was)
    case _ => Overlay(Cbc(dir, aes, key, iv, text), was)
  }

  /** Byte by byte: nothing is written before the update, a failing update leaves its junk, and otherwise the whole
      blocks are transformed, even when the final call fails. */
  lemma OneShotBytes(dir: Direction, aes: BlockCipher, key: Key, iv: Block, fault: Fault, text: seq<byte>, was: seq<byte>,
                     i: nat)
    requires i < |was| == |text|
    ensures OneShotOutput(dir, aes, key, iv, fault, text, was)[i] ==
            if fault.NewFails? || fault.InitFails? then was[i]
            else if fault.UpdateFails? then (if i < |fault.junk| then fault.junk[i] else was[i])
            else if i < |text| - |text| % 16 then Cbc(dir, aes, key, iv, text)[i]
            else was[i]
  {
    hide Overlay, CbcMode.Cbc;
    OverlayAt(if fault.UpdateFails? then fault.junk else Cbc(dir, aes, key, iv, text), was, i);
  }

  function Region(s: seq<byte>, off: nat, len: int): (r: seq<byte>)
    requires 0 <= len ==> off + len <= |s|
    ensures |r| == if len < 0 then 0 else len
  {
    if len < 0 then [] else s[off..off + len]
  }

  ghost predicate Fits(len: int, out: array<byte>, outOff: nat, inp: array<byte>, inOff: nat)
  {
    && out != inp
    && outOff <= out.Length
    && (0 <= len ==> outOff + len <= out.Length && inOff + len <= inp.Length)
  }

  /** Writing back a region changes nothing. */
  lemma RegionUntouched(was: seq<byte>, off: nat, len: int)
    requires off <= |was| && (0 <= len ==> off + len <= |was|)
    ensures Splice(was, off, Region(was, off, len)) == was
  {
  }

  /** aes_encrypt: on every path a context that was created is released exactly once. */
  method AesEncrypt(lib: Library, aes: BlockCipher, ciphertext: array<byte>, outOff: nat,
                    plaintext: array<byte>, inOff: nat, plaintextLen: int, key: Key, iv: Block, fault: Fault)
    returns (ret: int)
    requires Fits(plaintextLen, ciphertext, outOff, plaintext, inOff)
    modifies lib, ciphertext
    ensures ret == if fault.NoFault? && 0 <= plaintextLen && plaintextLen % 16 == 0 then plaintextLen else -1
    ensures ciphertext[..] == Splice(old(ciphertext[..]), outOff,
      OneShotOutput(Encrypt, aes, key, iv, fault, Region(plaintext[..], inOff, plaintextLen),
                    Region(old(ciphertext[..]), outOff, plaintextLen)))
    ensures lib.created - old(lib.created) == lib.released - old(lib.released) == if fault.NewFails? then 0 else 1
  {
    hide Splice, Overlay, CbcMode.Cbc;
    ghost var was := ciphertext[..];
    RegionUntouched(was, outOff, plaintextLen);
    var ctx := lib.NewContext(aes, fault.NewFails?);
    if ctx == null {
      return -1;
    }
    var ok := ctx.Init(Encrypt, key, iv, fault.InitFails?);
    if !ok {
      ctx.Free(lib);
      return -1;
    }
    ctx.SetPadding(false);
    var len;
    ok, len := ctx.Update(ciphertext, outOff, plaintext, inOff, plaintextLen, fault);
    if !ok {
      ctx.Free(lib);
      return -1;
    }
    ghost var text := Region(plaintext[..], inOff, plaintextLen);
    assert ctx.Consumed() == text;
    assert ciphertext[outOff..outOff + len] == CbcMode.Cbc(Encrypt, aes, key, iv, text);
    SpliceOverlay(was, outOff, plaintextLen, ciphertext[outOff..outOff + len]);
    var ciphertextLen := len;
    ok, len := ctx.Final(fault);
    if !ok {
      ctx.Free(lib);
      return -1;
    }
    ciphertextLen := ciphertextLen + len;
    ctx.Free(lib);
    return ciphertextLen;
  }

  /** aes_decrypt: the same protocol in the other direction. */
  method AesDecrypt(lib: Library, aes: BlockCipher, plaintext: array<byte>, outOff: nat,
                    ciphertext: array<byte>, inOff: nat, ciphertextLen: int, key: Key, iv: Block, fault: Fault)
    returns (ret: int)
    requires Fits(ciphertextLen, plaintext, outOff, ciphertext, inOff)
    modifies lib, plaintext
    ensures ret == if fault.NoFault? && 0 <= ciphertextLen && ciphertextLen % 16 == 0 then ciphertextLen else -1
    ensures plaintext[..] == Splice(old(plaintext[..]), outOff,
      OneShotOutput(Decrypt, aes, key, iv, fault, Region(ciphertext[..], inOff, ciphertextLen),
                    Region(old(plaintext[..]), outOff, ciphertextLen)))
    ensures lib.created - old(lib.created) == lib.released - old(lib.released) == if fault.NewFails? then 0 else 1
  {
    hide Splice, Overlay, CbcMode.Cbc;
    ghost var was := plaintext[..];
    RegionUntouched(was, outOff, ciphertextLen);
    var ctx := lib.NewContext(aes, fault.NewFails?);
    if ctx == null {
      return -1;
    }
    var ok := ctx.Init(Decrypt, key, iv, fault.InitFails?);
    if !ok {
      ctx.Free(lib);
      return -1;
    }
    ctx.SetPadding(false);
    var len;
    ok, len := ctx.Update(plaintext, outOff, ciphertext, inOff, ciphertextLen, fault);
    if !ok {
      ctx.Free(lib);
      return -1;
    }
    ghost var text := Region(ciphertext[..], inOff, ciphertextLen);
    assert ctx.Consumed() == text;
    assert plaintext[outOff..outOff + len] == CbcMode.Cbc(Decrypt, aes, key, iv, text);
    SpliceOverlay(was, outOff, ciphertextLen, plaintext[outOff..outOff + len]);
    var plaintextLen := len;
    ok, len := ctx.Final(fault);
    if !ok {
      ctx.Free(lib);
      return -1;
    }
    plaintextLen := plaintextLen + len;
    ctx.Free(lib);
    return plaintextLen;
  }
}
