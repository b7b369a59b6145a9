/** Cipher block chaining over an abstract invertible block cipher (section 6.2 of NIST SP 800-38A). */
module CbcMode {
  import opened Bytes

  type Block = b: seq<byte> | |b| == 16 witness seq(16, _ => 0)
  type Key = k: seq<byte> | |k| == 32 witness seq(32, _ => 0)

  /** AES-256 as a pair of block functions. Nothing but mutual inverseness is ever assumed of it. */
  datatype BlockCipher = BlockCipher(E: (Key, Block) -> Block, D: (Key, Block) -> Block)
  {
    ghost predicate Invertible(key: Key)
    {
      && (forall b: Block :: D(key, E(key, b)) == b)
      && (forall b: Block :: E(key, D(key, b)) == b)
    }
  }

  datatype Direction = Encrypt | Decrypt
  {
    function Opposite(): Direction
    {
      match this
      case Encrypt => Decrypt
      case Decrypt => Encrypt
    }
  }

  function BlockAt(s: seq<byte>, j: nat): (b: Block)
    requires 16 * (j + 1) <= |s|
  {
    s[16 * j..16 * (j + 1)]
  }

  /** The output block for input block `x` under chaining value `chain`. */
  function Output(dir: Direction, aes: BlockCipher, key: Key, chain: Block, x: Block): Block
  {
    match dir
    case Encrypt => aes.E(key, Xor(x, chain))
    case Decrypt => Xor(aes.D(key, x), chain)
  }

  /** The next chaining value: whichever of input and output is the ciphertext block. */
  function Next(dir: Direction, aes: BlockCipher, key: Key, chain: Block, x: Block): Block
  {
    match dir
    case Encrypt => Output(Encrypt, aes, key, chain, x)
    case Decrypt => x
  }

  /** CBC over the whole blocks of `text`; trailing bytes short of a block produce nothing. */
  function Cbc(dir: Direction, aes: BlockCipher, key: Key, iv: Block, text: seq<byte>): (r: seq<byte>)
    ensures |r| == |text| / 16 * 16
    decreases |text|
  {
    if |text| < 16 then
      []
    else
      var x: Block := text[..16];
      Output(dir, aes, key, iv, x) + Cbc(dir, aes, key, Next(dir, aes, key, iv, x), text[16..])
  }

  /** The chaining value after the whole blocks of `text`. */
  function ChainAfter(dir: Direction, aes: BlockCipher, key: Key, iv: Block, text: seq<byte>): Block
    decreases |text|
  {
    if |text| < 16 then
      iv
    else
      var x: Block := text[..16];
      ChainAfter(dir, aes, key, Next(dir, aes, key, iv, x), text[16..])
  }

  /** CBC may be fed piecewise: continuing from the chaining value gives the same output. */
  lemma {:induction false} CbcSplit(dir: Direction, aes: BlockCipher, key: Key, iv: Block, a: seq<byte>, b: seq<byte>)
    requires |a| % 16 == 0
    ensures Cbc(dir, aes, key, iv, a + b)
         == Cbc(dir, aes, key, iv, a) + Cbc(dir, aes, key, ChainAfter(dir, aes, key, iv, a), b)
    ensures ChainAfter(dir, aes, key, iv, a + b)
         == ChainAfter(dir, aes, key, ChainAfter(dir, aes, key, iv, a), b)
    decreases |a|
  {
    hide Output, Next;
    if a == [] {
      assert a + b == b;
    } else {
      var x: Block := a[..16];
      CbcSplit(dir, aes, key, Next(dir, aes, key, iv, x), a[16..], b);
      assert (a + b)[..16] == x;
      assert (a + b)[16..] == a[16..] + b;
    }
  }

  /** A residue shorter than a block takes no part. */
  lemma CbcWhole(dir: Direction, aes: BlockCipher, key: Key, iv: Block, w: seq<byte>, residue: seq<byte>)
    requires |w| % 16 == 0 && |residue| < 16
    ensures Cbc(dir, aes, key, iv, w + residue) == Cbc(dir, aes, key, iv, w)
  {
    CbcSplit(dir, aes, key, iv, w, residue);
  }

  /** The j-th output block is given by the CBC equations of the standard. */
  lemma {:induction false} CbcEquations(dir: Direction, aes: BlockCipher, key: Key, iv: Block, text: seq<byte>, j: nat)
    requires 16 * (j + 1) <= |text|
    ensures var out := Cbc(dir, aes, key, iv, text);
            BlockAt(out, j) == match dir
              case Encrypt => aes.E(key, Xor(BlockAt(text, j), if j == 0 then iv else BlockAt(out, j - 1)))
              case Decrypt => Xor(aes.D(key, BlockAt(text, j)), if j == 0 then iv else BlockAt(text, j - 1))
    decreases j
  {
    hide Xor, Cbc;
    var out := Cbc(dir, aes, key, iv, text);
    var x := BlockAt(text, 0);
    var chain := Next(dir, aes, key, iv, x);
    FirstBlock(dir, aes, key, iv, text);
    if j > 0 {
      CbcEquations(dir, aes, key, chain, text[16..], j - 1);
      BlockShift(out, j);
      BlockShift(text, j);
      if j > 1 {
        BlockShift(out, j - 1);
        BlockShift(text, j - 1);
      }
    }
  }

  lemma FirstBlock(dir: Direction, aes: BlockCipher, key: Key, iv: Block, text: seq<byte>)
    requires |text| >= 16
    ensures var x := BlockAt(text, 0);
            var out := Cbc(dir, aes, key, iv, text);
            && BlockAt(out, 0) == Output(dir, aes, key, iv, x)
            && out[16..] == Cbc(dir, aes, key, Next(dir, aes, key, iv, x), text[16..])
  {
    hide Output, Next;
    var x: Block := BlockAt(text, 0);
    assert x == text[..16];
    var y: seq<byte> := Output(dir, aes, key, iv, x);
    var rest: seq<byte> := Cbc(dir, aes, key, Next(dir, aes, key, iv, x), text[16..]);
    assert Cbc(dir, aes, key, iv, text) == y + rest;
    assert (y + rest)[0..16] == y && (y + rest)[16..] == rest;
  }

  lemma BlockShift(s: seq<byte>, j: nat)
    requires j > 0 && 16 * (j + 1) <= |s|
    ensures BlockAt(s, j) == BlockAt(s[16..], j - 1)
  {
    SliceOfSlice(s, 16, |s|, 16 * (j - 1), 16 * j);
  }

  /** Encryption and decryption undo each other, in both orders. */
  lemma {:induction false} CbcRoundTrip(dir: Direction, aes: BlockCipher, key: Key, iv: Block, text: seq<byte>)
    requires aes.Invertible(key)
    requires |text| % 16 == 0
    ensures Cbc(dir.Opposite(), aes, key, iv, Cbc(dir, aes, key, iv, text)) == text
    decreases |text|
  {
    if text != [] {
      var x: Block := text[..16];
      var y: Block := Output(dir, aes, key, iv, x);
      var chain: Block := Next(dir, aes, key, iv, x);
      var rest := Cbc(dir, aes, key, chain, text[16..]);
      CbcRoundTrip(dir, aes, key, chain, text[16..]);
      assert (y + rest)[..16] == y && (y + rest)[16..] == rest;
      match dir {
        case Encrypt =>
          XorCancel(x, iv);
        case Decrypt =>
          XorCancel(aes.D(key, x), iv);
      }
      assert text == x + text[16..];
    }
  }

  // ---------------------------------------------------------------------------
  // Change locality

  /** `x` and `y` have the same blocks, except for block `b`, which differs. */
  ghost predicate DifferOnlyInBlock(x: seq<byte>, y: seq<byte>, b: nat)
  {
    && |x| == |y| && |x| % 16 == 0
    && 16 * (b + 1) <= |x|
    && forall i: nat | 16 * (i + 1) <= |x| :: (BlockAt(x, i) == BlockAt(y, i)) <==> i != b
  }

  lemma DifferAt(x: seq<byte>, y: seq<byte>, b: nat, i: nat)
    requires DifferOnlyInBlock(x, y, b) && 16 * (i + 1) <= |x|
    ensures |x| == |y| && (BlockAt(x, i) == BlockAt(y, i) <==> i != b)
  {
  }

  lemma EInjective(aes: BlockCipher, key: Key, a: Block, b: Block)
    requires aes.Invertible(key)
    ensures aes.E(key, a) == aes.E(key, b) <==> a == b
  {
    assert aes.D(key, aes.E(key, a)) == a && aes.D(key, aes.E(key, b)) == b;
  }

  lemma DInjective(aes: BlockCipher, key: Key, a: Block, b: Block)
    requires aes.Invertible(key)
    ensures aes.D(key, a) == aes.D(key, b) <==> a == b
  {
    assert aes.E(key, aes.D(key, a)) == a && aes.E(key, aes.D(key, b)) == b;
  }
}
