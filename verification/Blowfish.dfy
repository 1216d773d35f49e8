/** The Blowfish cipher of libs/gpm/crypto/blowfish.cpp with its three buffer modes
    (ECB, CBC and CFB are sections 6.1, 6.2 and 6.3 of NIST SP 800-38A). */
module Blowfish {
  import opened Common

  /** `unsigned int`. */
  type word = u32

  /** Exclusive or, bit by bit. */
  function BitXor(a: nat, b: nat): nat
    decreases a + b
  {
    if a == 0 && b == 0 then 0 else (a + b) % 2 + 2 * BitXor(a / 2, b / 2)
  }

  lemma {:induction false} XorBelow(a: nat, b: nat, k: nat)
    requires a < Pow2(k) && b < Pow2(k)
    ensures BitXor(a, b) < Pow2(k)
    decreases a + b
  {
    if a != 0 || b != 0 {
      XorBelow(a / 2, b / 2, k - 1);
    }
  }

  lemma {:induction false} XorCancels(a: nat, b: nat)
    ensures BitXor(BitXor(a, b), b) == a
    decreases a + b
  {
    if a != 0 || b != 0 {
      XorCancels(a / 2, b / 2);
      var q := BitXor(a / 2, b / 2);
      LowBit(a, b, q);
      XorUnfold(BitXor(a, b), b);
    }
  }

  lemma XorUnfold(r: nat, b: nat)
    ensures BitXor(r, b) == (r + b) % 2 + 2 * BitXor(r / 2, b / 2)
  {}

  lemma LowBit(a: nat, b: nat, q: nat)
    ensures var r := (a + b) % 2 + 2 * q; r / 2 == q && (r + b) % 2 == a % 2
  {
    var k, j := (a + b) / 2, a / 2;
    var r := (a + b) % 2 + 2 * q;
    assert r + b == a % 2 + 2 * (j + b - k + q);
  }

  lemma Pow2Word()
    ensures Pow2(32) == TWO_32
  {
    assert Pow2(8) == 0x100;
    assert Pow2(16) == 0x1_0000;
    assert Pow2(24) == 0x100_0000;
  }

  function XorW(a: word, b: word): word {
    Pow2Word();
    XorBelow(a, b, 32);
    BitXor(a, b)
  }

  datatype SBlock = SBlock(l: word, r: word)

  function Xor(a: SBlock, b: SBlock): SBlock {
    SBlock(XorW(a.l, b.l), XorW(a.r, b.r))
  }

  function Swap(b: SBlock): SBlock {
    SBlock(b.r, b.l)
  }

  /** The subkeys and the four substitution boxes. */
  datatype AnyTables = Tables(p: seq<word>, s: seq<seq<word>>) {
    predicate Valid() {
      |p| == 18 && |s| == 4 && forall j :: 0 <= j < 4 ==> |s[j]| == 256
    }
  }

  type Tables = t: AnyTables | t.Valid()
    witness Tables(seq(18, _ => 0), seq(4, _ => seq(256, _ => 0)))

  /** The low byte of `w >> n`, given as a division. */
  function Byte(w: nat): byte {
    w % 256
  }

  /** Additions wrap at 32 bits. */
  function F(t: Tables, x: word): word {
    var a: word := (t.s[0][Byte(x / 0x100_0000)] + t.s[1][Byte(x / 0x1_0000)]) % TWO_32;
    (XorW(a, t.s[2][Byte(x / 0x100)]) + t.s[3][Byte(x)]) % TWO_32
  }

  // ---------------------------------------------------------------- one block

  function RoundFunction(t: Tables): word -> word {
    x => F(t, x)
  }

  /** The halves trade places and the old right half absorbs `m`. */
  function Absorb(m: word, b: SBlock): SBlock {
    SBlock(XorW(b.r, m), b.l)
  }

  /** One Feistel round. */
  function Round(f: word -> word, k: word, b: SBlock): SBlock {
    Absorb(XorW(f(b.l), k), b)
  }

  /** Rounds `lo`, ..., `hi - 1` under the round function `f` and the subkeys `ks`. */
  function Rounds(f: word -> word, ks: seq<word>, lo: nat, hi: nat, b: SBlock): SBlock
    requires lo <= hi <= |ks|
    decreases hi - lo
  {
    if lo == hi then b else Rounds(f, ks, lo + 1, hi, Round(f, ks[lo], b))
  }

  /** The network under any list of subkeys; eighteen of them make the sixteen rounds. */
  function Network(f: word -> word, ks: seq<word>, b: SBlock): SBlock
    requires |ks| >= 2
  {
    Last(ks[|ks| - 1], Rounds(f, ks, 1, |ks| - 1, First(ks[0], b)))
  }

  function First(k: word, b: SBlock): SBlock {
    SBlock(XorW(b.l, k), b.r)
  }

  function Last(k: word, b: SBlock): SBlock {
    SBlock(XorW(b.r, k), b.l)
  }

  function Reversed(ks: seq<word>): (r: seq<word>)
    ensures |r| == |ks| && forall i :: 0 <= i < |ks| ==> r[i] == ks[|ks| - 1 - i]
  {
    seq(|ks|, i requires 0 <= i < |ks| => ks[|ks| - 1 - i])
  }

  function Encipher(t: Tables, b: SBlock): SBlock {
    Network(RoundFunction(t), t.p, b)
  }

  /** Deciphering is the same network with the subkeys in reverse order. */
  function Decipher(t: Tables, b: SBlock): SBlock {
    Network(RoundFunction(t), Reversed(t.p), b)
  }

  lemma AbsorbTwice(m: word, b: SBlock)
    ensures Absorb(m, Swap(Absorb(m, b))) == Swap(b)
  {
    XorCancels(b.r, m);
  }

  lemma FirstUndoesLast(k: word, b: SBlock)
    ensures First(k, Last(k, b)) == Swap(b)
    ensures Last(k, Swap(First(k, b))) == b
  {
    XorCancels(b.r, k);
    XorCancels(b.l, k);
  }

  lemma {:induction false} LastRound(f: word -> word, ks: seq<word>, lo: nat, hi: nat, b: SBlock)
    requires lo < hi <= |ks|
    ensures Rounds(f, ks, lo, hi, b) == Round(f, ks[hi - 1], Rounds(f, ks, lo, hi - 1, b))
    decreases hi - lo
  {
    if lo + 1 < hi {
      LastRound(f, ks, lo + 1, hi, Round(f, ks[lo], b));
    }
  }

  lemma {:induction false} RoundsUndone(f: word -> word, ks: seq<word>, i: nat, b: SBlock)
    requires 1 <= i < |ks|
    ensures Rounds(f, Reversed(ks), 1, |ks| - i, Swap(Rounds(f, ks, i, |ks| - 1, b))) == Swap(b)
    decreases |ks| - i
  {
    if i < |ks| - 1 {
      var b' := Round(f, ks[i], b);
      RoundsUndone(f, ks, i + 1, b');
      LastRound(f, Reversed(ks), 1, |ks| - i, Swap(Rounds(f, ks, i, |ks| - 1, b)));
      AbsorbTwice(XorW(f(b.l), ks[i]), b);
    }
  }

  /** Reversing the subkeys inverts the network, for every round function. */
  lemma NetworkUndone(f: word -> word, ks: seq<word>, b: SBlock)
    requires |ks| >= 2
    ensures Network(f, Reversed(ks), Network(f, ks, b)) == b
  {
    var w := Rounds(f, ks, 1, |ks| - 1, First(ks[0], b));
    FirstUndoesLast(ks[|ks| - 1], w);
    RoundsUndone(f, ks, 1, First(ks[0], b));
    FirstUndoesLast(ks[0], b);
  }

  lemma BlockRoundTrip(t: Tables, b: SBlock)
    ensures Decipher(t, Encipher(t, b)) == b
    ensures Encipher(t, Decipher(t, b)) == b
  {
    NetworkUndone(RoundFunction(t), t.p, b);
    NetworkUndone(RoundFunction(t), Reversed(t.p), b);
    assert Reversed(Reversed(t.p)) == t.p;
  }

  // ---------------------------------------------------------------- bytes and blocks

  function WordOf(a: byte, b: byte, c: byte, d: byte): word {
    a * 0x100_0000 + b * 0x1_0000 + c * 0x100 + d
  }

  function BytesToBlock(s: bytes): SBlock
    requires |s| == 8
  {
    SBlock(WordOf(s[0], s[1], s[2], s[3]), WordOf(s[4], s[5], s[6], s[7]))
  }

  function WordToBytes(w: word): (s: bytes)
    ensures |s| == 4
  {
    [Byte(w / 0x100_0000), Byte(w / 0x1_0000), Byte(w / 0x100), Byte(w)]
  }

  function BlockToBytes(b: SBlock): (s: bytes)
    ensures |s| == 8
  {
    WordToBytes(b.l) + WordToBytes(b.r)
  }

  lemma WordBytes(w: word)
    ensures var s := WordToBytes(w); WordOf(s[0], s[1], s[2], s[3]) == w
  {
    var q1, q2, q3 := w / 0x100, w / 0x1_0000, w / 0x100_0000;
    assert q2 == q1 / 0x100 && q3 == q2 / 0x100 && q3 < 0x100;
  }

  lemma BytesWord(a: byte, b: byte, c: byte, d: byte)
    ensures WordToBytes(WordOf(a, b, c, d)) == [a, b, c, d]
  {
    var w := WordOf(a, b, c, d);
    assert w / 0x100 == a * 0x1_0000 + b * 0x100 + c;
    assert w / 0x1_0000 == a * 0x100 + b;
    assert w / 0x100_0000 == a;
  }

  /** Every block is written as eight bytes that are read back as the same block. */
  lemma BlockBytesRoundTrip(b: SBlock)
    ensures BytesToBlock(BlockToBytes(b)) == b
  {
    WordBytes(b.l);
    WordBytes(b.r);
  }

  /** Every eight bytes are the writing of the block they are read as. */
  lemma BytesBlockRoundTrip(s: bytes)
    requires |s| == 8
    ensures BlockToBytes(BytesToBlock(s)) == s
  {
    BytesWord(s[0], s[1], s[2], s[3]);
    BytesWord(s[4], s[5], s[6], s[7]);
  }

  // ---------------------------------------------------------------- buffer modes

  const ECB := 0
  const CBC := 1
  const CFB := 2

  /** One block of a mode: the block written and the next chain. Any other mode number means ECB. */
  function EncryptStep(t: Tables, mode: int, chain: SBlock, x: SBlock): (SBlock, SBlock) {
    if mode == CBC then
      var w := Encipher(t, Xor(x, chain)); (w, w)
    else if mode == CFB then
      var w := Xor(x, Encipher(t, chain)); (w, w)
    else
      (Encipher(t, x), chain)
  }

  function DecryptStep(t: Tables, mode: int, chain: SBlock, x: SBlock): (SBlock, SBlock) {
    if mode == CBC then
      (Xor(Decipher(t, x), chain), x)
    else if mode == CFB then
      (Xor(x, Encipher(t, chain)), x)
    else
      (Decipher(t, x), chain)
  }

  /** What a mode does with the chain and one block read: the block written and the next chain. */
  type Step = (SBlock, SBlock) -> (SBlock, SBlock)

  function Encrypting(t: Tables, mode: int): Step {
    (chain, x) => EncryptStep(t, mode, chain, x)
  }

  function Decrypting(t: Tables, mode: int): Step {
    (chain, x) => DecryptStep(t, mode, chain, x)
  }

  /** A buffer run through a step, block after block. */
  function Run(step: Step, chain: SBlock, s: bytes): (r: bytes)
    ensures |r| == |s|
    decreases |s|
  {
    if |s| < 8 then s
    else
      var (w, next) := step(chain, BytesToBlock(s[..8]));
      BlockToBytes(w) + Run(step, next, s[8..])
  }

  lemma XorBlockCancels(a: SBlock, b: SBlock)
    ensures Xor(Xor(a, b), b) == a
  {
    XorCancels(a.l, b.l);
    XorCancels(a.r, b.r);
  }

  lemma StepRoundTrip(t: Tables, mode: int, chain: SBlock, x: SBlock)
    ensures DecryptStep(t, mode, chain, EncryptStep(t, mode, chain, x).0) == (x, EncryptStep(t, mode, chain, x).1)
  {
    BlockRoundTrip(t, x);
    BlockRoundTrip(t, Xor(x, chain));
    XorBlockCancels(x, chain);
    XorBlockCancels(x, Encipher(t, chain));
  }

  /** `dec` recovers every block `enc` wrote and continues with the same chain. */
  ghost predicate Undoes(dec: Step, enc: Step) {
    forall chain, x :: dec(chain, enc(chain, x).0) == (x, enc(chain, x).1)
  }

  lemma {:induction false} RunUndone(dec: Step, enc: Step, chain: SBlock, s: bytes)
    requires Undoes(dec, enc)
    ensures Run(dec, chain, Run(enc, chain, s)) == s
    decreases |s|
  {
    if |s| >= 8 {
      var (w, next) := enc(chain, BytesToBlock(s[..8]));
      var r := Run(enc, chain, s);
      assert r[..8] == BlockToBytes(w) && r[8..] == Run(enc, next, s[8..]);
      BlockBytesRoundTrip(w);
      BytesBlockRoundTrip(s[..8]);
      RunUndone(dec, enc, next, s[8..]);
    }
  }

  /** Decrypting undoes encrypting, in every mode, from every chain, under every table. */
  lemma BufferRoundTrip(t: Tables, mode: int, chain: SBlock, s: bytes)
    ensures Run(Decrypting(t, mode), chain, Run(Encrypting(t, mode), chain, s)) == s
  {
    forall c, x
      ensures Decrypting(t, mode)(c, Encrypting(t, mode)(c, x).0) == (x, Encrypting(t, mode)(c, x).1)
    {
      StepRoundTrip(t, mode, c, x);
    }
    RunUndone(Decrypting(t, mode), Encrypting(t, mode), chain, s);
  }

  // ---------------------------------------------------------------- the key schedule

  /** The position `n` steps into a key of `m` bytes that starts again at its end. */
  function Cycle(m: nat, n: nat): (i: nat)
    requires m > 0
    ensures i < m
    decreases n
  {
    if n < m then n else Cycle(m, n - m)
  }

  /** Four consecutive key bytes from position `n` on, the key being repeated for ever. */
  function KeyWord(key: bytes, n: nat): word
    requires key != []
  {
    WordOf(key[Cycle(|key|, n)], key[Cycle(|key|, n + 1)], key[Cycle(|key|, n + 2)], key[Cycle(|key|, n + 3)])
  }

  function KeyedSubkeys(p: seq<word>, key: bytes): seq<word>
    requires key != []
  {
    seq(|p|, i requires 0 <= i < |p| => XorW(p[i], KeyWord(key, 4 * i)))
  }

  /** The last `left` subkeys replaced, two at a time, by the evolving encipherment of `b`. */
  function FillSubkeys(t: Tables, b: SBlock, left: nat): (Tables, SBlock)
    requires left <= 18
    decreases left
  {
    if left < 2 then (t, b)
    else
      var b' := Encipher(t, b);
      FillSubkeys(WithSubkeys(t, 18 - left, b'), b', left - 2)
  }

  function WithSubkeys(t: Tables, i: nat, b: SBlock): Tables
    requires i + 1 < 18
  {
    t.(p := t.p[i := b.l][i + 1 := b.r])
  }

  /** The last `left` entries of the last `boxes` boxes, and all of the boxes after it, replaced likewise. */
  function FillBoxes(t: Tables, b: SBlock, boxes: nat, left: nat): Tables
    requires boxes <= 4 && left <= 256
    decreases boxes, left
  {
    if boxes == 0 then t
    else if left < 2 then FillBoxes(t, b, boxes - 1, 256)
    else
      var b' := Encipher(t, b);
      FillBoxes(WithEntries(t, 4 - boxes, 256 - left, b'), b', boxes, left - 2)
  }

  function WithEntries(t: Tables, j: nat, k: nat, b: SBlock): Tables
    requires j < 4 && k + 1 < 256
  {
    var row: seq<word> := t.s[j];
    var row': seq<word> := row[k := b.l][k + 1 := b.r];
    t.(s := t.s[j := row'])
  }

  /** The tables `start` builds: only the first 56 key bytes count. */
  function Schedule(init: Tables, key: bytes): Tables
    requires key != []
  {
    Expand(init.(p := KeyedSubkeys(init.p, key[..Min(|key|, 56)])))
  }

  function Expand(keyed: Tables): Tables {
    var (t, b) := FillSubkeys(keyed, SBlock(0, 0), |keyed.p|);
    FillBoxes(t, b, |t.s|, |t.s[0]|)
  }

  lemma {:induction false} NextInCycle(m: nat, n: nat)
    requires m > 0
    ensures Cycle(m, n + 1) == if Cycle(m, n) + 1 == m then 0 else Cycle(m, n) + 1
    decreases n
  {
    if n >= m {
      NextInCycle(m, n - m);
    }
  }

  lemma {:induction false} RepeatedKeyByte(key: bytes, n: nat)
    requires key != []
    ensures (key + key)[Cycle(2 * |key|, n)] == key[Cycle(|key|, n)]
    decreases n
  {
    if n >= 2 * |key| {
      RepeatedKeyByte(key, n - 2 * |key|);
      assert Cycle(|key|, n) == Cycle(|key|, n - |key|) == Cycle(|key|, n - 2 * |key|);
    }
  }

  lemma RepeatedKeyWord(key: bytes, n: nat)
    requires key != []
    ensures KeyWord(key + key, n) == KeyWord(key, n)
  {
    RepeatedKeyByte(key, n);
    RepeatedKeyByte(key, n + 1);
    RepeatedKeyByte(key, n + 2);
    RepeatedKeyByte(key, n + 3);
  }

  lemma RepeatedKeySubkeys(p: seq<word>, key: bytes)
    requires key != []
    ensures KeyedSubkeys(p, key + key) == KeyedSubkeys(p, key)
  {
    forall i | 0 <= i < |p|
      ensures KeyWord(key + key, 4 * i) == KeyWord(key, 4 * i)
    {
      RepeatedKeyWord(key, 4 * i);
    }
  }

  /** Because the key bytes are recycled, writing a key twice gives the same cipher. */
  lemma RepeatedKeySameSchedule(init: Tables, key: bytes)
    requires 1 <= |key| <= 28
    ensures Schedule(init, key + key) == Schedule(init, key)
  {
    hide FillSubkeys, FillBoxes, Expand, KeyedSubkeys;
    var twice := key + key;
    assert twice[..|twice|] == twice && key[..|key|] == key;
    RepeatedKeySubkeys(init.p, key);
  }

  // ---------------------------------------------------------------- the cipher object

  lemma TwoRounds(f: word -> word, ks: seq<word>, i: nat, b: SBlock)
    requires i + 2 < |ks|
    ensures Rounds(f, ks, i, |ks| - 1, b) ==
      Rounds(f, ks, i + 2, |ks| - 1, Round(f, ks[i + 1], Round(f, ks[i], b)))
  {}

  lemma RunStep(step: Step, chain: SBlock, rest: bytes, done: bytes)
    requires |rest| >= 8
    ensures var (w, next) := step(chain, BytesToBlock(rest[..8]));
      (done + BlockToBytes(w)) + Run(step, next, rest[8..]) == done + Run(step, chain, rest)
  {}

  class Cipher {
    var chain0: SBlock
    var chain: SBlock
    var t: Tables
    const init: Tables

    /** The digits of pi the tables start from are a parameter. */
    constructor (init: Tables)
      ensures this.init == init && t == init
    {
      this.init, t := init, init;
      chain0, chain := SBlock(0, 0), SBlock(0, 0);
    }

    method ResetChain()
      modifies this
      ensures chain == chain0 && chain0 == old(chain0) && t == old(t)
    {
      chain := chain0;
    }

    /** libs/gpm/crypto/blowfish.cpp:295-341.  An empty key is refused after the chains are set. */
    method Start(key: bytes, iv: SBlock) returns (ok: bool)
      modifies this
      ensures chain0 == iv && chain == iv
      ensures ok == (key != [])
      ensures t == if ok then Schedule(init, key) else old(t)
    {
      chain0, chain := iv, iv;
      if |key| < 1 {
        return false;
      }
      var local := key[..Min(|key|, 56)];
      t := init;
      LoadKey(local);
      var block := ReflectSubkeys();
      ReflectBoxes(block);
      return true;
    }

    /** Every pair of subkeys in turn replaced by the evolving encipherment of the zero block. */
    method ReflectSubkeys() returns (block: SBlock)
      modifies `t
      ensures (t, block) == FillSubkeys(old(t), SBlock(0, 0), |t.p|)
    {
      hide Encipher, WithSubkeys;
      block := SBlock(0, 0);
      ghost var goal, pairs := FillSubkeys(t, block, |t.p|), 0;
      var i := 0;
      while i < 18
        invariant i == 2 * pairs && pairs <= 9
        invariant FillSubkeys(t, block, 18 - i) == goal
      {
        block := EncryptBlock(block);
        t := WithSubkeys(t, i, block);
        i, pairs := i + 2, pairs + 1;
      }
    }

    method ReflectBoxes(first: SBlock)
      modifies `t
      ensures t == FillBoxes(old(t), first, |t.s|, |t.s[0]|)
    {
      hide Encipher, WithEntries;
      var block := first;
      ghost var goal := FillBoxes(t, block, |t.s|, |t.s[0]|);
      var j := 0;
      while j < 4
        invariant j <= 4
        invariant FillBoxes(t, block, 4 - j, 256) == goal
      {
        block := ReflectBox(j, block);
        j := j + 1;
      }
    }

    method ReflectBox(j: nat, first: SBlock) returns (block: SBlock)
      requires j < 4
      modifies `t
      ensures FillBoxes(t, block, 4 - (j + 1), 256) == FillBoxes(old(t), first, 4 - j, 256)
    {
      hide Encipher, WithEntries;
      block := first;
      ghost var goal, pairs := FillBoxes(t, block, 4 - j, 256), 0;
      var k := 0;
      while k < 256
        invariant k == 2 * pairs && pairs <= 128
        invariant FillBoxes(t, block, 4 - j, 256 - k) == goal
      {
        block := EncryptBlock(block);
        t := WithEntries(t, j, k, block);
        k, pairs := k + 2, pairs + 1;
      }
    }

    /** The key bytes flow through the subkeys four at a time, wrapping at the end of the key. */
    method LoadKey(key: bytes)
      requires key != [] && t == init
      modifies `t
      ensures t == init.(p := KeyedSubkeys(init.p, key))
    {
      var at := 0;
      var i := 0;
      while i < 18
        invariant i <= 18
        invariant at == Cycle(|key|, 4 * i)
        invariant t == init.(p := t.p)
        invariant forall k :: 0 <= k < i ==> t.p[k] == KeyedSubkeys(init.p, key)[k]
        invariant forall k :: i <= k < 18 ==> t.p[k] == init.p[k]
      {
        var x;
        x, at := NextKeyWord(key, at, 4 * i);
        var p: seq<word> := t.p[i := XorW(t.p[i], x)];
        t := t.(p := p);
        i := i + 1;
      }
      assert t.p == KeyedSubkeys(init.p, key);
    }

    /** Sixteen rounds, written out as in the source. */
    method EncryptBlock(block: SBlock) returns (r: SBlock)
      ensures r == Encipher(t, block)
    {
      var left, right := block.l, block.r;
      var p := t.p;
      ghost var f := RoundFunction(t);
      left := XorW(left, p[0]);
      TwoRounds(f, p, 1, SBlock(left, right));
      right := XorW(right, XorW(F(t, left), p[1]));  left := XorW(left, XorW(F(t, right), p[2]));
      TwoRounds(f, p, 3, SBlock(left, right));
      right := XorW(right, XorW(F(t, left), p[3]));  left := XorW(left, XorW(F(t, right), p[4]));
      TwoRounds(f, p, 5, SBlock(left, right));
      right := XorW(right, XorW(F(t, left), p[5]));  left := XorW(left, XorW(F(t, right), p[6]));
      TwoRounds(f, p, 7, SBlock(left, right));
      right := XorW(right, XorW(F(t, left), p[7]));  left := XorW(left, XorW(F(t, right), p[8]));
      TwoRounds(f, p, 9, SBlock(left, right));
      right := XorW(right, XorW(F(t, left), p[9]));  left := XorW(left, XorW(F(t, right), p[10]));
      TwoRounds(f, p, 11, SBlock(left, right));
      right := XorW(right, XorW(F(t, left), p[11])); left := XorW(left, XorW(F(t, right), p[12]));
      TwoRounds(f, p, 13, SBlock(left, right));
      right := XorW(right, XorW(F(t, left), p[13])); left := XorW(left, XorW(F(t, right), p[14]));
      TwoRounds(f, p, 15, SBlock(left, right));
      right := XorW(right, XorW(F(t, left), p[15])); left := XorW(left, XorW(F(t, right), p[16]));
      right := XorW(right, p[17]);
      r := SBlock(right, left);
    }

    /** The same sixteen rounds with the subkeys taken backwards. */
    method DecryptBlock(block: SBlock) returns (r: SBlock)
      ensures r == Decipher(t, block)
    {
      var left, right := block.l, block.r;
      var p := t.p;
      ghost var f, q := RoundFunction(t), Reversed(t.p);
      left := XorW(left, p[17]);
      TwoRounds(f, q, 1, SBlock(left, right));
      right := XorW(right, XorW(F(t, left), p[16])); left := XorW(left, XorW(F(t, right), p[15]));
      TwoRounds(f, q, 3, SBlock(left, right));
      right := XorW(right, XorW(F(t, left), p[14])); left := XorW(left, XorW(F(t, right), p[13]));
      TwoRounds(f, q, 5, SBlock(left, right));
      right := XorW(right, XorW(F(t, left), p[12])); left := XorW(left, XorW(F(t, right), p[11]));
      TwoRounds(f, q, 7, SBlock(left, right));
      right := XorW(right, XorW(F(t, left), p[10])); left := XorW(left, XorW(F(t, right), p[9]));
      TwoRounds(f, q, 9, SBlock(left, right));
      right := XorW(right, XorW(F(t, left), p[8]));  left := XorW(left, XorW(F(t, right), p[7]));
      TwoRounds(f, q, 11, SBlock(left, right));
      right := XorW(right, XorW(F(t, left), p[6]));  left := XorW(left, XorW(F(t, right), p[5]));
      TwoRounds(f, q, 13, SBlock(left, right));
      right := XorW(right, XorW(F(t, left), p[4]));  left := XorW(left, XorW(F(t, right), p[3]));
      TwoRounds(f, q, 15, SBlock(left, right));
      right := XorW(right, XorW(F(t, left), p[2]));  left := XorW(left, XorW(F(t, right), p[1]));
      right := XorW(right, p[0]);
      r := SBlock(right, left);
    }

    /** Encrypts `input[..n]` into `output[..n]`; the in-place form is the call with one array twice.
        The chain of the object is only read.  A length that is zero or no multiple of 8 is refused. */
    method Encrypt(input: array<byte>, output: array<byte>, n: nat, mode: int) returns (ok: bool)
      requires n <= input.Length && n <= output.Length
      modifies output
      ensures ok == (n != 0 && n % 8 == 0)
      ensures !ok ==> output[..] == old(output[..])
      ensures ok ==> output[..n] == Run(Encrypting(t, mode), chain, old(input[..n]))
      ensures output[n..] == old(output[n..])
    {
      if n == 0 || n % 8 != 0 {
        return false;
      }
      EncryptBlocks(input, output, n, mode, n / 8);
      return true;
    }

    method EncryptBlocks(input: array<byte>, output: array<byte>, n: nat, mode: int, ghost count: nat)
      requires n == 8 * count && n <= input.Length && n <= output.Length
      modifies output
      ensures output[..n] == Run(Encrypting(t, mode), chain, old(input[..n]))
      ensures output[n..] == old(output[n..])
    {
      hide BytesToBlock, BlockToBytes, EncryptStep, DecryptStep, Encipher, Decipher, Run;
      ghost var step, done, rest, blocks := Encrypting(t, mode), [], input[..n], count;
      ghost var goal := Run(step, chain, rest);
      var last := chain;
      var i := 0;
      assert input[i..n] == rest && output[..i] == done;
      while i < n
        invariant i + 8 * blocks == n && |rest| == n - i
        invariant input[i..n] == rest && output[..i] == done
        invariant done + Run(step, last, rest) == goal
        invariant output[n..] == old(output[n..])
        decreases n - i
      {
        RunStep(step, last, rest, done);
        assert input[i..i + 8] == input[i..n][..8];
        var work := BytesToBlock(input[i..i + 8]);
        work, last := EncryptOne(mode, last, work);
        PutBlock(output, i, work, n, input);
        done, rest, blocks := done + BlockToBytes(work), rest[8..], blocks - 1;
        i := i + 8;
      }
      assert rest == [] && Run(step, last, rest) == [];
    }

    /** The same for decryption. */
    method Decrypt(input: array<byte>, output: array<byte>, n: nat, mode: int) returns (ok: bool)
      requires n <= input.Length && n <= output.Length
      modifies output
      ensures ok == (n != 0 && n % 8 == 0)
      ensures !ok ==> output[..] == old(output[..])
      ensures ok ==> output[..n] == Run(Decrypting(t, mode), chain, old(input[..n]))
      ensures output[n..] == old(output[n..])
    {
      if n == 0 || n % 8 != 0 {
        return false;
      }
      DecryptBlocks(input, output, n, mode, n / 8);
      return true;
    }

    method DecryptBlocks(input: array<byte>, output: array<byte>, n: nat, mode: int, ghost count: nat)
      requires n == 8 * count && n <= input.Length && n <= output.Length
      modifies output
      ensures output[..n] == Run(Decrypting(t, mode), chain, old(input[..n]))
      ensures output[n..] == old(output[n..])
    {
      hide BytesToBlock, BlockToBytes, EncryptStep, DecryptStep, Encipher, Decipher, Run;
      ghost var step, done, rest, blocks := Decrypting(t, mode), [], input[..n], count;
      ghost var goal := Run(step, chain, rest);
      var last := chain;
      var i := 0;
      assert input[i..n] == rest && output[..i] == done;
      while i < n
        invariant i + 8 * blocks == n && |rest| == n - i
        invariant input[i..n] == rest && output[..i] == done
        invariant done + Run(step, last, rest) == goal
        invariant output[n..] == old(output[n..])
        decreases n - i
      {
        RunStep(step, last, rest, done);
        assert input[i..i + 8] == input[i..n][..8];
        var work := BytesToBlock(input[i..i + 8]);
        work, last := DecryptOne(mode, last, work);
        PutBlock(output, i, work, n, input);
        done, rest, blocks := done + BlockToBytes(work), rest[8..], blocks - 1;
        i := i + 8;
      }
      assert rest == [] && Run(step, last, rest) == [];
    }

    /** The loop bodies of the three modes of encryption. */
    method EncryptOne(mode: int, last: SBlock, x: SBlock) returns (work: SBlock, next: SBlock)
      ensures (work, next) == Encrypting(t, mode)(last, x)
    {
      hide Encipher;
      work, next := x, last;
      if mode == CBC {
        work := Xor(work, next);
        work := EncryptBlock(work);
        next := work;
      } else if mode == CFB {
        next := EncryptBlock(next);
        work := Xor(work, next);
        next := work;
      } else {
        work := EncryptBlock(work);
      }
    }

    /** The loop bodies of the three modes of decryption; CFB enciphers here too. */
    method DecryptOne(mode: int, last: SBlock, x: SBlock) returns (work: SBlock, next: SBlock)
      ensures (work, next) == Decrypting(t, mode)(last, x)
    {
      hide Encipher, Decipher;
      work, next := x, last;
      var crypt := work;
      if mode == CBC {
        work := DecryptBlock(work);
        work := Xor(work, next);
        next := crypt;
      } else if mode == CFB {
        next := EncryptBlock(next);
        work := Xor(work, next);
        next := crypt;
      } else {
        work := DecryptBlock(work);
      }
    }

    method PutBlock(buf: array<byte>, at: nat, b: SBlock, ghost n: nat, ghost input: array<byte>)
      requires at + 8 <= n <= buf.Length && n <= input.Length
      modifies buf
      ensures buf[..at + 8] == old(buf[..at]) + BlockToBytes(b)
      ensures buf[n..] == old(buf[n..])
      ensures input[at + 8..n] == old(input[at..n])[8..]
    {
      var s := BlockToBytes(b);
      forall k | 0 <= k < 8 {
        buf[at + k] := s[k];
      }
    }
  }

  /** The inner loop of the key load: four bytes from position `at`, the last one lowest. */
  method NextKeyWord(key: bytes, at0: nat, ghost n0: nat) returns (x: word, at: nat)
    requires key != [] && at0 == Cycle(|key|, n0)
    ensures x == KeyWord(key, n0) && at == Cycle(|key|, n0 + 4)
  {
    x, at := 0, at0;
    var n := 4;
    ghost var b0, b1, b2: nat := key[at0], key[Cycle(|key|, n0 + 1)], key[Cycle(|key|, n0 + 2)];
    while n > 0
      invariant 0 <= n <= 4
      invariant at == Cycle(|key|, n0 + 4 - n)
      invariant n == 4 ==> x == 0
      invariant n == 3 ==> x == b0
      invariant n == 2 ==> x == b0 * 0x100 + b1
      invariant n == 1 ==> x == b0 * 0x1_0000 + b1 * 0x100 + b2
      invariant n == 0 ==> x == KeyWord(key, n0)
    {
      n := n - 1;
      NextInCycle(|key|, n0 + 3 - n);
      x := (x * 256) % TWO_32 + key[at];
      at := if at + 1 == |key| then 0 else at + 1;
    }
  }

  /** Encrypting a buffer in place and decrypting it again restores it, chain and tables untouched. */
  method RoundTripInPlace(c: Cipher, buf: array<byte>, mode: int)
    requires buf.Length > 0 && buf.Length % 8 == 0
    modifies buf
    ensures buf[..] == old(buf[..])
  {
    var n := buf.Length;
    assert buf[..] == buf[..n];
    var ok := c.Encrypt(buf, buf, n, mode);
    assert ok;
    ok := c.Decrypt(buf, buf, n, mode);
    assert ok;
    BufferRoundTrip(c.t, mode, c.chain, old(buf[..n]));
    assert buf[..] == buf[..n];
  }
}
