/** What the parts of the cipher compute, stated apart from the code that computes them: exclusive or on bits, the
    round function on bytes, the buffer modes block by block, and the key schedule as one pass over a flat list of
    words (libs/gpm/crypto/blowfish.cpp:295-523, blowfish.hpp:182-185). */
module CipherLaws {
  import opened Common
  import opened Blowfish

  // ---------------------------------------------------------------- words

  function Bit(n: nat, k: nat): nat {
    if k == 0 then n % 2 else Bit(n / 2, k - 1)
  }

  lemma Halved(x: nat, q: nat)
    requires x < 2
    ensures (x + 2 * q) / 2 == q && (x + 2 * q) % 2 == x
  {}

  lemma LowBits(a: nat, b: nat)
    ensures (a + b) % 2 == (a % 2 + b % 2) % 2
  {
    var k, j := a / 2, b / 2;
    assert a == 2 * k + a % 2 && b == 2 * j + b % 2;
    Halved((a % 2 + b % 2) % 2, k + j + (a % 2 + b % 2) / 2);
  }

  /** Every bit of an exclusive or is the sum modulo 2 of the two bits. */
  lemma {:induction false} XorBits(a: nat, b: nat, k: nat)
    ensures Bit(BitXor(a, b), k) == (Bit(a, k) + Bit(b, k)) % 2
    decreases k
  {
    XorUnfold(a, b);
    Halved((a + b) % 2, BitXor(a / 2, b / 2));
    LowBits(a, b);
    hide BitXor;
    if k > 0 {
      XorBits(a / 2, b / 2, k - 1);
    }
  }

  lemma WordParts(a: byte, b: byte, c: byte, d: byte)
    ensures var x := WordOf(a, b, c, d);
      Byte(x / 0x100_0000) == a && Byte(x / 0x1_0000) == b && Byte(x / 0x100) == c && Byte(x) == d
  {
    var x := WordOf(a, b, c, d);
    BytesWord(a, b, c, d);
    assert WordToBytes(x) == [Byte(x / 0x100_0000), Byte(x / 0x1_0000), Byte(x / 0x100), Byte(x)];
    hide *;
    assert [a, b, c, d][0] == a && [a, b, c, d][1] == b && [a, b, c, d][2] == c && [a, b, c, d][3] == d;
  }

  /** The round function on the four bytes of a word, the highest first. */
  lemma RoundFunctionOnBytes(t: Tables, a: byte, b: byte, c: byte, d: byte)
    ensures F(t, WordOf(a, b, c, d))
      == (XorW((t.s[0][a] + t.s[1][b]) % TWO_32, t.s[2][c]) + t.s[3][d]) % TWO_32
  {
    WordParts(a, b, c, d);
    hide XorW, WordOf, Byte;
  }

  /** One round: the halves trade places and the new left one is the old right one, mixed with F of the old left one
      and the subkey. */
  lemma RoundMixes(t: Tables, k: word, b: SBlock, i: nat)
    ensures Round(RoundFunction(t), k, b).r == b.l
    ensures Bit(Round(RoundFunction(t), k, b).l, i) == (Bit(b.r, i) + Bit(F(t, b.l), i) + Bit(k, i)) % 2
  {
    var m := XorW(F(t, b.l), k);
    XorBits(F(t, b.l), k, i);
    XorBits(b.r, m, i);
    hide F, Bit, BitXor;
  }

  // ---------------------------------------------------------------- buffer modes

  /** The block at index `i` of a buffer. */
  function BlockAt(s: bytes, i: nat): SBlock
    requires 8 * i + 8 <= |s|
  {
    BytesToBlock(s[8 * i..8 * i + 8])
  }

  lemma NextBlockAt(s: bytes, i: nat)
    requires i > 0 && 8 * i + 8 <= |s|
    ensures BlockAt(s[8..], i - 1) == BlockAt(s, i)
  {
    assert s[8..][8 * (i - 1)..8 * (i - 1) + 8] == s[8 * i..8 * i + 8];
  }

  /** The first block of a run and the run of the rest. */
  lemma RunParts(step: Step, chain: SBlock, s: bytes)
    requires |s| >= 8
    ensures var (w, next) := step(chain, BlockAt(s, 0)); var r := Run(step, chain, s);
      |r| == |s| && BlockAt(r, 0) == w && r[8..] == Run(step, next, s[8..])
  {
    var (w, next) := step(chain, BlockAt(s, 0));
    var r := Run(step, chain, s);
    assert s[..8] == s[0..8] && r[0..8] == BlockToBytes(w);
    BlockBytesRoundTrip(w);
    hide BytesToBlock, BlockToBytes;
  }

  /** What each mode writes for the plain block `p` after the cipher block `prev`. */
  function Written(t: Tables, mode: int, prev: SBlock, p: SBlock): SBlock {
    if mode == CBC then Encipher(t, Xor(p, prev))
    else if mode == CFB then Xor(p, Encipher(t, prev))
    else Encipher(t, p)
  }

  /** Every block of an encrypted buffer is the mode's block of the plain one and of the cipher block before it, the
      chain standing before the first; bytes after the last full block stay. */
  lemma {:induction false} EncryptedBlocks(t: Tables, mode: int, chain: SBlock, s: bytes, i: nat)
    requires 8 * i + 8 <= |s|
    ensures var r := Run(Encrypting(t, mode), chain, s);
      BlockAt(r, i) == Written(t, mode, if i == 0 then chain else BlockAt(r, i - 1), BlockAt(s, i))
    decreases i
  {
    hide Encipher, Xor, Run, BlockAt;
    RunParts(Encrypting(t, mode), chain, s);
    if i > 0 {
      var next := Encrypting(t, mode)(chain, BlockAt(s, 0)).1;
      var r := Run(Encrypting(t, mode), chain, s);
      EncryptedBlocks(t, mode, next, s[8..], i - 1);
      NextBlockAt(s, i);
      NextBlockAt(r, i);
      if i > 1 {
        NextBlockAt(r, i - 1);
      }
    }
  }

  function Recovered(t: Tables, mode: int, prev: SBlock, c: SBlock): SBlock {
    if mode == CBC then Xor(Decipher(t, c), prev)
    else if mode == CFB then Xor(c, Encipher(t, prev))
    else Decipher(t, c)
  }

  /** Decrypting a block needs only that block and the cipher block before it. */
  lemma {:induction false} DecryptedBlocks(t: Tables, mode: int, chain: SBlock, s: bytes, i: nat)
    requires 8 * i + 8 <= |s|
    ensures BlockAt(Run(Decrypting(t, mode), chain, s), i)
      == Recovered(t, mode, if i == 0 then chain else BlockAt(s, i - 1), BlockAt(s, i))
    decreases i
  {
    hide Encipher, Decipher, Xor, Run, BlockAt;
    RunParts(Decrypting(t, mode), chain, s);
    if i > 0 {
      var next := Decrypting(t, mode)(chain, BlockAt(s, 0)).1;
      DecryptedBlocks(t, mode, next, s[8..], i - 1);
      NextBlockAt(s, i);
      NextBlockAt(Run(Decrypting(t, mode), chain, s), i);
      if i > 1 {
        NextBlockAt(s, i - 1);
      }
    }
  }

  // ---------------------------------------------------------------- the key schedule

  /** The key is read in a circle. */
  lemma {:induction false} CycleIsRemainder(m: nat, n: nat)
    requires m > 0
    ensures Cycle(m, n) == n % m
    decreases n
  {
    if n < m {
      DivisionIs(n, m, 0, n);
    } else {
      CycleIsRemainder(m, n - m);
      var q := (n - m) / m;
      assert n - m == q * m + (n - m) % m;
      assert (q + 1) * m == q * m + m;
      DivisionIs(n, m, q + 1, (n - m) % m);
    }
  }

  /** Each subkey starts as its table word mixed with the next four bytes of the circle. */
  lemma KeyedSubkeyBytes(p: seq<word>, key: bytes, i: nat)
    requires key != [] && i < |p|
    ensures var m := |key|;
      var w := WordOf(key[4 * i % m], key[(4 * i + 1) % m], key[(4 * i + 2) % m], key[(4 * i + 3) % m]);
      KeyedSubkeys(p, key)[i] == XorW(p[i], w)
  {
    CycleIsRemainder(|key|, 4 * i);
    CycleIsRemainder(|key|, 4 * i + 1);
    CycleIsRemainder(|key|, 4 * i + 2);
    CycleIsRemainder(|key|, 4 * i + 3);
    hide XorW, WordOf, Cycle;
  }

  const WORDS := 1042

  /** The tables as one list: the eighteen subkeys, then the four boxes. */
  function WordAt(t: Tables, i: nat): word
    requires i < WORDS
  {
    if i < 18 then t.p[i] else t.s[(i - 18) / 256][(i - 18) % 256]
  }

  function Words(t: Tables): seq<word> {
    seq(WORDS, i requires 0 <= i < WORDS => WordAt(t, i))
  }

  /** The tables evolve: step `n` enciphers the running block under the tables so far and writes it over words
      2n and 2n + 1; `left` steps are still to come. */
  function Reflect(t: Tables, b: SBlock, left: nat): Tables
    requires left <= WORDS / 2
    decreases left
  {
    if left == 0 then t
    else
      var b' := Encipher(t, b);
      Reflect(Overwrite(t, WORDS - 2 * left, b'), b', left - 1)
  }

  /** The tables with two consecutive words of the list replaced. */
  function Overwrite(t: Tables, i: nat, b: SBlock): Tables
    requires i % 2 == 0 && i < WORDS
  {
    if i < 18 then WithSubkeys(t, i, b)
    else
      EvenEntry(i);
      WithEntries(t, (i - 18) / 256, (i - 18) % 256, b)
  }

  lemma EvenEntry(i: nat)
    requires i % 2 == 0 && 18 <= i
    ensures (i - 18) % 256 + 1 < 256
  {}

  lemma OverwrittenWords(t: Tables, i: nat, b: SBlock)
    requires i % 2 == 0 && i < WORDS
    ensures Words(Overwrite(t, i, b)) == Words(t)[i := b.l][i + 1 := b.r]
  {
    hide WithSubkeys, WithEntries, Words;
    if i < 18 {
      SubkeysOverwritten(t, i, b);
    } else {
      EntriesOverwritten(t, i, b);
    }
  }

  lemma SubkeysOverwritten(t: Tables, i: nat, b: SBlock)
    requires i % 2 == 0 && i < 18
    ensures i + 1 < 18 && Words(WithSubkeys(t, i, b)) == Words(t)[i := b.l][i + 1 := b.r]
  {}

  lemma EntriesOverwritten(t: Tables, i: nat, b: SBlock)
    requires i % 2 == 0 && 18 <= i < WORDS
    ensures (i - 18) % 256 + 1 < 256
    ensures Words(WithEntries(t, (i - 18) / 256, (i - 18) % 256, b)) == Words(t)[i := b.l][i + 1 := b.r]
  {
    var j, k := (i - 18) / 256, (i - 18) % 256;
    assert k % 2 == 0;
    var r := WithEntries(t, j, k, b);
    forall x: nat | x < WORDS
      ensures Words(r)[x] == Words(t)[i := b.l][i + 1 := b.r][x]
    {
      if x >= 18 && (x - 18) / 256 == j {
        assert x - 18 == 256 * j + (x - 18) % 256;
      }
    }
  }

  /** The tables are determined by the list. */
  lemma WordsDetermine(a: Tables, b: Tables)
    requires Words(a) == Words(b)
    ensures a == b
  {
    forall i: nat | i < 18
      ensures a.p[i] == b.p[i]
    {
      assert Words(a)[i] == Words(b)[i];
    }
    forall j: nat, k: nat | j < 4 && k < 256
      ensures a.s[j][k] == b.s[j][k]
    {
      assert Words(a)[18 + 256 * j + k] == Words(b)[18 + 256 * j + k];
    }
    assert forall j :: 0 <= j < 4 ==> a.s[j] == b.s[j];
  }

  lemma {:induction false} SubkeysReflect(t: Tables, b: SBlock, left: nat, all: nat)
    requires left <= 18 && left % 2 == 0 && all == 512 + left / 2
    ensures var (t', b') := FillSubkeys(t, b, left); Reflect(t, b, all) == Reflect(t', b', all - left / 2)
    decreases left
  {
    hide Encipher, WithSubkeys;
    assert left > 0 ==> Overwrite(t, 18 - left, Encipher(t, b)) == WithSubkeys(t, 18 - left, Encipher(t, b));
    hide Overwrite;
    if left > 0 {
      var b' := Encipher(t, b);
      SubkeysReflect(WithSubkeys(t, 18 - left, b'), b', left - 2, all - 1);
    }
  }

  lemma {:induction false} BoxesReflect(t: Tables, b: SBlock, boxes: nat, left: nat, all: nat)
    requires 1 <= boxes <= 4 && left <= 256 && left % 2 == 0 && all == 128 * (boxes - 1) + left / 2
    ensures Reflect(t, b, all) == FillBoxes(t, b, boxes, left)
    decreases boxes, left
  {
    hide Encipher, WithEntries;
    if left > 0 {
      var b' := Encipher(t, b);
      var i := WORDS - 2 * all;
      assert (i - 18) / 256 == 4 - boxes && (i - 18) % 256 == 256 - left;
      assert Overwrite(t, i, b') == WithEntries(t, 4 - boxes, 256 - left, b');
      hide Overwrite;
      BoxesReflect(WithEntries(t, 4 - boxes, 256 - left, b'), b', boxes, left - 2, all - 1);
    } else if boxes > 1 {
      hide Overwrite;
      BoxesReflect(t, b, boxes - 1, 256, all);
    }
  }

  /** The two nested loops of the schedule are one pass over the whole list, from the zero block. */
  lemma ScheduleIsReflection(init: Tables, key: bytes)
    requires key != []
    ensures var keyed := init.(p := KeyedSubkeys(init.p, key[..Min(|key|, 56)]));
      Schedule(init, key) == Reflect(keyed, SBlock(0, 0), |Words(keyed)| / 2)
  {
    var keyed := init.(p := KeyedSubkeys(init.p, key[..Min(|key|, 56)]));
    var (t, b) := FillSubkeys(keyed, SBlock(0, 0), |keyed.p|);
    assert |keyed.p| == 18 && |t.s| == 4 && |t.s[0]| == 256;
    assert Schedule(init, key) == FillBoxes(t, b, |t.s|, |t.s[0]|);
    hide Schedule, Expand, FillSubkeys, FillBoxes, Reflect, KeyedSubkeys;
    SubkeysReflect(keyed, SBlock(0, 0), |keyed.p|, |Words(keyed)| / 2);
    BoxesReflect(t, b, |t.s|, |t.s[0]|, |Words(keyed)| / 2 - 9);
  }
}
