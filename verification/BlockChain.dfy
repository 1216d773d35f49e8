/** The chain rules of libs/gpm/block_chain/block.cpp: target, difficulty, validation, mining.
    The hash of a block is a parameter `h`, so every result holds for every hash function. */
module BlockChain {
  import opened Common

  const BLOCK_WINDOW := 30
  const SECONDS_PER_BLOCK := 15

  /** 18 bytes of 0xff below two zero bytes. */
  const MAX_HASH: nat := 0xffff_ffff_ffff_ffff_ffff_ffff_ffff_ffff_ffff

  datatype Block = Block(prevBlock: Hash, version: u16, utcTime: u32, state: Hash, nonce: u64)

  const DEFAULT_BLOCK := Block(0, 0, 0, 0, 0)

  type HashFn = Block -> Hash

  // ---------------------------------------------------------------- byte packing of the target

  /** The shortest big-endian form of a number, as a bigint packs itself. */
  function BigEndian(n: nat): seq<byte> {
    if n == 0 then [] else BigEndian(n / 256) + [n % 256]
  }

  function FromBigEndian(s: seq<byte>): nat {
    if s == [] then 0 else FromBigEndian(s[..|s| - 1]) * 256 + s[|s| - 1]
  }

  function Pow256(k: nat): nat {
    if k == 0 then 1 else 256 * Pow256(k - 1)
  }

  lemma {:induction false} BigEndianLength(n: nat, k: nat)
    ensures |BigEndian(n)| <= k <==> n < Pow256(k)
  {
    if n != 0 && k != 0 {
      BigEndianLength(n / 256, k - 1);
    }
    if n == 0 {
      Pow256Positive(k);
    }
  }

  lemma Pow256Positive(k: nat)
    ensures Pow256(k) > 0
  {}

  lemma Pow256Twenty()
    ensures Pow256(20) == TWO_160
  {
    assert Pow256(4) == 0x1_0000_0000;
    assert Pow256(8) == 0x1_0000_0000 * 0x1_0000_0000;
    assert Pow256(12) == 0x1_0000_0000 * 0x1_0000_0000 * 0x1_0000_0000;
    assert Pow256(16) == 0x1_0000_0000 * 0x1_0000_0000 * 0x1_0000_0000 * 0x1_0000_0000;
  }

  /** `d` copied to the end of a zeroed 20-byte hash still denotes the packed number. */
  lemma {:induction false} RightAligned(zeros: seq<byte>, n: nat)
    requires forall i :: 0 <= i < |zeros| ==> zeros[i] == 0
    ensures FromBigEndian(zeros + BigEndian(n)) == n
    decreases |zeros|, n
  {
    if n == 0 {
      assert zeros + BigEndian(n) == zeros;
      if zeros != [] {
        RightAligned(zeros[..|zeros| - 1], 0);
        assert zeros[..|zeros| - 1] + BigEndian(0) == zeros[..|zeros| - 1];
      }
    } else {
      var s := zeros + BigEndian(n);
      assert s[..|s| - 1] == zeros + BigEndian(n / 256);
      RightAligned(zeros, n / 256);
    }
  }

  // ---------------------------------------------------------------- the hash target

  function MaxOf(s: seq<nat>): (m: nat)
    requires s != []
    ensures m in s && forall i :: 0 <= i < |s| ==> s[i] <= m
  {
    if |s| == 1 then s[0]
    else
      var m := MaxOf(s[..|s| - 1]);
      assert s == s[..|s| - 1] + [s[|s| - 1]];
      Max(m, s[|s| - 1])
  }

  /** How many hashes the target at index `i` looks at: its own and at most 29 before it. */
  function WindowSize(i: nat): nat {
    Min(i + 1, BLOCK_WINDOW)
  }

  /** The numbers the window loop compares: the block's own hash, then `prev_block` fields going back. */
  function Window(h: HashFn, bc: seq<Block>, i: nat): seq<nat>
    requires i < |bc|
  {
    seq(WindowSize(i), j requires 0 <= j < WindowSize(i) => WindowEntry(h, bc, i, j))
  }

  function WindowEntry(h: HashFn, bc: seq<Block>, i: nat, j: nat): nat
    requires j <= i < |bc|
  {
    if j == 0 then h(bc[i]) else bc[i - j + 1].prevBlock
  }

  function Ease(m: nat): nat {
    m * 257 / 256
  }

  function Target(h: HashFn, bc: seq<Block>, i: nat): Hash
    requires i < |bc|
  {
    if i == 0 then MAX_HASH else Min(MAX_HASH, Ease(MaxOf(Window(h, bc, i))))
  }

  lemma MaxOfPrefix(s: seq<nat>, n: nat)
    requires 0 < n < |s|
    ensures MaxOf(s[..n + 1]) == Max(MaxOf(s[..n]), s[n])
  {
    assert s[..n + 1][..n] == s[..n];
  }

  /** The bytes copied into the 20-byte hash, or the unchanged `max` when there are too many of them. */
  function Repack(m: nat, max: Hash): Hash {
    var dat := BigEndian(m);
    if |dat| <= 20 then
      BigEndianLength(m, 20); Pow256Twenty();
      RightAligned(seq(20 - |dat|, _ => 0), m);
      FromBigEndian(seq(20 - |dat|, _ => 0) + dat)
    else
      max
  }

  lemma RepackEased(max: Hash)
    ensures Min(Repack(Ease(max), max), MAX_HASH) == Min(Ease(max), MAX_HASH)
  {
    var m := Ease(max);
    BigEndianLength(m, 20);
    Pow256Twenty();
    if m < TWO_160 {
      RightAligned(seq(20 - |BigEndian(m)|, _ => 0), m);
    }
  }

  lemma WindowStarts(h: HashFn, bc: seq<Block>, index: nat)
    requires index < |bc|
    ensures |Window(h, bc, index)| == WindowSize(index)
    ensures MaxOf(Window(h, bc, index)[..1]) == h(bc[index])
  {}

  /** The next entry of the window is the `prev_block` field of the block the loop has reached. */
  lemma WindowStep(h: HashFn, bc: seq<Block>, index: nat, c: nat)
    requires index < |bc| && 1 <= c < WindowSize(index)
    ensures c <= index && c < |Window(h, bc, index)|
    ensures MaxOf(Window(h, bc, index)[..c + 1])
         == Max(MaxOf(Window(h, bc, index)[..c]), bc[index - c + 1].prevBlock)
  {
    MaxOfPrefix(Window(h, bc, index), c);
  }

  /** The window loop of `calculate_hash_target`. */
  method LargestInWindow(h: HashFn, bc: seq<Block>, index: nat) returns (max: Hash)
    requires index < |bc|
    ensures max == MaxOf(Window(h, bc, index))
  {
    hide MaxOf, Window;
    ghost var w := Window(h, bc, index);
    WindowStarts(h, bc, index);
    max := h(bc[index]);
    var c := 1;
    var i := index;
    while i > 0
      invariant 0 <= i <= index
      invariant c == index - i + 1 && c < BLOCK_WINDOW
      invariant max == MaxOf(w[..c])
      decreases i
    {
      WindowStep(h, bc, index, c);
      if bc[i].prevBlock > max {
        max := bc[i].prevBlock;
      }
      c := c + 1;
      if c == BLOCK_WINDOW {
        break;
      }
      i := i - 1;
    }
    assert w[..c] == w;
  }

  /** libs/gpm/block_chain/block.cpp:70-109, with the byte packing and the overflow branch. */
  method CalculateHashTarget(h: HashFn, bc: seq<Block>, index: nat) returns (t: Hash)
    requires index < |bc|
    ensures t == Target(h, bc, index)
  {
    if index == 0 {
      return MAX_HASH;
    }
    var max := LargestInWindow(h, bc, index);
    RepackEased(max);
    max := Repack(max * 257 / 256, max);
    t := if max > MAX_HASH then MAX_HASH else max;
  }

  // ---------------------------------------------------------------- validation

  predicate LinkedAt(h: HashFn, bc: seq<Block>, i: nat)
    requires i < |bc|
  {
    bc[i].prevBlock == if i == 0 then 0 else h(bc[i - 1])
  }

  predicate Linked(h: HashFn, bc: seq<Block>) {
    forall i :: 0 <= i < |bc| ==> LinkedAt(h, bc, i)
  }

  /** What `validate` accepts, clause by clause.  `prev_time` stays 0 in the source, so the
      time rule is only that a block is dated at least 15 seconds after the epoch. */
  predicate Validates(h: HashFn, bc: seq<Block>) {
    Linked(h, bc) && forall i :: 0 <= i < |bc| ==> TimeAndTargetAt(h, bc, i)
  }

  predicate TimeAndTargetAt(h: HashFn, bc: seq<Block>, i: nat)
    requires i < |bc|
  {
    bc[i].utcTime >= SECONDS_PER_BLOCK && h(bc[i]) <= Target(h, bc, i)
  }

  /** libs/gpm/block_chain/block.cpp:120-159.  The empty chain is accepted. */
  method Validate(h: HashFn, bc: seq<Block>) returns (ok: bool)
    ensures ok == Validates(h, bc)
  {
    var prevTime: u32 := 0;
    var prevHash: Hash := 0;
    for i := 0 to |bc|
      invariant prevTime == 0
      invariant prevHash == if i == 0 then 0 else h(bc[i - 1])
      invariant forall k :: 0 <= k < i ==> LinkedAt(h, bc, k) && TimeAndTargetAt(h, bc, k)
    {
      assert Validates(h, bc) ==> LinkedAt(h, bc, i) && TimeAndTargetAt(h, bc, i);
      if (bc[i].utcTime - prevTime) % TWO_32 < SECONDS_PER_BLOCK {
        return false;
      }
      if bc[i].prevBlock != prevHash {
        return false;
      }
      var curHash := h(bc[i]);
      var hashTarget := CalculateHashTarget(h, bc, i);
      if curHash > hashTarget {
        return false;
      }
      prevHash := curHash;
    }
    return true;
  }

  /** On a linked chain the window is exactly the last min(i+1, 30) block hashes, newest first. */
  lemma WindowIsLastHashes(h: HashFn, bc: seq<Block>, i: nat)
    requires Linked(h, bc) && i < |bc|
    ensures |Window(h, bc, i)| == Min(i + 1, 30)
    ensures forall j :: 0 <= j < |Window(h, bc, i)| ==> Window(h, bc, i)[j] == h(bc[i - j])
  {
    forall j | 0 <= j < WindowSize(i)
      ensures Window(h, bc, i)[j] == h(bc[i - j])
    {
      assert j > 0 ==> LinkedAt(h, bc, i - j + 1);
    }
  }

  /** The target at index i >= 1 is min(max hash, floor(M * 257 / 256)) for the largest hash M in the window. */
  lemma TargetOnLinkedChain(h: HashFn, bc: seq<Block>, i: nat, best: nat)
    requires Linked(h, bc) && 1 <= i < |bc|
    requires i - 29 <= best <= i
    requires forall k :: 0 <= k <= i && i - 29 <= k ==> h(bc[k]) <= h(bc[best])
    ensures Target(h, bc, i) == Min(MAX_HASH, h(bc[best]) * 257 / 256)
  {
    WindowIsLastHashes(h, bc, i);
    var w := Window(h, bc, i);
    assert w[i - best] == h(bc[best]);
    assert forall j :: 0 <= j < |w| ==> w[j] == h(bc[i - j]);
  }

  /** The target looks only at blocks 0..i, so extending the chain never changes it. */
  lemma TargetDependsOnPrefix(h: HashFn, bc: seq<Block>, more: seq<Block>, i: nat)
    requires i < |bc|
    ensures Target(h, bc + more, i) == Target(h, bc, i)
  {
    assert Window(h, bc + more, i) == Window(h, bc, i);
  }

  /** A block's own hash is in its window, so the target test of `validate` is the test against the max hash. */
  lemma TargetTestIsMaxHashTest(h: HashFn, bc: seq<Block>, i: nat)
    requires i < |bc|
    ensures h(bc[i]) <= Target(h, bc, i) <==> h(bc[i]) <= MAX_HASH
  {
    assert Window(h, bc, i)[0] == h(bc[i]);
  }

  predicate BlockOk(h: HashFn, prev: Hash, b: Block) {
    b.prevBlock == prev && b.utcTime >= SECONDS_PER_BLOCK && h(b) <= MAX_HASH
  }

  function HeadHash(h: HashFn, bc: seq<Block>): Hash {
    if bc == [] then 0 else h(bc[|bc| - 1])
  }

  /** `validate` can be checked one block at a time: each block against its predecessor's hash only. */
  lemma ValidateIncremental(h: HashFn, bc: seq<Block>, b: Block)
    ensures Validates(h, bc + [b]) <==> Validates(h, bc) && BlockOk(h, HeadHash(h, bc), b)
  {
    var c := bc + [b];
    TargetTestIsMaxHashTest(h, c, |bc|);
    forall i | 0 <= i < |bc|
      ensures LinkedAt(h, c, i) == LinkedAt(h, bc, i)
      ensures TimeAndTargetAt(h, c, i) == TimeAndTargetAt(h, bc, i)
    {
      TargetDependsOnPrefix(h, bc, [b], i);
    }
    assert BlockOk(h, HeadHash(h, bc), b) <==> LinkedAt(h, c, |bc|) && TimeAndTargetAt(h, c, |bc|);
  }

  lemma {:induction false} ValidatePrefixClosed(h: HashFn, bc: seq<Block>, n: nat)
    requires n <= |bc| && Validates(h, bc)
    ensures Validates(h, bc[..n])
    decreases |bc|
  {
    if n < |bc| {
      var m := |bc| - 1;
      assert bc == bc[..m] + [bc[m]];
      ValidateIncremental(h, bc[..m], bc[m]);
      ValidatePrefixClosed(h, bc[..m], n);
      assert bc[..m][..n] == bc[..n];
    } else {
      assert bc[..n] == bc;
    }
  }

  /** Two different blocks with one hash, or a block whose hash is the all-zero root marker. */
  predicate Collision(h: HashFn, a: seq<Block>, b: seq<Block>) {
    || (exists i, j :: 0 <= i < |a| && 0 <= j < |b| && a[i] != b[j] && h(a[i]) == h(b[j]))
    || (exists i :: 0 <= i < |a| && h(a[i]) == 0)
    || (exists j :: 0 <= j < |b| && h(b[j]) == 0)
  }

  /** The head hash fixes the whole chain: two linked chains with one head hash are identical,
      lengths included, unless they contain a collision or a zero hash. */
  lemma {:induction false} HeadHashFixesChain(h: HashFn, a: seq<Block>, b: seq<Block>)
    requires Validates(h, a) && Validates(h, b)
    requires HeadHash(h, a) == HeadHash(h, b)
    ensures a == b || Collision(h, a, b)
    decreases |a|
  {
    if a != [] && b != [] && !Collision(h, a, b) {
      var m, n := |a| - 1, |b| - 1;
      assert a[m] == b[n];
      ValidatePrefixClosed(h, a, m);
      ValidatePrefixClosed(h, b, n);
      assert LinkedAt(h, a, m) && LinkedAt(h, b, n);
      assert HeadHash(h, a[..m]) == a[m].prevBlock && HeadHash(h, b[..n]) == b[n].prevBlock;
      HeadHashFixesChain(h, a[..m], b[..n]);
      assert a == a[..m] + [a[m]] && b == b[..n] + [b[n]];
    }
  }

  /** If the next block is mined at or below the current target, the target eases by at most 1/256. */
  lemma TargetEasesSlowly(h: HashFn, bc: seq<Block>, i: nat)
    requires Validates(h, bc) && i + 1 < |bc|
    requires h(bc[i + 1]) <= Target(h, bc, i)
    ensures Target(h, bc, i + 1) <= Ease(Target(h, bc, i))
  {
    WindowIsLastHashes(h, bc, i);
    WindowIsLastHashes(h, bc, i + 1);
    var w, v := Window(h, bc, i + 1), Window(h, bc, i);
    forall j | 0 <= j < |w|
      ensures w[j] <= Target(h, bc, i)
    {
      if j > 0 {
        assert w[j] == v[j - 1];
        assert TimeAndTargetAt(h, bc, i - (j - 1));
        TargetAboveWindow(h, bc, i, j - 1);
      }
    }
    EaseMonotone(MaxOf(w), Target(h, bc, i));
  }

  lemma TargetAboveWindow(h: HashFn, bc: seq<Block>, i: nat, j: nat)
    requires i < |bc| && j < |Window(h, bc, i)| && Window(h, bc, i)[j] <= MAX_HASH
    ensures Window(h, bc, i)[j] <= Target(h, bc, i)
  {}

  lemma EaseMonotone(a: nat, b: nat)
    requires a <= b
    ensures Ease(a) <= Ease(b)
  {}

  // ---------------------------------------------------------------- difficulty

  /** BN_num_bits. */
  function NumBits(n: nat): nat {
    if n == 0 then 0 else 1 + NumBits(n / 2)
  }

  lemma {:induction false} NumBitsBound(n: nat, k: nat)
    requires n < Pow2(k)
    ensures NumBits(n) <= k
  {
    if n != 0 {
      NumBitsBound(n / 2, k - 1);
    }
  }

  /** The number of bits of a positive number, exactly. */
  lemma {:induction false} NumBitsExact(n: nat)
    ensures n > 0 ==> NumBits(n) > 0 && Pow2(NumBits(n) - 1) <= n < Pow2(NumBits(n))
  {
    if n > 1 {
      NumBitsExact(n / 2);
    }
  }

  lemma {:induction false} Pow2Monotone(a: nat, b: nat)
    requires a <= b
    ensures Pow2(a) <= Pow2(b)
  {
    if a < b {
      Pow2Monotone(a, b - 1);
    }
  }

  lemma BitsBetween(n: nat, k: nat)
    ensures NumBits(n) == k <==> if k == 0 then n == 0 else Pow2(k - 1) <= n < Pow2(k)
  {
    NumBitsExact(n);
    assert n == 0 ==> NumBits(n) == 0;
    hide NumBits;
    if k > 0 {
      Pow2Monotone(0, k - 1);
      if n > 0 && k < NumBits(n) {
        Pow2Monotone(k, NumBits(n) - 1);
      } else if n > 0 && NumBits(n) < k {
        Pow2Monotone(NumBits(n), k - 1);
      }
    }
  }

  lemma DoubleProduct(x: nat, y: nat)
    ensures 2 * (x * y) == (2 * x) * y
  {}

  lemma {:induction false} Pow2Adds(a: nat, b: nat)
    ensures Pow2(a + b) == Pow2(a) * Pow2(b)
  {
    if a > 0 {
      Pow2Adds(a - 1, b);
      assert Pow2(a) == 2 * Pow2(a - 1) && Pow2(a + b) == 2 * Pow2(a - 1 + b);
      DoubleProduct(Pow2(a - 1), Pow2(b));
    }
  }

  lemma Pow2Squares(a: nat, v: nat)
    requires Pow2(a) == v
    ensures Pow2(2 * a) == v * v
  {
    Pow2Adds(a, a);
  }

  lemma Pow2Max()
    ensures Pow2(144) == MAX_HASH + 1
  {
    Pow2Squares(9, 0x200);
    Pow2Squares(18, 0x4_0000);
    Pow2Squares(36, 0x10_0000_0000);
    Pow2Squares(72, 0x100_0000_0000_0000_0000);
  }

  function DifficultyTerm(h: HashFn, bc: seq<Block>, i: nat): int
    requires i < |bc|
  {
    160 - NumBits(Target(h, bc, i))
  }

  /** A block's term is 160 - k exactly when its target lies between the powers 2^(k-1) and 2^k. */
  lemma TermExactly(h: HashFn, bc: seq<Block>, i: nat, k: nat)
    requires i < |bc|
    ensures DifficultyTerm(h, bc, i) == 160 - k
      <==> if k == 0 then Target(h, bc, i) == 0 else Pow2(k - 1) <= Target(h, bc, i) < Pow2(k)
  {
    BitsBetween(Target(h, bc, i), k);
    hide NumBits, Pow2, Target;
  }

  /** One more than the sum of the terms of the first `n` blocks. */
  function Difficulty(h: HashFn, bc: seq<Block>, n: nat): int
    requires n <= |bc|
  {
    if n == 0 then 1 else Difficulty(h, bc, n - 1) + DifficultyTerm(h, bc, n - 1)
  }

  /** libs/gpm/block_chain/block.cpp:45-58. */
  method CalculateDifficulty(h: HashFn, bc: seq<Block>) returns (d: int)
    ensures d == Difficulty(h, bc, |bc|)
  {
    d := 1;
    for i := 0 to |bc|
      invariant d == Difficulty(h, bc, i)
    {
      var t := CalculateHashTarget(h, bc, i);
      d := d + (160 - NumBits(t));
    }
  }

  lemma TermBounds(h: HashFn, bc: seq<Block>, i: nat)
    requires i < |bc|
    ensures 16 <= DifficultyTerm(h, bc, i) <= 160
  {
    Pow2Max();
    NumBitsBound(Target(h, bc, i), 144);
  }

  /** Extending a chain keeps every earlier term, so difficulty of the prefix is a summand of the whole. */
  lemma {:induction false} DifficultyOfPrefix(h: HashFn, bc: seq<Block>, more: seq<Block>, n: nat)
    requires n <= |bc|
    ensures Difficulty(h, bc + more, n) == Difficulty(h, bc, n)
  {
    if n > 0 {
      TargetDependsOnPrefix(h, bc, more, n - 1);
      DifficultyOfPrefix(h, bc, more, n - 1);
    }
  }

  lemma {:induction false} DifficultySteps(h: HashFn, bc: seq<Block>, m: nat, n: nat)
    requires m <= n <= |bc|
    ensures Difficulty(h, bc, m) + 16 * (n - m) <= Difficulty(h, bc, n)
         <= Difficulty(h, bc, m) + 160 * (n - m)
    decreases n
  {
    if m < n {
      TermBounds(h, bc, n - 1);
      DifficultySteps(h, bc, m, n - 1);
    }
  }

  /** Each appended block adds between 16 and 160. */
  lemma DifficultyGrowth(h: HashFn, bc: seq<Block>, more: seq<Block>)
    ensures Difficulty(h, bc, |bc|) + 16 * |more| <= Difficulty(h, bc + more, |bc + more|)
         <= Difficulty(h, bc, |bc|) + 160 * |more|
  {
    DifficultyOfPrefix(h, bc, more, |bc|);
    DifficultySteps(h, bc + more, |bc|, |bc + more|);
  }

  /** What one more block adds, without counting bits: 160 less the k with 2^(k-1) <= target < 2^k. */
  lemma AppendedDifficulty(h: HashFn, bc: seq<Block>, b: Block, k: nat)
    requires var t := Target(h, bc + [b], |bc|); if k == 0 then t == 0 else Pow2(k - 1) <= t < Pow2(k)
    ensures Difficulty(h, bc + [b], |bc| + 1) == Difficulty(h, bc, |bc|) + 160 - k
  {
    TermExactly(h, bc + [b], |bc|, k);
    DifficultyOfPrefix(h, bc, [b], |bc|);
    hide Target, Pow2;
  }

  /** The empty chain has difficulty 1 and a chain of one block 17. */
  lemma FirstDifficulties(h: HashFn, b: Block)
    ensures Difficulty(h, [], 0) == 1
    ensures Difficulty(h, [b], 1) == 17
  {
    assert Difficulty(h, [], 0) == 1;
    Pow2Max();
    assert 2 * Pow2(143) == Pow2(144);
    hide Pow2;
    assert [] + [b] == [b];
    AppendedDifficulty(h, [], b, 144);
  }

  // ---------------------------------------------------------------- mining

  /** libs/gpm/block_chain/block.cpp:177-189.  Success needs a hash strictly below the target,
      while the search already stops at a hash equal to it. */
  method Generate(h: HashFn, b: Block, target: Hash, start: u64, stop: u64) returns (r: Block, ok: bool)
    ensures r == b.(nonce := r.nonce)
    ensures start <= r.nonce <= Max(start, stop)
    ensures forall n: u64 :: start <= n < r.nonce ==> h(b.(nonce := n)) > target
    ensures r.nonce < stop ==> h(r) <= target
    ensures ok <==> h(r) < target
  {
    r := b.(nonce := start);
    while h(r) > target && r.nonce < stop
      invariant r == b.(nonce := r.nonce)
      invariant start <= r.nonce <= Max(start, stop)
      invariant forall n: u64 :: start <= n < r.nonce ==> h(b.(nonce := n)) > target
      decreases stop - r.nonce
    {
      r := r.(nonce := r.nonce + 1);
    }
    ok := h(r) < target;
  }
}
