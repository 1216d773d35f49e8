/** The append-only ledger log: its records, its byte layout, and the two indexes over it
    (libs/gpm/statedb/state_database.hpp:37-71, 280-329; state_database.cpp:47-57, 610-631). */
module Records {
  import opened Common
  import opened BlockChain

  type Key = bytes

  // ---------------------------------------------------------------- transactions and blocks

  datatype Command =
    | RegisterName(name: string, key: Key)
    | Issue(stock: string)
    | Transfer(amount: u64, stock: string, sender: string, recipient: string)
    | Other(id: nat)

  datatype SignedTrx = SignedTrx(utcTime: u64, commands: seq<Command>, sigs: seq<bytes>)

  datatype BlockState = BlockState(index: u32, generator: string, stateDb: Hash, trxs: seq<Hash>)

  // ---------------------------------------------------------------- records

  /** A byte position in the log, or the source's `-1`. */
  datatype Loc = Nowhere | At(pos: nat)

  datatype AccountKey = AccountKey(account: Loc, stock: Loc)

  datatype Payload =
    | DefineName(name: string, key: Key)
    | UpdateName(nameIdx: Loc, key: Key, lastUpdate: Loc)
    | TransferLog(amount: nat, stock: Loc, sender: Loc, recipient: Loc, newFrom: nat, newTo: nat,
                  lastFrom: Loc, lastTo: Loc, trx: Loc)
    | StartTrx(hash: Hash, time: u64)
    | EndBlock(blk: Block, generator: string)

  function Id(p: Payload): nat {
    match p
    case DefineName(_, _) => 1
    case UpdateName(_, _, _) => 2
    case TransferLog(_, _, _, _, _, _, _, _, _) => 3
    case StartTrx(_, _) => 4
    case EndBlock(_, _) => 5
  }

  /** Hashing, signatures, addresses and the field packing of payloads, all left abstract. */
  datatype Env = Env(
    pack: Payload -> bytes, unpack: (nat, bytes) -> Option<Payload>,
    sha: bytes -> Hash, shaList: seq<Hash> -> Hash,
    trxHash: SignedTrx -> Hash, signedHash: SignedTrx -> Hash,
    blockHash: Block -> Hash, stateHash: BlockState -> Hash,
    verify: (SignedTrx, Key) -> bool, address: Key -> string,
    validAddress: string -> bool, noKey: Key)

  /** The log as the sequence of its records, oldest innermost. */
  datatype Log = Empty | Snoc(prev: Log, last: Payload)

  /** 2-byte id, 4-byte length, data, 8-byte `previous`. */
  function RecordSize(e: Env, p: Payload): nat {
    2 + 4 + |e.pack(p)| + 8
  }

  function Size(e: Env, l: Log): nat {
    match l
    case Empty => 0
    case Snoc(prev, r) => Size(e, prev) + RecordSize(e, r)
  }

  /** The record that starts at a byte position. */
  function Lookup(e: Env, l: Log, pos: nat): (r: Option<Payload>)
    ensures r.Some? ==> pos + RecordSize(e, r.value) <= Size(e, l)
  {
    match l
    case Empty => None
    case Snoc(prev, r) => if pos == Size(e, prev) then Some(r) else Lookup(e, prev, pos)
  }

  function Get(e: Env, l: Log, loc: Loc): (r: Option<Payload>)
    ensures r.Some? ==> loc.At? && loc.pos < Size(e, l)
  {
    if loc.At? then Lookup(e, l, loc.pos) else None
  }

  /** `a` is `b` before its last records. */
  predicate Prefix(a: Log, b: Log) {
    a == b || (b.Snoc? && Prefix(a, b.prev))
  }

  lemma {:induction false} PrefixKeepsRecords(e: Env, a: Log, b: Log)
    requires Prefix(a, b)
    ensures Size(e, a) <= Size(e, b)
    ensures forall pos: nat :: pos < Size(e, a) ==> Lookup(e, b, pos) == Lookup(e, a, pos)
  {
    if a != b {
      PrefixKeepsRecords(e, a, b.prev);
    }
  }

  /** Two records start at least one record apart. */
  lemma {:induction false} RecordsApart(e: Env, l: Log, p: nat, q: nat)
    requires p < q && Lookup(e, l, p).Some? && Lookup(e, l, q).Some?
    ensures p + RecordSize(e, Lookup(e, l, p).value) <= q
  {
    if q != Size(e, l.prev) {
      RecordsApart(e, l.prev, p, q);
    }
  }

  lemma {:induction false} PrefixTransitive(a: Log, b: Log, c: Log)
    requires Prefix(a, b) && Prefix(b, c)
    ensures Prefix(a, c)
  {
    if b != c {
      PrefixTransitive(a, b, c.prev);
    }
  }

  lemma {:induction false} EmptyIsPrefix(l: Log)
    ensures Prefix(Empty, l)
  {
    if l.Snoc? {
      EmptyIsPrefix(l.prev);
    }
  }

  // ---------------------------------------------------------------- the indexes, as scans of the log

  /** Every name with the position of the last record that defined or updated it. */
  function Names(e: Env, l: Log): map<string, nat> {
    match l
    case Empty => map[]
    case Snoc(prev, r) =>
      match NameEdited(e, prev, r)
      case Some(name) => Names(e, prev)[name := Size(e, prev)]
      case None => Names(e, prev)
  }

  function NameEdited(e: Env, prev: Log, r: Payload): Option<string> {
    match r
    case DefineName(name, _) => Some(name)
    case UpdateName(idx, _, _) =>
      (match Get(e, prev, idx) case Some(DefineName(name, _)) => Some(name) case _ => None)
    case _ => None
  }

  /** Every (account, stock) with the position of the last transfer that touched it. */
  function Transfers(e: Env, l: Log): map<AccountKey, nat> {
    match l
    case Empty => map[]
    case Snoc(prev, r) =>
      if r.TransferLog? then
        Transfers(e, prev)[FromKey(r) := Size(e, prev)][ToKey(r) := Size(e, prev)]
      else Transfers(e, prev)
  }

  function FromKey(r: Payload): AccountKey
    requires r.TransferLog?
  {
    AccountKey(r.sender, r.stock)
  }

  function ToKey(r: Payload): AccountKey
    requires r.TransferLog?
  {
    AccountKey(r.recipient, r.stock)
  }

  /** The balance a transfer record leaves on a key it touches; the sender's side is read first. */
  function BalanceIn(r: Payload, k: AccountKey): nat
    requires r.TransferLog?
  {
    if r.sender == k.account then r.newFrom else r.newTo
  }

  /** The balance of every key ever touched, as a scan of the log. */
  function Balances(l: Log): map<AccountKey, nat> {
    match l
    case Empty => map[]
    case Snoc(prev, r) =>
      if r.TransferLog? then Balances(prev)[ToKey(r) := r.newTo][FromKey(r) := r.newFrom]
      else Balances(prev)
  }

  /** An absent key counts as 0. */
  function Amount(m: map<AccountKey, nat>, k: AccountKey): nat {
    if k in m then m[k] else 0
  }

  function BalanceOf(l: Log, k: AccountKey): nat {
    Amount(Balances(l), k)
  }

  function LastTransfer(e: Env, l: Log, k: AccountKey): Loc {
    if k in Transfers(e, l) then At(Transfers(e, l)[k]) else Nowhere
  }

  function LastNameEdit(e: Env, l: Log, name: string): Loc {
    if name in Names(e, l) then At(Names(e, l)[name]) else Nowhere
  }

  // ---------------------------------------------------------------- byte layout

  /** `n` in `k` bytes, lowest first. */
  function LE(n: nat, k: nat): (s: bytes)
    ensures |s| == k
  {
    if k == 0 then [] else [n % 256] + LE(n / 256, k - 1)
  }

  function FromLE(s: bytes): nat {
    if s == [] then 0 else s[0] + 256 * FromLE(s[1..])
  }

  lemma {:induction false} LERoundTrip(n: nat, k: nat)
    requires n < Pow256(k)
    ensures FromLE(LE(n, k)) == n
  {
    if k > 0 {
      LERoundTrip(n / 256, k - 1);
      assert LE(n, k)[1..] == LE(n / 256, k - 1);
    }
  }

  lemma Pow256Widths()
    ensures Pow256(2) == 0x1_0000 && Pow256(4) == TWO_32 && Pow256(8) == TWO_64
  {}

  /** Dividing by 256 and then by `p` is dividing by their product. */
  lemma DivideTwice(n: nat, p: nat)
    requires p > 0
    ensures n / 256 / p == n / (256 * p)
  {
    var q := n / 256;
    assert q == q / p * p + q % p;
    assert 256 * (q / p * p) == q / p * (256 * p);
    DivisionIs(n, 256 * p, q / p, 256 * (q % p) + n % 256);
  }

  /** The digit of weight 256^i. */
  function Digit(n: nat, i: nat): byte {
    Pow256Positive(i);
    n / Pow256(i) % 256
  }

  lemma {:induction false} LEDigit(n: nat, k: nat, i: nat)
    requires i < k
    ensures LE(n, k)[i] == Digit(n, i)
    decreases k
  {
    if i > 0 {
      LEDigit(n / 256, k - 1, i - 1);
      Pow256Positive(i - 1);
      assert Pow256(i) == 256 * Pow256(i - 1);
      hide Pow256;
      DivideTwice(n, Pow256(i - 1));
    }
  }

  datatype RawRecord = RawRecord(id: nat, data: bytes, previous: nat)

  function Encode(r: RawRecord): bytes {
    LE(r.id, 2) + LE(|r.data|, 4) + r.data + LE(r.previous, 8)
  }

  /** Four reads, each of which must be complete. */
  function Decode(s: bytes, at: nat): Option<RawRecord> {
    if at + 6 > |s| then None
    else
      var len := FromLE(s[at + 2..at + 6]);
      if at + 6 + len + 8 > |s| then None
      else Some(RawRecord(FromLE(s[at..at + 2]), s[at + 6..at + 6 + len], FromLE(s[at + 6 + len..at + 14 + len])))
  }

  /** Where everything stands in a written record: two bytes of id, four of length, the data, eight of `previous`,
      each number lowest byte first. */
  lemma EncodedLayout(r: RawRecord, i: nat)
    ensures var s, n := Encode(r), |r.data|;
      && |s| == 14 + n
      && (i < 2 ==> s[i] == Digit(r.id, i)) && (i < 4 ==> s[2 + i] == Digit(n, i))
      && (i < n ==> s[6 + i] == r.data[i]) && (i < 8 ==> s[6 + n + i] == Digit(r.previous, i))
  {
    if i < 2 {
      LEDigit(r.id, 2, i);
    }
    if i < 4 {
      LEDigit(|r.data|, 4, i);
    }
    if i < 8 {
      LEDigit(r.previous, 8, i);
    }
    hide LE, Digit;
  }

  predicate Framed(r: RawRecord) {
    r.id < 0x1_0000 && |r.data| < TWO_32 && r.previous < TWO_64
  }

  lemma FourParts(a: bytes, p: bytes, q: bytes, r: bytes, t: bytes, b: bytes)
    ensures var s := a + (p + q + r + t) + b; var i := |a| + |p|; var j := i + |q|; var k := j + |r|;
      s[|a|..i] == p && s[i..j] == q && s[j..k] == r && s[k..k + |t|] == t && |s| == k + |t| + |b|
  {}

  /** A record written anywhere in the log is read back from its start. */
  lemma DecodeEncode(a: bytes, r: RawRecord, b: bytes)
    requires Framed(r)
    ensures Decode(a + Encode(r) + b, |a|) == Some(r)
  {
    Pow256Widths();
    LERoundTrip(r.id, 2);
    LERoundTrip(|r.data|, 4);
    LERoundTrip(r.previous, 8);
    hide LE, FromLE, Pow256;
    FourParts(a, LE(r.id, 2), LE(|r.data|, 4), r.data, LE(r.previous, 8), b);
  }

  /** Decoding looks only forward. */
  lemma DecodeShift(a: bytes, b: bytes, at: nat)
    ensures Decode(a + b, |a| + at) == Decode(b, at)
  {
    if at + 6 <= |b| {
      var s, i := a + b, |a| + at;
      assert s[i + 2..i + 6] == b[at + 2..at + 6];
      var len := FromLE(b[at + 2..at + 6]);
      if at + 14 + len <= |b| {
        assert s[i..i + 2] == b[at..at + 2];
        assert s[i + 6..i + 6 + len] == b[at + 6..at + 6 + len];
        assert s[i + 6 + len..i + 14 + len] == b[at + 6 + len..at + 14 + len];
      }
    }
  }

  /** `append_record` stores the record's own start as `previous`. */
  function Raw(e: Env, pos: nat, p: Payload): RawRecord {
    RawRecord(Id(p), e.pack(p), pos)
  }

  function Bytes(e: Env, l: Log): (s: bytes)
    ensures |s| == Size(e, l)
  {
    match l
    case Empty => []
    case Snoc(prev, r) => Bytes(e, prev) + Encode(Raw(e, Size(e, prev), r))
  }

  /** The payload survives its packing and fits the length field. */
  predicate CodecOk(e: Env, p: Payload) {
    |e.pack(p)| < TWO_32 && e.unpack(Id(p), e.pack(p)) == Some(p)
  }

  /** Every record can be written and read, and positions stay below the source's -1. */
  predicate Encodable(e: Env, l: Log) {
    match l
    case Empty => true
    case Snoc(prev, r) => Encodable(e, prev) && CodecOk(e, r) && Size(e, l) < TWO_64 - 1
  }

  lemma {:induction false} EncodablePrefix(e: Env, a: Log, b: Log)
    requires Prefix(a, b) && Encodable(e, b)
    ensures Encodable(e, a)
  {
    if a != b {
      EncodablePrefix(e, a, b.prev);
    }
  }

  lemma {:induction false} BytesOfPrefix(e: Env, a: Log, b: Log)
    requires Prefix(a, b)
    ensures Size(e, a) <= Size(e, b) && Bytes(e, b)[..Size(e, a)] == Bytes(e, a)
  {
    if a != b {
      BytesOfPrefix(e, a, b.prev);
      assert Bytes(e, b)[..Size(e, b.prev)] == Bytes(e, b.prev);
      assert Bytes(e, b)[..Size(e, a)] == Bytes(e, b.prev)[..Size(e, a)];
    }
  }

  /** Reading the bytes at a record's start gives that record. */
  lemma {:induction false} BytesHoldRecords(e: Env, l: Log, pos: nat)
    requires Encodable(e, l) && Lookup(e, l, pos).Some?
    ensures pos < Size(e, l)
    ensures Decode(Bytes(e, l), pos) == Some(Raw(e, pos, Lookup(e, l, pos).value))
  {
    if pos == Size(e, l.prev) {
      DecodeEncode(Bytes(e, l.prev), Raw(e, pos, l.last), []);
      assert Bytes(e, l) == Bytes(e, l.prev) + Encode(Raw(e, pos, l.last)) + [];
    } else {
      BytesHoldRecords(e, l.prev, pos);
      DecodeLonger(Bytes(e, l.prev), Encode(Raw(e, Size(e, l.prev), l.last)), pos);
    }
  }

  lemma DecodeLonger(a: bytes, b: bytes, at: nat)
    requires Decode(a, at).Some?
    ensures Decode(a + b, at) == Decode(a, at)
  {
    var s, len := a + b, FromLE(a[at + 2..at + 6]);
    assert s[at + 2..at + 6] == a[at + 2..at + 6];
    assert s[at..at + 2] == a[at..at + 2];
    assert s[at + 6..at + 6 + len] == a[at + 6..at + 6 + len];
    assert s[at + 6 + len..at + 14 + len] == a[at + 6 + len..at + 14 + len];
  }

  /** The last eight bytes of a log are the start of its last record: the log can be read backwards. */
  lemma TrailerIsLastStart(e: Env, l: Log)
    requires l.Snoc? && Encodable(e, l)
    ensures Size(e, l) >= 14
    ensures FromLE(Bytes(e, l)[Size(e, l) - 8..]) == Size(e, l.prev)
  {
    var r := Raw(e, Size(e, l.prev), l.last);
    assert Bytes(e, l)[Size(e, l) - 8..] == LE(r.previous, 8);
    Pow256Widths();
    LERoundTrip(r.previous, 8);
  }

  // ---------------------------------------------------------------- the state hash

  const CHUNK: nat := 1024 * 1024

  /** One hash for every megabyte, the last one for what is left. */
  function ChunkHashes(e: Env, s: bytes): seq<Hash> {
    if |s| >= CHUNK then [e.sha(s[..CHUNK])] + ChunkHashes(e, s[CHUNK..])
    else if s == [] then []
    else [e.sha(s)]
  }

  lemma SliceOfRest<T>(s: seq<T>, c: nat, a: nat, b: nat)
    requires a <= b && c + b <= |s|
    ensures s[c..][a..b] == s[c + a..c + b]
  {}

  /** There is one hash for every begun megabyte, and hash `i` is that of the bytes from megabyte `i` on. */
  lemma {:induction false} ChunkHashesAt(e: Env, s: bytes)
    ensures var r := ChunkHashes(e, s);
      && |r| == (|s| + CHUNK - 1) / CHUNK
      && forall i :: 0 <= i < |r| ==> r[i] == e.sha(s[i * CHUNK..Min((i + 1) * CHUNK, |s|)])
    decreases |s|
  {
    var r := ChunkHashes(e, s);
    if |s| >= CHUNK {
      var rest := s[CHUNK..];
      ChunkHashesAt(e, rest);
      assert r == [e.sha(s[..CHUNK])] + ChunkHashes(e, rest) && s[0..CHUNK] == s[..CHUNK];
      hide ChunkHashes;
      forall i | 0 < i < |r|
        ensures r[i] == e.sha(s[i * CHUNK..Min((i + 1) * CHUNK, |s|)])
      {
        SliceOfRest(s, CHUNK, (i - 1) * CHUNK, Min(i * CHUNK, |rest|));
      }
    } else if s != [] {
      assert s[0..|s|] == s;
    }
  }

  function StateHash(e: Env, s: bytes): Hash {
    e.shaList(ChunkHashes(e, s))
  }

  /** The loop of `calculate_state_hash` as it is written: the read inside the loop goes to a variable of its
      own, so `r` keeps the length of the first read. */
  datatype HashLoop = HashLoop(pos: nat, r: nat)

  function HashLoopAfter(s: bytes, n: nat): HashLoop {
    if n == 0 then HashLoop(0, Min(CHUNK, |s|))
    else
      var st := HashLoopAfter(s, n - 1); HashLoop(st.pos + st.r, st.r)
  }

  lemma {:induction false} HashLoopStuck(s: bytes, n: nat)
    ensures HashLoopAfter(s, n) == HashLoop(n * Min(CHUNK, |s|), Min(CHUNK, |s|))
  {
    if n > 0 {
      HashLoopStuck(s, n - 1);
    }
  }

  /** The written loop ends exactly for logs of less than a megabyte; there it hashes what the intended one does. */
  lemma WrittenHashLoopEnds(e: Env, s: bytes)
    ensures (exists n :: HashLoopAfter(s, n).r != CHUNK) <==> |s| < CHUNK
    ensures |s| < CHUNK ==> StateHash(e, s) == e.shaList(if HashLoopAfter(s, 0).r == 0 then [] else [e.sha(s)])
  {
    if |s| < CHUNK {
      assert HashLoopAfter(s, 0).r != CHUNK;
    } else {
      forall n: nat
        ensures HashLoopAfter(s, n).r == CHUNK
      {
        HashLoopStuck(s, n);
      }
    }
  }
}
