/** The layered state database as objects (libs/gpm/statedb/state_database.cpp).  One class stands for
    the source's two: a layer without a base is the `state_database` on disk, a layer with a base is a
    `state_database_transaction`.  Every method is proved against the log the layer stands for. */
module StateDatabases {
  import opened Common
  import opened BlockChain
  import opened Records
  import opened TrxFile
  import L = Ledger

  const INT_MAX: nat := 0x7fff_ffff

  /** `m[k] = v` for every entry of `d`, as the loops over an index do. */
  method Merge<K(==), V>(m: map<K, V>, d: map<K, V>) returns (r: map<K, V>)
    ensures r == m + d
  {
    r := m;
    var todo := d.Keys;
    while todo != {}
      invariant todo <= d.Keys
      invariant r == m + (map k | k in d && k !in todo :: d[k])
      decreases |todo|
    {
      var k :| k in todo;
      r := r[k := d[k]];
      todo := todo - {k};
    }
    assert (map k | k in d && k !in todo :: d[k]) == d;
  }

  lemma MapPlusAssociative<K, V>(a: map<K, V>, b: map<K, V>, c: map<K, V>)
    ensures (a + b) + c == a + (b + c)
  {}

  lemma MapPlusUpdate<K, V>(a: map<K, V>, b: map<K, V>, k: K, v: V)
    ensures (a + b)[k := v] == a + b[k := v]
  {}

  lemma ConcatAssociative(a: bytes, b: bytes, c: bytes)
    ensures (a + b) + c == a + (b + c)
  {}

  lemma CodecOfRecord(e: Env, l: Log, pos: nat)
    requires Encodable(e, l) && Lookup(e, l, pos).Some?
    ensures CodecOk(e, Lookup(e, l, pos).value)
  {
    if pos != Size(e, l.prev) {
      CodecOfRecord(e, l.prev, pos);
    }
  }

  class StateDatabase {
    const e: Env
    const file: File

    var base: StateDatabase?
    var local: bytes
    var transfers: map<AccountKey, nat>
    var names: map<string, nat>
    /** The two on-disk indexes; only the layer without a base uses them. */
    var transferDb: map<AccountKey, nat>
    var nameDb: map<string, nat>

    /** The log this layer stands for, and the layers below. */
    ghost var log: Log
    ghost var below: set<StateDatabase>

    ghost function BaseBytes(): bytes
      reads `base, base, file`content
    {
      if base == null then file.content else Bytes(base.e, base.log)
    }

    ghost function BaseNames(): map<string, nat>
      reads `base, `nameDb, base
    {
      if base == null then nameDb else Names(base.e, base.log)
    }

    ghost function BaseTransfers(): map<AccountKey, nat>
      reads `base, `transferDb, base
    {
      if base == null then transferDb else Transfers(base.e, base.log)
    }

    /** The layers below are valid and this one is on top of them. */
    ghost predicate OnBase()
      reads `base, `below, `log, below, file`content
      decreases below, 0
    {
      && this !in below
      && (base == null ==> below == {})
      && (base != null ==>
            && base in below && base !in base.below && below == base.below + {base}
            && base.file == file && base.e == e && base.Valid() && Prefix(base.log, log))
    }

    ghost predicate BytesAre(l: Log)
      reads `base, `local, base, file`content
    {
      Bytes(e, l) == BaseBytes() + local
    }

    ghost predicate IndexesAre(l: Log)
      reads `base, `names, `transfers, `nameDb, `transferDb, base
    {
      Names(e, l) == BaseNames() + names && Transfers(e, l) == BaseTransfers() + transfers
    }

    ghost predicate Valid()
      reads this, below, file`content
      decreases below, 1
    {
      && OnBase()
      && L.WellFormed(e, log) && Encodable(e, log)
      && BytesAre(log) && IndexesAre(log)
    }

    constructor Root(e: Env, file: File)
      requires file.content == []
      ensures Valid() && this.e == e && this.file == file && base == null && log == Empty && below == {}
      ensures local == [] && fresh(this)
    {
      this.e, this.file, this.base := e, file, null;
      local, transfers, names, transferDb, nameDb := [], map[], map[], map[], map[];
      log, below := Empty, {};
    }

    constructor Over(b: StateDatabase)
      requires b.Valid()
      ensures Valid() && e == b.e && file == b.file && base == b && log == b.log
      ensures below == b.below + {b} && local == [] && names == map[] && transfers == map[] && fresh(this)
    {
      e, file, base := b.e, b.file, b;
      local, transfers, names, transferDb, nameDb := [], map[], map[], map[], map[];
      log, below := b.log, b.below + {b};
      new;
      hide L.WellFormed, Encodable, Bytes, Names, Transfers, Prefix;
      Cleared(b);
      BelowIsAcyclic();
    }

    lemma BelowIsAcyclic()
      requires base != null && base.Valid()
      ensures base !in base.below
    {}

    // -------------------------------------------------------------- positions and bytes

    /** Lines 14-23 and 580-588. */
    method SizeOf() returns (n: nat)
      requires OnBase() && BytesAre(log)
      modifies file`cursor
      ensures n == Size(e, log) && file.cursor == old(file.cursor)
      decreases below
    {
      if base == null {
        n := file.Size();
      } else {
        n := base.SizeOf();
      }
      assert Size(e, log) == |Bytes(e, log)|;
      n := n + |local|;
    }

    method Start() returns (n: nat)
      requires OnBase()
      modifies file`cursor
      ensures n == (if base == null then 0 else Size(e, base.log)) && file.cursor == old(file.cursor)
    {
      if base == null {
        n := 0;
      } else {
        n := base.SizeOf();
      }
    }

    /** Lines 461-483 and 589-609: the base first, then the local bytes. */
    method Read(pos: nat, len: nat) returns (d: bytes)
      requires Valid() && pos <= Size(e, log)
      requires base != null ==> len <= INT_MAX
      modifies file`cursor
      ensures d == ReadAt(Bytes(e, log), pos, len)
      ensures file.cursor ==
        if pos < |file.content| then Min(pos + len, |file.content|) else old(file.cursor)
      decreases below
    {
      hide Bytes, Names, Transfers, Encodable, L.WellFormed;
      FileBelowBase();
      ReadAcross(BaseBytes(), local, pos, len);
      hide ReadAt;
      d := [];
      var start;
      if base == null {
        start := file.Size();
        if pos < start {
          file.Seek(pos);
          d := file.Read(len);
        }
      } else {
        start := Start();
        if pos < start {
          d := base.Read(pos, len);
        }
      }
      if |d| < len && local != [] {
        d := d + ReadAt(local, pos + |d| - start, len - |d|);
      }
    }

    /** What is on disk is part of what every layer sees. */
    lemma FileBelowBase()
      requires Valid()
      ensures |file.content| <= |BaseBytes()|
      decreases below
    {
      if base != null {
        base.FileBelowBase();
      }
    }

    /** A read of two byte strings in a row: what the first one gives, then the second one. */
    static lemma ReadAcross(a: bytes, b: bytes, pos: nat, len: nat)
      requires pos <= |a| + |b|
      ensures var d := if pos < |a| then ReadAt(a, pos, len) else [];
        && |d| <= len
        && (pos < |a| ==> pos + |d| <= |a|)
        && (|d| < len ==> pos + |d| >= |a|)
        && (|d| < len ==> ReadAt(a + b, pos, len) == d + ReadAt(b, pos + |d| - |a|, len - |d|))
        && (|d| == len || b == [] ==> ReadAt(a + b, pos, len) == d)
    {
      if pos >= |a| {
        ReadBeyond(a, b, pos, len);
      } else if pos + len <= |a| {
        ReadWithin(a, b, pos, len);
      } else {
        ReadBoth(a, b, pos, len);
      }
      hide ReadAt;
    }

    static lemma ReadBeyond(a: bytes, b: bytes, pos: nat, len: nat)
      requires |a| <= pos <= |a| + |b|
      ensures ReadAt(a + b, pos, len) == ReadAt(b, pos - |a|, len)
      ensures b == [] ==> ReadAt(a + b, pos, len) == []
      ensures |ReadAt(a + b, pos, len)| <= len
    {
      var n := Min(pos + len, |a| + |b|);
      assert (a + b)[pos..n] == b[pos - |a|..n - |a|];
    }

    static lemma ReadWithin(a: bytes, b: bytes, pos: nat, len: nat)
      requires pos + len <= |a|
      ensures ReadAt(a + b, pos, len) == ReadAt(a, pos, len) && |ReadAt(a, pos, len)| == len
    {
      assert (a + b)[pos..pos + len] == a[pos..pos + len];
    }

    static lemma ReadBoth(a: bytes, b: bytes, pos: nat, len: nat)
      requires pos < |a| < pos + len
      ensures |ReadAt(a, pos, len)| == |a| - pos
      ensures ReadAt(a + b, pos, len) == ReadAt(a, pos, len) + ReadAt(b, 0, len - (|a| - pos))
      ensures b == [] ==> ReadAt(a + b, pos, len) == ReadAt(a, pos, len)
    {
      var n := Min(pos + len, |a| + |b|);
      assert (a + b)[pos..n] == a[pos..] + b[..n - |a|];
      assert ReadAt(b, 0, len - (|a| - pos)) == b[..n - |a|];
    }

    /** What decoding at any position sees: the bytes of one layer, with what is below it at the bottom. */
    ghost function RecordSeen(pos: nat): Option<RawRecord>
      requires Valid()
      reads this, below, file`content
      decreases below
    {
      Stacked();
      if base == null then Decode(Bytes(e, log), pos)
      else if pos < Size(e, base.log) then base.RecordSeen(pos)
      else Decode(local, pos - Size(e, base.log))
    }

    /** Lines 24-45 and 610-631.  At the start of a record, that record; past the end, nothing; anywhere else
        whatever the bytes of the layer decode to. */
    method GetRecord(loc: Loc) returns (r: Option<RawRecord>)
      requires Valid()
      requires base == null ==> loc.At? && loc.pos <= Size(e, log)
      modifies file`cursor
      ensures loc.Nowhere? ==> r == None
      ensures loc.At? && loc.pos >= Size(e, log) ==> r == None
      ensures Get(e, log, loc).Some? ==> r == Some(Raw(e, loc.pos, Get(e, log, loc).value))
      ensures loc.At? ==> r == RecordSeen(loc.pos)
      ensures file.content == [] ==> file.cursor == old(file.cursor)
      decreases below, 1
    {
      if loc.Nowhere? {
        return None;
      }
      if base == null {
        RecordAt(loc.pos);
        r := ReadRecord(loc.pos);
      } else {
        r := GetFromLayers(loc.pos);
      }
    }

    /** Lines 30-45: below this layer's start the base is asked, otherwise the local bytes are unpacked. */
    method GetFromLayers(pos: nat) returns (r: Option<RawRecord>)
      requires Valid() && base != null
      modifies file`cursor
      ensures pos >= Size(e, log) ==> r == None
      ensures Lookup(e, log, pos).Some? ==> r == Some(Raw(e, pos, Lookup(e, log, pos).value))
      ensures r == RecordSeen(pos)
      ensures file.content == [] ==> file.cursor == old(file.cursor)
      decreases below, 0
    {
      RecordAt(pos);
      RecordBelow(pos);
      DecodePastEnd(local, if pos < Size(e, base.log) then 0 else pos - Size(e, base.log));
      hide Decode, Lookup, Raw, Bytes, Names, Transfers, Encodable, L.WellFormed;
      var start := Start();
      if pos < start {
        r := base.GetRecord(At(pos));
      } else if |local| <= pos - start {
        r := None;
      } else {
        r := Decode(local, pos - start);
      }
    }

    /** What decoding the whole log at a position gives. */
    lemma RecordAt(pos: nat)
      requires Valid()
      ensures Lookup(e, log, pos).Some? ==>
        Decode(Bytes(e, log), pos) == Some(Raw(e, pos, Lookup(e, log, pos).value)) && pos < Size(e, log)
      ensures pos >= Size(e, log) ==> Decode(Bytes(e, log), pos) == None
    {
      if Lookup(e, log, pos).Some? {
        BytesHoldRecords(e, log, pos);
      }
      DecodePastEnd(Bytes(e, log), pos);
    }

    /** Which layer holds the position. */
    lemma RecordBelow(pos: nat)
      requires Valid() && base != null
      ensures Size(e, log) == Size(e, base.log) + |local|
      ensures pos < Size(e, base.log) ==> Lookup(e, base.log, pos) == Lookup(e, log, pos)
      ensures pos >= Size(e, base.log) ==> Decode(Bytes(e, log), pos) == Decode(local, pos - Size(e, base.log))
    {
      hide L.WellFormed, Encodable, Names, Transfers, Decode;
      PrefixKeepsRecords(e, base.log, log);
      assert |Bytes(e, log)| == Size(e, log);
      if pos >= Size(e, base.log) {
        DecodeShift(Bytes(e, base.log), local, pos - Size(e, base.log));
      }
    }

    static lemma DecodePastEnd(s: bytes, at: nat)
      ensures at >= |s| ==> Decode(s, at) == None
    {}

    /** Decoding is four complete reads in a row. */
    static lemma DecodeReads(s: bytes, pos: nat)
      requires pos <= |s|
      ensures var id := ReadAt(s, pos, 2);
        if |id| != 2 then Decode(s, pos) == None
        else pos + 2 <= |s| && var len := ReadAt(s, pos + 2, 4);
        if |len| != 4 then Decode(s, pos) == None
        else pos + 6 <= |s| && var n := FromLE(len); var data := ReadAt(s, pos + 6, n);
        (n == 0 ==> data == []) &&
        if |data| != n then Decode(s, pos) == None
        else pos + 6 + n <= |s| && var previous := ReadAt(s, pos + 6 + n, 8);
        if |previous| != 8 then Decode(s, pos) == None
        else Decode(s, pos) == Some(RawRecord(FromLE(id), data, FromLE(previous)))
    {
      if pos + 6 <= |s| {
        assert ReadAt(s, pos, 2) == s[pos..pos + 2];
        assert ReadAt(s, pos + 2, 4) == s[pos + 2..pos + 6];
        var n := FromLE(s[pos + 2..pos + 6]);
        if pos + 14 + n <= |s| {
          assert ReadAt(s, pos + 6, n) == s[pos + 6..pos + 6 + n];
          assert ReadAt(s, pos + 6 + n, 8) == s[pos + 6 + n..pos + 14 + n];
        }
      }
    }

    /** The four reads of the layer on disk, each of which must be complete. */
    method ReadRecord(pos: nat) returns (r: Option<RawRecord>)
      requires Valid() && base == null && pos <= Size(e, log)
      modifies file`cursor
      ensures r == Decode(Bytes(e, log), pos)
      ensures file.content == [] ==> file.cursor == old(file.cursor)
    {
      hide Decode, ReadAt, Bytes, FromLE, Names, Transfers, Encodable, L.WellFormed;
      DecodeReads(Bytes(e, log), pos);
      var id := Read(pos, 2);
      if |id| != 2 {
        return None;
      }
      var len := Read(pos + 2, 4);
      if |len| != 4 {
        return None;
      }
      var n := FromLE(len);
      var data: bytes := [];
      if n != 0 {
        data := Read(pos + 6, n);
        if |data| != n {
          return None;
        }
      }
      var previous := Read(pos + 6 + n, 8);
      if |previous| != 8 {
        return None;
      }
      r := Some(RawRecord(FromLE(id), data, FromLE(previous)));
    }

    /** A record with its payload unpacked. */
    method Fetch(loc: Loc) returns (p: Option<Payload>)
      requires Valid() && Get(e, log, loc).Some?
      modifies file`cursor
      ensures p == Get(e, log, loc)
      ensures file.content == [] ==> file.cursor == old(file.cursor)
    {
      var r := GetRecord(loc);
      CodecOfRecord(e, log, loc.pos);
      p := e.unpack(r.value.id, r.value.data);
    }

    // -------------------------------------------------------------- queries

    /** Lines 659-687. */
    method GetLastNameEditIndex(name: string) returns (loc: Loc)
      requires Valid()
      ensures loc == LastNameEdit(e, log, name)
      decreases below
    {
      if name in names {
        loc := At(names[name]);
      } else if base != null {
        loc := base.GetLastNameEditIndex(name);
      } else {
        loc := if name in nameDb then At(nameDb[name]) else Nowhere;
      }
    }

    /** Lines 688-711. */
    method GetLastTransferIndex(k: AccountKey) returns (loc: Loc)
      requires Valid()
      ensures loc == LastTransfer(e, log, k)
      decreases below
    {
      if k in transfers {
        loc := At(transfers[k]);
      } else if base != null {
        loc := base.GetLastTransferIndex(k);
      } else {
        loc := if k in transferDb then At(transferDb[k]) else Nowhere;
      }
    }

    /** Lines 76-125. */
    method GetPublicKey(name: string) returns (key: Option<Key>)
      requires Valid()
      modifies file`cursor
      ensures key == L.PublicKey(e, log, name)
      ensures file.content == [] ==> file.cursor == old(file.cursor)
    {
      var edit := GetLastNameEditIndex(name);
      if edit.Nowhere? {
        return None;
      }
      L.LastEditOfName(e, log, name);
      var p := Fetch(edit);
      match p {
        case Some(DefineName(_, k)) => key := Some(k);
        case Some(UpdateName(_, k, _)) => key := Some(k);
        case _ => key := None;
      }
    }

    /** Lines 127-150, at the start of any record or at -1. */
    method GetNameForIndex(loc: Loc) returns (name: Result<string>)
      requires Valid() && (loc.At? ==> Get(e, log, loc).Some?)
      modifies file`cursor
      ensures name == L.NameForIndex(e, log, loc)
      ensures file.content == [] ==> file.cursor == old(file.cursor)
      decreases if loc.At? then loc.pos + 1 else 0
    {
      hide L.WellFormed, Encodable, Bytes, Names, Transfers, Prefix, Lookup;
      if loc.Nowhere? {
        return Ok("");
      }
      var p := Fetch(loc);
      match p {
        case Some(DefineName(n, _)) => name := Ok(n);
        case Some(UpdateName(idx, _, _)) =>
          L.UpdateLeadsBack(e, log, loc.pos);
          name := GetNameForIndex(idx);
        case _ => name := Err;
      }
    }

    /** Lines 151-176. */
    method GetNameIndex(name: string) returns (loc: Result<Loc>)
      requires Valid()
      modifies file`cursor
      ensures loc == L.NameIndex(e, log, name)
      ensures file.content == [] ==> file.cursor == old(file.cursor)
    {
      var edit := GetLastNameEditIndex(name);
      if edit.Nowhere? {
        return Ok(Nowhere);
      }
      L.LastEditOfName(e, log, name);
      var p := Fetch(edit);
      match p {
        case Some(DefineName(_, _)) => loc := Ok(edit);
        case Some(UpdateName(idx, _, _)) => loc := Ok(idx);
        case _ => loc := Err;
      }
    }

    /** Lines 212-250. */
    method GetBalance(account: string, stock: string) returns (b: Result<L.BalanceInfo>)
      requires Valid()
      modifies file`cursor
      ensures b == L.Balance(e, log, account, stock)
      ensures file.content == [] ==> file.cursor == old(file.cursor)
    {
      var a := GetNameIndex(account);
      var t := GetNameIndex(stock);
      if a.Err? || t.Err? {
        return Err;
      }
      b := GetBalanceAt(a.value, t.value);
    }

    method GetBalanceAt(a: Loc, t: Loc) returns (b: Result<L.BalanceInfo>)
      requires Valid()
      modifies file`cursor
      ensures b == L.BalanceAt(e, log, a, t)
      ensures file.content == [] ==> file.cursor == old(file.cursor)
    {
      var loc := GetLastTransferIndex(AccountKey(a, t));
      if loc.Nowhere? {
        return Ok(L.BalanceInfo(0, true, Nowhere));
      }
      L.IndexedTransfer(e, log, AccountKey(a, t));
      var p := Fetch(loc);
      if p.None? || !p.value.TransferLog? || p.value.stock != t {
        return Err;
      }
      if p.value.sender == a {
        b := Ok(L.BalanceInfo(p.value.newFrom, false, loc));
      } else if p.value.recipient == a {
        b := Ok(L.BalanceInfo(p.value.newTo, false, loc));
      } else {
        b := Err;
      }
    }

    // -------------------------------------------------------------- appending

    /** The layer's own bytes and indexes become those of the log `l`. */
    method Install(newLocal: bytes, newTransfers: map<AccountKey, nat>, newNames: map<string, nat>, ghost l: Log)
      requires OnBase() && (base != null ==> Prefix(base.log, l)) && L.WellFormed(e, l) && Encodable(e, l)
      requires Bytes(e, l) == BaseBytes() + newLocal
      requires Names(e, l) == BaseNames() + newNames && Transfers(e, l) == BaseTransfers() + newTransfers
      modifies `local, `transfers, `names, `log
      ensures Valid() && log == l
      ensures local == newLocal && transfers == newTransfers && names == newNames
    {
      hide Bytes, Names, Transfers, Encodable, L.WellFormed, Prefix;
      local, transfers, names := newLocal, newTransfers, newNames;
      log := l;
    }

    /** Lines 47-57, called after the indexes have been moved on to the new record. */
    method AppendRecord(p: Payload)
      requires OnBase() && L.WellFormed(e, log) && BytesAre(log)
      requires L.GoodRecord(e, log, p) && Encodable(e, Snoc(log, p)) && IndexesAre(Snoc(log, p))
      modifies `local, `transfers, `names, `log, file`cursor
      ensures Valid() && log == Snoc(old(log), p)
      ensures file.cursor == old(file.cursor)
    {
      ghost var l := Snoc(log, p);
      assert L.WellFormed(e, l) && Bytes(e, l) == Bytes(e, log) + Encode(Raw(e, Size(e, log), p));
      assert base != null ==> Prefix(base.log, l);
      hide Encode, Bytes, Names, Transfers, Encodable, L.WellFormed, L.GoodRecord, Prefix;
      var pos := SizeOf();
      ConcatAssociative(BaseBytes(), local, Encode(Raw(e, pos, p)));
      Install(local + Encode(Raw(e, pos, p)), transfers, names, l);
    }

    /** Lines 58-74: the records of a layer above, whose log is `l`, become this layer's own. */
    method Append(d: bytes, idx: map<AccountKey, nat>, nidx: map<string, nat>, ghost l: Log)
      requires Valid() && Prefix(log, l) && L.WellFormed(e, l) && Encodable(e, l)
      requires Bytes(e, l) == Bytes(e, log) + d
      requires Names(e, l) == Names(e, log) + nidx && Transfers(e, l) == Transfers(e, log) + idx
      modifies `local, `transfers, `names, `log
      ensures Valid() && log == l
    {
      if base != null {
        PrefixTransitive(base.log, log, l);
      }
      hide Bytes, Names, Transfers, Encodable, L.WellFormed, Prefix;
      ConcatAssociative(BaseBytes(), local, d);
      MapPlusAssociative(BaseTransfers(), transfers, idx);
      MapPlusAssociative(BaseNames(), names, nidx);
      var idx' := Merge(transfers, idx);
      var nidx' := Merge(names, nidx);
      Install(local + d, idx', nidx', l);
    }

    /** Lines 179-210. */
    method SetPublicKey(name: string, key: Key) returns (ok: bool)
      requires Valid() && Encodable(e, L.SetPublicKey(e, log, name, key).0)
      modifies `local, `transfers, `names, `log, file`cursor
      ensures Valid() && (log, ok) == L.SetPublicKey(e, old(log), name, key)
      ensures file.content == [] ==> file.cursor == old(file.cursor)
    {
      var edit := GetLastNameEditIndex(name);
      L.SetPublicKeyGrows(e, log, name, key);
      var p := DefineName(name, key);
      if edit.At? {
        L.LastEditOfName(e, log, name);
        var r := Fetch(edit);
        match r {
          case Some(DefineName(_, _)) => p := UpdateName(edit, key, edit);
          case Some(UpdateName(idx, _, _)) => p := UpdateName(idx, key, edit);
          case _ => return false;
        }
      }
      assert L.SetPublicKey(e, log, name, key) == (Snoc(log, p), true);
      assert NameEdited(e, log, p) == Some(name);
      EditName(name, p);
      ok := true;
    }

    /** A record that edits a name is appended and indexed. */
    method EditName(name: string, p: Payload)
      requires Valid() && NameEdited(e, log, p) == Some(name)
      requires L.GoodRecord(e, log, p) && Encodable(e, Snoc(log, p))
      modifies `local, `transfers, `names, `log, file`cursor
      ensures Valid() && log == Snoc(old(log), p)
      ensures file.cursor == old(file.cursor)
    {
      assert Names(e, Snoc(log, p)) == Names(e, log)[name := Size(e, log)];
      assert Transfers(e, Snoc(log, p)) == Transfers(e, log);
      hide Bytes, Names, Transfers, Encodable, L.WellFormed, L.GoodRecord, NameEdited, Prefix;
      var at := SizeOf();
      MapPlusUpdate(BaseNames(), names, name, at);
      names := names[name := at];
      AppendRecord(p);
    }

    /** A transfer record is appended and indexed under both its keys. */
    method AddTransfer(tl: Payload)
      requires Valid() && tl.TransferLog?
      requires L.GoodRecord(e, log, tl) && Encodable(e, Snoc(log, tl))
      modifies `local, `transfers, `names, `log, file`cursor
      ensures Valid() && log == Snoc(old(log), tl)
      ensures file.cursor == old(file.cursor)
    {
      assert Transfers(e, Snoc(log, tl)) == Transfers(e, log)[FromKey(tl) := Size(e, log)][ToKey(tl) := Size(e, log)];
      assert Names(e, Snoc(log, tl)) == Names(e, log);
      hide Bytes, Names, Transfers, Encodable, L.WellFormed, L.GoodRecord, Prefix;
      var p := SizeOf();
      var moved := transfers[FromKey(tl) := p];
      MapPlusUpdate(BaseTransfers(), transfers, FromKey(tl), p);
      MapPlusUpdate(BaseTransfers(), moved, ToKey(tl), p);
      moved := moved[ToKey(tl) := p];
      transfers := moved;
      AppendRecord(tl);
    }

    /** Lines 251-277; the result tells whether the funds sufficed, otherwise the source throws. */
    method TransferBalance(sender: string, recipient: string, stock: string, amount: u64, trx: Loc) returns (ok: bool)
      requires Valid() && L.TrxLoc(e, log, trx)
      requires var r := L.TransferBalance(e, log, sender, recipient, stock, amount, trx);
        r.Ok? ==> Encodable(e, r.value)
      modifies `local, `transfers, `names, `log, file`cursor
      ensures Valid()
      ensures L.Finished(old(log), L.TransferBalance(e, old(log), sender, recipient, stock, amount, trx))
        == L.Outcome(log, if ok then L.Applied else L.Threw)
      ensures file.content == [] ==> file.cursor == old(file.cursor)
    {
      hide L.NameIndex, L.Balance, Encodable, L.WellFormed, L.GoodRecord, Names, Transfers, Bytes;
      L.TransferBalanceGrows(e, log, sender, recipient, stock, amount, trx);
      var f := GetNameIndex(sender);
      var t := GetNameIndex(recipient);
      var s := GetNameIndex(stock);
      var fb := GetBalance(sender, stock);
      var tb := GetBalance(recipient, stock);
      if f.Err? || t.Err? || s.Err? || fb.Err? || tb.Err? {
        return false;
      }
      if fb.value.amount < amount {
        return false;
      }
      var tl := TransferLog(amount, s.value, f.value, t.value, fb.value.amount - amount,
                            (tb.value.amount + amount) % TWO_64, fb.value.loc, tb.value.loc, trx);
      assert L.TransferBalance(e, log, sender, recipient, stock, amount, trx) == Ok(Snoc(log, tl));
      L.UnfoldGrown(e, log, tl);
      AddTransfer(tl);
      ok := true;
    }

    /** Lines 283-306. */
    method IssueStock(stock: string, trx: Loc) returns (ok: bool)
      requires Valid() && L.TrxLoc(e, log, trx)
      requires var r := L.IssueStock(e, log, stock, trx); r.Ok? ==> Encodable(e, r.value)
      modifies `local, `transfers, `names, `log, file`cursor
      ensures Valid()
      ensures L.Finished(old(log), L.IssueStock(e, old(log), stock, trx))
        == L.Outcome(log, if ok then L.Applied else L.Threw)
      ensures file.content == [] ==> file.cursor == old(file.cursor)
    {
      hide L.NameIndex, L.Balance, Encodable, L.WellFormed, L.GoodRecord, Names, Transfers, Bytes;
      L.IssueStockGrows(e, log, stock, trx);
      var s := GetNameIndex(stock);
      var b := GetBalance(stock, stock);
      if s.Err? || b.Err? || !b.value.isNull {
        return false;
      }
      var tl := TransferLog(MAX_U64, s.value, s.value, s.value, MAX_U64, MAX_U64, b.value.loc, Nowhere, trx);
      assert L.IssueStock(e, log, stock, trx) == Ok(Snoc(log, tl));
      L.UnfoldGrown(e, log, tl);
      AddTransfer(tl);
      ok := true;
    }

    // -------------------------------------------------------------- applying transactions and blocks

    /** One command (lines 319-436). */
    method ApplyCommand(trx: SignedTrx, cmd: Command, gen: string, pos: Loc) returns (status: L.Status)
      requires Valid() && L.TrxLoc(e, log, pos)
      requires Encodable(e, L.ApplyCommand(e, log, trx, cmd, gen, pos).log)
      modifies `local, `transfers, `names, `log, file`cursor
      ensures Valid() && L.Outcome(log, status) == L.ApplyCommand(e, old(log), trx, cmd, gen, pos)
      ensures file.content == [] ==> file.cursor == old(file.cursor)
    {
      hide L.Register, L.ApplyIssue, L.ApplyTransfer, L.WellFormed, Encodable;
      match cmd {
        case RegisterName(name, key) =>
          status := Register(trx, name, key);
        case Issue(stock) =>
          status := ApplyIssue(trx, stock, pos);
        case Transfer(amount, stock, sender, recipient) =>
          if |recipient| > 0 && sender == recipient {
            return L.Rejected;
          }
          var to := recipient;
          if |to| == 0 {
            to := gen;
          }
          status := ApplyTransfer(trx, amount, stock, sender, to, pos);
        case Other(_) =>
          status := L.Rejected;
      }
    }

    method Register(trx: SignedTrx, name: string, key: Key) returns (status: L.Status)
      requires Valid() && Encodable(e, L.Register(e, log, trx, name, key).log)
      modifies `local, `transfers, `names, `log, file`cursor
      ensures Valid() && L.Outcome(log, status) == L.Register(e, old(log), trx, name, key)
      ensures file.content == [] ==> file.cursor == old(file.cursor)
    {
      hide L.PublicKey, L.SetPublicKey, L.WellFormed, Encodable;
      if name != e.address(key) {
        var owner := GetPublicKey(name);
        if owner.Some? {
          if !e.verify(trx, owner.value) {
            return L.Rejected;
          }
        }
      }
      var ok := SetPublicKey(name, key);
      status := L.Applied;
    }

    method ApplyIssue(trx: SignedTrx, stock: string, pos: Loc) returns (status: L.Status)
      requires Valid() && L.TrxLoc(e, log, pos)
      requires Encodable(e, L.ApplyIssue(e, log, trx, stock, pos).log)
      modifies `local, `transfers, `names, `log, file`cursor
      ensures Valid() && L.Outcome(log, status) == L.ApplyIssue(e, old(log), trx, stock, pos)
      ensures file.content == [] ==> file.cursor == old(file.cursor)
    {
      hide L.PublicKey, L.Balance, L.IssueStock, L.WellFormed, Encodable, L.TrxLoc;
      var owner := GetPublicKey(stock);
      if owner.None? {
        return L.Rejected;
      }
      var b := GetBalance(stock, stock);
      if b.Err? {
        return L.Threw;
      }
      if !b.value.isNull {
        return L.Rejected;
      }
      if !e.verify(trx, owner.value) {
        return L.Rejected;
      }
      var ok := IssueStock(stock, pos);
      status := if ok then L.Applied else L.Threw;
    }

    method ApplyTransfer(trx: SignedTrx, amount: u64, stock: string, sender: string, to: string, pos: Loc)
      returns (status: L.Status)
      requires Valid() && L.TrxLoc(e, log, pos)
      requires Encodable(e, L.ApplyTransfer(e, log, trx, amount, stock, sender, to, pos).log)
      modifies `local, `transfers, `names, `log, file`cursor
      ensures Valid() && L.Outcome(log, status) == L.ApplyTransfer(e, old(log), trx, amount, stock, sender, to, pos)
      ensures file.content == [] ==> file.cursor == old(file.cursor)
    {
      hide L.PublicKey, L.Balance, L.SendTo, L.WellFormed, Encodable, L.TrxLoc;
      var owner := GetPublicKey(sender);
      if owner.None? {
        return L.Rejected;
      }
      var typeKey := GetPublicKey(stock);
      if typeKey.None? {
        return L.Rejected;
      }
      if !e.verify(trx, owner.value) {
        return L.Rejected;
      }
      var b := GetBalance(sender, stock);
      if b.Err? {
        return L.Threw;
      }
      if b.value.amount < amount {
        return L.Rejected;
      }
      status := SendTo(amount, stock, sender, to, pos);
    }

    method SendTo(amount: u64, stock: string, sender: string, to: string, pos: Loc) returns (status: L.Status)
      requires Valid() && L.TrxLoc(e, log, pos)
      requires Encodable(e, L.SendTo(e, log, amount, stock, sender, to, pos).log)
      modifies `local, `transfers, `names, `log, file`cursor
      ensures Valid() && L.Outcome(log, status) == L.SendTo(e, old(log), amount, stock, sender, to, pos)
      ensures file.content == [] ==> file.cursor == old(file.cursor)
    {
      hide L.NameIndex, L.TransferBalance, L.WellFormed, Encodable, L.TrxLoc;
      var idx := GetNameIndex(to);
      if idx.Err? {
        return L.Threw;
      }
      if idx.value.Nowhere? {
        if !e.validAddress(to) {
          return L.Rejected;
        }
        DefineDestination(to, pos, amount, stock, sender);
      }
      var ok := TransferBalance(sender, to, stock, amount, pos);
      status := if ok then L.Applied else L.Threw;
    }

    /** An address that is not registered yet is defined with an empty key. */
    method DefineDestination(to: string, ghost pos: Loc, ghost amount: u64, ghost stock: string, ghost sender: string)
      requires Valid() && L.TrxLoc(e, log, pos) && L.NameIndex(e, log, to) == Ok(Nowhere)
      requires var r := L.TransferBalance(e, Snoc(log, DefineName(to, e.noKey)), sender, to, stock, amount, pos);
        Encodable(e, L.Finished(Snoc(log, DefineName(to, e.noKey)), r).log)
      modifies `local, `transfers, `names, `log, file`cursor
      ensures Valid() && log == Snoc(old(log), DefineName(to, e.noKey)) && L.TrxLoc(e, log, pos)
      ensures file.cursor == old(file.cursor)
    {
      var p := DefineName(to, e.noKey);
      ghost var l1 := Snoc(log, p);
      L.NameIndexIsDefinition(e, log, to);
      L.LastEditOfName(e, log, to);
      L.TrxLocKept(e, log, l1, pos);
      L.TransferBalanceGrows(e, l1, sender, to, stock, amount, pos);
      EncodablePrefix(e, l1, L.Finished(l1, L.TransferBalance(e, l1, sender, to, stock, amount, pos)).log);
      EditName(to, p);
    }

    /** Lines 310-433: the `start_trx` record, then the commands until one fails. */
    method ApplyTrx(trx: SignedTrx, gen: string) returns (status: L.Status)
      requires Valid() && Encodable(e, L.ApplyTrx(e, log, trx, gen).log)
      modifies `local, `transfers, `names, `log, file`cursor
      ensures Valid() && L.Outcome(log, status) == L.ApplyTrx(e, old(log), trx, gen)
      ensures file.content == [] ==> file.cursor == old(file.cursor)
    {
      var trxPos := SizeOf();
      var start := StartTrx(e.trxHash(trx), trx.utcTime);
      StartKeepsIndexes(start);
      L.StartGrows(e, log, start);
      L.ApplyCommandsGrows(e, Snoc(log, start), trx, 0, gen, At(trxPos));
      EncodablePrefix(e, Snoc(log, start), L.ApplyTrx(e, log, trx, gen).log);
      AppendRecord(start);
      status := ApplyCommands(trx, gen, At(trxPos));
    }

    /** The loop over the commands. */
    method ApplyCommands(trx: SignedTrx, gen: string, pos: Loc) returns (status: L.Status)
      requires Valid() && L.TrxLoc(e, log, pos) && Encodable(e, L.ApplyCommands(e, log, trx, 0, gen, pos).log)
      modifies `local, `transfers, `names, `log, file`cursor
      ensures Valid() && L.Outcome(log, status) == L.ApplyCommands(e, old(log), trx, 0, gen, pos)
      ensures file.content == [] ==> file.cursor == old(file.cursor)
    {
      hide L.ApplyCommand, L.WellFormed, Encodable, L.TrxLoc, Bytes, Names, Transfers, Prefix;
      ghost var goal := L.ApplyCommands(e, log, trx, 0, gen, pos);
      var i := 0;
      while i < |trx.commands|
        invariant i <= |trx.commands| && Valid() && L.TrxLoc(e, log, pos)
        invariant L.ApplyCommands(e, log, trx, i, gen, pos) == goal
        invariant file.content == [] ==> file.cursor == old(file.cursor)
      {
        CommandFits(trx, i, gen, pos, goal);
        status := ApplyCommand(trx, trx.commands[i], gen, pos);
        if status != L.Applied {
          return;
        }
        i := i + 1;
      }
      status := L.Applied;
    }

    lemma StartKeepsIndexes(start: Payload)
      requires Valid() && start.StartTrx?
      ensures IndexesAre(Snoc(log, start)) && L.GoodRecord(e, log, start)
    {}

    /** What the next command leaves is a prefix of what the whole transaction leaves. */
    lemma CommandFits(trx: SignedTrx, i: nat, gen: string, pos: Loc, goal: L.Outcome)
      requires L.WellFormed(e, log) && L.TrxLoc(e, log, pos) && i < |trx.commands|
      requires goal == L.ApplyCommands(e, log, trx, i, gen, pos) && Encodable(e, goal.log)
      ensures var o := L.ApplyCommand(e, log, trx, trx.commands[i], gen, pos);
        Encodable(e, o.log) && L.TrxLoc(e, o.log, pos)
    {
      var o := L.ApplyCommand(e, log, trx, trx.commands[i], gen, pos);
      L.ApplyCommandGrows(e, log, trx, trx.commands[i], gen, pos);
      if o.status.Applied? {
        L.ApplyCommandsGrows(e, o.log, trx, i + 1, gen, pos);
        EncodablePrefix(e, o.log, goal.log);
      }
    }

    /** Lines 490-514, with the second read of the loop assigned to the `r` the loop tests.
        Reading to the end leaves the cursor of the file below at its end. */
    method CalculateStateHash() returns (h: Hash)
      requires Valid()
      modifies file`cursor
      ensures h == StateHash(e, Bytes(e, log))
      ensures file.content != [] ==> file.cursor == |file.content|
      ensures file.content == [] ==> file.cursor == old(file.cursor)
    {
      hide Bytes, Names, Transfers, Encodable, L.WellFormed, Prefix, ChunkHashes, ReadAt;
      FileInBytes();
      ghost var s := Bytes(e, log);
      var hashes: seq<Hash> := [];
      var pos := 0;
      var r := Read(pos, CHUNK);
      assert s[0..] == s;
      while |r| == CHUNK
        invariant pos <= |s| && r == ReadAt(s, pos, CHUNK)
        invariant hashes + ChunkHashes(e, s[pos..]) == ChunkHashes(e, s)
        invariant file.content != [] ==> file.cursor == Min(pos + CHUNK, |file.content|)
        invariant file.content == [] ==> file.cursor == old(file.cursor)
        decreases |s| - pos
      {
        ChunkStep(e, s, pos);
        hashes := hashes + [e.sha(r)];
        pos := pos + |r|;
        r := Read(pos, CHUNK);
      }
      LastChunk(e, s, pos);
      if r != [] {
        hashes := hashes + [e.sha(r)];
      } else {
        assert hashes + [] == hashes;
      }
      h := e.shaList(hashes);
    }

    lemma FileInBytes()
      requires Valid()
      ensures |file.content| <= Size(e, log) == |Bytes(e, log)|
    {
      FileBelowBase();
    }

    static lemma ChunkStep(e: Env, s: bytes, pos: nat)
      requires pos <= |s| && |ReadAt(s, pos, CHUNK)| == CHUNK
      ensures pos + CHUNK <= |s|
      ensures ChunkHashes(e, s[pos..]) == [e.sha(ReadAt(s, pos, CHUNK))] + ChunkHashes(e, s[pos + CHUNK..])
    {
      assert s[pos..][..CHUNK] == ReadAt(s, pos, CHUNK);
      assert s[pos..][CHUNK..] == s[pos + CHUNK..];
    }

    static lemma LastChunk(e: Env, s: bytes, pos: nat)
      requires pos <= |s| && |ReadAt(s, pos, CHUNK)| != CHUNK
      ensures |s| < pos + CHUNK
      ensures ChunkHashes(e, s[pos..]) == if ReadAt(s, pos, CHUNK) == [] then [] else [e.sha(ReadAt(s, pos, CHUNK))]
    {
      assert s[pos..] == ReadAt(s, pos, CHUNK);
    }

    /** Lines 435-453.  A block that is accepted leaves the file's cursor at its end. */
    method ApplyBlock(b: Block, gen: string, trxs: seq<SignedTrx>, check: Hash) returns (status: L.Status)
      requires Valid() && Encodable(e, L.ApplyBlock(e, log, b, gen, trxs, check).log)
      modifies `local, `transfers, `names, `log, file`cursor
      ensures Valid() && L.Outcome(log, status) == L.ApplyBlock(e, old(log), b, gen, trxs, check)
      ensures status.Applied? && file.content != [] ==> file.cursor == |file.content|
      ensures file.content == [] ==> file.cursor == old(file.cursor)
    {
      hide L.WellFormed, Encodable, Bytes, Names, Transfers, Prefix, L.ApplyTrxs;
      TrxsFit(b, gen, trxs, check);
      status := ApplyTrxs(trxs, gen);
      if status != L.Applied {
        return;
      }
      var h := CalculateStateHash();
      if h != check {
        return L.Rejected;
      }
      EndKeepsIndexes(EndBlock(b, gen));
      AppendRecord(EndBlock(b, gen));
    }

    lemma TrxsFit(b: Block, gen: string, trxs: seq<SignedTrx>, check: Hash)
      requires L.WellFormed(e, log) && Encodable(e, L.ApplyBlock(e, log, b, gen, trxs, check).log)
      ensures Encodable(e, L.ApplyTrxs(e, log, trxs, gen).log)
    {}

    lemma EndKeepsIndexes(end: Payload)
      requires Valid() && end.EndBlock?
      ensures IndexesAre(Snoc(log, end)) && L.GoodRecord(e, log, end)
    {}

    /** The loop over the transactions of a block. */
    method ApplyTrxs(trxs: seq<SignedTrx>, gen: string) returns (status: L.Status)
      requires Valid() && Encodable(e, L.ApplyTrxs(e, log, trxs, gen).log)
      modifies `local, `transfers, `names, `log, file`cursor
      ensures Valid() && L.Outcome(log, status) == L.ApplyTrxs(e, old(log), trxs, gen)
      ensures file.content == [] ==> file.cursor == old(file.cursor)
    {
      hide L.ApplyTrx, L.WellFormed, Encodable, Bytes, Names, Transfers, Prefix;
      ghost var goal := L.ApplyTrxs(e, log, trxs, gen);
      assert trxs[0..] == trxs;
      for i := 0 to |trxs|
        invariant Valid() && L.ApplyTrxs(e, log, trxs[i..], gen) == goal
        invariant file.content == [] ==> file.cursor == old(file.cursor)
      {
        assert trxs[i..][0] == trxs[i] && trxs[i..][1..] == trxs[i + 1..];
        TrxFits(trxs[i..], gen);
        status := ApplyTrx(trxs[i], gen);
        if status != L.Applied {
          return;
        }
      }
      status := L.Applied;
    }

    lemma TrxFits(trxs: seq<SignedTrx>, gen: string)
      requires L.WellFormed(e, log) && trxs != [] && Encodable(e, L.ApplyTrxs(e, log, trxs, gen).log)
      ensures Encodable(e, L.ApplyTrx(e, log, trxs[0], gen).log)
    {
      var o := L.ApplyTrx(e, log, trxs[0], gen);
      L.ApplyTrxGrows(e, log, trxs[0], gen);
      if o.status.Applied? {
        L.ApplyTrxsGrows(e, o.log, trxs[1..], gen);
        EncodablePrefix(e, o.log, L.ApplyTrxs(e, log, trxs, gen).log);
      }
    }

    // -------------------------------------------------------------- moving layers

    /** Lines 517-525 and 633-656.  The layer below takes over the view; this layer's view stays.
        On disk the bytes are written at the file's cursor, wherever that is: the file holds the log
        afterwards exactly when the cursor was at the end, or there was nothing to write. */
    method Commit()
      requires Valid() && (base == null ==> file.cursor <= |file.content|)
      modifies this, base, file
      ensures log == old(log) && local == [] && base == old(base) && below == old(below)
      ensures Valid() <==> base != null || old(AtEnd())
      ensures base != null ==> base.Valid() && base.log == log && names == map[] && transfers == map[]
      ensures base != null ==> base.base == old(base.base) && base.below == old(base.below)
      ensures base != null ==> file.content == old(file.content) && file.cursor == old(file.cursor)
      ensures base == null ==> (file.content == Bytes(e, log) <==> old(AtEnd()))
      ensures base == null && old(file.cursor == |file.content|) ==> file.cursor == |file.content|
    {
      if base == null {
        CommitToFile();
      } else {
        CommitToBase();
      }
    }

    ghost predicate AtEnd()
      reads `local, file
    {
      local == [] || file.cursor == |file.content|
    }

    method CommitToBase()
      requires Valid() && base != null
      modifies `local, `transfers, `names, base`local, base`transfers, base`names, base`log
      ensures Valid() && local == [] && names == map[] && transfers == map[]
      ensures base.Valid() && base.log == log
    {
      hide L.WellFormed, Encodable, Bytes, Names, Transfers, Prefix;
      base.Append(local, transfers, names, log);
      Cleared(base);
      local, transfers, names := [], map[], map[];
    }

    /** With nothing of its own, a layer shows its base. */
    lemma Cleared(b: StateDatabase)
      ensures Prefix(b.log, b.log)
      ensures forall s: bytes :: s + [] == s
      ensures forall m: map<string, nat> :: m + map[] == m
      ensures forall m: map<AccountKey, nat> :: m + map[] == m
    {}

    method CommitToFile()
      requires Valid() && base == null && file.cursor <= |file.content|
      modifies `local, `transfers, `names, `transferDb, `nameDb, file
      ensures local == [] && (Valid() <==> old(AtEnd()))
      ensures file.content == WriteAt(old(file.content), old(file.cursor), old(local))
      ensures file.content == Bytes(e, log) <==> old(AtEnd())
      ensures file.cursor == old(file.cursor) + |old(local)|
      ensures old(file.cursor == |file.content|) ==> file.cursor == |file.content|
    {
      OnDisk();
      WriteAtCursor(file.content, file.cursor, local);
      hide Bytes, WriteAt, Valid;
      if local != [] {
        var t := Merge(transferDb, transfers);
        var n := Merge(nameDb, names);
        file.Write(local);
        transferDb, nameDb := t, n;
        local, transfers, names := [], map[], map[];
        if file.content == Bytes(e, log) {
          AllOnDisk();
        } else {
          NotOnDisk();
        }
      }
    }

    lemma NotOnDisk()
      requires base == null && local == [] && Bytes(e, log) != file.content
      ensures !Valid()
    {
      assert file.content + [] == file.content;
      hide L.WellFormed, Encodable, Bytes, Names, Transfers, Prefix;
    }

    /** Writing at the cursor appends exactly when the cursor is at the end, or nothing is written. */
    static lemma WriteAtCursor(s: bytes, at: nat, d: bytes)
      requires at <= |s|
      ensures WriteAt(s, at, d) == s + d <==> d == [] || at == |s|
      ensures d == [] ==> WriteAt(s, at, d) == s
      ensures at == |s| ==> |WriteAt(s, at, d)| == at + |d|
    {
      if d == [] {
        assert s[..at] + d + s[at..] == s;
      } else if at < |s| {
        assert |WriteAt(s, at, d)| == Max(|s|, at + |d|) < |s| + |d|;
      }
    }

    lemma OnDisk()
      requires Valid() && base == null
      ensures L.WellFormed(e, log) && Encodable(e, log) && below == {}
      ensures Bytes(e, log) == file.content + local && (local == [] ==> file.content + local == file.content)
      ensures Names(e, log) == nameDb + names && Transfers(e, log) == transferDb + transfers
    {
      hide L.WellFormed, Encodable, Bytes, Names, Transfers, Prefix;
    }

    lemma AllOnDisk()
      requires base == null && below == {} && L.WellFormed(e, log) && Encodable(e, log)
      requires local == [] && names == map[] && transfers == map[]
      requires Bytes(e, log) == file.content && Names(e, log) == nameDb && Transfers(e, log) == transferDb
      ensures Valid()
    {
      hide L.WellFormed, Encodable, Bytes, Names, Transfers, Prefix;
      Cleared(this);
    }

    /** Lines 526-531: the view of the base again, whatever this layer showed before. */
    method Abort()
      requires base != null && base.Valid() && base in below && base !in base.below && below == base.below + {base}
      requires this !in below && base.file == file && base.e == e
      modifies `local, `transfers, `names, `log
      ensures Valid() && log == base.log && local == [] && names == map[] && transfers == map[]
    {
      hide L.WellFormed, Encodable, Bytes, Names, Transfers, Prefix;
      Cleared(base);
      local, transfers, names := [], map[], map[];
      log := base.log;
    }

    /** A layer with nothing of its own shows whatever its base shows; nothing has to be done for that. */
    ghost method Follow()
      requires base != null && base.Valid() && base in below && base !in base.below && below == base.below + {base}
      requires this !in below && base.file == file && base.e == e
      requires local == [] && names == map[] && transfers == map[]
      modifies `log
      ensures Valid() && log == base.log
    {
      hide L.WellFormed, Encodable, Bytes, Names, Transfers, Prefix;
      Cleared(base);
      log := base.log;
    }

    /** state_database.hpp:232.  The layer still shows its log's bytes exactly when the new base shows the old
        one's; a new base with the same log leaves everything as it was. */
    method Rebase(newBase: StateDatabase)
      requires Valid() && base != null && newBase.Valid()
      requires newBase.e == e && newBase.file == file && this !in newBase.below && this != newBase
      modifies `base, `below
      ensures base == newBase && below == newBase.below + {newBase}
      ensures BytesAre(log) <==> Bytes(e, newBase.log) == Bytes(e, old(base.log))
      ensures newBase.log == old(base.log) ==> Valid()
    {
      hide L.WellFormed, Encodable, Bytes, Names, Transfers, Prefix;
      SameFront(Bytes(e, base.log), Bytes(e, newBase.log), local);
      base := newBase;
      below := newBase.below + {newBase};
    }

    static lemma SameFront(a: bytes, b: bytes, d: bytes)
      ensures a + d == b + d <==> a == b
    {
      if a + d == b + d {
        assert |a| == |b|;
        assert a == (a + d)[..|a|] == (b + d)[..|b|] == b;
      }
    }

    /** What a valid layer stands on. */
    lemma Stacked()
      requires Valid()
      ensures this !in below && (base == null ==> below == {})
      ensures base != null ==>
        && base !in base.below && below == base.below + {base} && base != this && this !in base.below
        && base.file == file && base.e == e && base.Valid()
    {}

    /** A layer only looks at the log of its base: whatever else happens to the base, the layer stays valid. */
    twostate lemma KeptOnBase()
      requires old(Valid()) && unchanged(this) && base != null
      requires base.Valid() && base.log == old(base.log) && base.below == old(base.below)
      ensures Valid()
    {
      hide L.WellFormed, Encodable, Bytes, Names, Transfers, Prefix;
    }

    // -------------------------------------------------------------- reading the log backwards

    /** Lines 533-554: from the last eight bytes to the last record, and back along the `previous` links. */
    method FindLastBlock() returns (b: Block)
      requires Valid()
      modifies file`cursor
      ensures b == LastBlock(log)
    {
      var size := SizeOf();
      if size < 8 {
        NoRecordBelow(e, log);
        return DEFAULT_BLOCK;
      }
      hide L.WellFormed, Encodable, Bytes, Names, Transfers, Lookup, Size, Id;
      ghost var cur := log;
      ScanStarts();
      var r := RecordBefore(size, cur);
      while r.id != 5 && r.previous != 0
        invariant cur.Snoc? && Prefix(cur, log) && LastBlock(cur) == LastBlock(log)
        invariant r == Raw(e, Size(e, cur.prev), cur.last)
        decreases cur
      {
        StepBackFrom(cur);
        cur := cur.prev;
        r := RecordBefore(r.previous, cur);
      }
      AtEndOfScan(cur);
      if r.id == 5 {
        var p := e.unpack(r.id, r.data);
        b := p.value.blk;
      } else {
        b := DEFAULT_BLOCK;
      }
    }

    lemma ScanStarts()
      requires Valid() && Size(e, log) >= 8
      ensures log.Snoc? && Prefix(log, log)
    {}

    /** The record that ends at `end`, found through the eight bytes before it. */
    method RecordBefore(end: nat, ghost cur: Log) returns (r: RawRecord)
      requires Valid() && cur.Snoc? && Prefix(cur, log) && end == Size(e, cur)
      modifies file`cursor
      ensures r == Raw(e, Size(e, cur.prev), cur.last)
    {
      hide L.WellFormed, Encodable, Bytes, Names, Transfers, Lookup, Size, Id, FromLE, ReadAt, Prefix;
      StepBack(cur);
      var d := Read(end - 8, 8);
      var last := FromLE(d);
      var o := GetRecord(At(last));
      r := o.value;
    }

    static lemma NoRecordBelow(e: Env, l: Log)
      requires Size(e, l) < 8
      ensures l == Empty && LastBlock(l) == DEFAULT_BLOCK
    {}

    /** The eight bytes before the end of a prefix lead to its last record. */
    lemma StepBack(cur: Log)
      requires Valid() && cur.Snoc? && Prefix(cur, log)
      ensures 8 <= Size(e, cur) <= Size(e, log)
      ensures FromLE(ReadAt(Bytes(e, log), Size(e, cur) - 8, 8)) == Size(e, cur.prev) <= Size(e, log)
      ensures Lookup(e, log, Size(e, cur.prev)) == Some(cur.last)
    {
      hide L.WellFormed, Names, Transfers, Encode, Raw, FromLE, ReadAt;
      EncodablePrefix(e, cur, log);
      TrailerIsLastStart(e, cur);
      BytesOfPrefix(e, cur, log);
      PrefixKeepsRecords(e, cur, log);
      ReadOfPrefix(Bytes(e, log), Size(e, cur), 8);
    }

    static lemma ReadOfPrefix(s: bytes, n: nat, k: nat)
      requires k <= n <= |s|
      ensures ReadAt(s, n - k, k) == s[..n][n - k..]
    {}

    lemma StepBackFrom(cur: Log)
      requires Prefix(cur, log) && cur.Snoc? && Id(cur.last) != 5 && Size(e, cur.prev) != 0
      ensures cur.prev.Snoc? && Prefix(cur.prev, log) && LastBlock(cur.prev) == LastBlock(cur)
    {
      PrefixTransitive(cur.prev, cur, log);
    }

    lemma AtEndOfScan(cur: Log)
      requires Valid() && cur.Snoc? && Prefix(cur, log)
      ensures Id(cur.last) == 5 ==>
        e.unpack(5, e.pack(cur.last)) == Some(cur.last) && cur.last.EndBlock? && LastBlock(cur) == cur.last.blk
      ensures Id(cur.last) != 5 && Size(e, cur.prev) == 0 ==> LastBlock(cur) == DEFAULT_BLOCK
    {
      EncodablePrefix(e, cur, log);
    }

    // -------------------------------------------------------------- counting names

    /** Lines 897-923: the names below, and the local ones the base does not know. */
    method NameCount() returns (count: nat)
      requires Valid()
      modifies file`cursor
      ensures count == |Names(e, log)|
      decreases below, 1
    {
      hide *;
      NamesAreSplit();
      UnionCount(BaseNames(), names);
      var unknown := CountNew();
      count := CountBelow();
      count := count + unknown;
    }

    lemma NamesAreSplit()
      requires Valid()
      ensures Names(e, log) == BaseNames() + names
    {
      hide L.WellFormed, Encodable, Bytes, Names, Transfers, Prefix;
    }

    /** How many names the layers below know. */
    method CountBelow() returns (count: nat)
      requires Valid()
      modifies file`cursor
      ensures count == |BaseNames().Keys|
      decreases below, 0
    {
      hide L.WellFormed, Encodable, Bytes, Names, Transfers, Prefix;
      KeysCount(BaseNames());
      Stacked();
      hide Valid, OnBase;
      if base != null {
        count := base.NameCount();
      } else {
        count := |nameDb|;
      }
    }

    /** How many local names the layers below do not know. */
    method CountNew() returns (count: nat)
      requires Valid()
      modifies file`cursor
      ensures count == |Counted(names.Keys, {}, BaseNames().Keys)|
    {
      hide *;
      ghost var all, lower := names.Keys, BaseNames().Keys;
      var todo := names.Keys;
      count := 0;
      NothingCounted(all, lower);
      while todo != {}
        invariant Valid() && lower == BaseNames().Keys
        invariant count == |Counted(all, todo, lower)| && todo <= all
        decreases |todo|
      {
        var name :| name in todo;
        CountedStep(all, todo, lower, name);
        var known := IsKnownBelow(name);
        if !known {
          count := count + 1;
        }
        todo := todo - {name};
      }
    }

    /** The local names looked at so far that the layers below do not know. */
    static ghost function Counted(all: set<string>, todo: set<string>, lower: set<string>): set<string> {
      (all - todo) - lower
    }

    static lemma NothingCounted(all: set<string>, lower: set<string>)
      ensures |Counted(all, all, lower)| == 0
    {
      assert Counted(all, all, lower) == {};
    }

    static lemma CountedStep(all: set<string>, todo: set<string>, lower: set<string>, name: string)
      requires name in todo
      ensures |Counted(all, todo - {name}, lower)| ==
        |Counted(all, todo, lower)| + if name in all && name !in lower then 1 else 0
    {
      if name in all && name !in lower {
        assert Counted(all, todo - {name}, lower) == Counted(all, todo, lower) + {name};
      } else {
        assert Counted(all, todo - {name}, lower) == Counted(all, todo, lower);
      }
    }

    method IsKnownBelow(name: string) returns (known: bool)
      requires Valid()
      modifies file`cursor
      ensures known == (name in BaseNames())
    {
      if base != null {
        var idx := base.GetNameIndex(name);
        L.NameIndexIsDefinition(e, base.log, name);
        L.LastEditOfName(e, base.log, name);
        known := idx != Ok(Nowhere);
      } else {
        known := name in nameDb;
      }
    }

    static lemma KeysCount(m: map<string, nat>)
      ensures |m| == |m.Keys|
    {}

    static lemma UnionCount(a: map<string, nat>, b: map<string, nat>)
      ensures |a + b| == |a.Keys| + |Counted(b.Keys, {}, a.Keys)|
    {
      var c := Counted(b.Keys, {}, a.Keys);
      assert (a + b).Keys == a.Keys + c;
      assert a.Keys !! c;
      KeysCount(a + b);
    }

    // -------------------------------------------------------------- what an account holds

    /** The key has an entry in the index of this layer or of one below, other than the stored one. */
    ghost predicate LocalHas(k: AccountKey)
      requires Valid()
      reads this, below, file`content
      decreases below
    {
      Stacked();
      k in transfers || (base != null && base.LocalHas(k))
    }

    /** Lines 925-942 and 968-989: the stocks an account was ever touched in, through all layers.  The local
        range runs from (account, 0) up to and including (account + 1, 0), so that one key is caught as well;
        `ContentsOfName` shows that it never exists for a registered name. */
    method GetAccountContentsIdx(acnt: nat) returns (cts: seq<Loc>)
      requires Valid() && acnt + 1 < MAX_U64
      ensures forall t :: t in cts <==>
        AccountKey(At(acnt), t) in Transfers(e, log) || (t == At(0) && LocalHas(AccountKey(At(acnt + 1), At(0))))
      decreases below
    {
      hide L.WellFormed, Encodable, Bytes, Names, Transfers, Prefix;
      Stacked();
      ghost var uak := AccountKey(At(acnt + 1), At(0));
      assert Transfers(e, log) == BaseTransfers() + transfers;
      assert LocalHas(uak) <==> uak in transfers || (base != null && base.LocalHas(uak));
      ghost var lower := BaseTransfers();
      hide Valid, OnBase, LocalHas;
      var own := StocksInRange(transfers, acnt);
      var cts1;
      if base != null {
        cts1 := base.GetAccountContentsIdx(acnt);
      } else {
        cts1 := StocksFrom(transferDb, acnt);
      }
      cts := own + cts1;
    }

    lemma LocalIsIndexed(k: AccountKey)
      requires Valid() && LocalHas(k)
      ensures k in Transfers(e, log)
      decreases below
    {
      hide L.WellFormed, Encodable, Bytes, Names, Transfers, Prefix;
      if k !in transfers {
        base.LocalIsIndexed(k);
      }
    }

    /** For a registered name the query gives exactly the stocks of its account. */
    lemma ContentsOfName(name: string)
      requires Valid() && L.DefineAt(e, log, name).At?
      ensures var acnt := L.DefineAt(e, log, name).pos;
        acnt + 1 < MAX_U64 && !LocalHas(AccountKey(At(acnt + 1), At(0)))
    {
      var acnt := L.DefineAt(e, log, name).pos;
      var k := AccountKey(At(acnt + 1), At(0));
      L.LastEditOfName(e, log, name);
      if LocalHas(k) {
        LocalIsIndexed(k);
        L.NoNeighbour(e, log, acnt, k);
      }
    }

    /** The number a position is compared by; -1 is the largest. */
    static function Value(loc: Loc): nat {
      if loc.At? then loc.pos else MAX_U64
    }

    /** state_database.hpp:19-24. */
    static predicate Before(a: AccountKey, b: AccountKey) {
      Value(a.account) < Value(b.account) || (Value(a.account) == Value(b.account) && Value(a.stock) < Value(b.stock))
    }

    /** The keys from `lower_bound` of (account, 0) to `upper_bound` of (account + 1, 0). */
    static method StocksInRange(m: map<AccountKey, nat>, acnt: nat) returns (cts: seq<Loc>)
      requires acnt + 1 < MAX_U64
      ensures forall t :: t in cts <==>
        AccountKey(At(acnt), t) in m || (t == At(0) && AccountKey(At(acnt + 1), At(0)) in m)
    {
      cts := [];
      var lak, uak := AccountKey(At(acnt), At(0)), AccountKey(At(acnt + 1), At(0));
      var todo := set k | k in m && !Before(k, lak) && !Before(uak, k);
      assert forall k :: k in todo <==> k in m && (k.account == At(acnt) || k == uak);
      while todo != {}
        invariant forall k :: k in todo ==> k in m && (k.account == At(acnt) || k == uak)
        invariant forall t :: t in cts ==> AccountKey(At(acnt), t) in m || (t == At(0) && uak in m)
        invariant forall k :: k in m && (k.account == At(acnt) || k == uak) ==> k in todo || k.stock in cts
        decreases |todo|
      {
        var k :| k in todo;
        assert k == AccountKey(At(acnt), k.stock) || k == uak;
        cts := cts + [k.stock];
        todo := todo - {k};
      }
      forall t | AccountKey(At(acnt), t) in m || (t == At(0) && uak in m)
        ensures t in cts
      {
        assert AccountKey(At(acnt), t).stock == t;
      }
    }

    /** The scan of the on-disk index from (account, 0) while the account is the same. */
    static method StocksFrom(m: map<AccountKey, nat>, acnt: nat) returns (cts: seq<Loc>)
      ensures forall t :: t in cts <==> AccountKey(At(acnt), t) in m
    {
      cts := [];
      var todo := set k | k in m && k.account == At(acnt);
      while todo != {}
        invariant forall k :: k in todo ==> k in m && k.account == At(acnt)
        invariant forall t :: t in cts ==> AccountKey(At(acnt), t) in m
        invariant forall k :: k in m && k.account == At(acnt) ==> k in todo || k.stock in cts
        decreases |todo|
      {
        var k :| k in todo;
        assert k == AccountKey(At(acnt), k.stock);
        cts := cts + [k.stock];
        todo := todo - {k};
      }
      forall t | AccountKey(At(acnt), t) in m
        ensures t in cts
      {
        assert AccountKey(At(acnt), t).stock == t;
      }
    }
  }

  /** The block of the last `end_block` record, or the default block. */
  function LastBlock(l: Log): Block {
    match l
    case Empty => DEFAULT_BLOCK
    case Snoc(prev, r) => if r.EndBlock? then r.blk else LastBlock(prev)
  }
}
