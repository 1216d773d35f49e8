/** The files of libs/gpm/statedb/trx_file.cpp: a plain file with a cursor, and a copy-on-write
    page cache over a plain file or over another page cache. */
module TrxFile {
  import opened Common

  const PAGE: nat := 1024

  // ---------------------------------------------------------------- flat byte sequences

  /** What a read of `len` bytes at `pos` returns. */
  function ReadAt(s: bytes, pos: nat, len: nat): bytes {
    s[Min(pos, |s|)..Min(pos + len, |s|)]
  }

  /** `s` with `d` written over it from `pos` on, growing when the write passes the end. */
  function WriteAt(s: bytes, pos: nat, d: bytes): bytes
    requires pos <= |s|
  {
    s[..pos] + d + s[Min(pos + |d|, |s|)..]
  }

  /** A read returns the bytes from the position on, as far as the file goes. */
  lemma ReadEach(s: bytes, pos: nat, len: nat)
    ensures |ReadAt(s, pos, len)| == if pos >= |s| then 0 else Min(len, |s| - pos)
    ensures forall i :: 0 <= i < |ReadAt(s, pos, len)| ==> ReadAt(s, pos, len)[i] == s[pos + i]
  {}

  /** After a write the written bytes stand from the position on, every other byte is as before, and the end moves only
      when the write passes it. */
  lemma WriteEach(s: bytes, pos: nat, d: bytes)
    requires pos <= |s|
    ensures var r := WriteAt(s, pos, d);
      |r| == Max(|s|, pos + |d|) && ReadAt(r, pos, |d|) == d
      && forall i :: 0 <= i < |r| ==> r[i] == if pos <= i < pos + |d| then d[i - pos] else s[i]
  {
    var r := WriteAt(s, pos, d);
    assert r[pos..pos + |d|] == d;
  }

  lemma WriteTwice(s: bytes, pos: nat, a: bytes, b: bytes)
    requires pos <= |s|
    ensures pos + |a| <= |WriteAt(s, pos, a)|
    ensures WriteAt(WriteAt(s, pos, a), pos + |a|, b) == WriteAt(s, pos, a + b)
  {}

  lemma WriteMore(s: bytes, pos: nat, d: bytes, n: nat, m: nat)
    requires pos <= |s| && n + m <= |d|
    ensures pos + n <= |WriteAt(s, pos, d[..n])|
    ensures WriteAt(WriteAt(s, pos, d[..n]), pos + n, d[n..n + m]) == WriteAt(s, pos, d[..n + m])
  {
    assert d[..n + m] == d[..n] + d[n..n + m];
    WriteTwice(s, pos, d[..n], d[n..n + m]);
  }

  lemma WriteEnds(s: bytes, pos: nat, d: bytes)
    requires pos <= |s|
    ensures WriteAt(s, pos, d[..0]) == s
    ensures WriteAt(s, pos, d[..|d|]) == WriteAt(s, pos, d)
  {
    assert d[..|d|] == d;
  }

  lemma ReadTwice(s: bytes, pos: nat, m: nat, n: nat)
    requires pos + m <= |s|
    ensures ReadAt(s, pos, m) + ReadAt(s, pos + m, n) == ReadAt(s, pos, m + n)
  {}

  // ---------------------------------------------------------------- plain files

  /** libs/gpm/statedb/trx_file.cpp:46-80, without the errors of the operating system. */
  class File {
    var content: bytes
    var cursor: nat

    constructor ()
      ensures content == [] && cursor == 0
    {
      content, cursor := [], 0;
    }

    method Read(len: nat) returns (d: bytes)
      modifies `cursor
      ensures d == ReadAt(content, old(cursor), len)
      ensures cursor == old(cursor) + |d|
    {
      d := ReadAt(content, cursor, len);
      cursor := cursor + |d|;
    }

    method Write(d: bytes)
      requires cursor <= |content|
      modifies this
      ensures content == WriteAt(old(content), old(cursor), d)
      ensures cursor == old(cursor) + |d|
    {
      content := WriteAt(content, cursor, d);
      cursor := cursor + |d|;
    }

    method Seek(pos: nat)
      modifies `cursor
      ensures cursor == pos
    {
      cursor := pos;
    }

    method Size() returns (n: nat)
      modifies `cursor
      ensures n == |content| && cursor == old(cursor)
    {
      var cp := cursor;
      cursor := |content|;
      n := cursor;
      cursor := cp;
    }
  }

  // ---------------------------------------------------------------- page caches

  type Page = p: bytes | |p| == PAGE witness seq(PAGE, _ => 0)

  /** `view` is `under` with the dirty pages laid over it: page bytes override what is below, bytes
      outside dirty pages come from below, and no dirty page starts at or after the end. */
  ghost predicate Overlay(pages: map<nat, Page>, view: bytes, under: bytes) {
    && |under| <= |view|
    && (forall p :: p in pages ==> p * PAGE < |view|)
    && (forall p, o :: p in pages && 0 <= o < PAGE && p * PAGE + o < |view| ==> view[p * PAGE + o] == pages[p][o])
    && (forall i :: 0 <= i < |view| && i / PAGE !in pages ==> i < |under| && view[i] == under[i])
  }

  function Patched(np: Page, o: nat, chunk: bytes): Page
    requires o + |chunk| <= PAGE
  {
    np[..o] + chunk + np[o + |chunk|..]
  }

  /** Patching a page that shows the view patches the view. */
  lemma OverlayPatched(pages: map<nat, Page>, view: bytes, under: bytes, np: Page, p: nat, o: nat, chunk: bytes)
    requires Overlay(pages, view, under)
    requires chunk != [] && o + |chunk| <= PAGE && p * PAGE + o <= |view|
    requires forall k :: 0 <= k < PAGE && p * PAGE + k < |view| ==> np[k] == view[p * PAGE + k]
    ensures Overlay(pages[p := Patched(np, o, chunk)], WriteAt(view, p * PAGE + o, chunk), under)
    ensures |WriteAt(view, p * PAGE + o, chunk)| == Max(|view|, p * PAGE + o + |chunk|)
  {
    var pages', view' := pages[p := Patched(np, o, chunk)], WriteAt(view, p * PAGE + o, chunk);
    forall q, k | q in pages' && 0 <= k < PAGE && q * PAGE + k < |view'|
      ensures view'[q * PAGE + k] == pages'[q][k]
    {
      if q != p {
        assert q in pages && view[q * PAGE + k] == pages[q][k];
      }
    }
    forall i | 0 <= i < |view'| && i / PAGE !in pages'
      ensures i < |under| && view'[i] == under[i]
    {
      assert i / PAGE != p && i / PAGE !in pages;
      assert i < p * PAGE || i >= (p + 1) * PAGE;
    }
  }

  /** The bytes from `pos` to the end of its page. */
  function Room(pos: nat): (r: nat)
    ensures 0 < r <= PAGE
  {
    PAGE - pos % PAGE
  }

  class FileTransaction {
    /** The file below: another transaction, or the plain file when `base` is null. */
    const base: FileTransaction?
    const file: File

    var pos: nat
    var size: nat
    var pages: map<nat, Page>

    /** The flat contents this cache stands for. */
    ghost var view: bytes
    /** The transactions between this one and the plain file. */
    ghost const below: set<FileTransaction>

    ghost function BaseView(): bytes
      reads base, file
    {
      if base == null then file.content else base.view
    }

    ghost predicate Overlays(under: bytes)
      reads `size, `pages, `view
    {
      |view| == size && Overlay(pages, view, under)
    }

    ghost predicate Valid()
      reads `size, `pages, `view, below`size, below`pages, below`view, file`content
      decreases below
    {
      && this !in below
      && (base == null ==> below == {} && Overlays(file.content))
      && (base != null ==>
            && base !in base.below && below == base.below + {base} && base.file == file
            && base.Valid() && Overlays(base.view))
    }

    /** libs/gpm/statedb/trx_file.cpp:85-98. */
    constructor (base: FileTransaction?, file: File)
      requires base != null ==> base.Valid() && base.file == file
      ensures Valid() && this.base == base && this.file == file && fresh(this)
      ensures below == (if base == null then {} else base.below + {base})
      ensures view == (if base == null then file.content else base.view)
      ensures pos == (if base == null then file.cursor else base.pos)
    {
      this.base, this.file := base, file;
      this.pages := map[];
      if base == null {
        pos, size, view := file.cursor, |file.content|, file.content;
        below := {};
      } else {
        pos, size, view := base.pos, base.size, base.view;
        below := base.below + {base};
      }
    }

    lemma SizeOfView()
      requires Valid()
      ensures size == |view|
    {}

    method Seek(p: nat)
      modifies `pos
      ensures pos == p
    {
      pos := p;
    }

    /** Seek, read and seek back on the file below. */
    method ReadBase(p: nat, len: nat) returns (d: bytes)
      requires Valid()
      modifies below`pos, file`cursor
      ensures d == ReadAt(BaseView(), p, len)
      ensures file.cursor == old(file.cursor)
      ensures forall t :: t in below ==> t.pos == old(t.pos)
      decreases below, 0
    {
      if base == null {
        var cp := file.cursor;
        file.Seek(p);
        d := file.Read(len);
        file.Seek(cp);
      } else {
        var cp := base.pos;
        base.Seek(p);
        d := base.Read(len);
        base.Seek(cp);
      }
    }

    /** libs/gpm/statedb/trx_file.cpp:132-175: page by page, dirty pages first. */
    method Read(len: nat) returns (d: bytes)
      requires Valid()
      modifies `pos, below`pos, file`cursor
      ensures d == ReadAt(view, old(pos), len)
      ensures pos == old(pos) + |d|
      ensures file.cursor == old(file.cursor)
      ensures forall t :: t in below ==> t.pos == old(t.pos)
      decreases below, 3
    {
      d := [];
      while |d| != len && pos != size
        invariant |d| <= len && pos == old(pos) + |d|
        invariant d == ReadAt(view, old(pos), |d|)
        invariant d != [] ==> pos <= size
        invariant file.cursor == old(file.cursor)
        invariant forall t :: t in below ==> t.pos == old(t.pos)
        decreases len - |d|
      {
        if pos >= size {
          return;  // only when the read started beyond the end
        }
        var part := ReadSome(len - |d|);
        ReadTwice(view, old(pos), |d|, |part|);
        d := d + part;
      }
    }

    /** The loop body of `Read`: what is asked for, up to the end of the page and of the file. */
    method ReadSome(len: nat) returns (part: bytes)
      requires Valid() && pos < size && 0 < len
      modifies `pos, below`pos, file`cursor
      ensures 0 < |part| <= len && old(pos) + |part| <= size
      ensures part == ReadAt(view, old(pos), |part|)
      ensures pos == old(pos) + |part|
      ensures file.cursor == old(file.cursor)
      ensures forall t :: t in below ==> t.pos == old(t.pos)
      decreases below, 2
    {
      hide Room, ReadAt;
      var readSize := Min(Room(pos), len);
      if pos + readSize >= size {
        readSize := size - pos;
      }
      part := ReadPart(pos, readSize);
      pos := pos + |part|;
    }

    /** A read that stays within one page: from the dirty page if there is one, else from below. */
    method ReadPart(at: nat, n: nat) returns (part: bytes)
      requires Valid() && 0 < n <= Room(at) && at + n <= size
      modifies below`pos, file`cursor
      ensures part == ReadAt(view, at, n) && |part| == n
      ensures file.cursor == old(file.cursor)
      ensures forall t :: t in below ==> t.pos == old(t.pos)
      decreases below, 1
    {
      var p, o := at / PAGE, at % PAGE;
      if p in pages {
        part := pages[p][o..o + n];
      } else {
        part := ReadBase(at, n);
      }
      PartOfView(at, n, part);
    }

    /** Within one page, the page or the base supplies exactly the bytes of the view. */
    lemma PartOfView(at: nat, n: nat, part: bytes)
      requires Valid() && 0 < n <= Room(at) && at + n <= size
      requires part == if at / PAGE in pages
        then pages[at / PAGE][at % PAGE..at % PAGE + n] else ReadAt(BaseView(), at, n)
      ensures part == ReadAt(view, at, n) && |part| == n
    {
      var p, o := at / PAGE, at % PAGE;
      assert at == p * PAGE + o;
      if p in pages {
        assert forall k :: 0 <= k < n ==> part[k] == pages[p][o + k];
        assert forall j :: o <= j < o + n ==> view[p * PAGE + j] == pages[p][j];
      } else {
        assert forall i :: at <= i < at + n ==> i / PAGE !in pages;
        assert (at + n - 1) / PAGE == p;
      }
    }

    /** libs/gpm/statedb/trx_file.cpp:112-126: the dirty page, or a zeroed page with a copy of what is below. */
    method DirtyPage(p: nat) returns (np: Page)
      requires Valid() && p * PAGE <= size
      modifies below`pos, file`cursor
      ensures forall o :: 0 <= o < PAGE && p * PAGE + o < size ==> np[o] == view[p * PAGE + o]
      ensures file.cursor == old(file.cursor)
      ensures forall t :: t in below ==> t.pos == old(t.pos)
    {
      if p in pages {
        return pages[p];
      }
      var d := ReadBase(p * PAGE, PAGE);
      np := d + seq(PAGE - |d|, _ => 0);
      forall o | 0 <= o < PAGE && p * PAGE + o < size
        ensures np[o] == view[p * PAGE + o]
      {
        assert (p * PAGE + o) / PAGE == p;
      }
    }

    /** libs/gpm/statedb/trx_file.cpp:177-193.  Started at or before the end, a write is a flat write. */
    method Write(d: bytes)
      requires Valid() && pos <= size
      modifies `pos, `size, `pages, `view, below`pos, file`cursor
      ensures Valid()
      ensures view == WriteAt(old(view), old(pos), d)
      ensures pos == old(pos) + |d|
      ensures file.cursor == old(file.cursor)
      ensures forall t :: t in below ==> t.pos == old(t.pos)
    {
      var n := 0;
      WriteEnds(view, pos, d);
      while n != |d|
        invariant Valid()
        invariant n <= |d| && pos == old(pos) + n && pos <= size
        invariant view == WriteAt(old(view), old(pos), d[..n])
        invariant file.cursor == old(file.cursor)
        invariant forall t :: t in below ==> t.pos == old(t.pos)
        decreases |d| - n
      {
        n := WriteSome(d, n, old(view), old(pos));
      }
    }

    /** The loop body of `Write`: as much of the rest of `d` as fits into the current page. */
    method WriteSome(d: bytes, n: nat, ghost start: bytes, ghost at: nat) returns (m: nat)
      requires Valid() && pos <= size && n < |d|
      requires at <= |start| && view == WriteAt(start, at, d[..n]) && pos == at + n
      modifies `pos, `size, `pages, `view, below`pos, file`cursor
      ensures Valid() && n < m <= |d|
      ensures view == WriteAt(start, at, d[..m]) && pos == at + m && pos <= size
      ensures file.cursor == old(file.cursor)
      ensures forall t :: t in below ==> t.pos == old(t.pos)
    {
      hide Room, WriteAt;
      var writeSize := Min(Room(pos), |d| - n);
      WriteMore(start, at, d, n, writeSize);
      WritePart(d[n..n + writeSize]);
      m := n + writeSize;
    }

    /** A write that stays within one page. */
    method WritePart(chunk: bytes)
      requires Valid() && pos <= size && 0 < |chunk| <= Room(pos)
      modifies `pos, `size, `pages, `view, below`pos, file`cursor
      ensures Valid()
      ensures view == WriteAt(old(view), old(pos), chunk)
      ensures pos == old(pos) + |chunk| && pos <= size
      ensures file.cursor == old(file.cursor)
      ensures forall t :: t in below ==> t.pos == old(t.pos)
    {
      hide Overlay, WriteAt, Patched;
      var p, o := pos / PAGE, pos % PAGE;
      var np := DirtyPage(p);
      assert pos == p * PAGE + o;
      OverlayPatched(pages, view, BaseView(), np, p, o, chunk);
      pages := pages[p := Patched(np, o, chunk)];
      view := WriteAt(view, pos, chunk);
      pos := pos + |chunk|;
      if pos > size {
        size := pos;
      }
    }

    /** Seek, write and seek back on the file below. */
    method WriteBase(p: nat, d: bytes)
      requires base != null ==> base.Valid() && base !in base.below && below == base.below + {base} && base.file == file
      requires p <= |BaseView()|
      modifies below, file
      ensures base != null ==> base.Valid() && file.content == old(file.content)
      ensures BaseView() == WriteAt(old(BaseView()), p, d)
      ensures file.cursor == old(file.cursor)
      ensures forall t :: t in below ==> t.pos == old(t.pos)
      ensures forall t :: t in below && t != base ==> t.view == old(t.view)
    {
      if base == null {
        var cp := file.cursor;
        file.Seek(p);
        file.Write(d);
        file.Seek(cp);
      } else {
        var cp := base.pos;
        base.Seek(p);
        base.Write(d);
        base.Seek(cp);
      }
    }

    /** libs/gpm/statedb/trx_file.cpp:201-223, the dirty pages taken in key order. */
    method Commit() returns (ok: bool)
      requires Valid()
      modifies `pages, below, file
      ensures Valid() && ok && pages == map[]
      ensures view == old(view) && BaseView() == view
      ensures file.cursor == old(file.cursor)
      ensures forall t :: t in below ==> t.pos == old(t.pos)
      ensures forall t :: t in below && t != base ==> t.view == old(t.view)
      ensures base != null ==> file.content == old(file.content)
    {
      var p := 0;
      while p * PAGE < size
        invariant Valid() && pages == old(pages) && view == old(view)
        invariant Min(p * PAGE, size) <= |BaseView()|
        invariant forall i :: 0 <= i < Min(p * PAGE, size) ==> BaseView()[i] == view[i]
        invariant file.cursor == old(file.cursor)
        invariant forall t :: t in below ==> t.pos == old(t.pos)
        invariant forall t :: t in below && t != base ==> t.view == old(t.view)
        invariant base != null ==> file.content == old(file.content)
        decreases size - p * PAGE
      {
        if p in pages {
          CommitPage(p);
        } else {
          assert forall i :: p * PAGE <= i < Min((p + 1) * PAGE, size) ==> i / PAGE == p;
          assert p * PAGE < size ==> (Min((p + 1) * PAGE, size) - 1) / PAGE == p;
        }
        p := p + 1;
      }
      assert BaseView() == view;
      pages := map[];
      ok := true;
    }

    method CommitPage(p: nat)
      requires Valid() && p in pages && p * PAGE <= |BaseView()|
      modifies below, file
      ensures Valid()
      ensures Min((p + 1) * PAGE, size) <= |BaseView()|
      ensures forall i :: 0 <= i < p * PAGE ==> BaseView()[i] == old(BaseView())[i]
      ensures forall i :: p * PAGE <= i < Min((p + 1) * PAGE, size) ==> BaseView()[i] == view[i]
      ensures file.cursor == old(file.cursor)
      ensures forall t :: t in below ==> t.pos == old(t.pos)
      ensures forall t :: t in below && t != base ==> t.view == old(t.view)
      ensures base != null ==> file.content == old(file.content)
    {
      ghost var under := BaseView();
      var n := if (p + 1) * PAGE < size then PAGE else size - p * PAGE;
      WriteBase(p * PAGE, pages[p][..n]);
      forall i | p * PAGE <= i < p * PAGE + n
        ensures BaseView()[i] == view[i]
      {
        assert view[p * PAGE + (i - p * PAGE)] == pages[p][i - p * PAGE];
      }
      forall i | 0 <= i < size && i / PAGE !in pages
        ensures i < |BaseView()| && view[i] == BaseView()[i]
      {
        assert i / PAGE != p;
      }
    }
  }

  // ---------------------------------------------------------------- whole runs

  datatype FileOp = SeekTo(p: nat) | ReadNext(len: nat) | WriteNext(d: bytes)

  /** A flat byte sequence with a cursor, and what has been read from it so far. */
  datatype Flat = Flat(s: bytes, pos: nat, out: seq<bytes>)

  predicate Allowed(f: Flat, op: FileOp) {
    op.WriteNext? ==> f.pos <= |f.s|
  }

  function Step(f: Flat, op: FileOp): Flat
    requires Allowed(f, op)
  {
    match op
    case SeekTo(p) => f.(pos := p)
    case ReadNext(len) => var d := ReadAt(f.s, f.pos, len); f.(pos := f.pos + |d|, out := f.out + [d])
    case WriteNext(d) => Flat(WriteAt(f.s, f.pos, d), f.pos + |d|, f.out)
  }

  /** Every write of the run starts at or before the end. */
  predicate AllAllowed(f: Flat, ops: seq<FileOp>)
    decreases |ops|
  {
    |ops| == 0 || (Allowed(f, ops[0]) && AllAllowed(Step(f, ops[0]), ops[1..]))
  }

  function Steps(f: Flat, ops: seq<FileOp>): Flat
    requires AllAllowed(f, ops)
    decreases |ops|
  {
    if ops == [] then f else Steps(Step(f, ops[0]), ops[1..])
  }

  /** Any run over a page cache of any depth, then its commit, is the same run over one flat sequence:
      every read returns the flat bytes, the file below ends up holding the flat contents with its
      cursor where it was, and nothing below that changes. */
  method RunAndCommit(t: FileTransaction, ops: seq<FileOp>) returns (out: seq<bytes>)
    requires t.Valid() && AllAllowed(Flat(t.view, t.pos, []), ops)
    modifies t, t.below, t.file
    ensures t.Valid() && t.pages == map[]
    ensures Flat(t.view, t.pos, out) == Steps(Flat(old(t.view), old(t.pos), []), ops)
    ensures t.BaseView() == t.view
    ensures t.file.cursor == old(t.file.cursor)
    ensures forall u :: u in t.below ==> u.pos == old(u.pos)
    ensures forall u :: u in t.below && u != t.base ==> u.view == old(u.view)
  {
    hide ReadAt, WriteAt, Overlay;
    out := [];
    ghost var goal := Steps(Flat(t.view, t.pos, []), ops);
    for i := 0 to |ops|
      invariant t.Valid() && AllAllowed(Flat(t.view, t.pos, out), ops[i..])
      invariant Steps(Flat(t.view, t.pos, out), ops[i..]) == goal
      invariant t.file.cursor == old(t.file.cursor)
      invariant forall u :: u in t.below ==> u.pos == old(u.pos) && u.view == old(u.view)
    {
      assert ops[i..][0] == ops[i] && ops[i..][1..] == ops[i + 1..];
      t.SizeOfView();
      match ops[i] {
        case SeekTo(p) => t.Seek(p);
        case ReadNext(len) =>
          var d := t.Read(len);
          out := out + [d];
        case WriteNext(d) => t.Write(d);
      }
    }
    assert ops[|ops|..] == [];
    var ok := t.Commit();
    assert ok;
  }
}
