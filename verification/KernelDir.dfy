/** The kernel's reader of big directories: filecore_get_child_entry of kernel/filecore.c. */
module KernelDir {
  import opened BigDirLayout
  import opened BigDirParts
  import opened BigDirs
  import opened Collation
  import opened Regions
  import opened Words

  const SECTOR: nat := 512
  const MAX_DIR: nat := 16384
  const NAME_MAX: nat := 256

  datatype Kind = Special | Directory | File
  datatype Dirent = Dirent(load: nat, exec: nat, size: nat, sin: nat, filetype: nat, kind: Kind, name: Name)

  predicate IsBigDir(f: seq<byte>) {
    |f| >= SECTOR && f[4..8] == [0x53, 0x42, 0x50, 0x72]   // "SBPr"
  }

  /** The size word of the header, or 2 KB when it makes no sense. */
  function DirSize(f: seq<byte>): (n: nat)
    requires |f| >= SECTOR
    ensures 2048 <= n <= MAX_DIR && n % SECTOR == 0
  {
    var n := U32(f, 12);
    if n < 2048 || n > MAX_DIR || n % SECTOR != 0 then 2048 else n
  }

  function EntryStart(f: seq<byte>): (p: nat)
    requires |f| >= SECTOR
  {
    (28 + (U32(f, 8) + 4) % WORD / 4 * 4) % WORD
  }

  /** Where entry idx should stand, in the kernel's 32-bit arithmetic. */
  function EntryOffset(f: seq<byte>, idx: nat): (p: nat)
    requires |f| >= SECTOR
  {
    (EntryStart(f) + idx * 28) % WORD
  }

  function KindOf(sin: nat, attr: nat): Kind {
    if sin == 0x300 then Special else if attr / 8 % 2 == 1 then Directory else File
  }

  /** The characters from k on that the kernel copies from a name at p. */
  function CopiedName(f: seq<byte>, p: nat, len: nat, end: nat, k: nat): (r: Name)
    requires end <= |f|
    decreases len - k
  {
    if k >= len || k >= NAME_MAX - 1 || (p + k) % WORD >= end || f[(p + k) % WORD] == CR then []
    else [f[(p + k) % WORD] % 0x80] + CopiedName(f, p, len, end, k + 1)
  }

  /** What the kernel makes of the bytes of a directory. */
  function Child(f: seq<byte>, idx: nat): (r: Option<Dirent>)
    requires |f| >= SECTOR
    requires IsBigDir(f) && idx < U32(f, 16) ==> EntryOffset(f, idx) + 28 <= DirSize(f) <= |f|
  {
    if !IsBigDir(f) || idx >= U32(f, 16) then None
    else
      var e := EntryOffset(f, idx);
      var load, sin := U32(f, e), U32(f, e + 12);
      var table := (EntryStart(f) + U32(f, 16) * 28) % WORD;
      var name := CopiedName(f, (table + U32(f, e + 24)) % WORD, U32(f, e + 20), DirSize(f) - 8, 0);
      Some(Dirent(load, U32(f, e + 4), U32(f, e + 8), sin, load / 0x100 % 0x1000, KindOf(sin, U32(f, e + 16)), name))
  }

  // ----- The reader

  /** One sector into the buffer; false past the end of the disc. */
  method ReadSector(disc: seq<byte>, lba: nat, buf: array<byte>, at: nat) returns (ok: bool)
    requires at + SECTOR <= buf.Length
    modifies buf
    ensures ok <==> lba * SECTOR + SECTOR <= |disc|
    ensures ok ==> buf[..] == Patch(old(buf[..]), at, disc[lba * SECTOR..lba * SECTOR + SECTOR])
    ensures !ok ==> buf[..] == old(buf[..])
  {
    if lba * SECTOR + SECTOR > |disc| {
      return false;
    }
    forall i | 0 <= i < SECTOR {
      buf[at + i] := disc[lba * SECTOR + i];
    }
    ok := true;
  }

  /** All sectors of the directory are on the disc. */
  ghost predicate OnDisc(disc: seq<byte>, lba: nat) {
    && lba * SECTOR + SECTOR <= |disc|
    && (IsBigDir(disc[lba * SECTOR..]) ==> lba * SECTOR + DirSize(disc[lba * SECTOR..]) <= |disc|)
  }

  method CopyName(buf: array<byte>, p: nat, len: nat, end: nat) returns (name: Name)
    requires end <= buf.Length
    ensures name == CopiedName(buf[..], p, len, end, 0)
  {
    hide CopiedName;
    name := [];
    var k := 0;
    while k < len && k < NAME_MAX - 1
      invariant CopiedName(buf[..], p, len, end, 0) == name + CopiedName(buf[..], p, len, end, k)
      decreases len - k
    {
      CopyStep(buf[..], p, len, end, k);
      if (p + k) % WORD >= end || buf[(p + k) % WORD] == CR {
        break;
      }
      name := name + [buf[(p + k) % WORD] % 0x80];
      k := k + 1;
    }
    CopyStep(buf[..], p, len, end, k);
  }

  lemma CopyStep(f: seq<byte>, p: nat, len: nat, end: nat, k: nat)
    requires end <= |f|
    ensures CopiedName(f, p, len, end, k)
         == if k >= len || k >= NAME_MAX - 1 || (p + k) % WORD >= end || f[(p + k) % WORD] == CR then []
            else [f[(p + k) % WORD] % 0x80] + CopiedName(f, p, len, end, k + 1)
  {
  }

  /** The entry asked for lies inside the directory, as the kernel takes for granted. */
  ghost predicate InRange(f: seq<byte>, idx: nat)
    requires |f| >= SECTOR
  {
    IsBigDir(f) && idx < U32(f, 16) ==> EntryOffset(f, idx) + 28 <= DirSize(f)
  }

  /** Reads the sectors of the directory; false when the disc ends, or it is no big directory. */
  method LoadDir(disc: seq<byte>, lba: nat, buf: array<byte>) returns (ok: bool)
    requires buf.Length == MAX_DIR
    modifies buf
    ensures ok <==> OnDisc(disc, lba) && IsBigDir(disc[lba * SECTOR..])
    ensures ok ==> var n := DirSize(disc[lba * SECTOR..]); buf[..n] == disc[lba * SECTOR..][..n]
  {
    hide U32, IsBigDir;
    ok := ReadSector(disc, lba, buf, 0);
    if !ok {
      return;
    }
    ghost var f := disc[lba * SECTOR..];
    assert buf[..][..SECTOR] == f[..SECTOR];
    SameHeader(buf[..], f);
    if buf[4] != 0x53 || buf[5] != 0x42 || buf[6] != 0x50 || buf[7] != 0x72 {
      return false;
    }
    ok := ReadRest(disc, lba, buf, DirSize(buf[..]));
  }

  /** The sectors of the directory behind the first. */
  method ReadRest(disc: seq<byte>, lba: nat, buf: array<byte>, size: nat) returns (ok: bool)
    requires buf.Length == MAX_DIR && SECTOR <= size <= MAX_DIR && size % SECTOR == 0
    requires lba * SECTOR + SECTOR <= |disc| && buf[..SECTOR] == disc[lba * SECTOR..][..SECTOR]
    modifies buf
    ensures ok <==> lba * SECTOR + size <= |disc|
    ensures ok ==> buf[..size] == disc[lba * SECTOR..][..size]
  {
    ghost var f := disc[lba * SECTOR..];
    var s := 1;
    while s < size / SECTOR
      invariant 1 <= s <= size / SECTOR && s * SECTOR <= |f|
      invariant buf[..s * SECTOR] == f[..s * SECTOR]
    {
      ok := ReadSector(disc, lba + s, buf, s * SECTOR);
      if !ok {
        return;
      }
      assert buf[..s * SECTOR + SECTOR] == f[..s * SECTOR + SECTOR];
      s := s + 1;
    }
    ok := true;
  }

  lemma SameHeader(f: seq<byte>, g: seq<byte>)
    requires |f| >= SECTOR && |g| >= SECTOR && f[..SECTOR] == g[..SECTOR]
    ensures U32(f, 8) == U32(g, 8) && U32(f, 12) == U32(g, 12) && U32(f, 16) == U32(g, 16)
    ensures IsBigDir(f) <==> IsBigDir(g)
    ensures IsBigDir(f) <==> f[4] == 0x53 && f[5] == 0x42 && f[6] == 0x50 && f[7] == 0x72
  {
    hide U32;
    SameWord(f, g, SECTOR, 8);
    SameWord(f, g, SECTOR, 12);
    SameWord(f, g, SECTOR, 16);
    assert f[4..8] == f[..SECTOR][4..8] == g[..SECTOR][4..8] == g[4..8];
    var h := f[4..8];
    assert f[4] == h[0] && f[5] == h[1] && f[6] == h[2] && f[7] == h[3];
    assert h == [h[0], h[1], h[2], h[3]];
  }

  lemma SameWord(f: seq<byte>, g: seq<byte>, n: nat, p: nat)
    requires n <= |f| && n <= |g| && f[..n] == g[..n] && p + 4 <= n
    ensures U32(f, p) == U32(g, p)
  {
    assert f[p..p + 4] == f[..n][p..p + 4] == g[..n][p..p + 4] == g[p..p + 4];
    U32Local(f, p, g, p);
  }

  lemma {:induction false} SameCopy(f: seq<byte>, g: seq<byte>, p: nat, len: nat, end: nat, k: nat)
    requires end <= |f| && end <= |g| && f[..end] == g[..end]
    ensures CopiedName(f, p, len, end, k) == CopiedName(g, p, len, end, k)
    decreases len - k
  {
    var q := (p + k) % WORD;
    if k < len && k < NAME_MAX - 1 && q < end {
      assert f[q] == f[..end][q] && g[q] == g[..end][q];
      SameCopy(f, g, p, len, end, k + 1);
    }
  }

  /** Only the bytes of the directory itself matter. */
  lemma SameChild(f: seq<byte>, g: seq<byte>, idx: nat)
    requires |f| >= SECTOR && |g| >= SECTOR && DirSize(f) <= |f| && DirSize(f) <= |g|
    requires f[..DirSize(f)] == g[..DirSize(f)] && InRange(f, idx)
    ensures DirSize(g) == DirSize(f) && InRange(g, idx) && Child(f, idx) == Child(g, idx)
  {
    hide U32, CopiedName;
    var n := DirSize(f);
    assert f[..SECTOR] == f[..n][..SECTOR] == g[..n][..SECTOR] == g[..SECTOR];
    SameHeader(f, g);
    if IsBigDir(f) && idx < U32(f, 16) {
      var e := EntryOffset(f, idx);
      SameWord(f, g, n, e);
      SameWord(f, g, n, e + 4);
      SameWord(f, g, n, e + 8);
      SameWord(f, g, n, e + 12);
      SameWord(f, g, n, e + 16);
      SameWord(f, g, n, e + 20);
      SameWord(f, g, n, e + 24);
      var table := (EntryStart(f) + U32(f, 16) * 28) % WORD;
      assert f[..n - 8] == f[..n][..n - 8] == g[..n][..n - 8] == g[..n - 8];
      SameCopy(f, g, (table + U32(f, e + 24)) % WORD, U32(f, e + 20), n - 8, 0);
    }
  }

  /** filecore_get_child_entry, once the directory's sector address is known. */
  method GetChildEntry(disc: seq<byte>, lba: nat, idx: nat) returns (r: Option<Dirent>)
    requires OnDisc(disc, lba) ==> InRange(disc[lba * SECTOR..], idx)
    ensures r == if OnDisc(disc, lba) && IsBigDir(disc[lba * SECTOR..]) then Child(disc[lba * SECTOR..], idx) else None
  {
    hide U32, CopiedName;
    var buf := new byte[MAX_DIR];
    var ok := LoadDir(disc, lba, buf);
    if !ok {
      return None;
    }
    ghost var g := disc[lba * SECTOR..];
    ghost var n := DirSize(g);
    assert buf[..][..n] == g[..n];
    SameChild(g, buf[..], idx);
    var f := buf[..];
    assert IsBigDir(f) by { assert f[..SECTOR] == f[..n][..SECTOR] == g[..n][..SECTOR] == g[..SECTOR]; SameHeader(f, g); }
    if idx >= U32(f, 16) {
      return None;
    }
    var start := (28 + (U32(f, 8) + 4) % WORD / 4 * 4) % WORD;
    var table := (start + U32(f, 16) * 28) % WORD;
    var e := (start + idx * 28) % WORD;
    var load, exec, len, sin := U32(f, e), U32(f, e + 4), U32(f, e + 8), U32(f, e + 12);
    var attr, namelen, nameoff := U32(f, e + 16), U32(f, e + 20), U32(f, e + 24);
    var kind := KindOf(sin, attr);
    var name := CopyName(buf, (table + nameoff) % WORD, namelen, DirSize(f) - 8);
    r := Some(Dirent(load, exec, len, sin, load / 0x100 % 0x1000, kind, name));
  }

  // ----- The reader inverts the editor

  /** A stored name as the kernel shows it: up to a CR, seven bits a character. */
  function KernelName(s: Name): (r: Name)
    ensures |r| <= |s|
  {
    if s == [] || s[0] == CR then [] else [s[0] % 0x80] + KernelName(s[1..])
  }

  ghost predicate Plain(s: Name) {
    forall i :: 0 <= i < |s| ==> 0x20 < s[i] < 0x80
  }

  lemma {:induction false} PlainShown(s: Name)
    requires Plain(s)
    ensures KernelName(s) == s && Shown(s) == s
  {
    if s != [] {
      PlainShown(s[1..]);
      assert s == [s[0]] + s[1..];
    }
  }

  /** The copy loop on a slot of the name heap. */
  lemma {:induction false} CopiesSlot(f: seq<byte>, p: nat, s: Name, end: nat, k: nat)
    requires k <= |s| <= 255 && p + |s| <= end <= |f| && end < WORD && f[p..p + |s|] == s
    ensures CopiedName(f, p, |s|, end, k) == KernelName(s[k..])
    decreases |s| - k
  {
    if k < |s| {
      assert (p + k) % WORD == p + k;
      assert f[p + k] == f[p..p + |s|][k] == s[k] == s[k..][0] && s[k..][1..] == s[k + 1..];
      CopiesSlot(f, p, s, end, k + 1);
    }
  }

  /** What the kernel should say about an entry. */
  function Told(x: DirEntry): (d: Dirent) {
    Dirent(x.load, x.exec, x.len, x.sin, x.load / 0x100 % 0x1000, KindOf(x.sin, x.attr), KernelName(x.name))
  }

  lemma NameOfImage(f: seq<byte>, size: nat, sh: Shell, es: seq<DirEntry>, idx: nat, p: nat)
    requires Image(f, size, sh, es) && size <= |f| && idx < |es| && p == HeapAt(sh, |es|) + |Names(es[..idx])|
    ensures p + |es[idx].name| <= size - 8 && p < WORD
    ensures CopiedName(f, p, |es[idx].name|, size - 8, 0) == KernelName(es[idx].name)
  {
    hide At, Entries, Names, Sins, U32, Enc32, IsBigDir, CopiedName;
    var x := es[idx];
    NameAt(f, HeapAt(sh, |es|), es, idx);
    AtJoin(f, p, x.name, x.pad);
    AtTaken(f, p, x.name);
    CopiesSlot(f, p, x.name, size - 8, 0);
    assert x.name[0..] == x.name;
  }

  lemma WordsOfImage(f: seq<byte>, size: nat, sh: Shell, es: seq<DirEntry>, idx: nat, e: nat)
    requires Image(f, size, sh, es) && idx < |es| && e == sh.First() + 28 * idx
    ensures e + 28 <= size <= |f|
    ensures U32(f, e) == es[idx].load && U32(f, e + 4) == es[idx].exec && U32(f, e + 8) == es[idx].len
    ensures U32(f, e + 12) == es[idx].sin && U32(f, e + 16) == es[idx].attr
    ensures U32(f, e + 20) == |es[idx].name| && U32(f, e + 24) == |Names(es[..idx])|
  {
    hide At, Entries, Names, Sins, U32, Enc32;
    AtTaken(f, size - 8, sh.tail);
    EntryAt(f, sh.First(), es, idx);
    WordsOfEntry(f, e, es[idx], |Names(es[..idx])|);
  }

  /** The kernel's 32-bit sums do not wrap. */
  lemma PlacesOfImage(f: seq<byte>, size: nat, sh: Shell, es: seq<DirEntry>, idx: nat)
    requires Image(f, size, sh, es) && size <= MAX_DIR && size <= |f| && idx < |es|
    requires U32(f, 16) == |es| && EntryStart(f) == sh.First()
    ensures EntryOffset(f, idx) == sh.First() + 28 * idx
    ensures (EntryStart(f) + U32(f, 16) * 28) % WORD == HeapAt(sh, |es|)
  {
    hide At, Entries, Names, Sins, U32, Enc32, AllOk, EntryStart;
  }

  /** On every directory image of at most 16 KB the kernel tells each entry, and nothing past the last. */
  lemma ChildOfImage(f: seq<byte>, size: nat, sh: Shell, es: seq<DirEntry>, idx: nat)
    requires Image(f, size, sh, es) && size <= MAX_DIR && IsBigDir(f)
    ensures DirSize(f) == size <= |f| && InRange(f, idx)
    ensures Child(f, idx) == if idx < |es| then Some(Told(es[idx])) else None
  {
    hide U32, IsBigDir, CopiedName, Image, EntryStart, EntryOffset, DirSize, Names, KernelName;
    HeaderOfImage(f, size, sh, es);
    if idx < |es| {
      var p := HeapAt(sh, |es|) + |Names(es[..idx])|;
      PlacesOfImage(f, size, sh, es, idx);
      WordsOfImage(f, size, sh, es, idx, sh.First() + 28 * idx);
      NameOfImage(f, size, sh, es, idx, p);
      assert p % WORD == p;
    }
  }

  lemma HeaderOfImage(f: seq<byte>, size: nat, sh: Shell, es: seq<DirEntry>)
    requires Image(f, size, sh, es) && size <= MAX_DIR
    ensures size <= |f| && DirSize(f) == size && U32(f, 16) == |es| && EntryStart(f) == sh.First()
  {
    hide At, Entries, Names, Sins, U32, Enc32, AllOk, EntryStart;
    AtWord(f, 12, size);
    AtWord(f, 16, |es|);
    AtTaken(f, size - 8, sh.tail);
    StartOfImage(f, size, sh, es);
  }

  lemma StartOfImage(f: seq<byte>, size: nat, sh: Shell, es: seq<DirEntry>)
    requires Image(f, size, sh, es) && SECTOR <= |f|
    ensures EntryStart(f) == sh.First()
  {
    hide At, Entries, Names, Sins, U32, Enc32, AllOk;
    AtTaken(f, 0, sh.lead);
    assert f[8..12] == f[0..12][8..12];
    U32Local(f, 8, sh.lead, 8);
    assert EntryStart(f) == 28 + Whole(U32(f, 8) + 1);
  }

  /** So the kernel reads back what AddEntry was given, for names of plain characters; but it says
      special of every entry with address 0x300, so that of those the directory bit is lost. */
  lemma ReadsBack(f: seq<byte>, size: nat, sh: Shell, es: seq<DirEntry>, idx: nat)
    requires Image(f, size, sh, es) && size <= MAX_DIR && IsBigDir(f)
    requires idx < |es| && Plain(es[idx].name)
    ensures InRange(f, idx) && DirSize(f) <= |f| && Child(f, idx).Some?
    ensures var d, x := Child(f, idx).value, es[idx];
            && d.name == x.name && d.sin == x.sin && d.size == x.len
            && d.load == x.load && d.exec == x.exec
            && (d.kind == Special <==> x.sin == 0x300)
            && ((d.kind == Directory <==> x.attr / 8 % 2 == 1) <==> x.sin != 0x300 || x.attr / 8 % 2 == 0)
  {
    hide Image, Child;
    ChildOfImage(f, size, sh, es, idx);
    PlainShown(es[idx].name);
  }

  /** The directory "a" with address 0x300 is the one entry of a directory; the kernel does not take it for one. */
  lemma LostDirectory()
    ensures var x, sh := Made([0x61], 0, 0, 2048, 0x300, true), FullShell();
            && x.Ok() && x.attr / 8 % 2 == 1 && SizeOk(2048) && AllOk([x]) && Fits(2048, sh, [x])
            && var f := Bytes(2048, sh, [x]);
            && Image(f, 2048, sh, [x]) && IsBigDir(f) && InRange(f, 0) && DirSize(f) <= |f|
            && Child(f, 0).Some? && Child(f, 0).value.kind == Special
  {
    hide Image, Child, Bytes, InRange, DirSize, Entries, Sins, FullShell;
    var x, sh := Made([0x61], 0, 0, 2048, 0x300, true), FullShell();
    assert Whole(2) == 4 && x.Ok() && |x.Slot()| == 4;
    assert Names([x]) == x.Slot() by { assert [x][1..] == []; }
    BytesImage(2048, sh, [x]);
    var f := Bytes(2048, sh, [x]);
    MarkOfImage(f, 2048, [x]);
    ReadsBack(f, 2048, sh, [x], 0);
  }

  lemma MarkOfImage(f: seq<byte>, size: nat, es: seq<DirEntry>)
    requires Image(f, size, FullShell(), es)
    ensures IsBigDir(f)
  {
    hide Entries, Names, Sins, Enc32, AllOk, At;
    var sh := FullShell();
    AtTaken(f, 0, sh.lead);
    AtTaken(f, size - 8, sh.tail);
    assert f[4..8] == f[0..12][4..8];
  }

  // ----- Where the entry words are read

  /** End of the entries up to idx, before the kernel's 32-bit sum wraps. */
  function Reach(namelen: nat, idx: nat): (n: nat) {
    28 + Whole(namelen + 1) + 28 * idx + 28
  }

  /** An entry is read inside the 16 KB buffer exactly when the sum, less what wraps, stays there. */
  lemma EntryInBuffer(f: seq<byte>, idx: nat)
    requires |f| >= SECTOR
    ensures EntryOffset(f, idx) == (Reach(U32(f, 8), idx) - 28) % WORD
    ensures Reach(U32(f, 8), idx) < WORD ==> (EntryOffset(f, idx) + 28 <= MAX_DIR <==> Reach(U32(f, 8), idx) <= MAX_DIR)
  {
    hide U32;
    var n := U32(f, 8);
    assert n < WORD by { WordSize(f, 8); }
    var r := 28 + Whole(n + 1);
    assert (n + 4) % WORD == if n + 4 < WORD then n + 4 else n + 4 - WORD;
    assert (28 + (n + 4) % WORD / 4 * 4) % WORD == r % WORD;
    ModSum(r, 28 * idx);
  }

  lemma ModSum(a: nat, b: nat)
    ensures (a % WORD + b) % WORD == (a + b) % WORD
  {
  }

  lemma WordSize(f: seq<byte>, p: nat)
    requires p + 4 <= |f|
    ensures U32(f, p) < WORD
  {
  }

  /** All entries that a header counts are read inside the buffer exactly when the entry table ends there. */
  lemma TableInBuffer(f: seq<byte>)
    requires |f| >= SECTOR && 0 < U32(f, 16) && Reach(U32(f, 8), U32(f, 16) - 1) < WORD
    ensures (forall idx: nat :: idx < U32(f, 16) ==> EntryOffset(f, idx) + 28 <= MAX_DIR)
            <==> 28 + Whole(U32(f, 8) + 1) + 28 * U32(f, 16) <= MAX_DIR
  {
    hide U32, EntryOffset;
    var last := U32(f, 16) - 1;
    forall idx: nat | idx < U32(f, 16)
      ensures EntryOffset(f, idx) + 28 <= MAX_DIR <==> Reach(U32(f, 8), idx) <= MAX_DIR
    {
      EntryInBuffer(f, idx);
    }
    assert last < U32(f, 16) && Reach(U32(f, 8), last) == 28 + Whole(U32(f, 8) + 1) + 28 * U32(f, 16);
  }

  /** A header of a directory with one entry and a name of 16 KB: the entry is read behind the buffer. */
  lemma ReadBehind()
    ensures var f: seq<byte> := [0, 0, 0, 0, 0x53, 0x42, 0x50, 0x72, 0, 0x40, 0, 0, 0, 8, 0, 0, 1, 0, 0, 0] + Zeros(492);
            && |f| == SECTOR && IsBigDir(f) && DirSize(f) == 2048 && U32(f, 16) == 1
            && EntryOffset(f, 0) == 16416 > MAX_DIR && !InRange(f, 0)
  {
    var f: seq<byte> := [0, 0, 0, 0, 0x53, 0x42, 0x50, 0x72, 0, 0x40, 0, 0, 0, 8, 0, 0, 1, 0, 0, 0] + Zeros(492);
    assert U32(f, 8) == 0x4000 && U32(f, 12) == 2048 && U32(f, 16) == 1;
    assert f[4..8] == [0x53, 0x42, 0x50, 0x72];
  }
}
