/** filecore_get_child_entry of kernel/filecore.c as a whole: from the address of a directory to one of
    its entries. The kernel looks the first fragment up and reads consecutive sectors from there, so
    what it tells is what LoadObject would give as far as the directory lies in one stretch. */
module KernelRead {
  import opened BigDirLayout
  import opened BigDirParts
  import opened DiscObjects
  import opened DiscScan
  import opened Geometry
  import opened KernelLookup
  import opened MapBytes
  import opened MapObjects
  import opened Words
  import opened ZoneClaim
  import KernelDir

  const SECTOR: nat := KernelDir.SECTOR

  /** Where on the device the kernel looks for the directory's bytes. */
  ghost predicate ReadsAt(device: seq<byte>, lba: nat, idx: nat) {
    KernelDir.OnDisc(device, lba) ==> KernelDir.InRange(device[lba * SECTOR..], idx)
  }

  /** filecore_get_child_entry. */
  method GetChildEntry(g: Geo, map': seq<byte>, device: seq<byte>, lbaBase: nat, dirSin: nat, idx: nat)
    returns (r: Option<KernelDir.Dirent>)
    requires KernelGeo(g) && Loaded(g, map') && g.IdsPerZone() > 0
    requires KernelFinds(g, ViewsOf(g, map'), dirSin) ==>
               ReadsAt(device, KernelAnswer(g, ViewsOf(g, map'), dirSin, lbaBase), idx)
    ensures !KernelFinds(g, ViewsOf(g, map'), dirSin) ==> r == None
    ensures KernelFinds(g, ViewsOf(g, map'), dirSin) ==>
              var lba := KernelAnswer(g, ViewsOf(g, map'), dirSin, lbaBase);
              r == if KernelDir.OnDisc(device, lba) && KernelDir.IsBigDir(device[lba * SECTOR..])
                   then KernelDir.Child(device[lba * SECTOR..], idx) else None
  {
    hide KernelFinds, KernelAnswer, KernelDir.OnDisc, KernelDir.IsBigDir, KernelDir.Child, KernelDir.InRange,
         ViewsOf, Loaded, KernelGeo;
    var found, lba := FcIdaToDataLba(g, map', dirSin, lbaBase);
    if !found {
      return None;
    }
    r := KernelDir.GetChildEntry(device, lba, idx);
  }

  // ----- Consecutive sectors against the chunks of an object

  /** Reading consecutive sectors from the first chunk gives the object, whatever the disc holds,
      exactly when the object lies in one stretch. */
  lemma Consecutive(g: Geo, disc: seq<byte>, cs: seq<Chunk>, size: nat)
    requires OnDisc(g, disc, cs) && cs != []
    requires ByteAddr(g, cs[0]) >= 0 && ByteAddr(g, cs[0]) + size <= |disc|
    ensures InOneRun(g, cs, size) <==>
            forall d: seq<byte> :: |d| == |disc| && OnDisc(g, d, cs) ==>
                ObjectBytes(g, d, cs, size) == d[ByteAddr(g, cs[0])..ByteAddr(g, cs[0]) + size]
  {
    hide ByteAddr, ByteLen, ObjectBytes, InOneRun;
    if InOneRun(g, cs, size) {
      forall d: seq<byte> | |d| == |disc| && OnDisc(g, d, cs)
        ensures ObjectBytes(g, d, cs, size) == d[ByteAddr(g, cs[0])..ByteAddr(g, cs[0]) + size]
      {
        RunBytes(g, d, cs, size);
      }
    } else {
      var d := Broken(g, disc, cs, size);
    }
  }

  // ----- The kernel against LoadObject

  /** A disc whose first sector is sector lbaBase of the device, with 512-byte sectors. */
  ghost predicate Hosted(g: Geo, device: seq<byte>, lbaBase: nat) {
    KernelGeo(g) && g.SecSize() == SECTOR && lbaBase * SECTOR <= |device| <= WORD * SECTOR
  }

  /** The chunk list that the scan of the whole disc gives the object. */
  ghost function ChunksOf(g: Geo, vs: seq<ZoneView>, sin: nat): seq<Chunk>
    requires ViewsOk(g, vs) && g.IdsPerZone() > 0
  {
    Chunks(Build(DiscUsed(g, vs, 0, |vs|), g.IdsPerZone()), sin / 0x100)
  }

  /** The kernel finds the object of an ordinary address in a fragment that is no free run, and the
      chunks of the object lie on the device. */
  ghost predicate Found(g: Geo, vs: seq<ZoneView>, device: seq<byte>, lbaBase: nat, sin: nat) {
    && Hosted(g, device, lbaBase) && ViewsOk(g, vs) && g.IdsPerZone() > 0
    && sin / 0x100 > 2 && sin % 0x100 <= 1 && KernelFinds(g, vs, sin)
    && HomeGenuine(g, vs, sin / 0x100)
    && OnDisc(g, device[lbaBase * SECTOR..], ChunksOf(g, vs, sin))
  }

  /** The sector the kernel answers is where the first chunk of the object starts. */
  lemma AnswerBytes(g: Geo, vs: seq<ZoneView>, device: seq<byte>, lbaBase: nat, sin: nat)
    requires Found(g, vs, device, lbaBase, sin)
    ensures var cs := ChunksOf(g, vs, sin);
            && cs != [] && ByteAddr(g, cs[0]) >= 0
            && KernelAnswer(g, vs, sin, lbaBase) * SECTOR == lbaBase * SECTOR + ByteAddr(g, cs[0])
  {
    hide Build, DiscUsed, HomeZone, Geo.Ok, InZone, HomeGenuine, MapAddr, Frags, FirstWithId, ByteAddr, ByteLen, KernelAnswer,
         Geo.ZoneBits, Geo.SecSize, Addressable;
    var us, id := DiscUsed(g, vs, 0, |vs|), sin / 0x100;
    var s := Build(us, g.IdsPerZone());
    LookupRefines(g, vs, sin, lbaBase);
    DiscUsedOrdered(g, vs, |vs|);
    StoreApart(g, us, |vs|, id, id);
    var z := HomeZone(id, g.IdsPerZone());
    IdOfFragment(g, z, vs[z], FirstWithId(Frags(g, z, vs[z]), id));
    var c := Chunks(s, id)[0];
    assert c in Chunks(s, id);
    MapAddrBytes(g, c);
    MapAddrSmall(g, c);
    var m := MapAddr(g, c.zone, c.start);
    assert SinAddr(g, s, sin) == m;
    assert (lbaBase + m) * SECTOR < WORD * SECTOR;
    SmallMod(lbaBase + m);
  }

  /** On every map and every device: if the directory lies in one stretch, as when it fits its first
      chunk, then the kernel tells from consecutive sectors what the bytes say that LoadObject gives. */
  lemma KernelTells(g: Geo, vs: seq<ZoneView>, device: seq<byte>, lbaBase: nat, sin: nat, size: nat, idx: nat)
    requires Found(g, vs, device, lbaBase, sin) && InOneRun(g, ChunksOf(g, vs, sin), size)
    requires var f := ObjectBytes(g, device[lbaBase * SECTOR..], ChunksOf(g, vs, sin), size);
             SECTOR <= |f| && KernelDir.DirSize(f) == size && KernelDir.InRange(f, idx)
    ensures var f := ObjectBytes(g, device[lbaBase * SECTOR..], ChunksOf(g, vs, sin), size);
            var lba := KernelAnswer(g, vs, sin, lbaBase);
            && |f| == size && KernelDir.OnDisc(device, lba) && KernelDir.InRange(device[lba * SECTOR..], idx)
            && (KernelDir.IsBigDir(device[lba * SECTOR..]) <==> KernelDir.IsBigDir(f))
            && KernelDir.Child(device[lba * SECTOR..], idx) == KernelDir.Child(f, idx)
  {
    hide ChunksOf, HomeGenuine, HomeZone, KernelFinds, KernelAnswer, ObjectBytes, InOneRun, ByteAddr, ByteLen, KernelGeo,
         KernelDir.Child, KernelDir.IsBigDir, KernelDir.InRange, KernelDir.DirSize, Geo.SecSize, ViewsOk;
    var image, cs := device[lbaBase * SECTOR..], ChunksOf(g, vs, sin);
    var p := KernelAnswer(g, vs, sin, lbaBase) * SECTOR;
    AnswerBytes(g, vs, device, lbaBase, sin);
    RunBytes(g, image, cs, size);
    assert device[p..p + size] == image[ByteAddr(g, cs[0])..ByteAddr(g, cs[0]) + size];
    SameDirectory(device, p, ObjectBytes(g, image, cs, size), idx);
  }

  /** So if the object is a directory image, the kernel tells its entries one by one, and nothing
      behind the last. */
  lemma KernelLists(g: Geo, vs: seq<ZoneView>, device: seq<byte>, lbaBase: nat, sin: nat, size: nat, idx: nat,
                    sh: Shell, es: seq<DirEntry>)
    requires Found(g, vs, device, lbaBase, sin) && InOneRun(g, ChunksOf(g, vs, sin), size) && size <= KernelDir.MAX_DIR
    requires var f := ObjectBytes(g, device[lbaBase * SECTOR..], ChunksOf(g, vs, sin), size);
             Image(f, size, sh, es) && KernelDir.IsBigDir(f)
    ensures var lba := KernelAnswer(g, vs, sin, lbaBase);
            && KernelDir.OnDisc(device, lba) && KernelDir.InRange(device[lba * SECTOR..], idx)
            && KernelDir.IsBigDir(device[lba * SECTOR..])
            && KernelDir.Child(device[lba * SECTOR..], idx) ==
               if idx < |es| then Some(KernelDir.Told(es[idx])) else None
  {
    hide ChunksOf, HomeGenuine, HomeZone, KernelFinds, KernelAnswer, ObjectBytes, InOneRun, KernelGeo, Image,
         KernelDir.Child, KernelDir.InRange, KernelDir.DirSize, KernelDir.OnDisc;
    KernelDir.ChildOfImage(ObjectBytes(g, device[lbaBase * SECTOR..], ChunksOf(g, vs, sin), size), size, sh, es, idx);
    KernelTells(g, vs, device, lbaBase, sin, size, idx);
  }

  /** A directory whose bytes stand at p on the device. */
  lemma SameDirectory(device: seq<byte>, p: nat, f: seq<byte>, idx: nat)
    requires SECTOR <= |f| && p + |f| <= |device| && device[p..p + |f|] == f
    requires KernelDir.DirSize(f) == |f| && KernelDir.InRange(f, idx)
    ensures KernelDir.DirSize(device[p..]) == |f| && KernelDir.InRange(device[p..], idx)
    ensures KernelDir.IsBigDir(device[p..]) <==> KernelDir.IsBigDir(f)
    ensures KernelDir.Child(device[p..], idx) == KernelDir.Child(f, idx)
  {
    hide KernelDir.Child, KernelDir.IsBigDir, KernelDir.InRange, KernelDir.DirSize;
    var d := device[p..];
    assert d[..|f|] == f[..|f|];
    KernelDir.SameChild(f, d, idx);
    assert d[..SECTOR] == f[..SECTOR];
    KernelDir.SameHeader(f, d);
  }
}
