/** The FAT32 volume as the engine sees it: boot-sector geometry, 32-bit FAT
    entries, cluster data, chain walks and chain writes, all on the image
    taken as a byte sequence. */
module Fat {
  import opened Common
  import opened Codec

  /** A chain walk stops at the first link at or above this value. */
  const EOC: nat := 0x0FFF_FFF8

  /** The geometry read from the boot sector; the derived fields are the
      byte offsets and lengths the engine computes from it. */
  datatype Geometry = Geometry(bPerSec: nat, secPerClus: nat, nOfFats: nat,
                               startFat: nat, lenFat: nat, rootDir: nat, lenClus: nat)
  {
    /** Every field non-zero, and the FAT area (first copy) lying before the
        data area. */
    predicate Valid() {
      bPerSec > 0 && secPerClus > 0 && nOfFats > 0 && startFat > 0 && 0 < lenFat < 0x1_0000_0000
      && lenClus == secPerClus * bPerSec && lenClus > 0
      && startFat + lenFat <= rootDir
    }

    /** The number of entries the engine scans: len_fat // 4. */
    function Entries(): nat { lenFat / 4 }
  }

  /** The product of two boot-sector fields, positive when both are. */
  lemma ProductPositive(a: nat, b: nat)
    requires a > 0 && b > 0
    ensures a * b >= b && a * b > 0
  {
    assert a * b == (a - 1) * b + b;
  }

  /** A little-endian 16-bit field. */
  function Word(s: seq<byte>, i: nat): nat
    requires i + 2 <= |s|
  {
    s[i] as nat + 256 * (s[i + 1] as nat)
  }

  lemma {:induction false} MulBelow(a: nat, b: nat, c: nat)
    requires b <= c
    ensures a * b <= a * c
  {
    if a > 0 {
      MulBelow(a - 1, b, c);
      assert a * b == (a - 1) * b + b;
      assert a * c == (a - 1) * c + c;
    }
  }

  lemma WordProduct(a: nat, b: nat)
    requires a < 0x1_0000 && b < 0x1_0000
    ensures a * b < 0x1_0000_0000
  {
    MulBelow(a, b, 0xFFFF);
    MulBelow(0xFFFF, a, 0xFFFF);
    assert a * 0xFFFF == 0xFFFF * a;
  }

  /** Reader.__init__: bytes per sector (2 bytes at 0x0B), sectors per
      cluster (0x0D), reserved sectors (2 bytes at 0x0E), number of FATs
      (0x10), then sectors per FAT as 2 bytes at 0x24. A short boot sector
      fails where read_num indexes past the read bytes; a zero field is a
      broken layout. */
  function ReadGeometry(boot: seq<byte>): (r: Result<Geometry>)
    ensures r.Ok? <==> |boot| >= 0x26 && Word(boot, 0x0b) > 0 && boot[0x0d] > 0 && Word(boot, 0x0e) > 0
                       && boot[0x10] > 0 && Word(boot, 0x24) > 0
    ensures |boot| < 0x11 ==> r == Fail(IndexError)
    ensures r.Ok? ==> var g := r.value;
              g.Valid() && g.bPerSec == Word(boot, 0x0b) && g.secPerClus == boot[0x0d] as nat
              && g.nOfFats == boot[0x10] as nat && g.startFat == Word(boot, 0x0e) * g.bPerSec
              && g.lenFat == Word(boot, 0x24) * g.bPerSec && g.rootDir == g.nOfFats * g.lenFat + g.startFat
  {
    if |boot| < 0x11 then Fail(IndexError)
    else
      var bps := ReadNum(boot[0x0b..0x0d]);
      var spc := ReadNum(boot[0x0d..0x0e]);
      var res := ReadNum(boot[0x0e..0x10]);
      var nf := ReadNum(boot[0x10..0x11]);
      FieldWord(boot, 0x0b);
      FieldWord(boot, 0x0e);
      FieldByte(boot, 0x0d);
      FieldByte(boot, 0x10);
      if bps == 0 || spc == 0 || res == 0 || nf == 0 then Fail(BrokenLayout)
      else if |boot| < 0x26 then Fail(IndexError)
      else
        var spf := ReadNum(boot[0x24..0x26]);
        FieldWord(boot, 0x24);
        if spf == 0 then Fail(BrokenLayout)
        else
          GeometryValid(bps, spc, res, nf, spf);
          Ok(Geometry(bps, spc, nf, res * bps, spf * bps, nf * (spf * bps) + res * bps, spc * bps))
  }

  /** A 2-byte field of the boot sector read by read_num. */
  lemma FieldWord(boot: seq<byte>, i: nat)
    requires i + 2 <= |boot|
    ensures ReadNum(boot[i..i + 2]) == Word(boot, i) < 0x1_0000
  {
    ReadNum2(boot[i..i + 2]);
  }

  /** A 1-byte field of the boot sector read by read_num. */
  lemma FieldByte(boot: seq<byte>, i: nat)
    requires i < |boot|
    ensures ReadNum(boot[i..i + 1]) == boot[i] as nat
  {
    ReadNum1(boot[i..i + 1]);
  }

  /** Non-zero boot-sector fields give a valid geometry. */
  lemma GeometryValid(bps: nat, spc: nat, res: nat, nf: nat, spf: nat)
    requires bps > 0 && spc > 0 && res > 0 && nf > 0 && spf > 0 && bps < 0x1_0000 && spf < 0x1_0000
    ensures Geometry(bps, spc, nf, res * bps, spf * bps, nf * (spf * bps) + res * bps, spc * bps).Valid()
  {
    ProductPositive(res, bps);
    ProductPositive(spf, bps);
    WordProduct(spf, bps);
    ProductPositive(spc, bps);
    ProductPositive(nf, spf * bps);
  }

  // ---------------------------------------------------------------------
  // FAT entries: entry n is the 4 bytes at start_fat + 4n

  /** Entry n inside the FAT and inside the image. */
  predicate EntryInImage(g: Geometry, img: seq<byte>, n: nat) {
    n < g.Entries() && g.startFat + 4 * n + 4 <= |img|
  }

  /** Reading entry n. Past the scanned FAT the read fails as OutsideFat;
      inside it, a read past the end of the image fails as read_num's
      IndexError does. */
  function FatEntry(g: Geometry, img: seq<byte>, n: nat): (r: Result<nat>)
    ensures r.Ok? <==> EntryInImage(g, img, n)
    ensures r.Ok? ==> r.value < 0x1_0000_0000
    ensures r.Fail? ==> r.error == if n < g.Entries() then IndexError else OutsideFat
  {
    var off := g.startFat + 4 * n;
    if n >= g.Entries() then Fail(OutsideFat)
    else if off + 4 > |img| then Fail(IndexError)
    else Ok(Dword(img, off))
  }

  /** The four bytes at offset i, least significant first. */
  function Dword(s: seq<byte>, i: nat): (r: nat)
    requires i + 4 <= |s|
    ensures r < 0x1_0000_0000
  {
    s[i] as nat + 256 * (s[i + 1] as nat) + 65536 * (s[i + 2] as nat) + 16777216 * (s[i + 3] as nat)
  }

  /** An entry's value is what read_num returns for its four bytes. */
  lemma DwordIsReadNum(s: seq<byte>, i: nat)
    requires i + 4 <= |s|
    ensures Dword(s, i) == ReadNum(s[i..i + 4])
  {
    ReadNum4(s[i..i + 4]);
  }

  /** An entry's bytes lie before the data area. */
  lemma EntryBeforeData(g: Geometry, n: nat)
    requires g.Valid() && n < g.Entries()
    ensures g.startFat + 4 * n + 4 <= g.rootDir
  {
    assert 4 * (g.lenFat / 4) <= g.lenFat;
  }

  /** Writing value v into entry n (seek to start_fat + 4n, then write
      get_bytes(v)). A write past the end of the image fails instead of
      growing the file. */
  function SetFatEntry(g: Geometry, img: seq<byte>, n: nat, v: nat): (r: Result<seq<byte>>)
    requires v < 0x1_0000_0000
    ensures r.Ok? <==> EntryInImage(g, img, n)
    ensures r.Ok? ==> |r.value| == |img| && FatEntry(g, r.value, n) == Ok(v)
    ensures r.Ok? ==> forall m :: m != n ==> FatEntry(g, r.value, m) == FatEntry(g, img, m)
    ensures r.Ok? ==> forall i :: 0 <= i < |img| && !(g.startFat + 4 * n <= i < g.startFat + 4 * n + 4) ==>
                        r.value[i] == img[i]
  {
    var off := g.startFat + 4 * n;
    if n >= g.Entries() then Fail(OutsideFat)
    else if off + 4 > |img| then Fail(OutOfImage)
    else
      var s := Splice(img, off, GetBytes(v));
      assert s[off..off + 4] == GetBytes(v);
      ReadGetBytes(v);
      DwordIsReadNum(s, off);
      SpliceOtherEntries(g, img, n, GetBytes(v));
      Ok(s)
  }

  /** Four bytes written over entry n leave every other entry as it was. */
  lemma SpliceOtherEntries(g: Geometry, img: seq<byte>, n: nat, b: seq<byte>)
    requires |b| == 4 && EntryInImage(g, img, n)
    ensures forall m :: m != n ==> FatEntry(g, Splice(img, g.startFat + 4 * n, b), m) == FatEntry(g, img, m)
  {
    var s := Splice(img, g.startFat + 4 * n, b);
    forall m: nat | m != n
      ensures FatEntry(g, s, m) == FatEntry(g, img, m)
    {
      var o := g.startFat + 4 * m;
      if EntryInImage(g, img, m) {
        assert o + 4 <= g.startFat + 4 * n || g.startFat + 4 * n + 4 <= o;
        assert s[o] == img[o] && s[o + 1] == img[o + 1] && s[o + 2] == img[o + 2] && s[o + 3] == img[o + 3];
      }
    }
  }

  // ---------------------------------------------------------------------
  // Clusters: cluster c >= 2 is the len_clus bytes at root_dir + (c-2)*len_clus

  /** k * len written as repeated addition, so that offsets stay linear for
      the solver; MulIsProduct shows it is the product. */
  function Mul(k: nat, len: nat): nat {
    if k == 0 then 0 else Mul(k - 1, len) + len
  }

  lemma {:induction false} MulIsProduct(k: nat, len: nat)
    ensures Mul(k, len) == k * len
  {
    if k > 0 {
      MulIsProduct(k - 1, len);
    }
  }

  function ClusterAt(g: Geometry, c: nat): (r: nat)
    requires c >= 2
    ensures r >= g.rootDir
  {
    g.rootDir + Mul(c - 2, g.lenClus)
  }

  lemma {:induction false} MulApart(j: nat, k: nat, len: nat)
    requires j < k
    ensures Mul(j, len) + len <= Mul(k, len)
  {
    if j < k - 1 {
      MulApart(j, k - 1, len);
    }
  }

  /** Two distinct clusters do not overlap. */
  lemma ClustersApart(g: Geometry, c: nat, d: nat)
    requires c >= 2 && d >= 2 && c < d
    ensures ClusterAt(g, c) + g.lenClus <= ClusterAt(g, d)
  {
    MulApart(c - 2, d - 2, g.lenClus);
  }

  /** The bytes one read(len_clus) returns for cluster c: shorter, or empty,
      at the end of the image. */
  function ClusterBytes(g: Geometry, img: seq<byte>, c: nat): (r: seq<byte>)
    requires c >= 2
    ensures |r| <= g.lenClus
    ensures ClusterAt(g, c) + g.lenClus <= |img| ==> r == img[ClusterAt(g, c)..ClusterAt(g, c) + g.lenClus]
  {
    Slice(img, ClusterAt(g, c), ClusterAt(g, c) + g.lenClus)
  }

  /** upwrite_data_by_cluster: data longer than a cluster names the undefined
      BigDataForCluster; clusters 0 and 1 have no data area; writing nothing
      changes nothing, wherever the cluster lies; a non-empty write past the
      end of the image fails instead of growing the file. */
  function WriteCluster(g: Geometry, img: seq<byte>, c: nat, data: seq<byte>): (r: Result<seq<byte>>)
    requires g.Valid()
    ensures r.Ok? <==> |data| <= g.lenClus && c >= 2 && (|data| == 0 || ClusterAt(g, c) + |data| <= |img|)
    ensures r.Ok? ==> |r.value| == |img|
    ensures r.Ok? && |data| == 0 ==> r.value == img
    ensures r.Ok? && |data| > 0 ==> r.value[ClusterAt(g, c)..ClusterAt(g, c) + |data|] == data
    ensures r.Ok? ==> forall i :: 0 <= i < |img| && !(ClusterAt(g, c) <= i < ClusterAt(g, c) + |data|) ==>
                        r.value[i] == img[i]
  {
    if |data| > g.lenClus then Fail(NameError)
    else if c < 2 then Fail(BelowData)
    else if |data| == 0 then Ok(img)
    else if ClusterAt(g, c) + |data| > |img| then Fail(OutOfImage)
    else
      var s := Splice(img, ClusterAt(g, c), data);
      assert s[ClusterAt(g, c)..ClusterAt(g, c) + |data|] == data;
      Ok(s)
  }

  /** A cluster write leaves every FAT entry as it was. */
  lemma WriteClusterFat(g: Geometry, img: seq<byte>, c: nat, data: seq<byte>, m: nat)
    requires g.Valid() && WriteCluster(g, img, c, data).Ok?
    ensures FatEntry(g, WriteCluster(g, img, c, data).value, m) == FatEntry(g, img, m)
  {
    var s := WriteCluster(g, img, c, data).value;
    if EntryInImage(g, img, m) {
      EntryBeforeData(g, m);
      assert s[g.startFat + 4 * m..g.startFat + 4 * m + 4] == img[g.startFat + 4 * m..g.startFat + 4 * m + 4];
    }
  }

  // ---------------------------------------------------------------------
  // Chain walks (get_clusters)

  predicate Distinct(s: seq<nat>) {
    forall i, j :: 0 <= i < j < |s| ==> s[i] != s[j]
  }

  /** Every index is a data cluster below the end-of-chain marks. */
  predicate InData(s: seq<nat>) {
    forall i :: 0 <= i < |s| ==> 1 < s[i] < EOC
  }

  /** The indices below EOC not yet visited: what a walk still may visit. */
  ghost function Unvisited(acc: seq<nat>): set<nat> {
    set x: nat | x < EOC && x !in acc
  }

  /** The clusters of a chain, and the repeated index get_clusters met, if any. */
  datatype Chain = Chain(clusters: seq<nat>, crossed: Option<nat>)

  /** The loop of get_clusters from index n, acc holding the clusters already
      collected: a link outside (1, EOC) ends the walk; a link already
      collected ends it with a crossing. */
  function Walk(g: Geometry, img: seq<byte>, n: nat, acc: seq<nat>): (r: Result<Chain>)
    requires Distinct(acc) && InData(acc) && n !in acc
    decreases Unvisited(acc)
  {
    if !(1 < n < EOC) then Ok(Chain(acc, None))
    else
      var next :- FatEntry(g, img, n);
      var acc' := acc + [n];
      if next in acc' then Ok(Chain(acc', Some(next)))
      else
        assert n in Unvisited(acc) && n !in Unvisited(acc');
        Walk(g, img, next, acc')
  }

  /** ch extends the clusters acc already collected by the chain from n:
      the new clusters start with n, each links to the next, and the last
      one's link either leaves (1, EOC) or, for a crossed chain, returns into
      the list; no cluster is collected twice. */
  predicate Extends(g: Geometry, img: seq<byte>, n: nat, acc: seq<nat>, ch: Chain) {
    var cl := ch.clusters;
    |acc| <= |cl| && cl[..|acc|] == acc && Distinct(cl) && InData(cl)
    && (1 < n < EOC <==> |cl| > |acc|) && (|cl| > |acc| ==> cl[|acc|] == n)
    && (forall i :: |acc| <= i < |cl| - 1 ==> FatEntry(g, img, cl[i]) == Ok(cl[i + 1]))
    && (|cl| > |acc| ==> FatEntry(g, img, cl[|cl| - 1]).Ok?
                         && var last := FatEntry(g, img, cl[|cl| - 1]).value;
                            match ch.crossed
                            case Some(c) => c == last && c in cl
                            case None => !(1 < last < EOC))
    && (|cl| == |acc| ==> ch.crossed == None)
  }

  /** What get_clusters promises of the chain it returns for start n. */
  predicate ChainFrom(g: Geometry, img: seq<byte>, n: nat, ch: Chain) {
    Extends(g, img, n, [], ch)
  }

  lemma ExtendsStep(g: Geometry, img: seq<byte>, n: nat, next: nat, acc: seq<nat>, ch: Chain)
    requires 1 < n < EOC && FatEntry(g, img, n) == Ok(next) && n !in acc
    requires Extends(g, img, next, acc + [n], ch)
    ensures Extends(g, img, n, acc, ch)
  {
    var cl := ch.clusters;
    assert cl[..|acc|] == (acc + [n])[..|acc|];
    assert cl[|acc|] == n;
    if |cl| > |acc| + 1 {
      assert cl[|acc| + 1] == next;
    }
  }

  /** The walk from n extends acc by the chain from n. */
  lemma {:induction false} WalkFacts(g: Geometry, img: seq<byte>, n: nat, acc: seq<nat>)
    requires Distinct(acc) && InData(acc) && n !in acc
    ensures Walk(g, img, n, acc).Ok? ==> Extends(g, img, n, acc, Walk(g, img, n, acc).value)
    decreases Unvisited(acc)
  {
    var r := Walk(g, img, n, acc);
    if r.Ok? && 1 < n < EOC {
      var next := FatEntry(g, img, n).value;
      var acc' := acc + [n];
      if next in acc' {
        assert r == Ok(Chain(acc', Some(next)));
        assert acc'[..|acc|] == acc;
      } else {
        assert r == Walk(g, img, next, acc');
        assert n in Unvisited(acc) && n !in Unvisited(acc');
        WalkFacts(g, img, next, acc');
        ExtendsStep(g, img, n, next, acc, r.value);
      }
    }
  }

  /** get_clusters(n), with the crossing it reports to the caller's list. */
  function GetClusters(g: Geometry, img: seq<byte>, n: nat): (r: Result<Chain>)
    ensures r.Ok? ==> ChainFrom(g, img, n, r.value)
  {
    WalkFacts(g, img, n, []);
    Walk(g, img, n, [])
  }

  // ---------------------------------------------------------------------
  // Reading and writing a chain's data (get_data, write_data)

  /** Every cluster of cl is a data cluster lying wholly inside the image. */
  predicate ClustersInImage(g: Geometry, img: seq<byte>, cl: seq<nat>) {
    forall i :: 0 <= i < |cl| ==> cl[i] >= 2 && ClusterAt(g, cl[i]) + g.lenClus <= |img|
  }

  /** The bytes of the clusters of cl, one read(len_clus) each, joined. */
  function ReadClusters(g: Geometry, img: seq<byte>, cl: seq<nat>): (r: seq<byte>)
    decreases |cl|
  {
    // a chain's clusters are all >= 2 (ChainInData); 0 and 1 read nothing
    if cl == [] then [] else (if cl[0] >= 2 then ClusterBytes(g, img, cl[0]) else []) + ReadClusters(g, img, cl[1..])
  }

  /** Clusters wholly inside the image read len_clus bytes each. */
  lemma {:induction false} ReadClustersLength(g: Geometry, img: seq<byte>, cl: seq<nat>)
    requires ClustersInImage(g, img, cl)
    ensures |ReadClusters(g, img, cl)| == Mul(|cl|, g.lenClus)
    decreases |cl|
  {
    if cl != [] {
      assert ClustersInImage(g, img, cl[1..]) by {
        forall i | 0 <= i < |cl[1..]|
          ensures cl[1..][i] >= 2 && ClusterAt(g, cl[1..][i]) + g.lenClus <= |img|
        {
          assert cl[1..][i] == cl[i + 1];
        }
      }
      ReadClustersLength(g, img, cl[1..]);
    }
  }

  /** The clusters of a chain are data clusters. */
  lemma ChainInData(g: Geometry, img: seq<byte>, n: nat, ch: Chain)
    requires ChainFrom(g, img, n, ch)
    ensures forall j :: 0 <= j < |ch.clusters| ==> 2 <= ch.clusters[j] < EOC
  {
  }

  /** One more cluster read adds its bytes at the end. */
  lemma {:induction false} ReadClustersSnoc(g: Geometry, img: seq<byte>, cl: seq<nat>, c: nat)
    requires c >= 2
    ensures ReadClusters(g, img, cl + [c]) == ReadClusters(g, img, cl) + ClusterBytes(g, img, c)
    decreases |cl|
  {
    if cl == [] {
      assert ReadClusters(g, img, [c]) == ClusterBytes(g, img, c) + ReadClusters(g, img, []);
    } else {
      var s := cl + [c];
      assert s[0] == cl[0] && s[1..] == cl[1..] + [c];
      ReadClustersSnoc(g, img, cl[1..], c);
      var a := if cl[0] >= 2 then ClusterBytes(g, img, cl[0]) else [];
      var b := ReadClusters(g, img, cl[1..]);
      assert ReadClusters(g, img, s) == a + (b + ClusterBytes(g, img, c));
      assert ReadClusters(g, img, cl) == a + b;
    }
  }

  lemma ReadClustersPrefix(g: Geometry, img: seq<byte>, cl: seq<nat>, i: nat)
    requires i < |cl| && cl[i] >= 2
    ensures ReadClusters(g, img, cl[..i + 1]) == ReadClusters(g, img, cl[..i]) + ClusterBytes(g, img, cl[i])
  {
    assert cl[..i + 1] == cl[..i] + [cl[i]];
    ReadClustersSnoc(g, img, cl[..i], cl[i]);
  }

  /** get_data: the data of the chain from start. */
  function GetData(g: Geometry, img: seq<byte>, start: nat): (r: Result<seq<byte>>)
    ensures r.Ok? <==> GetClusters(g, img, start).Ok?
    ensures r.Ok? && ClustersInImage(g, img, GetClusters(g, img, start).value.clusters) ==>
              |r.value| == Mul(|GetClusters(g, img, start).value.clusters|, g.lenClus)
  {
    var ch :- GetClusters(g, img, start);
    if ClustersInImage(g, img, ch.clusters) then
      ReadClustersLength(g, img, ch.clusters);
      Ok(ReadClusters(g, img, ch.clusters))
    else Ok(ReadClusters(g, img, ch.clusters))
  }

  /** The two images hold the same FAT entries. */
  ghost predicate SameFat(g: Geometry, a: seq<byte>, b: seq<byte>) {
    forall m :: FatEntry(g, a, m) == FatEntry(g, b, m)
  }

  /** The indices below EOC outside visited. */
  ghost function Remaining(visited: set<nat>): set<nat> {
    set x: nat | x < EOC && x !in visited
  }

  /** The loop of write_data: each cluster of the chain receives the next
      len_clus bytes of data, until a link at or above EOC. Clusters are
      written before their link is read; a cluster met a second time means
      Python's loop never ends. */
  function WriteFrom(g: Geometry, img: seq<byte>, start: nat, data: seq<byte>, visited: set<nat>): (r: Result<seq<byte>>)
    requires g.Valid()
    ensures r.Ok? ==> |r.value| == |img|
    decreases Remaining(visited)
  {
    if start >= EOC then Ok(img)
    else if start in visited then Fail(Diverges)
    else
      var img1 :- WriteCluster(g, img, start, Take(data, g.lenClus));
      var next :- FatEntry(g, img1, start);
      assert start in Remaining(visited) && start !in Remaining(visited + {start});
      WriteFrom(g, img1, next, Drop(data, g.lenClus), visited + {start})
  }

  function WriteData(g: Geometry, img: seq<byte>, start: nat, data: seq<byte>): (r: Result<seq<byte>>)
    requires g.Valid()
    ensures r.Ok? ==> |r.value| == |img|
  {
    WriteFrom(g, img, start, data, {})
  }

  /** write_data changes no FAT entry. */
  lemma {:induction false} WriteFromFat(g: Geometry, img: seq<byte>, start: nat, data: seq<byte>, visited: set<nat>, m: nat)
    requires g.Valid()
    requires WriteFrom(g, img, start, data, visited).Ok?
    ensures FatEntry(g, WriteFrom(g, img, start, data, visited).value, m) == FatEntry(g, img, m)
    decreases Remaining(visited)
  {
    if start < EOC {
      var img1 := WriteCluster(g, img, start, Take(data, g.lenClus)).value;
      WriteClusterFat(g, img, start, Take(data, g.lenClus), m);
      var next := FatEntry(g, img1, start).value;
      assert start in Remaining(visited) && start !in Remaining(visited + {start});
      WriteFromFat(g, img1, next, Drop(data, g.lenClus), visited + {start}, m);
    }
  }

  /** The clusters of cl overwritten in turn with the successive len_clus
      pieces of data. */
  function WriteChunks(g: Geometry, img: seq<byte>, cl: seq<nat>, data: seq<byte>): (r: seq<byte>)
    requires ClustersInImage(g, img, cl)
    ensures |r| == |img|
    decreases |cl|
  {
    if cl == [] then img
    else
      var piece := Take(data, g.lenClus);
      WriteChunks(g, Splice(img, ClusterAt(g, cl[0]), piece), cl[1..], Drop(data, g.lenClus))
  }

  /** Byte i lies in none of the clusters of cl. */
  predicate OutsideAll(g: Geometry, cl: seq<nat>, i: int)
    requires forall j :: 0 <= j < |cl| ==> cl[j] >= 2
  {
    forall j :: 0 <= j < |cl| ==> i < ClusterAt(g, cl[j]) || ClusterAt(g, cl[j]) + g.lenClus <= i
  }

  lemma {:induction false} WriteChunksOutside(g: Geometry, img: seq<byte>, cl: seq<nat>, data: seq<byte>, i: nat)
    requires ClustersInImage(g, img, cl) && i < |img| && OutsideAll(g, cl, i)
    ensures WriteChunks(g, img, cl, data)[i] == img[i]
    decreases |cl|
  {
    if cl != [] {
      var piece := Take(data, g.lenClus);
      var img1 := Splice(img, ClusterAt(g, cl[0]), piece);
      assert OutsideAll(g, cl[1..], i) by {
        forall j | 0 <= j < |cl| - 1
          ensures i < ClusterAt(g, cl[1..][j]) || ClusterAt(g, cl[1..][j]) + g.lenClus <= i
        {
          assert cl[1..][j] == cl[j + 1];
        }
      }
      WriteChunksOutside(g, img1, cl[1..], Drop(data, g.lenClus), i);
    }
  }

  /** Reading clusters gives the same bytes from two images that agree on them. */
  lemma {:induction false} ReadClustersSame(g: Geometry, a: seq<byte>, b: seq<byte>, cl: seq<nat>)
    requires |a| == |b| && ClustersInImage(g, a, cl)
    requires forall j, k :: 0 <= j < |cl| && ClusterAt(g, cl[j]) <= k < ClusterAt(g, cl[j]) + g.lenClus ==> a[k] == b[k]
    ensures ReadClusters(g, a, cl) == ReadClusters(g, b, cl)
    decreases |cl|
  {
    if cl != [] {
      var front, c := cl[1..], cl[0];
      var lo := ClusterAt(g, c);
      assert forall k :: lo <= k < lo + g.lenClus ==> a[k] == b[k];
      assert a[lo..lo + g.lenClus] == b[lo..lo + g.lenClus];
      assert ClusterBytes(g, a, c) == ClusterBytes(g, b, c);
      assert ClustersInImage(g, a, front) by {
        forall i | 0 <= i < |front| ensures front[i] >= 2 && ClusterAt(g, front[i]) + g.lenClus <= |a| {
          assert front[i] == cl[i + 1];
        }
      }
      forall j, k | 0 <= j < |front| && ClusterAt(g, front[j]) <= k < ClusterAt(g, front[j]) + g.lenClus
        ensures a[k] == b[k]
      {
        assert front[j] == cl[j + 1];
      }
      ReadClustersSame(g, a, b, front);
    }
  }

  /** The pieces of data, one cluster each, loaded into distinct clusters
      read back as the leading bytes of the data, the clusters' old bytes
      filling whatever data does not cover. */
  lemma {:induction false} ReadAfterChunks(g: Geometry, img: seq<byte>, cl: seq<nat>, data: seq<byte>)
    requires ClustersInImage(g, img, cl) && Distinct(cl)
    ensures ReadClusters(g, WriteChunks(g, img, cl, data), cl) ==
              Take(data, Mul(|cl|, g.lenClus)) + Drop(ReadClusters(g, img, cl), |data|)
    decreases |cl|
  {
    if cl != [] {
      var rest, L := cl[1..], g.lenClus;
      var m, d := Mul(|rest|, L), Drop(data, L);
      assert Mul(|cl|, L) == m + L;
      var img1, old0 := ChunkStep(g, img, cl, data);
      var oldRest := ReadClusters(g, img1, rest);
      ReadAfterChunks(g, img1, rest, d);
      ReadClustersLength(g, img1, rest);
      ChunkAlgebra(data, old0, oldRest, L, m, ReadClusters(g, WriteChunks(g, img, cl, data), cl),
        ReadClusters(g, WriteChunks(g, img1, rest, d), rest), ReadClusters(g, img, cl), Mul(|cl|, L));
    }
  }

  /** One step of WriteChunks: img1 is the image after the first piece. */
  lemma ChunkStep(g: Geometry, img: seq<byte>, cl: seq<nat>, data: seq<byte>) returns (img1: seq<byte>, old0: seq<byte>)
    requires ClustersInImage(g, img, cl) && Distinct(cl) && cl != []
    ensures |old0| == g.lenClus && |img1| == |img|
    ensures ClustersInImage(g, img1, cl[1..]) && Distinct(cl[1..])
    ensures WriteChunks(g, img, cl, data) == WriteChunks(g, img1, cl[1..], Drop(data, g.lenClus))
    ensures ReadClusters(g, img, cl) == old0 + ReadClusters(g, img1, cl[1..])
    ensures ReadClusters(g, WriteChunks(g, img, cl, data), cl) ==
              Take(data, g.lenClus) + old0[|Take(data, g.lenClus)|..] +
              ReadClusters(g, WriteChunks(g, img1, cl[1..], Drop(data, g.lenClus)), cl[1..])
  {
    var c, rest, L := cl[0], cl[1..], g.lenClus;
    var lo := ClusterAt(g, c);
    img1 := Splice(img, lo, Take(data, L));
    old0 := img[lo..lo + L];
    var w := WriteChunks(g, img, cl, data);
    assert w == WriteChunks(g, img1, rest, Drop(data, L));
    OtherChunks(g, img, cl, data);
    ReadClustersCons(g, img, cl);
    assert ClusterBytes(g, img, c) == old0;
    var first := ClusterBytes(g, w, c);
    assert first == Take(data, L) + old0[|Take(data, L)|..] by { FirstChunk(g, img, cl, data); }
    assert ReadClusters(g, w, cl) == first + ReadClusters(g, w, rest) by { ReadClustersCons(g, w, cl); }
  }

  /** ReadClusters unfolded once on a chain starting at a data cluster. */
  lemma ReadClustersCons(g: Geometry, img: seq<byte>, cl: seq<nat>)
    requires cl != [] && cl[0] >= 2
    ensures ReadClusters(g, img, cl) == ClusterBytes(g, img, cl[0]) + ReadClusters(g, img, cl[1..])
  {
  }

  /** The first cluster of cl, after WriteChunks, holds the first piece and
      its own old bytes after that. */
  lemma FirstChunk(g: Geometry, img: seq<byte>, cl: seq<nat>, data: seq<byte>)
    requires ClustersInImage(g, img, cl) && Distinct(cl) && cl != []
    ensures var lo := ClusterAt(g, cl[0]);
            ClusterBytes(g, WriteChunks(g, img, cl, data), cl[0]) ==
              Take(data, g.lenClus) + img[lo..lo + g.lenClus][|Take(data, g.lenClus)|..]
  {
    var c, rest, L := cl[0], cl[1..], g.lenClus;
    var piece := Take(data, L);
    var lo := ClusterAt(g, c);
    var img1 := Splice(img, lo, piece);
    var w := WriteChunks(g, img, cl, data);
    assert w == WriteChunks(g, img1, rest, Drop(data, L));
    RestInImage(g, img, img1, cl);
    assert w[lo..lo + L] == img1[lo..lo + L] by {
      forall k | lo <= k < lo + L ensures w[k] == img1[k] {
        OutsideRest(g, cl, k);
        WriteChunksOutside(g, img1, rest, Drop(data, L), k);
      }
      SameSlice(w, img1, lo, lo + L);
    }
    SpliceSlice(img, lo, piece, L);
    assert ClusterBytes(g, w, c) == w[lo..lo + L];
  }

  lemma SameSlice(a: seq<byte>, b: seq<byte>, lo: nat, hi: nat)
    requires lo <= hi <= |a| && hi <= |b| && forall k :: lo <= k < hi ==> a[k] == b[k]
    ensures a[lo..hi] == b[lo..hi]
  {
  }

  /** The window [lo, lo + L) of an image spliced at lo with a piece no
      longer than L. */
  lemma SpliceSlice(img: seq<byte>, lo: nat, piece: seq<byte>, L: nat)
    requires |piece| <= L && lo + L <= |img|
    ensures Splice(img, lo, piece)[lo..lo + L] == piece + img[lo..lo + L][|piece|..]
  {
    var s := Splice(img, lo, piece);
    var w, t := s[lo..lo + L], piece + img[lo..lo + L][|piece|..];
    forall i | 0 <= i < L ensures w[i] == t[i] {
      assert w[i] == s[lo + i];
    }
    assert w == t;
  }

  /** The bytes of the first cluster of distinct clusters lie outside the others. */
  lemma OutsideRest(g: Geometry, cl: seq<nat>, k: int)
    requires cl != [] && Distinct(cl) && forall j :: 0 <= j < |cl| ==> cl[j] >= 2
    requires ClusterAt(g, cl[0]) <= k < ClusterAt(g, cl[0]) + g.lenClus
    ensures OutsideAll(g, cl[1..], k)
  {
    var c, rest := cl[0], cl[1..];
    forall j | 0 <= j < |rest| ensures k < ClusterAt(g, rest[j]) || ClusterAt(g, rest[j]) + g.lenClus <= k {
      assert rest[j] == cl[j + 1] && cl[j + 1] != c;
      if rest[j] < c { ClustersApart(g, rest[j], c); } else { ClustersApart(g, c, rest[j]); }
    }
  }

  lemma RestInImage(g: Geometry, img: seq<byte>, img1: seq<byte>, cl: seq<nat>)
    requires ClustersInImage(g, img, cl) && Distinct(cl) && cl != [] && |img1| == |img|
    ensures ClustersInImage(g, img1, cl[1..]) && Distinct(cl[1..])
  {
    var rest := cl[1..];
    forall i | 0 <= i < |rest| ensures rest[i] >= 2 && ClusterAt(g, rest[i]) + g.lenClus <= |img1| {
      assert rest[i] == cl[i + 1];
    }
  }

  /** The first piece of WriteChunks leaves the other clusters' bytes alone. */
  lemma OtherChunks(g: Geometry, img: seq<byte>, cl: seq<nat>, data: seq<byte>)
    requires ClustersInImage(g, img, cl) && Distinct(cl) && cl != []
    ensures ClustersInImage(g, Splice(img, ClusterAt(g, cl[0]), Take(data, g.lenClus)), cl[1..])
    ensures Distinct(cl[1..])
    ensures ReadClusters(g, Splice(img, ClusterAt(g, cl[0]), Take(data, g.lenClus)), cl[1..]) ==
              ReadClusters(g, img, cl[1..])
  {
    var c, rest, L := cl[0], cl[1..], g.lenClus;
    var img1 := Splice(img, ClusterAt(g, c), Take(data, L));
    RestInImage(g, img, img1, cl);
    forall j, k | 0 <= j < |rest| && ClusterAt(g, rest[j]) <= k < ClusterAt(g, rest[j]) + L
      ensures img1[k] == img[k]
    {
      assert rest[j] == cl[j + 1] && cl[j + 1] != c;
      if rest[j] < c { ClustersApart(g, rest[j], c); } else { ClustersApart(g, c, rest[j]); }
    }
    ReadClustersSame(g, img1, img, rest);
  }

  /** The sequence algebra of one step of ReadAfterChunks. */
  lemma ChunkAlgebra(data: seq<byte>, old0: seq<byte>, oldRest: seq<byte>, L: nat, m: nat,
                     w: seq<byte>, w1: seq<byte>, r: seq<byte>, total: nat)
    requires |old0| == L && |oldRest| == m && total == m + L && r == old0 + oldRest
    requires w1 == Take(Drop(data, L), m) + Drop(oldRest, |Drop(data, L)|)
    requires w == Take(data, L) + old0[|Take(data, L)|..] + w1
    ensures w == Take(data, total) + Drop(r, |data|)
  {
    if |data| >= L {
      ChunkAlgebraLong(data, old0, oldRest, L, m);
    } else {
      ChunkAlgebraShort(data, old0, oldRest, L);
    }
  }

  /** ChunkAlgebra when data covers the first cluster. */
  lemma ChunkAlgebraLong(data: seq<byte>, old0: seq<byte>, oldRest: seq<byte>, L: nat, m: nat)
    requires |old0| == L && |oldRest| == m && |data| >= L
    ensures Take(data, L) + old0[|Take(data, L)|..] + (Take(Drop(data, L), m) + Drop(oldRest, |Drop(data, L)|)) ==
              Take(data, m + L) + Drop(old0 + oldRest, |data|)
  {
    var d := data[L..];
    assert Take(data, L) == data[..L] && Drop(data, L) == d && old0[L..] == [];
    assert data[..L] + Take(d, m) == Take(data, m + L);
    assert Drop(old0 + oldRest, |data|) == Drop(oldRest, |d|);
  }

  /** ChunkAlgebra when data ends inside the first cluster. */
  lemma ChunkAlgebraShort(data: seq<byte>, old0: seq<byte>, oldRest: seq<byte>, L: nat)
    requires |old0| == L && |data| < L
    ensures Take(data, L) + old0[|Take(data, L)|..] + (Take(Drop(data, L), |oldRest|) + Drop(oldRest, |Drop(data, L)|)) ==
              Take(data, |oldRest| + L) + Drop(old0 + oldRest, |data|)
  {
    assert Take(data, L) == data && Drop(data, L) == [] && Take(data, |oldRest| + L) == data;
    assert (old0 + oldRest)[|data|..] == old0[|data|..] + oldRest;
  }

  /** cl is a linked run of distinct clusters below EOC, the last linking to next. */
  predicate Linked(g: Geometry, img: seq<byte>, cl: seq<nat>, next: nat) {
    cl != []
    && (forall i :: 0 <= i < |cl| - 1 ==> FatEntry(g, img, cl[i]) == Ok(cl[i + 1]))
    && FatEntry(g, img, cl[|cl| - 1]) == Ok(next)
  }

  /** The clusters of cl as a set. */
  function Elems(cl: seq<nat>): (r: set<nat>)
    ensures forall x :: x in r <==> x in cl
    decreases |cl|
  {
    if cl == [] then {} else {cl[0]} + Elems(cl[1..])
  }

  /** One turn of the write_data loop. */
  lemma WriteFromStep(g: Geometry, img: seq<byte>, c: nat, data: seq<byte>, visited: set<nat>, img1: seq<byte>, n: nat)
    requires g.Valid()
    requires c < EOC && c !in visited
    requires WriteCluster(g, img, c, Take(data, g.lenClus)) == Ok(img1) && FatEntry(g, img1, c) == Ok(n)
    ensures WriteFrom(g, img, c, data, visited) == WriteFrom(g, img1, n, Drop(data, g.lenClus), visited + {c})
  {
  }

  /** write_data along a linked run of clusters writes its pieces into them
      in turn and goes on at the last link. */
  lemma {:induction false} WriteFromRun(g: Geometry, img: seq<byte>, cl: seq<nat>, next: nat, data: seq<byte>, visited: set<nat>)
    requires g.Valid()
    requires ClustersInImage(g, img, cl) && Distinct(cl) && Linked(g, img, cl, next)
    requires forall i :: 0 <= i < |cl| ==> cl[i] < EOC && cl[i] !in visited
    ensures WriteFrom(g, img, cl[0], data, visited) ==
              WriteFrom(g, WriteChunks(g, img, cl, data), next, Drop(data, Mul(|cl|, g.lenClus)), visited + Elems(cl))
    decreases |cl|
  {
    var c, rest, L := cl[0], cl[1..], g.lenClus;
    var d := Drop(data, L);
    var img1 := Splice(img, ClusterAt(g, c), Take(data, L));
    if |Take(data, L)| == 0 {
      assert img1 == img;
    }
    assert WriteCluster(g, img, c, Take(data, L)) == Ok(img1);
    WriteClusterFat(g, img, c, Take(data, L), c);
    assert WriteChunks(g, img, cl, data) == WriteChunks(g, img1, rest, d);
    ElemsCons(cl, visited);
    if |cl| == 1 {
      WriteFromStep(g, img, c, data, visited, img1, next);
      assert WriteChunks(g, img, cl, data) == img1;
      assert Mul(|cl|, L) == L;
      assert Drop(data, Mul(|cl|, L)) == d;
      assert rest == [] && Elems(rest) == {};
      assert visited + Elems(cl) == visited + {c};
    } else {
      WriteFromStep(g, img, c, data, visited, img1, cl[1]);
      RestInImage(g, img, img1, cl);
      LinkedRest(g, img, img1, cl, next, Take(data, L));
      RestUnvisited(cl, visited);
      WriteFromRun(g, img1, rest, next, d, visited + {c});
      var w := WriteChunks(g, img1, rest, d);
      assert rest[0] == cl[1];
      assert w == WriteChunks(g, img, cl, data);
      DropMul(data, |cl|, L);
    }
  }

  lemma ElemsCons(cl: seq<nat>, visited: set<nat>)
    requires cl != []
    ensures visited + Elems(cl) == visited + {cl[0]} + Elems(cl[1..])
  {
  }

  lemma RestUnvisited(cl: seq<nat>, visited: set<nat>)
    requires cl != [] && Distinct(cl)
    requires forall i :: 0 <= i < |cl| ==> cl[i] < EOC && cl[i] !in visited
    ensures forall i :: 0 <= i < |cl| - 1 ==> cl[1..][i] < EOC && cl[1..][i] !in visited + {cl[0]}
  {
    forall i | 0 <= i < |cl| - 1 ensures cl[1..][i] < EOC && cl[1..][i] !in visited + {cl[0]} {
      assert cl[1..][i] == cl[i + 1];
    }
  }

  lemma DropMul<T>(s: seq<T>, k: nat, len: nat)
    requires k > 0
    ensures Drop(Drop(s, len), Mul(k - 1, len)) == Drop(s, Mul(k, len))
  {
  }

  /** Writing the first cluster of a run keeps the links of the others. */
  lemma LinkedRest(g: Geometry, img: seq<byte>, img1: seq<byte>, cl: seq<nat>, next: nat, piece: seq<byte>)
    requires g.Valid() && Linked(g, img, cl, next) && |cl| > 1
    requires WriteCluster(g, img, cl[0], piece) == Ok(img1)
    ensures Linked(g, img1, cl[1..], next)
  {
    var rest := cl[1..];
    forall i | 0 <= i < |rest| - 1 ensures FatEntry(g, img1, rest[i]) == Ok(rest[i + 1]) {
      assert rest[i] == cl[i + 1] && rest[i + 1] == cl[i + 2];
      WriteClusterFat(g, img, cl[0], piece, cl[i + 1]);
    }
    assert rest[|rest| - 1] == cl[|cl| - 1];
    WriteClusterFat(g, img, cl[0], piece, cl[|cl| - 1]);
  }

  /** The last link of a non-empty chain. */
  function LastLink(g: Geometry, img: seq<byte>, ch: Chain): (r: nat)
    requires ch.clusters != [] && FatEntry(g, img, ch.clusters[|ch.clusters| - 1]).Ok?
  {
    FatEntry(g, img, ch.clusters[|ch.clusters| - 1]).value
  }

  lemma ChainLinked(g: Geometry, img: seq<byte>, start: nat, ch: Chain)
    requires ChainFrom(g, img, start, ch) && ch.clusters != []
    ensures Linked(g, img, ch.clusters, LastLink(g, img, ch))
    ensures ch.clusters[0] == start
    ensures ch.crossed.Some? ==> LastLink(g, img, ch) == ch.crossed.value && ch.crossed.value in ch.clusters
    ensures ch.crossed.None? ==> !(1 < LastLink(g, img, ch) < EOC)
  {
  }

  /** write_data over the chain of start, each of whose clusters lies in the
      image: the chain's clusters receive the data piece by piece when the
      chain ends at an end-of-chain mark; a start or last link of 0 or 1
      reaches a cluster without data area; a crossed chain never ends; a
      start at or above EOC writes nothing. */
  lemma WriteDataChain(g: Geometry, img: seq<byte>, start: nat, data: seq<byte>)
    requires g.Valid() && GetClusters(g, img, start).Ok?
    requires ClustersInImage(g, img, GetClusters(g, img, start).value.clusters)
    ensures var ch := GetClusters(g, img, start).value;
            WriteData(g, img, start, data) ==
              if start >= EOC then Ok(img)
              else if ch.clusters == [] then Fail(BelowData)
              else if ch.crossed.Some? then Fail(Diverges)
              else if LastLink(g, img, ch) >= EOC then Ok(WriteChunks(g, img, ch.clusters, data))
              else Fail(BelowData)
  {
    var ch := GetClusters(g, img, start).value;
    var cl := ch.clusters;
    if start < EOC && cl != [] {
      ChainLinked(g, img, start, ch);
      var next := LastLink(g, img, ch);
      WriteFromRun(g, img, cl, next, data, {});
      var w := WriteChunks(g, img, cl, data);
      var rest := Drop(data, Mul(|cl|, g.lenClus));
      assert WriteData(g, img, start, data) == WriteFrom(g, w, next, rest, {} + Elems(cl));
      if ch.crossed.None? && next < EOC {
        assert next !in Elems(cl);
        assert WriteCluster(g, w, next, Take(rest, g.lenClus)) == Fail(BelowData);
      }
    }
  }

  /** A walk reads the image only through its FAT entries. */
  lemma {:induction false} WalkSame(g: Geometry, a: seq<byte>, b: seq<byte>, n: nat, acc: seq<nat>)
    requires Distinct(acc) && InData(acc) && n !in acc
    requires SameFat(g, a, b)
    ensures Walk(g, a, n, acc) == Walk(g, b, n, acc)
    decreases Unvisited(acc)
  {
    if 1 < n < EOC && FatEntry(g, a, n).Ok? {
      assert FatEntry(g, a, n) == FatEntry(g, b, n);
      var next := FatEntry(g, a, n).value;
      var acc' := acc + [n];
      if next !in acc' {
        assert n in Unvisited(acc) && n !in Unvisited(acc');
        WalkSame(g, a, b, next, acc');
      }
    } else {
      assert FatEntry(g, a, n) == FatEntry(g, b, n);
    }
  }

  /** After write_data over a terminated chain lying in the image, the chain
      is the same and reading it gives the data, cut to the chain's length,
      followed by the old bytes beyond the data's end. */
  lemma WriteThenRead(g: Geometry, img: seq<byte>, start: nat, data: seq<byte>)
    requires g.Valid() && 1 < start < EOC && GetClusters(g, img, start).Ok?
    requires var ch := GetClusters(g, img, start).value;
             ClustersInImage(g, img, ch.clusters) && ch.crossed.None? && LastLink(g, img, ch) >= EOC
    ensures WriteData(g, img, start, data).Ok?
    ensures var after := WriteData(g, img, start, data).value;
            var cl := GetClusters(g, img, start).value.clusters;
            GetClusters(g, after, start) == GetClusters(g, img, start) &&
            GetData(g, after, start) ==
              Ok(Take(data, Mul(|cl|, g.lenClus)) + Drop(ReadClusters(g, img, cl), |data|))
  {
    var ch := GetClusters(g, img, start).value;
    WriteDataChain(g, img, start, data);
    var after := WriteData(g, img, start, data).value;
    forall m ensures FatEntry(g, after, m) == FatEntry(g, img, m) {
      WriteFromFat(g, img, start, data, {}, m);
    }
    WalkSame(g, after, img, start, []);
    ReadAfterChunks(g, img, ch.clusters, data);
  }

  // ---------------------------------------------------------------------
  // Allocation (add_cluster)

  /** The entry is read and holds a non-zero value. */
  predicate Taken(g: Geometry, img: seq<byte>, m: nat) {
    FatEntry(g, img, m).Ok? && FatEntry(g, img, m).value != 0
  }

  /** The scan of add_cluster from index i on: the first entry holding 0. */
  function FirstFree(g: Geometry, img: seq<byte>, i: nat): (r: Result<nat>)
    ensures r.Ok? ==> i <= r.value < g.Entries() && FatEntry(g, img, r.value) == Ok(0)
    decreases g.Entries() - i
  {
    if i >= g.Entries() then Fail(FreeSpace)
    else if !EntryInImage(g, img, i) then FatEntry(g, img, i).PropagateFailure()
    else if FatEntry(g, img, i).value == 0 then Ok(i)
    else FirstFree(g, img, i + 1)
  }

  /** The entry found is the lowest free one from i on; the scan fails with
      FreeSpace exactly when every entry from i on is taken, and otherwise
      fails only at an entry outside the image. */
  lemma {:induction false} FirstFreeFacts(g: Geometry, img: seq<byte>, i: nat)
    ensures var r := FirstFree(g, img, i);
            && (r.Ok? ==> forall m :: i <= m < r.value ==> Taken(g, img, m))
            && (r == Fail(FreeSpace) <==> forall m :: i <= m < g.Entries() ==> Taken(g, img, m))
            && (r.Fail? && r.error != FreeSpace ==> exists m :: i <= m < g.Entries() && !EntryInImage(g, img, m))
    decreases g.Entries() - i
  {
    if i < g.Entries() {
      assert !EntryInImage(g, img, i) || FatEntry(g, img, i).value == 0 ==> !Taken(g, img, i);
      if EntryInImage(g, img, i) && FatEntry(g, img, i).value != 0 {
        FirstFreeFacts(g, img, i + 1);
      }
    }
  }

  /** add_cluster(end): the first free entry n gets 0xFFFFFFFF, entry end
      (when non-zero) is linked to n, and cluster n is zero-filled; the
      result is n and the new image. */
  function AddCluster(g: Geometry, img: seq<byte>, end: nat): (r: Result<(nat, seq<byte>)>)
    requires g.Valid()
  {
    var n :- FirstFree(g, img, 0);
    var linked :- if end != 0 then SetFatEntry(g, img, end, n) else Ok(img);
    var marked :- SetFatEntry(g, linked, n, 0xFFFF_FFFF);
    var zeroed :- WriteCluster(g, marked, n, Zeros(g.lenClus));
    Ok((n, zeroed))
  }

  /** add_cluster fails with FreeSpace exactly when every entry is taken;
      an index 0 or 1 found free has no cluster to zero-fill. */
  lemma AddClusterFails(g: Geometry, img: seq<byte>, end: nat)
    requires g.Valid()
    ensures AddCluster(g, img, end) == Fail(FreeSpace) <==> forall m :: 0 <= m < g.Entries() ==> Taken(g, img, m)
    ensures var f := FirstFree(g, img, 0);
            f.Ok? && f.value < 2 && (end == 0 || EntryInImage(g, img, end)) ==> AddCluster(g, img, end) == Fail(BelowData)
  {
    FirstFreeFacts(g, img, 0);
    AddClusterLow(g, img, end);
  }

  lemma AddClusterLow(g: Geometry, img: seq<byte>, end: nat)
    requires g.Valid()
    ensures var f := FirstFree(g, img, 0);
            f.Ok? && f.value < 2 && (end == 0 || EntryInImage(g, img, end)) ==> AddCluster(g, img, end) == Fail(BelowData)
  {
    var f := FirstFree(g, img, 0);
    if f.Ok? {
      var n := f.value;
      var l := if end != 0 then SetFatEntry(g, img, end, n) else Ok(img);
      if l.Ok? {
        assert SetFatEntry(g, l.value, n, 0xFFFF_FFFF).Ok? by { assert EntryInImage(g, img, n); }
      }
    }
  }

  /** What add_cluster promises on success: the lowest free index is taken
      and marked end-of-chain, the previous end links to it, its cluster is
      zero, and no other entry changes. */
  lemma AddClusterFacts(g: Geometry, img: seq<byte>, end: nat)
    requires g.Valid() && AddCluster(g, img, end).Ok?
    ensures var (n, after) := AddCluster(g, img, end).value;
            && |after| == |img| && 2 <= n < g.Entries() && ClusterAt(g, n) + g.lenClus <= |after|
            && FatEntry(g, img, n) == Ok(0)
            && (forall m :: 0 <= m < n ==> Taken(g, img, m))
            && FatEntry(g, after, n) == Ok(0xFFFF_FFFF)
            && (end != 0 && end != n ==> FatEntry(g, after, end) == Ok(n))
            && (forall m :: m != n && (end == 0 || m != end) ==> FatEntry(g, after, m) == FatEntry(g, img, m))
            && ClusterBytes(g, after, n) == Zeros(g.lenClus)
  {
    AddClusterScan(g, img, end);
    AddClusterLinks(g, img, end);
    AddClusterZeroed(g, img, end);
  }

  lemma AddClusterScan(g: Geometry, img: seq<byte>, end: nat)
    requires g.Valid() && AddCluster(g, img, end).Ok?
    ensures var n := AddCluster(g, img, end).value.0;
            && 2 <= n < g.Entries() && FatEntry(g, img, n) == Ok(0)
            && (forall m :: 0 <= m < n ==> Taken(g, img, m))
  {
    FirstFreeFacts(g, img, 0);
  }

  lemma AddClusterLinks(g: Geometry, img: seq<byte>, end: nat)
    requires g.Valid() && AddCluster(g, img, end).Ok?
    ensures var (n, after) := AddCluster(g, img, end).value;
            && FatEntry(g, after, n) == Ok(0xFFFF_FFFF)
            && (end != 0 && end != n ==> FatEntry(g, after, end) == Ok(n))
            && (forall m :: m != n && (end == 0 || m != end) ==> FatEntry(g, after, m) == FatEntry(g, img, m))
  {
    var n := FirstFree(g, img, 0).value;
    var l := (if end != 0 then SetFatEntry(g, img, end, n) else Ok(img)).value;
    var m := SetFatEntry(g, l, n, 0xFFFF_FFFF).value;
    var z := WriteCluster(g, m, n, Zeros(g.lenClus)).value;
    assert AddCluster(g, img, end).value == (n, z);
    forall k ensures FatEntry(g, z, k) == FatEntry(g, m, k) {
      WriteClusterFat(g, m, n, Zeros(g.lenClus), k);
    }
  }

  lemma AddClusterZeroed(g: Geometry, img: seq<byte>, end: nat)
    requires g.Valid() && AddCluster(g, img, end).Ok?
    ensures var (n, after) := AddCluster(g, img, end).value;
            && |after| == |img| && n >= 2 && ClusterAt(g, n) + g.lenClus <= |after|
            && ClusterBytes(g, after, n) == Zeros(g.lenClus)
  {
    var n := FirstFree(g, img, 0).value;
    var l := (if end != 0 then SetFatEntry(g, img, end, n) else Ok(img)).value;
    var m := SetFatEntry(g, l, n, 0xFFFF_FFFF).value;
    var z := WriteCluster(g, m, n, Zeros(g.lenClus)).value;
    assert AddCluster(g, img, end).value == (n, z);
    var lo := ClusterAt(g, n);
    assert z[lo..lo + g.lenClus] == Zeros(g.lenClus);
  }

  // ---------------------------------------------------------------------
  // Freeing a chain (the loop of rm)

  /** The taken entries: what ZeroFrom can still clear. */
  ghost function TakenSet(g: Geometry, img: seq<byte>): set<nat> {
    set m: nat | m < g.Entries() && Taken(g, img, m)
  }

  /** Clearing a taken entry shrinks the taken set. */
  lemma TakenShrinks(g: Geometry, img: seq<byte>, n: nat)
    requires Taken(g, img, n)
    ensures TakenSet(g, SetFatEntry(g, img, n, 0).value) < TakenSet(g, img)
  {
    var img1 := SetFatEntry(g, img, n, 0).value;
    assert n in TakenSet(g, img) && n !in TakenSet(g, img1);
    forall m | m in TakenSet(g, img1) ensures m in TakenSet(g, img) {
      assert m != n;
    }
  }

  /** The loop of rm: while n is below EOC and not 0, read entry n, clear
      it, and go on at the value read. Each turn clears its entry before
      moving on, so a cycle ends at an entry already cleared. */
  function ZeroFrom(g: Geometry, img: seq<byte>, n: nat): (r: Result<seq<byte>>)
    ensures r.Ok? ==> |r.value| == |img|
    decreases TakenSet(g, img)
  {
    if n >= EOC || n == 0 then Ok(img)
    else
      var v :- FatEntry(g, img, n);
      var img1 := SetFatEntry(g, img, n, 0).value;
      if v == 0 then Ok(img1)
      else
        TakenShrinks(g, img, n);
        ZeroFrom(g, img1, v)
  }

  /** rm's loop only clears entries: each entry keeps its value or becomes 0. */
  lemma {:induction false} ZeroOnly(g: Geometry, img: seq<byte>, n: nat, m: nat)
    requires ZeroFrom(g, img, n).Ok?
    ensures var e := FatEntry(g, ZeroFrom(g, img, n).value, m);
            e == FatEntry(g, img, m) || e == Ok(0)
    decreases TakenSet(g, img)
  {
    if n < EOC && n != 0 {
      var v := FatEntry(g, img, n).value;
      var img1 := SetFatEntry(g, img, n, 0).value;
      if v != 0 {
        TakenShrinks(g, img, n);
        ZeroOnly(g, img1, v, m);
        if m != n {
          assert FatEntry(g, img1, m) == FatEntry(g, img, m);
        }
      }
    }
  }

  /** rm's loop changes no byte outside the FAT entries. */
  lemma {:induction false} ZeroFrame(g: Geometry, img: seq<byte>, n: nat, i: nat)
    requires ZeroFrom(g, img, n).Ok? && i < |img|
    requires i < g.startFat || g.startFat + 4 * g.Entries() <= i
    ensures ZeroFrom(g, img, n).value[i] == img[i]
    decreases TakenSet(g, img)
  {
    if n < EOC && n != 0 {
      var v := FatEntry(g, img, n).value;
      var img1 := SetFatEntry(g, img, n, 0).value;
      assert img1[i] == img[i];
      if v != 0 {
        TakenShrinks(g, img, n);
        ZeroFrame(g, img1, v, i);
      }
    }
  }

  /** The clusters a walk collects from n past acc end up cleared by rm's
      loop from n, given that the entries of acc are already 0 and the
      others are as the walk saw them. */
  lemma {:induction false} ZeroWalk(g: Geometry, img0: seq<byte>, img: seq<byte>, n: nat, acc: seq<nat>)
    requires Distinct(acc) && InData(acc) && n !in acc
    requires forall m :: m !in acc ==> FatEntry(g, img, m) == FatEntry(g, img0, m)
    requires forall i :: 0 <= i < |acc| ==> FatEntry(g, img, acc[i]) == Ok(0)
    requires Walk(g, img0, n, acc).Ok? && ZeroFrom(g, img, n).Ok?
    ensures forall c :: c in Walk(g, img0, n, acc).value.clusters ==> FatEntry(g, ZeroFrom(g, img, n).value, c) == Ok(0)
    decreases Unvisited(acc)
  {
    var after := ZeroFrom(g, img, n).value;
    forall i | 0 <= i < |acc| ensures FatEntry(g, after, acc[i]) == Ok(0) {
      ZeroOnly(g, img, n, acc[i]);
    }
    if 1 < n < EOC {
      var v := FatEntry(g, img, n).value;
      var img1 := SetFatEntry(g, img, n, 0).value;
      var acc' := acc + [n];
      assert FatEntry(g, img0, n) == Ok(v);
      if v == 0 {
        assert Walk(g, img0, n, acc).value.clusters == acc';
      } else {
        TakenShrinks(g, img, n);
        assert after == ZeroFrom(g, img1, v).value;
        ZeroOnly(g, img1, v, n);
        if v in acc' {
          assert Walk(g, img0, n, acc).value.clusters == acc';
        } else {
          assert n in Unvisited(acc) && n !in Unvisited(acc');
          forall i | 0 <= i < |acc'| ensures FatEntry(g, img1, acc'[i]) == Ok(0) {
            if i < |acc| { assert acc'[i] == acc[i] != n; }
          }
          ZeroWalk(g, img0, img1, v, acc');
        }
      }
    }
  }

  /** rm's loop clears the entry it starts at. */
  lemma ZeroFromStart(g: Geometry, img: seq<byte>, n: nat)
    requires ZeroFrom(g, img, n).Ok? && 0 < n < EOC
    ensures FatEntry(g, ZeroFrom(g, img, n).value, n) == Ok(0)
  {
    var v := FatEntry(g, img, n).value;
    var img1 := SetFatEntry(g, img, n, 0).value;
    if v != 0 {
      TakenShrinks(g, img, n);
      ZeroOnly(g, img1, v, n);
    }
  }

  /** rm's loop clears every entry of the chain get_clusters finds from start. */
  lemma ZeroChain(g: Geometry, img: seq<byte>, start: nat)
    requires GetClusters(g, img, start).Ok? && ZeroFrom(g, img, start).Ok?
    ensures forall c :: c in GetClusters(g, img, start).value.clusters ==>
              FatEntry(g, ZeroFrom(g, img, start).value, c) == Ok(0)
  {
    ZeroWalk(g, img, img, start, []);
  }
}
