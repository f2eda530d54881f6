/** The engine's operations on the image as a value: what each method of
    Reader computes, stated as functions of the image bytes, the current
    directory and its listing. */
module Volume {
  import opened Common
  import opened Codec
  import opened Fat
  import opened Directory

  /** The reports of fschk (CrossedCluster, LostedCluster, NonZeroDirSize,
      BrokenFileSize, WrongDirStruct); a path is its list of names. */
  datatype Anomaly =
    | Crossed(cluster: nat)
    | Lost(cluster: nat)
    | NonZeroDirSize(path: seq<Name>)
    | BrokenFileSize(path: seq<Name>)
    | WrongDirStruct(path: seq<Name>)

  /** The directory cd(f) makes current: start 0 means the root. */
  function CdTarget(f: MyFile): (r: MyFile)
    ensures r.start != 0 && (f.start != 0 ==> r == f)
  {
    if f.start == 0 then Root else f
  }

  /** The listing cd builds for directory f. */
  function ListDir(g: Geometry, img: seq<byte>, f: MyFile): Result<seq<MyFile>> {
    var data :- GetData(g, img, f.start);
    Listing(data)
  }

  /** What cd(f) leaves in files when listing f fails: the old files when
      get_data fails, and the entries before the record that fails to
      parse otherwise. */
  function CdLeft(g: Geometry, img: seq<byte>, f: MyFile, files: seq<MyFile>): seq<MyFile> {
    match GetData(g, img, f.start)
    case Fail(_) => files
    case Ok(data) => CdStop(data).found
  }

  // ---------------------------------------------------------------------
  // Rewriting the current directory

  /** add_entry(data) in the directory starting at cluster dir: its bytes
      with data's records placed in free slots are written back along its
      chain; the new image and the records left over. */
  function AddEntryOn(g: Geometry, img: seq<byte>, dir: nat, data: seq<byte>): Result<(seq<byte>, seq<byte>)>
    requires g.Valid()
  {
    var d :- GetData(g, img, dir);
    var placed :- AddEntry(d, data);
    var after :- WriteData(g, img, dir, placed.0);
    Ok((after, placed.1))
  }

  /** clear_dir in the directory starting at cluster dir. */
  function ClearDirOn(g: Geometry, img: seq<byte>, dir: nat): Result<seq<byte>>
    requires g.Valid()
  {
    var d :- GetData(g, img, dir);
    WriteData(g, img, dir, Compacted(d))
  }

  /** del_dir_record(first, count) in the directory starting at cluster dir. */
  function DelDirRecordOn(g: Geometry, img: seq<byte>, dir: nat, first: nat, count: nat): Result<seq<byte>>
    requires g.Valid()
  {
    var d :- GetData(g, img, dir);
    var marked :- DelDirRecord(d, first, count);
    WriteData(g, img, dir, marked)
  }

  /** make_new_records(dn, kind, start, size) in the directory starting at
      cluster dir whose listing has count entries: one add_entry, and when
      records are left over reader.py's reference to the unbound `last`. */
  function MakeNewRecordsOn(g: Geometry, img: seq<byte>, dir: nat, count: nat, dn: Name, kind: Kind, start: nat,
                            size: nat, c: Clock): Result<seq<byte>>
    requires g.Valid() && c.Valid()
  {
    var recs :- NewRecords(dn, kind, start, size, count, c);
    var added :- AddEntryOn(g, img, dir, recs);
    if added.1 != [] then Fail(NameError) else Ok(added.0)
  }

  /** The first two records of a directory md creates: "." for its own
      start and ".." for the start of the directory it is made in. */
  function DirHeader(start: nat, parent: nat, count: nat, c: Clock): (r: seq<byte>)
    requires c.Valid()
    ensures |r| == 64
  {
    MakeDosRecord([DOT], Dir, start, 0, count, c) + MakeDosRecord([DOT, DOT], Dir, parent, 0, count, c)
  }

  /** md(dn, check): a cluster is taken (unlinked), the entry is added to
      the current directory, then the new cluster's data is rewritten with
      "." and ".." in front; the new start and the image. */
  function MdOn(g: Geometry, img: seq<byte>, writable: bool, check: bool, cur: MyFile, files: seq<MyFile>,
                dn: Name, c: Clock): Result<(nat, seq<byte>)>
    requires g.Valid() && c.Valid()
  {
    if !writable then Fail(PermissionDenied)
    else if check && CheckDouble(files, dn).Failed? then Fail(CheckDouble(files, dn).error)
    else
      var taken :- AddCluster(g, img, 0);
      var after :- MdInto(g, taken.1, cur, files, dn, c, taken.0);
      Ok((taken.0, after))
  }

  /** The rest of md once cluster start is taken: the entry is added to the
      current directory, then the new cluster is given its header. */
  function MdInto(g: Geometry, taken: seq<byte>, cur: MyFile, files: seq<MyFile>, dn: Name, c: Clock,
                  start: nat): Result<seq<byte>>
    requires g.Valid() && c.Valid()
  {
    var added :- MakeNewRecordsOn(g, taken, cur.start, |files|, dn, Dir, start, 0, c);
    var d :- GetData(g, added, start);
    WriteData(g, added, start, DirHeader(start, cur.start, |files|, c) + Drop(d, 64))
  }

  /** cf(fn, start, size): the entry of a file is added to the current
      directory; no cluster is taken. */
  function CfOn(g: Geometry, img: seq<byte>, writable: bool, cur: MyFile, files: seq<MyFile>, fn: Name, start: nat,
                size: nat, c: Clock): Result<seq<byte>>
    requires g.Valid() && c.Valid()
  {
    if !writable then Fail(PermissionDenied)
    else if CheckDouble(files, fn).Failed? then Fail(CheckDouble(files, fn).error)
    else MakeNewRecordsOn(g, img, cur.start, |files|, fn, File, start, size, c)
  }

  /** rm(f) for a file f listed in the current directory: its chain is
      cleared, then its records are marked deleted. */
  function RmFileOn(g: Geometry, img: seq<byte>, writable: bool, cur: MyFile, f: MyFile): Result<seq<byte>>
    requires g.Valid()
  {
    if !writable then Fail(PermissionDenied)
    else
      var cleared :- ZeroFrom(g, img, f.start);
      DelDirRecordOn(g, cleared, cur.start, f.first, f.count)
  }

  /** The bound that stands for Python's recursion limit in rm and
      check_crosses: each descent into a directory spends one step. */
  datatype Fuel = Spent | Left(rest: Fuel)

  /** What rm changes: the image and, through cd, the current directory
      and its listing. */
  datatype Place = Place(img: seq<byte>, current: MyFile, files: seq<MyFile>)

  /** rm(f) from place p: for a directory, its entries are removed first
      (RmInside); then f's chain is cleared and its records are marked
      deleted in the directory current at that point. */
  function RmOn(g: Geometry, p: Place, writable: bool, f: MyFile, depth: Fuel): Result<Place>
    requires g.Valid()
    decreases depth, 0, 1
  {
    if !writable then Fail(PermissionDenied)
    else if f.kind == File then RmTail(g, p, f)
    else
      var tail :- RmInside(g, p, writable, f, depth);
      RmTail(g, tail, f)
  }

  /** The part of rm for a directory f before its own chain is cleared:
      f is entered, every entry of its listing other than "", "." and ".."
      is removed in turn, and the entry at index 1 of the listing then
      current (normally "..") is entered. */
  function RmInside(g: Geometry, p: Place, writable: bool, f: MyFile, depth: Fuel): Result<Place>
    requires g.Valid()
    decreases depth, 0, 0
  {
    if depth.Spent? then Fail(TooDeep)
    else
      var inside :- ListDir(g, p.img, CdTarget(f));
      var done :- RmChildren(g, Place(p.img, CdTarget(f), inside), writable, inside, 0, depth.rest);
      if |done.files| < 2 then Fail(IndexError)
      else
        var up := done.files[1];
        if up.kind == File then Fail(NotADirectory(up.name))
        else
          var back :- ListDir(g, done.img, CdTarget(up));
          Ok(Place(done.img, CdTarget(up), back))
  }

  /** The loop of rm over the listing taken when the directory was
      entered, from index j on. */
  function RmChildren(g: Geometry, p: Place, writable: bool, children: seq<MyFile>, j: nat, depth: Fuel): Result<Place>
    requires g.Valid()
    decreases depth, 1, |children| - j
  {
    if j >= |children| then Ok(p)
    else if DotUnits(children[j].name) then RmChildren(g, p, writable, children, j + 1, depth)
    else
      var p1 :- RmOn(g, p, writable, children[j], depth);
      RmChildren(g, p1, writable, children, j + 1, depth)
  }

  /** The last part of rm, in place p: what rm does for a file. */
  function RmTail(g: Geometry, p: Place, f: MyFile): Result<Place>
    requires g.Valid()
  {
    var after :- RmFileOn(g, p.img, true, p.current, f);
    Ok(Place(after, p.current, p.files))
  }

  /** b holds the FAT entries of a, some of them cleared to 0. */
  ghost predicate OnlyFreed(g: Geometry, a: seq<byte>, b: seq<byte>) {
    forall m :: FatEntry(g, b, m) == FatEntry(g, a, m) || FatEntry(g, b, m) == Ok(0)
  }

  /** del_dir_record in a directory changes no FAT entry. */
  lemma DelDirRecordOnFat(g: Geometry, img: seq<byte>, dir: nat, first: nat, count: nat, m: nat)
    requires g.Valid() && DelDirRecordOn(g, img, dir, first, count).Ok?
    ensures FatEntry(g, DelDirRecordOn(g, img, dir, first, count).value, m) == FatEntry(g, img, m)
  {
    var marked := DelDirRecord(GetData(g, img, dir).value, first, count).value;
    WriteFromFat(g, img, dir, marked, {}, m);
  }

  /** rm of one file only frees FAT entries: each entry of the new image is
      the old one or 0; f's first entry and every cluster of f's chain are
      freed. */
  lemma RmTailFrees(g: Geometry, p: Place, f: MyFile, r: Place)
    requires g.Valid() && RmTail(g, p, f) == Ok(r)
    ensures OnlyFreed(g, p.img, r.img)
    ensures 0 < f.start < EOC ==> FatEntry(g, r.img, f.start) == Ok(0)
    ensures GetClusters(g, p.img, f.start).Ok? ==>
              forall c :: c in GetClusters(g, p.img, f.start).value.clusters ==> FatEntry(g, r.img, c) == Ok(0)
  {
    var cleared := ZeroFrom(g, p.img, f.start).value;
    var after := r.img;
    forall m ensures FatEntry(g, after, m) == FatEntry(g, p.img, m) || FatEntry(g, after, m) == Ok(0) {
      ZeroOnly(g, p.img, f.start, m);
      DelDirRecordOnFat(g, cleared, p.current.start, f.first, f.count, m);
    }
    if 0 < f.start < EOC {
      ZeroFromStart(g, p.img, f.start);
      DelDirRecordOnFat(g, cleared, p.current.start, f.first, f.count, f.start);
    }
    if GetClusters(g, p.img, f.start).Ok? {
      ZeroChain(g, p.img, f.start);
      forall c | c in GetClusters(g, p.img, f.start).value.clusters
        ensures FatEntry(g, after, c) == Ok(0)
      {
        DelDirRecordOnFat(g, cleared, p.current.start, f.first, f.count, c);
      }
    }
  }

  /** rm, also of a whole directory tree, never takes a cluster: it only
      clears FAT entries. */
  lemma {:induction false} RmFrees(g: Geometry, p: Place, writable: bool, f: MyFile, depth: Fuel, r: Place)
    requires g.Valid() && RmOn(g, p, writable, f, depth) == Ok(r)
    ensures OnlyFreed(g, p.img, r.img)
    ensures 0 < f.start < EOC ==> FatEntry(g, r.img, f.start) == Ok(0)
    ensures f.kind == File && GetClusters(g, p.img, f.start).Ok? ==>
              forall c :: c in GetClusters(g, p.img, f.start).value.clusters ==> FatEntry(g, r.img, c) == Ok(0)
    decreases depth, 0, 1
  {
    if f.kind == File {
      RmTailFrees(g, p, f, r);
    } else {
      var tail := RmInside(g, p, writable, f, depth).value;
      RmInsideFrees(g, p, writable, f, depth, tail);
      RmTailFrees(g, tail, f, r);
      FreedTrans(g, p.img, tail.img, r.img);
    }
  }

  lemma {:induction false} RmInsideFrees(g: Geometry, p: Place, writable: bool, f: MyFile, depth: Fuel, r: Place)
    requires g.Valid() && RmInside(g, p, writable, f, depth) == Ok(r)
    ensures OnlyFreed(g, p.img, r.img)
    decreases depth, 0, 0
  {
    var inside := ListDir(g, p.img, CdTarget(f)).value;
    var q := Place(p.img, CdTarget(f), inside);
    var done := RmChildren(g, q, writable, inside, 0, depth.rest).value;
    assert r.img == done.img;
    RmChildrenFrees(g, q, writable, inside, 0, depth.rest, done);
  }

  lemma {:induction false} RmChildrenFrees(g: Geometry, p: Place, writable: bool, children: seq<MyFile>, j: nat, depth: Fuel,
                                           r: Place)
    requires g.Valid() && RmChildren(g, p, writable, children, j, depth) == Ok(r)
    ensures OnlyFreed(g, p.img, r.img)
    decreases depth, 1, |children| - j
  {
    if j >= |children| {
    } else if DotUnits(children[j].name) {
      RmChildrenFrees(g, p, writable, children, j + 1, depth, r);
    } else {
      var p1 := RmOn(g, p, writable, children[j], depth).value;
      RmFrees(g, p, writable, children[j], depth, p1);
      RmChildrenFrees(g, p1, writable, children, j + 1, depth, r);
      FreedTrans(g, p.img, p1.img, r.img);
    }
  }

  /** After del_dir_record in directory dir, whose chain ends at an
      end-of-chain mark inside the image, the directory no longer lists an
      entry whose first record was one of the marked ones. */
  lemma DelDirRecordOnUnlists(g: Geometry, img: seq<byte>, dir: nat, first: nat, count: nat, after: seq<byte>,
                              cur: MyFile)
    requires g.Valid() && DelDirRecordOn(g, img, dir, first, count) == Ok(after) && 1 < dir < EOC && cur.start == dir
    requires GetClusters(g, after, dir).Ok? && ClustersInImage(g, after, GetClusters(g, after, dir).value.clusters)
    ensures ListDir(g, after, cur).Ok? ==> forall e :: e in ListDir(g, after, cur).value ==> !(first <= e.first < first + count)
  {
    var d := GetData(g, img, dir).value;
    DelDirRecordOnReads(g, img, dir, first, count, after);
    MarkedUnlisted(d, first, count);
  }

  /** Reading the directory back after del_dir_record gives the marked
      bytes. */
  lemma DelDirRecordOnReads(g: Geometry, img: seq<byte>, dir: nat, first: nat, count: nat, after: seq<byte>)
    requires g.Valid() && DelDirRecordOn(g, img, dir, first, count) == Ok(after) && 1 < dir < EOC
    requires GetClusters(g, after, dir).Ok? && ClustersInImage(g, after, GetClusters(g, after, dir).value.clusters)
    ensures GetData(g, after, dir) == Ok(DelDirRecord(GetData(g, img, dir).value, first, count).value)
  {
    var d := GetData(g, img, dir).value;
    var marked := DelDirRecord(d, first, count).value;
    assert WriteData(g, img, dir, marked) == Ok(after);
    assert |marked| == |d| by {
      MarkFromFacts(d, first, first + count);
    }
    WrittenBack(g, img, dir, d, marked, after);
  }

  /** write_data of bytes as long as the directory's, along a chain that
      then lies in the image, reads back as those bytes. */
  lemma WrittenBack(g: Geometry, img: seq<byte>, dir: nat, d: seq<byte>, data: seq<byte>, after: seq<byte>)
    requires g.Valid() && 1 < dir < EOC && GetData(g, img, dir) == Ok(d) && |data| == |d|
    requires WriteData(g, img, dir, data) == Ok(after)
    requires GetClusters(g, after, dir).Ok? && ClustersInImage(g, after, GetClusters(g, after, dir).value.clusters)
    ensures GetData(g, after, dir) == Ok(data)
  {
    var cl := SameChainAfterWrite(g, img, dir, data);
    WriteThenRead(g, img, dir, data);
    ReadClustersLength(g, img, cl);
    var old0 := ReadClusters(g, img, cl);
    assert |d| == Mul(|cl|, g.lenClus) == |old0| == |data|;
    var rest := Drop(old0, |data|);
    assert |rest| == 0;
    assert Take(data, Mul(|cl|, g.lenClus)) == data && data + rest == data;
  }

  /** A write_data that succeeds leaves the chain as it was; when the chain
      then lies in the image, it did before, ends at an end-of-chain mark
      and is not crossed. */
  lemma SameChainAfterWrite(g: Geometry, img: seq<byte>, dir: nat, data: seq<byte>) returns (cl: seq<nat>)
    requires g.Valid() && WriteData(g, img, dir, data).Ok? && 1 < dir < EOC
    requires var after := WriteData(g, img, dir, data).value;
             GetClusters(g, after, dir).Ok? && ClustersInImage(g, after, GetClusters(g, after, dir).value.clusters)
    ensures GetClusters(g, img, dir) == GetClusters(g, WriteData(g, img, dir, data).value, dir)
    ensures var ch := GetClusters(g, img, dir).value;
            cl == ch.clusters && ClustersInImage(g, img, cl) && ch.crossed.None? && LastLink(g, img, ch) >= EOC
  {
    var after := WriteData(g, img, dir, data).value;
    forall m ensures FatEntry(g, after, m) == FatEntry(g, img, m) {
      WriteFromFat(g, img, dir, data, {}, m);
    }
    WalkSame(g, after, img, dir, []);
    cl := GetClusters(g, img, dir).value.clusters;
    WriteDataChain(g, img, dir, data);
  }

  /** After a successful rm(f) the directory then current no longer lists
      f, provided its chain ends at an end-of-chain mark inside the image. */
  lemma RmUnlists(g: Geometry, p: Place, writable: bool, f: MyFile, depth: Fuel, r: Place)
    requires g.Valid() && RmOn(g, p, writable, f, depth) == Ok(r) && 1 < r.current.start < EOC
    requires GetClusters(g, r.img, r.current.start).Ok?
    requires ClustersInImage(g, r.img, GetClusters(g, r.img, r.current.start).value.clusters)
    ensures ListDir(g, r.img, r.current).Ok? ==>
              forall e :: e in ListDir(g, r.img, r.current).value ==> !(f.first <= e.first < f.first + f.count)
  {
    var tail := if f.kind == File then p else RmInside(g, p, writable, f, depth).value;
    assert RmTail(g, tail, f) == Ok(r);
    var cleared := ZeroFrom(g, tail.img, f.start).value;
    DelDirRecordOnUnlists(g, cleared, tail.current.start, f.first, f.count, r.img, r.current);
  }

  lemma FreedTrans(g: Geometry, a: seq<byte>, b: seq<byte>, c: seq<byte>)
    requires OnlyFreed(g, a, b) && OnlyFreed(g, b, c)
    ensures OnlyFreed(g, a, c)
  {
    forall m ensures FatEntry(g, c, m) == FatEntry(g, a, m) || FatEntry(g, c, m) == Ok(0) {
      assert FatEntry(g, b, m) == FatEntry(g, a, m) || FatEntry(g, b, m) == Ok(0);
    }
  }


  // ---------------------------------------------------------------------
  // What cf and md leave in the directory

  /** make_new_records in the directory at cluster dir, with room at record
      p for all of the entry's records, whose chain then lies in the image:
      cd there lists the entry with its name, start, kind, size, time and
      date. */
  lemma NewRecordsListed(g: Geometry, img: seq<byte>, dir: nat, count: nat, dn: Name, kind: Kind, start: nat,
                         size: nat, c: Clock, after: seq<byte>, d: seq<byte>, p: nat)
    requires g.Valid() && c.Valid() && 1 < dir < EOC
    requires MakeNewRecordsOn(g, img, dir, count, dn, kind, start, size, c) == Ok(after)
    requires GetData(g, img, dir) == Ok(d) && Room(d, p, Chunks(2 * |dn|) + 1)
    requires Storable(dn) && start < 0x1_0000_0000 && size < 0x1_0000_0000
    requires GetClusters(g, after, dir).Ok? && ClustersInImage(g, after, GetClusters(g, after, dir).value.clusters)
    ensures GetData(g, after, dir).Ok?
    ensures var listed := Listing(GetData(g, after, dir).value);
            listed.Ok? ==> NewEntry(dn, kind, start, size, c, p) in listed.value
  {
    var e := NewRecords(dn, kind, start, size, count, c).value;
    NewEntryListed(d, p, dn, kind, start, size, count, c, e);
    var placed := AddEntry(d, e).value.0;
    assert WriteData(g, img, dir, placed) == Ok(after);
    WrittenBack(g, img, dir, d, placed, after);
  }

  /** After cf(fn, start, size), given room for the entry's records at
      record p of the current directory and its chain in the image, cd
      lists the new file. */
  lemma CfListed(g: Geometry, img: seq<byte>, writable: bool, cur: MyFile, files: seq<MyFile>, fn: Name, start: nat,
                 size: nat, c: Clock, after: seq<byte>, d: seq<byte>, p: nat)
    requires g.Valid() && c.Valid() && CfOn(g, img, writable, cur, files, fn, start, size, c) == Ok(after)
    requires 1 < cur.start < EOC && GetData(g, img, cur.start) == Ok(d) && Room(d, p, Chunks(2 * |fn|) + 1)
    requires Storable(fn) && start < 0x1_0000_0000 && size < 0x1_0000_0000
    requires GetClusters(g, after, cur.start).Ok?
    requires ClustersInImage(g, after, GetClusters(g, after, cur.start).value.clusters)
    ensures ListDir(g, after, cur).Ok? ==> NewEntry(fn, File, start, size, c, p) in ListDir(g, after, cur).value
  {
    NewRecordsListed(g, img, cur.start, |files|, fn, File, start, size, c, after, d, p);
  }

  /** write_data along one chain leaves what get_data reads along a chain
      sharing none of its clusters. */
  lemma WriteElsewhere(g: Geometry, img: seq<byte>, n: nat, data: seq<byte>, after: seq<byte>, dir: nat)
    requires g.Valid() && WriteData(g, img, n, data) == Ok(after)
    requires GetClusters(g, img, n).Ok? && ClustersInImage(g, img, GetClusters(g, img, n).value.clusters)
    requires GetClusters(g, img, dir).Ok? && ClustersInImage(g, img, GetClusters(g, img, dir).value.clusters)
    requires forall x :: x in GetClusters(g, img, dir).value.clusters ==> x !in GetClusters(g, img, n).value.clusters
    ensures GetData(g, after, dir) == GetData(g, img, dir)
  {
    var cl1 := GetClusters(g, img, n).value.clusters;
    var cl2 := GetClusters(g, img, dir).value.clusters;
    forall m ensures FatEntry(g, after, m) == FatEntry(g, img, m) {
      WriteFromFat(g, img, n, data, {}, m);
    }
    WalkSame(g, after, img, dir, []);
    WriteDataChain(g, img, n, data);
    if after != img {
      assert after == WriteChunks(g, img, cl1, data);
      forall j, k | 0 <= j < |cl2| && ClusterAt(g, cl2[j]) <= k < ClusterAt(g, cl2[j]) + g.lenClus
        ensures after[k] == img[k]
      {
        ApartFromChain(g, cl1, cl2[j], k);
        WriteChunksOutside(g, img, cl1, data, k);
      }
    }
    ReadClustersSame(g, after, img, cl2);
  }

  /** A byte of a cluster not in cl lies outside all of cl's clusters. */
  lemma ApartFromChain(g: Geometry, cl: seq<nat>, x: nat, k: nat)
    requires x >= 2 && x !in cl && (forall j :: 0 <= j < |cl| ==> cl[j] >= 2)
    requires ClusterAt(g, x) <= k < ClusterAt(g, x) + g.lenClus
    ensures OutsideAll(g, cl, k)
  {
    forall j | 0 <= j < |cl| ensures k < ClusterAt(g, cl[j]) || ClusterAt(g, cl[j]) + g.lenClus <= k {
      if cl[j] < x { ClustersApart(g, cl[j], x); } else { ClustersApart(g, x, cl[j]); }
    }
  }

  /** After md(dn), given room for the entry's records at record p of the
      current directory (as it reads once the new cluster is taken), the
      current directory's chain in the image and the new cluster not on
      it, cd lists the new directory. */
  lemma MdListed(g: Geometry, img: seq<byte>, writable: bool, check: bool, cur: MyFile, files: seq<MyFile>, dn: Name,
                 c: Clock, start: nat, after: seq<byte>, taken: seq<byte>, d: seq<byte>, p: nat)
    requires g.Valid() && c.Valid() && MdOn(g, img, writable, check, cur, files, dn, c) == Ok((start, after))
    requires AddCluster(g, img, 0) == Ok((start, taken))
    requires 1 < cur.start < EOC && GetData(g, taken, cur.start) == Ok(d) && Room(d, p, Chunks(2 * |dn|) + 1)
    requires Storable(dn)
    requires GetClusters(g, after, cur.start).Ok?
    requires ClustersInImage(g, after, GetClusters(g, after, cur.start).value.clusters)
    requires GetClusters(g, after, start).Ok? && ClustersInImage(g, after, GetClusters(g, after, start).value.clusters)
    requires forall x :: x in GetClusters(g, after, cur.start).value.clusters ==> x !in GetClusters(g, after, start).value.clusters
    ensures ListDir(g, after, cur).Ok? ==> NewEntry(dn, Dir, start, 0, c, p) in ListDir(g, after, cur).value
  {
    AddClusterFacts(g, img, 0);
    var taken', added, d0 := MdSteps(g, img, writable, check, cur, files, dn, c, start, after);
    var header := DirHeader(start, cur.start, |files|, c) + Drop(d0, 64);
    SameChains(g, added, start, header, after, cur.start);
    SameChains(g, added, start, header, after, start);
    WriteElsewhere(g, added, start, header, after, cur.start);
    NewRecordsListed(g, taken, cur.start, |files|, dn, Dir, start, 0, c, added, d, p);
  }

  /** write_data changes no chain; one that lies in the image after it did before. */
  lemma SameChains(g: Geometry, img: seq<byte>, n: nat, data: seq<byte>, after: seq<byte>, m: nat)
    requires g.Valid() && WriteData(g, img, n, data) == Ok(after)
    ensures GetClusters(g, after, m) == GetClusters(g, img, m)
    ensures GetClusters(g, img, m).Ok? ==>
              (ClustersInImage(g, after, GetClusters(g, img, m).value.clusters) <==>
               ClustersInImage(g, img, GetClusters(g, img, m).value.clusters))
  {
    forall k ensures FatEntry(g, after, k) == FatEntry(g, img, k) {
      WriteFromFat(g, img, n, data, {}, k);
    }
    WalkSame(g, after, img, m, []);
  }

  /** After md(dn), when a cluster holds at least two records and the new
      chain lies in the image, the new cluster begins with the "." record
      for its own start and the ".." record for the start of the directory
      md ran in. */
  lemma MdHeader(g: Geometry, img: seq<byte>, writable: bool, check: bool, cur: MyFile, files: seq<MyFile>, dn: Name,
                 c: Clock, start: nat, after: seq<byte>)
    requires g.Valid() && c.Valid() && MdOn(g, img, writable, check, cur, files, dn, c) == Ok((start, after))
    requires 64 <= g.lenClus && start < EOC
    requires GetClusters(g, after, start).Ok? && ClustersInImage(g, after, GetClusters(g, after, start).value.clusters)
    ensures GetData(g, after, start).Ok? && |GetData(g, after, start).value| >= 64
    ensures GetData(g, after, start).value[..64] == DirHeader(start, cur.start, |files|, c)
  {
    var taken, added, d0 := MdSteps(g, img, writable, check, cur, files, dn, c, start, after);
    var header := DirHeader(start, cur.start, |files|, c) + Drop(d0, 64);
    AddClusterFacts(g, img, 0);
    var cl := SameChainAfterWrite(g, added, start, header);
    assert cl != [] by {
      WriteDataChain(g, added, start, header);
    }
    ReadClustersLength(g, added, cl);
    MulIsProduct(|cl|, g.lenClus);
    MulAtLeast(g.lenClus, |cl|);
    assert |header| == |d0|;
    WrittenBack(g, added, start, d0, header, after);
  }

  /** The header md writes reads back as "." naming the new directory's
      start and ".." naming its parent's, both directories. */
  lemma DirHeaderInfo(start: nat, parent: nat, count: nat, c: Clock)
    requires c.Valid() && start < 0x1_0000_0000 && parent < 0x1_0000_0000
    ensures var h := DirHeader(start, parent, count, c);
            GetInfo(h[..32]).Ok? && GetInfo(h[32..64]).Ok?
            && GetInfo(h[..32]).value.name == Latin1([DOT]) && GetInfo(h[..32]).value.start == start
            && GetInfo(h[..32]).value.kind == Dir
            && GetInfo(h[32..64]).value.name == Latin1([DOT, DOT]) && GetInfo(h[32..64]).value.start == parent
            && GetInfo(h[32..64]).value.kind == Dir
  {
    var one := MakeDosRecord([DOT], Dir, start, 0, count, c);
    var two := MakeDosRecord([DOT, DOT], Dir, parent, 0, count, c);
    var h := DirHeader(start, parent, count, c);
    assert h[..32] == one && h[32..64] == two;
    assert IsDotName([DOT]) && IsDotName([DOT, DOT]);
    DosRecordInfo([DOT], Dir, start, 0, count, c);
    DosRecordName([DOT], Dir, start, 0, count, c);
    DosRecordInfo([DOT, DOT], Dir, parent, 0, count, c);
    DosRecordName([DOT, DOT], Dir, parent, 0, count, c);
  }

  /** The steps of a successful md, each by name. */
  lemma MdSteps(g: Geometry, img: seq<byte>, writable: bool, check: bool, cur: MyFile, files: seq<MyFile>, dn: Name,
                c: Clock, start: nat, after: seq<byte>) returns (taken: seq<byte>, added: seq<byte>, d0: seq<byte>)
    requires g.Valid() && c.Valid() && MdOn(g, img, writable, check, cur, files, dn, c) == Ok((start, after))
    ensures writable && AddCluster(g, img, 0) == Ok((start, taken))
    ensures MakeNewRecordsOn(g, taken, cur.start, |files|, dn, Dir, start, 0, c) == Ok(added)
    ensures GetData(g, added, start) == Ok(d0)
    ensures WriteData(g, added, start, DirHeader(start, cur.start, |files|, c) + Drop(d0, 64)) == Ok(after)
  {
    taken := AddCluster(g, img, 0).value.1;
    assert MdInto(g, taken, cur, files, dn, c, start) == Ok(after);
    added, d0 := MdIntoSteps(g, taken, cur, files, dn, c, start, after);
  }

  lemma MdIntoSteps(g: Geometry, taken: seq<byte>, cur: MyFile, files: seq<MyFile>, dn: Name, c: Clock, start: nat,
                    after: seq<byte>) returns (added: seq<byte>, d0: seq<byte>)
    requires g.Valid() && c.Valid() && MdInto(g, taken, cur, files, dn, c, start) == Ok(after)
    ensures MakeNewRecordsOn(g, taken, cur.start, |files|, dn, Dir, start, 0, c) == Ok(added)
    ensures GetData(g, added, start) == Ok(d0)
    ensures WriteData(g, added, start, DirHeader(start, cur.start, |files|, c) + Drop(d0, 64)) == Ok(after)
  {
    added := MakeNewRecordsOn(g, taken, cur.start, |files|, dn, Dir, start, 0, c).value;
    d0 := GetData(g, added, start).value;
  }

  // ---------------------------------------------------------------------
  // The checker (fschk, check_crosses)

  /** What the checker's walk carries: the current directory and its
      listing (cd changes both), the clusters visited and the errors
      found. */
  datatype Scan = Scan(current: MyFile, files: seq<MyFile>, visited: seq<nat>, errors: seq<Anomaly>)

  /** cd(f) on the walk's state. */
  function CdScan(g: Geometry, img: seq<byte>, s: Scan, f: MyFile): (r: Result<Scan>)
    ensures r.Ok? ==> r.value.visited == s.visited && r.value.errors == s.errors
  {
    if f.kind != Dir then Fail(NotADirectory(f.name))
    else
      var l :- ListDir(g, img, CdTarget(f));
      Ok(s.(current := CdTarget(f), files := l))
  }

  /** The inner loop of check_crosses over a chain: a cluster already
      visited is reported crossed, and every cluster is appended to
      visited. */
  function Visit(visited: seq<nat>, errors: seq<Anomaly>, cl: seq<nat>): (r: (seq<nat>, seq<Anomaly>))
    decreases |cl|
  {
    if cl == [] then (visited, errors)
    else Visit(visited + [cl[0]], errors + (if cl[0] in visited then [Crossed(cl[0])] else []), cl[1..])
  }

  /** One step of the loop over a chain. */
  lemma VisitStep(visited: seq<nat>, errors: seq<Anomaly>, cl: seq<nat>, i: nat)
    requires i < |cl|
    ensures Visit(visited, errors, cl[i..])
            == Visit(visited + [cl[i]], errors + (if cl[i] in visited then [Crossed(cl[i])] else []), cl[i + 1..])
  {
    assert cl[i..][1..] == cl[i + 1..];
  }

  /** The loop over a chain appends the chain to visited and appends to
      the errors only crossings: Crossed(x) exactly for a cluster x of the
      chain met when it was already visited, before or earlier in the
      chain. */
  lemma {:induction false} VisitFacts(visited: seq<nat>, errors: seq<Anomaly>, cl: seq<nat>)
    ensures var r := Visit(visited, errors, cl);
            && r.0 == visited + cl
            && |errors| <= |r.1| && r.1[..|errors|] == errors
            && (forall a :: a in r.1[|errors|..] ==> a.Crossed?)
            && (forall x :: Crossed(x) in r.1[|errors|..] <==> exists i :: 0 <= i < |cl| && cl[i] == x && x in visited + cl[..i])
    decreases |cl|
  {
    if cl != [] {
      var c := cl[0];
      var v1 := visited + [c];
      var e1 := errors + (if c in visited then [Crossed(c)] else []);
      VisitFacts(v1, e1, cl[1..]);
      var r := Visit(visited, errors, cl);
      assert r == Visit(v1, e1, cl[1..]);
      assert v1 + cl[1..] == visited + cl;
      assert r.1[..|e1|] == e1;
      assert r.1[|errors|..] == e1[|errors|..] + r.1[|e1|..];
      forall x ensures Crossed(x) in r.1[|errors|..] <==> exists i :: 0 <= i < |cl| && cl[i] == x && x in visited + cl[..i] {
        if Crossed(x) in r.1[|e1|..] {
          var i :| 0 <= i < |cl[1..]| && cl[1..][i] == x && x in v1 + cl[1..][..i];
          assert cl[i + 1] == x && visited + cl[..i + 1] == v1 + cl[1..][..i];
        }
        if exists i :: 0 <= i < |cl| && cl[i] == x && x in visited + cl[..i] {
          var i :| 0 <= i < |cl| && cl[i] == x && x in visited + cl[..i];
          if i == 0 {
            assert cl[..0] == [] && visited + cl[..0] == visited;
          } else {
            assert cl[1..][i - 1] == x && v1 + cl[1..][..i - 1] == visited + cl[..i];
          }
        }
      }
    }
  }

  /** The crossing get_clusters appends to the errors it is given. */
  function CrossedOf(ch: Chain): (r: seq<Anomaly>)
    ensures |r| <= 1
  {
    if ch.crossed.Some? then [Crossed(ch.crossed.value)] else []
  }

  /** The size check of check_crosses for entry f at path with a chain of
      k clusters. */
  function SizeCheck(g: Geometry, f: MyFile, path: seq<Name>, k: nat): seq<Anomaly> {
    var size := Mul(k, g.lenClus);
    if f.kind == Dir then (if f.size != 0 then [NonZeroDirSize(path)] else [])
    else if size - g.lenClus <= f.size <= size then []
    else [BrokenFileSize(path)]
  }

  /** The size check reports a directory exactly when its recorded size
      is not 0, and a file exactly when its size is not within one cluster
      below the k clusters of its chain. */
  lemma SizeCheckFacts(g: Geometry, f: MyFile, path: seq<Name>, k: nat)
    ensures var r := SizeCheck(g, f, path, k);
            && |r| <= 1
            && (NonZeroDirSize(path) in r <==> f.kind == Dir && f.size != 0)
            && (BrokenFileSize(path) in r <==> f.kind == File && !((k - 1) * g.lenClus <= f.size <= k * g.lenClus))
  {
    MulIsProduct(k, g.lenClus);
    assert (k - 1) * g.lenClus == k * g.lenClus - g.lenClus;
  }

  /** The bookkeeping of check_crosses for entry f with chain ch, before
      it enters a directory. */
  function Checked(g: Geometry, s: Scan, f: MyFile, path: seq<Name>, ch: Chain): Scan {
    var (visited, errors) := Visit(s.visited, s.errors + CrossedOf(ch), ch.clusters);
    s.(visited := visited, errors := errors + SizeCheck(g, f, path, |ch.clusters|))
  }

  const DotName: Name := [0x2E]
  const DotDotName: Name := [0x2E, 0x2E]
  const SlashName: Name := [0x2F]

  /** path.join(dir, n) on paths kept as their names: a name "/" is an
      absolute path, and joining it gives the root "/" again. */
  function JoinPath(dir: seq<Name>, n: Name): (r: seq<Name>)
    ensures r == [] <==> n == SlashName
    ensures n != SlashName ==> |r| == |dir| + 1 && r[..|dir|] == dir && r[|dir|] == n
  {
    if n == SlashName then [] else dir + [n]
  }

  /** check_crosses(visited, dir, errors) on the listing in s: below the
      root a listing must open with "." and "..", which are then skipped.
      The path [] is the root "/", which a subdirectory named "/" joins to
      as well (JoinPath). */
  function CrossDir(g: Geometry, img: seq<byte>, s: Scan, dir: seq<Name>, depth: Fuel): (r: Result<Scan>)
    decreases depth, 2, 0
  {
    var wrong := |s.files| < 2 || s.files[0].name != DotName || s.files[1].name != DotDotName;
    if dir == [] then CrossFiles(g, img, s, s.files, 0, dir, depth)
    else
      var s1 := if wrong then s.(errors := s.errors + [WrongDirStruct(dir)]) else s;
      CrossFiles(g, img, s1, Drop(s.files, 2), 0, dir, depth)
  }

  /** The loop of check_crosses from entry j of files. */
  function CrossFiles(g: Geometry, img: seq<byte>, s: Scan, files: seq<MyFile>, j: nat, dir: seq<Name>, depth: Fuel)
    : (r: Result<Scan>)
    decreases depth, 1, |files| - j
  {
    if j >= |files| then Ok(s)
    else
      var s1 :- CrossEntry(g, img, s, files[j], dir, depth);
      CrossFiles(g, img, s1, files, j + 1, dir, depth)
  }

  /** One step of check_crosses's loop. */
  lemma CrossFilesStep(g: Geometry, img: seq<byte>, s: Scan, files: seq<MyFile>, j: nat, dir: seq<Name>, depth: Fuel,
                       e: Result<Scan>)
    requires j < |files| && e == CrossEntry(g, img, s, files[j], dir, depth)
    ensures CrossFiles(g, img, s, files, j, dir, depth)
            == if e.Fail? then Fail(e.error) else CrossFiles(g, img, e.value, files, j + 1, dir, depth)
  {
  }

  /** One pass of check_crosses's loop, for entry f of directory dir: the
      chain is walked and checked, and a directory is descended into. */
  function CrossEntry(g: Geometry, img: seq<byte>, s: Scan, f: MyFile, dir: seq<Name>, depth: Fuel): (r: Result<Scan>)
    decreases depth, 0, 1
  {
    var path := JoinPath(dir, f.name);
    var ch :- GetClusters(g, img, f.start);
    var s1 := Checked(g, s, f, path, ch);
    if f.kind == File then Ok(s1) else Descend(g, img, s1, f, path, depth)
  }

  /** A directory f at path is entered and checked in turn. */
  function Descend(g: Geometry, img: seq<byte>, s: Scan, f: MyFile, path: seq<Name>, depth: Fuel): (r: Result<Scan>)
    decreases depth, 0, 0
  {
    match depth
    case Spent => Fail(TooDeep)
    case Left(rest) =>
      var s2 :- CdScan(g, img, s, f);
      CheckAndLeave(g, img, s2, path, rest)
  }

  /** What cd(f) leaves behind, as the walk's state. */
  lemma CdScanOf(g: Geometry, img: seq<byte>, s: Scan, f: MyFile, r: Outcome, cur: MyFile, files: seq<MyFile>)
    requires f.kind == File ==> r == Failed(NotADirectory(f.name))
    requires f.kind == Dir ==>
               var l := ListDir(g, img, CdTarget(f));
               cur == CdTarget(f) && (r.Done? <==> l.Ok?) && (l.Ok? ==> files == l.value)
               && (l.Fail? ==> r == Failed(l.error))
    ensures r.Failed? ==> CdScan(g, img, s, f) == Fail(r.error)
    ensures r.Done? ==> CdScan(g, img, s, f) == Ok(Scan(cur, files, s.visited, s.errors))
  {
  }

  /** The entered directory at path is checked, then left through the
      ".." of the listing then current. */
  function CheckAndLeave(g: Geometry, img: seq<byte>, s: Scan, path: seq<Name>, depth: Fuel): (r: Result<Scan>)
    decreases depth, 3, 0
  {
    var s3 :- CrossDir(g, img, s, path, depth);
    if |s3.files| < 2 then Fail(IndexError)
    else CdScan(g, img, s3, s3.files[1])
  }

  /** The last loop of fschk from entry i: every entry that is non-zero
      and was not visited is reported lost. */
  function LostFrom(g: Geometry, img: seq<byte>, visited: seq<nat>, i: nat): (r: Result<seq<Anomaly>>)
    decreases g.Entries() - i
  {
    if i >= g.Entries() then Ok([])
    else
      var v :- FatEntry(g, img, i);
      var rest :- LostFrom(g, img, visited, i + 1);
      Ok((if v != 0 && i !in visited then [Lost(i)] else []) + rest)
  }

  /** The last loop of fschk succeeds exactly when every entry from i lies
      in the image; it then reports only lost clusters, Lost(k) exactly for
      each entry k from i that is non-zero and not visited. */
  lemma {:induction false} LostFromFacts(g: Geometry, img: seq<byte>, visited: seq<nat>, i: nat)
    ensures var r := LostFrom(g, img, visited, i);
            && (r.Ok? <==> forall k :: i <= k < g.Entries() ==> EntryInImage(g, img, k))
            && (r.Fail? ==> r.error == IndexError)
            && (r.Ok? ==> (forall a :: a in r.value ==> a.Lost?)
                          && forall k: nat :: Lost(k) in r.value <==>
                               i <= k < g.Entries() && FatEntry(g, img, k) != Ok(0) && k !in visited)
    decreases g.Entries() - i
  {
    if i < g.Entries() {
      LostFromFacts(g, img, visited, i + 1);
      if FatEntry(g, img, i).Ok? {
        var r := LostFrom(g, img, visited, i);
        var rest := LostFrom(g, img, visited, i + 1);
        if rest.Ok? {
          var v := FatEntry(g, img, i).value;
          var here: seq<Anomaly> := if v != 0 && i !in visited then [Lost(i)] else [];
          assert r.value == here + rest.value;
        }
      } else {
        assert !EntryInImage(g, img, i);
      }
    }
  }

  /** fschk: the root chain plus 0 and 1 start visited (a crossing on the
      root chain goes to a list fschk then drops), check_crosses runs on
      the current listing with the shared default list as its errors, and
      the lost clusters are appended to that same list. */
  function FschkOn(g: Geometry, img: seq<byte>, cur: MyFile, files: seq<MyFile>, shared: seq<Anomaly>, depth: Fuel)
    : Result<Scan>
  {
    var root :- GetClusters(g, img, Root.start);
    var s :- CrossDir(g, img, Scan(cur, files, root.clusters + [0, 1], shared), [], depth);
    var lost :- LostFrom(g, img, s.visited, 0);
    Ok(s.(errors := s.errors + lost))
  }

  /** What fschk reports last: after the anomalies of check_crosses come
      the lost clusters, Lost(k) exactly for every non-zero entry k of the
      FAT that the walk did not visit. */
  lemma FschkLost(g: Geometry, img: seq<byte>, cur: MyFile, files: seq<MyFile>, shared: seq<Anomaly>, depth: Fuel,
                  s: Scan)
    requires FschkOn(g, img, cur, files, shared, depth) == Ok(s)
    ensures exists n :: 0 <= n <= |s.errors|
              && (forall a :: a in s.errors[n..] ==> a.Lost?)
              && forall k: nat :: Lost(k) in s.errors[n..] <==> k < g.Entries() && FatEntry(g, img, k) != Ok(0) && k !in s.visited
  {
    var root := GetClusters(g, img, Root.start).value;
    var w := CrossDir(g, img, Scan(cur, files, root.clusters + [0, 1], shared), [], depth).value;
    var lost := LostFrom(g, img, w.visited, 0).value;
    LostFromFacts(g, img, w.visited, 0);
    assert s.errors == w.errors + lost && s.visited == w.visited;
    var n := |w.errors|;
    assert s.errors[n..] == lost;
    assert (forall a :: a in s.errors[n..] ==> a.Lost?)
           && forall k: nat :: Lost(k) in s.errors[n..] <==> k < g.Entries() && FatEntry(g, img, k) != Ok(0) && k !in s.visited;
  }

  /** The lost clusters found before entry i, put in front of a result. */
  function Prefixed(found: seq<Anomaly>, r: Result<seq<Anomaly>>): (p: Result<seq<Anomaly>>)
    ensures p.Ok? <==> r.Ok?
    ensures found == [] ==> p == r
    ensures r == Ok([]) ==> p == Ok(found)
  {
    if r.Ok? then
      assert found == [] ==> found + r.value == r.value;
      assert r.value == [] ==> found + r.value == found;
      Ok(found + r.value)
    else r
  }

  /** One step of fschk's last loop. */
  lemma LostStep(g: Geometry, img: seq<byte>, visited: seq<nat>, i: nat, found: seq<Anomaly>)
    requires i < g.Entries() && FatEntry(g, img, i).Ok?
    ensures var v := FatEntry(g, img, i).value;
            Prefixed(found, LostFrom(g, img, visited, i))
            == Prefixed(found + (if v != 0 && i !in visited then [Lost(i)] else []), LostFrom(g, img, visited, i + 1))
  {
    var v := FatEntry(g, img, i).value;
    var here: seq<Anomaly> := if v != 0 && i !in visited then [Lost(i)] else [];
    if LostFrom(g, img, visited, i + 1).Ok? {
      assert found + (here + LostFrom(g, img, visited, i + 1).value) == (found + here) + LostFrom(g, img, visited, i + 1).value;
    }
  }
}
