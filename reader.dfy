/** reader.py's class Reader: an open image, its geometry, the current
    directory and its listing. The image is an array of bytes that the
    methods read and overwrite in place; each method is proved against the
    functions of modules Fat, Directory and Volume that state what it
    computes. */
module Engine {
  import opened Common
  import opened Codec
  import opened Fat
  import opened Directory
  import opened Volume

  class Reader {
    /** The image file; its length never changes (a write past its end fails). */
    const img: array<byte>
    /** The boot-sector bytes __init__ read the geometry from. */
    ghost const boot: seq<byte>
    const g: Geometry
    /** Opened for writing ('rb+') or only for reading ('rb'). */
    const writable: bool
    var current: MyFile
    var files: seq<MyFile>
    /** The list check_crosses uses as its default `errors`: Python creates
        it once, so it keeps what earlier calls appended. */
    var defaultErrors: seq<Anomaly>

    /** The geometry is what the boot sector held when the image was
        opened (later writes may change those bytes; the geometry stays). */
    ghost predicate Valid()
    {
      g.Valid() && ReadGeometry(boot) == Ok(g)
    }

    constructor Init(image: array<byte>, bootSector: seq<byte>, geometry: Geometry, canWrite: bool)
      requires ReadGeometry(bootSector) == Ok(geometry)
      ensures Valid() && img == image && boot == bootSector && g == geometry && writable == canWrite
      ensures current == Root && files == [] && defaultErrors == []
    {
      img := image;
      boot := bootSector;
      g := geometry;
      writable := canWrite;
      current := Root;
      files := [];
      defaultErrors := [];
    }

    /** Reader.__init__(fn): the geometry is read from the first 0x26 bytes
        (a short or zeroed boot sector fails), the root becomes current and
        cd(root) lists it; a root that does not list makes __init__ raise.
        canWrite says whether the image could be opened for writing. */
    static method Open(image: array<byte>, canWrite: bool) returns (r: Result<Reader>)
      ensures image[..] == old(image[..])
      ensures var geo := ReadGeometry(image[..Min(image.Length, 0x26)]);
              (geo.Fail? ==> r == Fail(geo.error))
              && (geo.Ok? ==>
                    var l := ListDir(geo.value, image[..], Root);
                    (r.Ok? <==> l.Ok?) && (l.Fail? ==> r == Fail(l.error))
                    && (r.Ok? ==> fresh(r.value) && r.value.Valid() && r.value.img == image && r.value.g == geo.value
                                  && r.value.writable == canWrite && r.value.current == Root
                                  && r.value.files == l.value && r.value.defaultErrors == []))
    {
      var bootSector := image[..Min(image.Length, 0x26)];
      var geo := ReadGeometry(bootSector);
      if geo.Fail? {
        return Fail(geo.error);
      }
      r := OpenWith(image, bootSector, geo.value, canWrite);
    }

    /** The rest of __init__ once the geometry is read: the root is listed. */
    static method OpenWith(image: array<byte>, bootSector: seq<byte>, geometry: Geometry, canWrite: bool)
      returns (r: Result<Reader>)
      requires ReadGeometry(bootSector) == Ok(geometry)
      ensures image[..] == old(image[..])
      ensures var l := ListDir(geometry, image[..], Root);
              (r.Ok? <==> l.Ok?) && (l.Fail? ==> r == Fail(l.error))
              && (r.Ok? ==> fresh(r.value) && r.value.Valid() && r.value.img == image && r.value.g == geometry
                            && r.value.writable == canWrite && r.value.current == Root
                            && r.value.files == l.value && r.value.defaultErrors == [])
    {
      var rd := new Reader.Init(image, bootSector, geometry, canWrite);
      var listed := rd.Cd(Root);
      if listed.Failed? {
        return Fail(listed.error);
      }
      r := Ok(rd);
    }

    // -------------------------------------------------------------------
    // Bytes, FAT entries and clusters

    /** seek(off) and write(bytes) inside the image. */
    method WriteBytes(off: nat, bytes: seq<byte>)
      requires off + |bytes| <= img.Length
      modifies img
      ensures img[..] == Splice(old(img[..]), off, bytes)
    {
      var j := 0;
      while j < |bytes|
        invariant 0 <= j <= |bytes|
        invariant forall p :: 0 <= p < img.Length ==> img[p] == if off <= p < off + j then bytes[p - off] else old(img[p])
      {
        img[off + j] := bytes[j];
        j := j + 1;
      }
    }

    /** seek(start_fat + 4n) and write(get_bytes(v)). */
    method SetEntry(n: nat, v: nat) returns (r: Outcome)
      requires v < 0x1_0000_0000
      modifies img
      ensures var s := SetFatEntry(g, old(img[..]), n, v);
              (r.Done? <==> s.Ok?) && (s.Ok? ==> img[..] == s.value) && (s.Fail? ==> r == Failed(s.error))
    {
      var off := g.startFat + 4 * n;
      if n >= g.Entries() {
        return Failed(OutsideFat);
      }
      if off + 4 > img.Length {
        return Failed(OutOfImage);
      }
      var bytes := ComputeBytes(v);
      WriteBytes(off, bytes);
      r := Done;
    }

    /** upwrite_data_by_cluster(n, data). */
    method UpwriteDataByCluster(n: nat, data: seq<byte>) returns (r: Outcome)
      requires Valid()
      modifies img
      ensures var w := WriteCluster(g, old(img[..]), n, data);
              (r.Done? <==> w.Ok?) && (w.Ok? ==> img[..] == w.value) && (w.Fail? ==> r == Failed(w.error))
    {
      if |data| > g.lenClus {
        return Failed(NameError);
      }
      if n < 2 {
        return Failed(BelowData);
      }
      if |data| == 0 {
        return Done;
      }
      var off := g.rootDir + Mul(n - 2, g.lenClus);
      if off + |data| > img.Length {
        return Failed(OutOfImage);
      }
      WriteBytes(off, data);
      r := Done;
    }

    /** get_clusters(n): the loop collecting the chain from n, with the
        crossing it reports. */
    method GetClusters(n: nat) returns (r: Result<Chain>)
      ensures r == Fat.GetClusters(g, img[..], n)
    {
      var result: seq<nat> := [];
      var m: nat := n;
      while 1 < m < EOC
        invariant Distinct(result) && InData(result) && m !in result
        invariant Walk(g, img[..], m, result) == Walk(g, img[..], n, [])
        decreases Unvisited(result)
      {
        var next :- FatEntry(g, img[..], m);
        var result' := result + [m];
        if next in result' {
          return Ok(Chain(result', Some(next)));
        }
        assert m in Unvisited(result) && m !in Unvisited(result');
        result, m := result', next;
      }
      r := Ok(Chain(result, None));
    }

    /** get_data(start): the bytes get_data_by_clusters yields for the
        chain, joined. */
    method GetData(start: nat) returns (r: Result<seq<byte>>)
      ensures r == Fat.GetData(g, img[..], start)
    {
      var ch :- GetClusters(start);
      ChainInData(g, img[..], start, ch);
      var data := ReadChain(ch.clusters);
      r := Ok(data);
    }

    /** The loop of get_data_by_clusters: one read(len_clus) per cluster. */
    method ReadChain(cl: seq<nat>) returns (data: seq<byte>)
      requires forall j :: 0 <= j < |cl| ==> cl[j] >= 2
      ensures data == ReadClusters(g, img[..], cl)
    {
      data := [];
      var i := 0;
      while i < |cl|
        invariant 0 <= i <= |cl|
        invariant data == ReadClusters(g, img[..], cl[..i])
      {
        ReadClustersPrefix(g, img[..], cl, i);
        data := data + ClusterBytes(g, img[..], cl[i]);
        i := i + 1;
      }
      assert cl[..i] == cl;
    }

    /** write_data(start, data): each cluster of the chain gets the next
        len_clus bytes of data; a cluster met again means Python's loop never
        returns, which the model reports as Diverges. */
    method WriteData(start: nat, data: seq<byte>) returns (r: Outcome)
      requires Valid()
      modifies img
      ensures var w := Fat.WriteData(g, old(img[..]), start, data);
              (r.Done? <==> w.Ok?) && (w.Ok? ==> img[..] == w.value) && (w.Fail? ==> r == Failed(w.error))
    {
      var n: nat := start;
      var rest := data;
      var visited: set<nat> := {};
      while n < EOC
        invariant WriteFrom(g, img[..], n, rest, visited) == Fat.WriteData(g, old(img[..]), start, data)
        decreases Remaining(visited)
      {
        if n in visited {
          return Failed(Diverges);
        }
        var piece := Take(rest, g.lenClus);
        var w := UpwriteDataByCluster(n, piece);
        if w.Failed? {
          return w;
        }
        var e := FatEntry(g, img[..], n);
        if e.Fail? {
          return Failed(e.error);
        }
        var next := e.value;
        assert n in Remaining(visited) && n !in Remaining(visited + {n});
        n, rest, visited := next, Drop(rest, g.lenClus), visited + {n};
      }
      r := Done;
    }

    /** add_cluster(end): the scan for the first entry holding 0, which is
        then taken, linked from end when end is non-zero, and zero-filled. */
    method AddCluster(end: nat) returns (r: Result<nat>)
      requires Valid()
      modifies img
      ensures var a := Fat.AddCluster(g, old(img[..]), end);
              (r.Ok? <==> a.Ok?) && (a.Ok? ==> r.value == a.value.0 && img[..] == a.value.1)
              && (a.Fail? ==> r == Fail(a.error))
    {
      var n: nat := 0;
      while n < g.Entries()
        invariant FirstFree(g, img[..], n) == FirstFree(g, img[..], 0)
        invariant img[..] == old(img[..])
        decreases g.Entries() - n
      {
        var v :- FatEntry(g, img[..], n);
        if v == 0 {
          if end != 0 {
            var l := SetEntry(end, n);
            if l.Failed? {
              return Fail(l.error);
            }
          }
          // entry n was just read, so this write stays inside the image
          var _ := SetEntry(n, 0xFFFF_FFFF);
          var z := UpwriteDataByCluster(n, Zeros(g.lenClus));
          if z.Failed? {
            return Fail(z.error);
          }
          return Ok(n);
        }
        n := n + 1;
      }
      r := Fail(FreeSpace);
    }

    /** The loop of rm over a chain: read entry n, clear it, go on at the
        value read, until an end-of-chain mark or 0. */
    method ZeroChain(start: nat) returns (r: Outcome)
      modifies img
      ensures var z := ZeroFrom(g, old(img[..]), start);
              (r.Done? <==> z.Ok?) && (z.Ok? ==> img[..] == z.value) && (z.Fail? ==> r == Failed(z.error))
    {
      var n: nat := start;
      while n < EOC && n != 0
        invariant ZeroFrom(g, img[..], n) == ZeroFrom(g, old(img[..]), start)
        decreases TakenSet(g, img[..])
      {
        var e := FatEntry(g, img[..], n);
        if e.Fail? {
          return Failed(e.error);
        }
        var v := e.value;
        ghost var before := img[..];
        var s := SetEntry(n, 0);
        if v == 0 {
          return Done;
        }
        TakenShrinks(g, before, n);
        n := v;
      }
      r := Done;
    }

    // -------------------------------------------------------------------
    // The current directory

    /** cd(f): a file is refused; start 0 stands for the root; the
        directory becomes current (before its data is read) and its listing becomes
        files. A failing get_data leaves files as they were; an entry that
        fails to parse leaves in files the entries before it. */
    method Cd(f: MyFile) returns (r: Outcome)
      modifies this
      ensures img[..] == old(img[..]) && defaultErrors == old(defaultErrors)
      ensures f.kind == File ==> r == Failed(NotADirectory(f.name)) && current == old(current) && files == old(files)
      ensures f.kind == Dir ==>
                var l := ListDir(g, img[..], CdTarget(f));
                current == CdTarget(f) && (r.Done? <==> l.Ok?) && (l.Ok? ==> files == l.value)
                && (l.Fail? ==> r == Failed(l.error) && files == CdLeft(g, img[..], CdTarget(f), old(files)))
    {
      if f.kind != Dir {
        return Failed(NotADirectory(f.name));
      }
      // Python calls cd(root) for start 0; root is a directory
      var t := CdTarget(f);
      current := t;
      var d := GetData(t.start);
      if d.Fail? {
        return Failed(d.error);
      }
      var l, found := ListRecords(d.value);
      files := found;
      r := if l.Ok? then Done else Failed(l.error);
    }

    /** The loop of cd over the records of a directory's bytes: found is
        the list built so far, which cd leaves in files also when a record
        fails to parse. */
    static method ListRecords(data: seq<byte>) returns (r: Result<seq<MyFile>>, found: seq<MyFile>)
      ensures r == Listing(data)
      ensures found == CdStop(data).found
      ensures r.Ok? ==> found == r.value
    {
      found := [];
      var i: nat, k: nat := 0, 0;
      while i < |data| / 32
        invariant Scanning(data, i, k, found)
        decreases |data| / 32 - i
      {
        var stop;
        stop, found, k := ScanRecord(data, i, k, found);
        if stop.Some? {
          return Fail(stop.value), found;
        }
        i := i + 1;
      }
      ScanEnd(data, i, k, found);
      r := Ok(found);
    }

    /** One turn of cd's loop at record i, k records still to pass over:
        it keeps the loop state, or it stops the loop with the error of an
        entry that fails to parse. */
    static method ScanRecord(data: seq<byte>, i: nat, k: nat, found: seq<MyFile>)
      returns (stop: Option<Error>, found': seq<MyFile>, k': nat)
      requires i < |data| / 32 && Scanning(data, i, k, found)
      ensures stop.None? ==> Scanning(data, i + 1, k', found')
      ensures stop.Some? ==> Listing(data) == Fail(stop.value) && CdStop(data).found == found'
    {
      RecordInside(|data|, i);
      if k > 0 {
        ScanCovered(data, i, k, found);
        return None, found, k - 1;
      } else if !Live(data, i) {
        ScanDead(data, i, found);
        return None, found, 0;
      }
      var e := ParseAt(data, i);
      if e.Fail? {
        ScanFail(data, i, found);
        return Some(e.error), found, 0;
      }
      ScanLive(data, i, found, e.value);
      return None, found + [e.value], e.value.count - 1;
    }

    /** The first part of cd's loop at a live record i: the records
        carrying attribute 0x0F are counted and their name bytes gathered,
        each one's in front of the earlier ones'. */
    static method LongRecords(data: seq<byte>, i: nat) returns (m: Result<nat>, name: seq<byte>)
      ensures m == LfnCount(data, i)
      ensures m.Ok? ==> name == LongName(data, i, m.value)
    {
      var k := 0;
      name := [];
      var block := Record(data, i);
      while true
        invariant block == Record(data, i + k)
        invariant NameSoFar(data, i, k, name)
        invariant LfnRun(data, i, k)
        decreases |data| - 32 * (i + k)
      {
        if |block| <= 0x0b {
          LfnCountShort(data, i, k);
          return Fail(IndexError), name;
        }
        if block[0x0b] != LFN_ATTR {
          LfnRunEnd(data, i, k, block);
          return Ok(k), name;
        }
        LfnRunNext(data, i, k, block);
        LongNameNext(data, i, k, block, name);
        name := ParseRecord(block) + name;
        k := k + 1;
        block := Record(data, i + k);
      }
    }

    /** The rest of cd's loop at a live record i: the gathered name is
        decoded and the short record after the run read by get_info. */
    static method ParseAt(data: seq<byte>, i: nat) returns (r: Result<MyFile>)
      ensures r == ParseEntry(data, i)
      ensures r.Ok? ==> r.value.first == i && r.value.count >= 1
    {
      var m, name := LongRecords(data, i);
      if m.Fail? {
        return Fail(m.error);
      }
      var k := m.value;
      ParseEntryAt(data, i, k);
      EntryAtCases(data, i, k);
      var long := Decode16(name);
      if long.Fail? {
        return Fail(long.error);
      }
      var info := GetInfo(Record(data, i + k));
      if info.Fail? {
        return Fail(info.error);
      }
      EntryAtIs(data, i, k, long.value, info.value);
      var n := long.value;
      r := Ok(MyFile(if |n| == 0 then info.value.name else n, info.value.start, info.value.kind, info.value.time,
                     info.value.date, info.value.size, i, k + 1));
    }

    /** check_double(fn): the scan of the listing for an entry called fn. */
    method CheckDouble(fn: Name) returns (r: Outcome)
      ensures r == Directory.CheckDouble(files, fn)
    {
      var j := 0;
      while j < |files|
        invariant 0 <= j <= |files|
        invariant CheckDoubleFrom(files, fn, j) == Directory.CheckDouble(files, fn)
      {
        if files[j].name == fn {
          return Failed(FileExists(fn));
        }
        j := j + 1;
      }
      r := Done;
    }

    // -------------------------------------------------------------------
    // Rewriting the current directory

    /** add_entry(data): data's records go into the free slots of the
        current directory, which is written back; the records left over
        are returned. */
    method AddEntry(data: seq<byte>) returns (r: Result<seq<byte>>)
      requires Valid()
      modifies img
      ensures var a := AddEntryOn(g, old(img[..]), current.start, data);
              (r.Ok? <==> a.Ok?) && (a.Ok? ==> r.value == a.value.1 && img[..] == a.value.0)
              && (a.Fail? ==> r == Fail(a.error))
    {
      var d := GetData(current.start);
      if d.Fail? {
        return Fail(d.error);
      }
      var placed := FillSlots(d.value, data);
      if placed.Fail? {
        return Fail(placed.error);
      }
      var w := WriteData(current.start, placed.value.0);
      if w.Failed? {
        return Fail(w.error);
      }
      r := Ok(placed.value.1);
    }

    /** The loop of add_entry over the records of the directory's bytes
        d: each record starting with 0x00 takes the next 32 bytes of data;
        the loop stops once data is used up. */
    static method FillSlots(d: seq<byte>, data: seq<byte>) returns (r: Result<(seq<byte>, seq<byte>)>)
      ensures r == Directory.AddEntry(d, data)
    {
      var buf, rest := d, data;
      var n := |d| / 32;
      var i: nat := 0;
      while i < n
        invariant FillFrom(buf, rest, i, n) == Directory.AddEntry(d, data)
        decreases n - i
      {
        if |buf| <= 32 * i {
          return Fail(IndexError);
        }
        if buf[32 * i] == FREE {
          buf := Take(buf, 32 * i) + Take(rest, 32) + Drop(buf, 32 * (i + 1));
          rest := Drop(rest, 32);
          if rest == [] {
            return Ok((buf, rest));
          }
        } else if rest == [] {
          return Ok((buf, rest));
        }
        i := i + 1;
      }
      r := Ok((buf, rest));
    }

    /** clear_dir: the current directory's live records are moved to the
        front and it is written back. */
    method ClearDir() returns (r: Outcome)
      requires Valid()
      modifies img
      ensures var w := ClearDirOn(g, old(img[..]), current.start);
              (r.Done? <==> w.Ok?) && (w.Ok? ==> img[..] == w.value) && (w.Fail? ==> r == Failed(w.error))
    {
      var d := GetData(current.start);
      if d.Fail? {
        return Failed(d.error);
      }
      var c := Compact(d.value);
      r := WriteData(current.start, c);
    }

    /** The loop of clear_dir: at step i, record i - k of the buffer (k
        records dropped so far) is cut out when it starts with 0x00 or
        0xE5, and 32 zeros are appended. */
    static method Compact(d: seq<byte>) returns (buf: seq<byte>)
      ensures buf == Compacted(d)
    {
      buf := d;
      var k: nat := 0;
      for i := 0 to |d| / 32
        invariant buf == Sweep(d, i) && k == Dead(d, i)
      {
        var j := i - k;
        KeptStep(d, i);
        SweepAt(d, i);
        if buf[32 * j] == DELETED || buf[32 * j] == FREE {
          k := k + 1;
          buf := buf[..32 * j] + buf[32 * j + 32..] + Zeros(32);
        }
      }
      SweepGathers(d, |d| / 32);
    }

    /** del_dir_record(start, length): byte 0 of records start ..
        start + length - 1 of the current directory becomes 0xE5. */
    method DelDirRecord(start: nat, length: nat) returns (r: Outcome)
      requires Valid()
      modifies img
      ensures var w := DelDirRecordOn(g, old(img[..]), current.start, start, length);
              (r.Done? <==> w.Ok?) && (w.Ok? ==> img[..] == w.value) && (w.Fail? ==> r == Failed(w.error))
    {
      var d := GetData(current.start);
      if d.Fail? {
        return Failed(d.error);
      }
      var m := MarkDeleted(d.value, start, length);
      if m.Fail? {
        return Failed(m.error);
      }
      r := WriteData(current.start, m.value);
    }

    /** The loop of del_dir_record over the byte list. */
    static method MarkDeleted(d: seq<byte>, start: nat, length: nat) returns (r: Result<seq<byte>>)
      ensures r == Directory.DelDirRecord(d, start, length)
    {
      var buf := d;
      for i := start to start + length
        invariant MarkFrom(buf, i, start + length) == Directory.DelDirRecord(d, start, length)
      {
        if |buf| <= 32 * i {
          return Fail(IndexError);
        }
        buf := buf[32 * i := DELETED];
      }
      r := Ok(buf);
    }

    // -------------------------------------------------------------------
    // New entries, md, cf and rm

    /** make_new_records(dn, kind, start, size): the short record (its
        short name the count of the listing), the checksum loop, the
        long-name records, then one add_entry; records left over reach the
        unbound `last`. The clock reading stands for get_date_time(). */
    method MakeNewRecords(dn: Name, kind: Kind, start: nat, size: nat, c: Clock) returns (r: Outcome)
      requires Valid() && c.Valid()
      modifies img
      ensures var w := MakeNewRecordsOn(g, old(img[..]), current.start, |files|, dn, kind, start, size, c);
              (r.Done? <==> w.Ok?) && (w.Ok? ==> img[..] == w.value) && (w.Fail? ==> r == Failed(w.error))
    {
      var dos := MakeDosRecord(ShortFor(dn), kind, start, size, |files|, c);
      var chk := Checksum(dos);
      var enc := Encode16(dn);
      if enc.Fail? {
        return Failed(enc.error);
      }
      var lfn := BuildLfnRecords(enc.value, chk);
      if lfn.Fail? {
        return Failed(lfn.error);
      }
      var rest := AddEntry(lfn.value + dos);
      if rest.Fail? {
        return Failed(rest.error);
      }
      r := if rest.value != [] then Failed(NameError) else Done;
    }

    /** md(dn, check). */
    method Md(dn: Name, check: bool, c: Clock) returns (r: Outcome)
      requires Valid() && c.Valid()
      modifies img
      ensures var w := MdOn(g, old(img[..]), writable, check, current, files, dn, c);
              (r.Done? <==> w.Ok?) && (w.Ok? ==> img[..] == w.value.1) && (w.Fail? ==> r == Failed(w.error))
    {
      if !writable {
        return Failed(PermissionDenied);
      }
      if check {
        var double := CheckDouble(dn);
        if double.Failed? {
          return double;
        }
      }
      var taken := AddCluster(0);
      if taken.Fail? {
        return Failed(taken.error);
      }
      var start, curStart := taken.value, current.start;
      var added := MakeNewRecords(dn, Dir, start, 0, c);
      if added.Failed? {
        return added;
      }
      var d := GetData(start);
      if d.Fail? {
        return Failed(d.error);
      }
      r := WriteData(start, DirHeader(start, curStart, |files|, c) + Drop(d.value, 64));
    }

    /** cf(fn, start, size). */
    method Cf(fn: Name, start: nat, size: nat, c: Clock) returns (r: Outcome)
      requires Valid() && c.Valid()
      modifies img
      ensures var w := CfOn(g, old(img[..]), writable, current, files, fn, start, size, c);
              (r.Done? <==> w.Ok?) && (w.Ok? ==> img[..] == w.value) && (w.Fail? ==> r == Failed(w.error))
    {
      if !writable {
        return Failed(PermissionDenied);
      }
      var double := CheckDouble(fn);
      if double.Failed? {
        return double;
      }
      r := MakeNewRecords(fn, File, start, size, c);
    }

    /** rm(f): for a directory, its entries are removed first; then f's
        chain is cleared and its records are marked deleted in the current
        directory. depth stands for Python's recursion limit. */
    method Rm(f: MyFile, depth: Fuel) returns (r: Outcome)
      requires Valid()
      modifies this, img
      ensures defaultErrors == old(defaultErrors)
      ensures var w := RmOn(g, Place(old(img[..]), old(current), old(files)), writable, f, depth);
              (r.Done? <==> w.Ok?) && (w.Fail? ==> r == Failed(w.error))
              && (w.Ok? ==> img[..] == w.value.img && current == w.value.current && files == w.value.files)
      ensures !writable ==> r == Failed(PermissionDenied) && img[..] == old(img[..])
      ensures writable && f.kind == Dir && depth.Spent? ==> r == Failed(TooDeep)
      ensures f.kind == File ==>
                var w := RmFileOn(g, old(img[..]), writable, old(current), f);
                (r.Done? <==> w.Ok?) && (w.Ok? ==> img[..] == w.value) && (w.Fail? ==> r == Failed(w.error))
                && current == old(current) && files == old(files)
      decreases depth, 1
    {
      if !writable {
        return Failed(PermissionDenied);
      }
      if f.kind == Dir {
        var emptied := RmInside(f, depth);
        if emptied.Failed? {
          return emptied;
        }
      }
      var z := ZeroChain(f.start);
      if z.Failed? {
        return z;
      }
      r := DelDirRecord(f.first, f.count);
    }

    /** The part of rm for a writable directory f before its own chain is
        cleared: cd(f), rm of each entry of the listing taken then, other
        than "", "." and "..", and cd(files[1]). */
    method RmInside(f: MyFile, depth: Fuel) returns (r: Outcome)
      requires Valid() && writable && f.kind == Dir
      modifies this, img
      ensures defaultErrors == old(defaultErrors)
      ensures var w := Volume.RmInside(g, Place(old(img[..]), old(current), old(files)), writable, f, depth);
              (r.Done? <==> w.Ok?) && (w.Fail? ==> r == Failed(w.error))
              && (w.Ok? ==> img[..] == w.value.img && current == w.value.current && files == w.value.files)
      decreases depth, 0
    {
      if depth.Spent? {
        return Failed(TooDeep);
      }
      var entered := Cd(f);
      if entered.Failed? {
        return entered;
      }
      var emptied := RmEach(files, depth.rest);
      if emptied.Failed? {
        return emptied;
      }
      if |files| < 2 {
        return Failed(IndexError);
      }
      r := Cd(files[1]);
    }

    /** The loop of rm over children, the listing taken when the directory
        was entered: rm of each entry other than "", "." and "..". */
    method RmEach(children: seq<MyFile>, depth: Fuel) returns (r: Outcome)
      requires Valid() && writable
      modifies this, img
      ensures defaultErrors == old(defaultErrors)
      ensures var w := RmChildren(g, Place(old(img[..]), old(current), old(files)), writable, children, 0, depth);
              (r.Done? <==> w.Ok?) && (w.Fail? ==> r == Failed(w.error))
              && (w.Ok? ==> img[..] == w.value.img && current == w.value.current && files == w.value.files)
      decreases depth, 2
    {
      ghost var whole := RmChildren(g, Place(img[..], current, files), writable, children, 0, depth);
      for j := 0 to |children|
        invariant defaultErrors == old(defaultErrors)
        invariant RmChildren(g, Place(img[..], current, files), writable, children, j, depth) == whole
      {
        if !DotUnits(children[j].name) {
          ghost var here := Place(img[..], current, files);
          var removed := Rm(children[j], depth);
          if removed.Failed? {
            assert RmOn(g, here, writable, children[j], depth).Fail?;
            return removed;
          }
        }
      }
      r := Done;
    }

    // -------------------------------------------------------------------
    // The checker

    /** fschk: the image is only read; the anomalies found (an empty list
        when AllFATErrors is not raised) are also what the shared default
        list of check_crosses holds afterwards. */
    method Fschk(depth: Fuel) returns (r: Result<seq<Anomaly>>)
      requires Valid()
      modifies this
      ensures img[..] == old(img[..])
      ensures var w := FschkOn(g, img[..], old(current), old(files), old(defaultErrors), depth);
              (r.Ok? <==> w.Ok?)
              && (w.Ok? ==> r.value == w.value.errors && defaultErrors == w.value.errors
                            && current == w.value.current && files == w.value.files)
              && (w.Fail? ==> r == Fail(w.error))
    {
      var root := GetClusters(Root.start);
      if root.Fail? {
        return Fail(root.error);
      }
      var checked := CheckCrosses(root.value.clusters + [0, 1], [], defaultErrors, depth, img[..]);
      if checked.Fail? {
        return Fail(checked.error);
      }
      var lost := LostClusters(checked.value.visited);
      if lost.Fail? {
        return Fail(lost.error);
      }
      defaultErrors := checked.value.errors + lost.value;
      r := Ok(defaultErrors);
    }

    /** The last loop of fschk: entries read in order, the non-zero ones
        not visited reported lost. */
    method LostClusters(visited: seq<nat>) returns (r: Result<seq<Anomaly>>)
      ensures r == LostFrom(g, img[..], visited, 0)
    {
      var lost: seq<Anomaly> := [];
      var i: nat := 0;
      while i < g.Entries()
        invariant i <= g.Entries()
        invariant LostFrom(g, img[..], visited, 0) == Prefixed(lost, LostFrom(g, img[..], visited, i))
        decreases g.Entries() - i
      {
        var v := FatEntry(g, img[..], i);
        if v.Fail? {
          return Fail(v.error);
        }
        LostStep(g, img[..], visited, i, lost);
        lost := lost + (if v.value != 0 && i !in visited then [Lost(i)] else []);
        i := i + 1;
      }
      r := Ok(lost);
    }

    /** check_crosses(visited, dir, errors) on the current listing; the
        result is the walk's state at the end, which is also in current
        and files. */
    method CheckCrosses(visited: seq<nat>, dir: seq<Name>, errors: seq<Anomaly>, depth: Fuel, ghost im: seq<byte>)
      returns (r: Result<Scan>)
      requires Valid()
      requires im == img[..]
      modifies this
      ensures img[..] == im
      ensures r == CrossDir(g, im, Scan(old(current), old(files), visited, errors), dir, depth)
      ensures r.Ok? ==> current == r.value.current && files == r.value.files
      decreases depth, 2, 0
    {
      var fs := files;
      var errs := errors;
      if dir != [] {
        if |fs| < 2 || fs[0].name != DotName || fs[1].name != DotDotName {
          errs := errs + [WrongDirStruct(dir)];
        }
        fs := Drop(fs, 2);
      }
      r := CheckFiles(fs, dir, Scan(current, files, visited, errs), depth, im);
    }

    /** The loop of check_crosses over the entries fs of directory dir. */
    method CheckFiles(fs: seq<MyFile>, dir: seq<Name>, s: Scan, depth: Fuel, ghost im: seq<byte>)
      returns (r: Result<Scan>)
      requires Valid()
      requires im == img[..] && s.current == current && s.files == files
      modifies this
      ensures img[..] == im
      ensures r == CrossFiles(g, im, s, fs, 0, dir, depth)
      ensures r.Ok? ==> current == r.value.current && files == r.value.files
      decreases depth, 1, |fs|
    {
      var vis, errs := s.visited, s.errors;
      var j: nat := 0;
      while j < |fs|
        invariant Valid() && j <= |fs| && img[..] == im
        invariant CrossFiles(g, im, Scan(current, files, vis, errs), fs, j, dir, depth) == CrossFiles(g, im, s, fs, 0, dir, depth)
        decreases |fs| - j
      {
        ghost var pre := Scan(current, files, vis, errs);
        var e := CheckEntry(fs[j], dir, vis, errs, depth, im);
        CrossFilesStep(g, im, pre, fs, j, dir, depth, e);
        if e.Fail? {
          return e;
        }
        vis, errs := e.value.visited, e.value.errors;
        j := j + 1;
      }
      r := Ok(Scan(current, files, vis, errs));
    }

    /** The body of check_crosses's loop for entry f. */
    method CheckEntry(f: MyFile, dir: seq<Name>, visited: seq<nat>, errors: seq<Anomaly>, depth: Fuel, ghost im: seq<byte>)
      returns (r: Result<Scan>)
      requires Valid()
      requires im == img[..]
      modifies this
      ensures img[..] == im
      ensures r == CrossEntry(g, im, Scan(old(current), old(files), visited, errors), f, dir, depth)
      ensures r.Ok? ==> current == r.value.current && files == r.value.files
      decreases depth, 0, 1
    {
      var path := JoinPath(dir, f.name);
      var ch := GetClusters(f.start);
      if ch.Fail? {
        return Fail(ch.error);
      }
      var vis, errs := VisitChain(visited, errors + CrossedOf(ch.value), ch.value.clusters);
      errs := errs + SizeCheck(g, f, path, |ch.value.clusters|);
      if f.kind == File {
        return Ok(Scan(current, files, vis, errs));
      }
      r := Descend(f, path, vis, errs, depth, im);
    }

    /** The descent of check_crosses into directory f. */
    method Descend(f: MyFile, path: seq<Name>, visited: seq<nat>, errors: seq<Anomaly>, depth: Fuel, ghost im: seq<byte>)
      returns (r: Result<Scan>)
      requires Valid()
      requires im == img[..]
      modifies this
      ensures img[..] == im
      ensures r == Volume.Descend(g, im, Scan(old(current), old(files), visited, errors), f, path, depth)
      ensures r.Ok? ==> current == r.value.current && files == r.value.files
      decreases depth, 0, 0
    {
      if depth.Spent? {
        return Fail(TooDeep);
      }
      var entered := Enter(f, Scan(current, files, visited, errors), im);
      if entered.Fail? {
        return Fail(entered.error);
      }
      r := CheckAndLeave(path, entered.value, depth.rest, im);
    }

    /** cd(f) during the walk: the state it leaves is the walk's state with
        f's listing current. */
    method Enter(f: MyFile, s: Scan, ghost im: seq<byte>) returns (r: Result<Scan>)
      requires s.current == current && s.files == files
      requires im == img[..]
      modifies this
      ensures img[..] == im
      ensures r == CdScan(g, im, s, f)
      ensures r.Ok? ==> current == r.value.current && files == r.value.files
    {
      var entered := Cd(f);
      CdScanOf(g, im, s, f, entered, current, files);
      if entered.Failed? {
        return Fail(entered.error);
      }
      r := Ok(Scan(current, files, s.visited, s.errors));
    }

    /** check_crosses on the directory just entered, then cd(files[1]). */
    method CheckAndLeave(path: seq<Name>, s: Scan, depth: Fuel, ghost im: seq<byte>)
      returns (r: Result<Scan>)
      requires Valid()
      requires s.current == current && s.files == files
      requires im == img[..]
      modifies this
      ensures img[..] == im
      ensures r == Volume.CheckAndLeave(g, im, s, path, depth)
      ensures r.Ok? ==> current == r.value.current && files == r.value.files
      decreases depth, 3, 0
    {
      var sub := CheckCrosses(s.visited, path, s.errors, depth, im);
      if sub.Fail? {
        return sub;
      }
      if |files| < 2 {
        return Fail(IndexError);
      }
      var back := Cd(files[1]);
      if back.Failed? {
        return Fail(back.error);
      }
      r := Ok(Scan(current, files, sub.value.visited, sub.value.errors));
    }

    /** The loop of check_crosses over one chain. */
    static method VisitChain(visited: seq<nat>, errors: seq<Anomaly>, cl: seq<nat>)
      returns (vis: seq<nat>, errs: seq<Anomaly>)
      ensures (vis, errs) == Visit(visited, errors, cl)
    {
      vis, errs := visited, errors;
      assert cl[0..] == cl;
      for i := 0 to |cl|
        invariant Visit(vis, errs, cl[i..]) == Visit(visited, errors, cl)
      {
        VisitStep(vis, errs, cl, i);
        vis, errs := vis + [cl[i]], errs + (if cl[i] in vis then [Crossed(cl[i])] else []);
      }
    }
  }
}
