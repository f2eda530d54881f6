/** fix.py: the repair engine. A Fixer works on an open, writable Reader:
    it cuts self-crossed chains, copies crossed files, rewrites wrong sizes
    and broken directory headers, gathers lost clusters into files under
    LOSTFOUND, and reports what it fixed. */
module Repair {
  import opened Common
  import opened Codec
  import opened Fat
  import opened Directory
  import opened Volume
  import opened Engine

  // ---------------------------------------------------------------------
  // The fix log and its report (ErrorsFixed)

  const SELF_CROSSED: string := "Self-crossed file"
  const CROSSED: string := "Crossed file"
  const ILLEGAL_SIZE: string := "Illegal size"
  const WRONG_STRUCTURE: string := "Wrong directory structure"
  const LOST_FOUND: string := "Found losted clusters"
  const HEADLINE: string := "Fixed errors:"
  const NOTHING_FIXED: string := "No errors found"

  /** The repair categories the Fixer logs. */
  predicate Category(e: string) {
    e == SELF_CROSSED || e == CROSSED || e == ILLEGAL_SIZE || e == WRONG_STRUCTURE || e == LOST_FOUND
  }

  /** after is before with further categories appended. */
  predicate Grew(before: seq<string>, after: seq<string>) {
    |before| <= |after| && after[..|before|] == before
    && forall i :: |before| <= i < |after| ==> Category(after[i])
  }

  lemma GrewSame(a: seq<string>)
    ensures Grew(a, a)
  {
    assert a[..|a|] == a;
  }

  lemma GrewByOne(a: seq<string>, e: string)
    requires Category(e)
    ensures Grew(a, a + [e])
  {
    assert (a + [e])[..|a|] == a;
  }

  /** What was logged first stays where it was. */
  lemma GrewKeeps(a: seq<string>, e: string, b: seq<string>)
    requires Grew(a + [e], b)
    ensures |b| > |a| && b[|a|] == e
  {
    assert b[|a|] == b[..|a| + 1][|a|];
  }

  lemma GrewTrans(a: seq<string>, b: seq<string>, c: seq<string>)
    requires Grew(a, b) && Grew(b, c)
    ensures Grew(a, c)
  {
    assert c[..|a|] == c[..|b|][..|a|];
  }

  /** "\n".join(lines). */
  function Join(lines: seq<string>): string {
    if |lines| == 0 then "" else if |lines| == 1 then lines[0] else lines[0] + "\n" + Join(lines[1..])
  }

  /** str.split("\n"): the pieces between line breaks, always at least one. */
  function Split(s: string): (r: seq<string>)
    ensures |r| >= 1
  {
    if |s| == 0 then [""]
    else
      var rest := Split(s[1..]);
      if s[0] == '\n' then [""] + rest else [[s[0]] + rest[0]] + rest[1..]
  }

  predicate NoBreak(s: string) {
    forall i :: 0 <= i < |s| ==> s[i] != '\n'
  }

  /** A piece without line breaks in front joins the first piece. */
  lemma {:induction false} SplitPlain(a: string, b: string)
    requires NoBreak(a)
    ensures Split(a + b) == [a + Split(b)[0]] + Split(b)[1..]
  {
    if |a| == 0 {
      assert a + b == b && a + Split(b)[0] == Split(b)[0];
      assert Split(b) == [Split(b)[0]] + Split(b)[1..];
    } else {
      assert (a + b)[1..] == a[1..] + b;
      SplitPlain(a[1..], b);
      assert [a[0]] + (a[1..] + Split(b)[0]) == a + Split(b)[0];
    }
  }

  /** Splitting undoes joining lines that hold no line break. */
  lemma {:induction false} SplitJoin(lines: seq<string>)
    requires |lines| >= 1 && forall i :: 0 <= i < |lines| ==> NoBreak(lines[i])
    ensures Split(Join(lines)) == lines
  {
    if |lines| == 1 {
      SplitPlain(lines[0], "");
      assert lines[0] + "" == lines[0];
    } else {
      var rest := Join(lines[1..]);
      SplitJoin(lines[1..]);
      assert Join(lines) == lines[0] + ("\n" + rest);
      SplitPlain(lines[0], "\n" + rest);
      assert ("\n" + rest)[1..] == rest;
      assert lines[0] + "" == lines[0];
      assert lines == [lines[0]] + lines[1..];
    }
  }

  /** What ErrorsFixed.__str__ returns for the log errors. */
  function Report(errors: seq<string>): string {
    if |errors| == 0 then NOTHING_FIXED else Join([HEADLINE] + errors)
  }

  /** The report of a log of repairs is the headline and then one line per
      repair, in order; an empty log reads "No errors found", and only an
      empty log does. */
  lemma ReportLines(errors: seq<string>)
    requires forall i :: 0 <= i < |errors| ==> Category(errors[i])
    ensures errors != [] ==> Split(Report(errors)) == [HEADLINE] + errors
    ensures Report(errors) == NOTHING_FIXED <==> errors == []
  {
    if errors != [] {
      var lines := [HEADLINE] + errors;
      forall i | 0 <= i < |lines|
        ensures NoBreak(lines[i])
      {
        if i > 0 {
          assert lines[i] == errors[i - 1];
        }
      }
      SplitJoin(lines);
      SplitPlain(NOTHING_FIXED, "");
      assert NOTHING_FIXED + "" == NOTHING_FIXED;
      assert Split(NOTHING_FIXED) == [NOTHING_FIXED];
      assert lines[0] != NOTHING_FIXED;
    }
  }

  /** The exception the Fixer raises at the end, carrying the log. */
  class ErrorsFixed {
    var errors: seq<string>

    constructor (log: seq<string>)
      ensures errors == log
    {
      errors := log;
    }

    /** __str__: a non-empty log first gets the headline inserted in front
        (so a second call inserts it again). */
    method Str() returns (s: string)
      modifies this
      ensures s == Report(old(errors))
      ensures errors == if old(errors) == [] then [] else [HEADLINE] + old(errors)
    {
      if errors == [] {
        return NOTHING_FIXED;
      }
      errors := [HEADLINE] + errors;
      s := Join(errors);
    }
  }

  // ---------------------------------------------------------------------
  // Python slices with negative bounds

  /** A slice bound as Python reads it: negative counts from the end, and
      the result is clamped to [0, len]. */
  function Bound(len: nat, i: int): (r: nat)
    ensures r <= len
    ensures 0 <= i <= len ==> r == i
  {
    if i < 0 then (if len + i < 0 then 0 else len + i) else if i > len then len else i
  }

  /** s[a:b]. */
  function PySlice<T>(s: seq<T>, a: int, b: int): (r: seq<T>)
  {
    var i, j := Bound(|s|, a), Bound(|s|, b);
    if i <= j then s[i..j] else []
  }

  // ---------------------------------------------------------------------
  // fix_self_crossing

  /** The bytes fix_self_crossing writes are the end-of-chain mark. */
  lemma EocBytes()
    ensures GetBytes(EOC) == [0xF8, 0xFF, 0xFF, 0x0F]
  {
    assert Quot(EOC, 1) == 0x0F_FFFF;
    assert Quot(EOC, 2) == 0x0FFF;
    assert Quot(EOC, 3) == 0x0F;
  }

  /** Once the last cluster of a list linked cluster to cluster holds the
      end-of-chain mark, a walk from cluster i with the clusters before it
      collected returns the whole list, uncrossed. */
  lemma {:induction false} WalkToMark(g: Geometry, img: seq<byte>, cl: seq<nat>, i: nat)
    requires Distinct(cl) && InData(cl) && i < |cl|
    requires forall j :: i <= j < |cl| - 1 ==> FatEntry(g, img, cl[j]) == Ok(cl[j + 1])
    requires FatEntry(g, img, cl[|cl| - 1]) == Ok(EOC)
    ensures Distinct(cl[..i]) && InData(cl[..i]) && cl[i] !in cl[..i]
    ensures Walk(g, img, cl[i], cl[..i]) == Ok(Chain(cl, None))
    decreases |cl| - i
  {
    var acc := cl[..i];
    assert acc + [cl[i]] == cl[..i + 1];
    if i == |cl| - 1 {
      assert cl[..i + 1] == cl;
    } else {
      WalkToMark(g, img, cl, i + 1);
    }
  }

  /** fix_self_crossing's write on a crossed chain: the last cluster's entry
      becomes the end-of-chain mark, and the walk from the start then gives
      the same clusters with no crossing. */
  lemma CutChain(g: Geometry, img: seq<byte>, start: nat, ch: Chain)
    requires ChainFrom(g, img, start, ch) && ch.crossed.Some?
    ensures ch.clusters != []
    ensures SetFatEntry(g, img, ch.clusters[|ch.clusters| - 1], EOC).Ok?
    ensures GetClusters(g, SetFatEntry(g, img, ch.clusters[|ch.clusters| - 1], EOC).value, start)
              == Ok(Chain(ch.clusters, None))
  {
    var cl := ch.clusters;
    var last := cl[|cl| - 1];
    var cut := SetFatEntry(g, img, last, EOC).value;
    forall j | 0 <= j < |cl| - 1
      ensures FatEntry(g, cut, cl[j]) == Ok(cl[j + 1])
    {
      assert cl[j] != last;
    }
    WalkToMark(g, cut, cl, 0);
    assert cl[..0] == [];
  }

  /** What fix_self_crossing leaves: the chain's clusters, the image, and
      whether the chain was cut. */
  datatype Cut = Cut(clusters: seq<nat>, img: seq<byte>, cut: bool)

  /** fix_self_crossing(start): the chain from start; when the walk met a
      cluster again, the last cluster's entry gets the end-of-chain mark
      (the error is logged by the caller of this function). */
  function FixSelfCrossingOn(g: Geometry, img: seq<byte>, start: nat): Result<Cut> {
    var ch :- GetClusters(g, img, start);
    var cl := ch.clusters;
    if ch.crossed.None? then Ok(Cut(cl, img, false))
    else
      var cut :- SetFatEntry(g, img, cl[|cl| - 1], EOC);
      Ok(Cut(cl, cut, true))
  }

  /** The outcome of fix_self_crossing(start) on img: r and the image
      after are what FixSelfCrossingOn gives, and "Self-crossed file" is
      logged exactly when the chain was cut. */
  ghost predicate CrossingFixed(g: Geometry, img: seq<byte>, start: nat, r: Result<seq<nat>>, after: seq<byte>,
                                before: seq<string>, log: seq<string>)
  {
    var w := FixSelfCrossingOn(g, img, start);
    && (r.Ok? <==> w.Ok?)
    && (w.Fail? ==> r == Fail(w.error) && log == before && after == img)
    && (w.Ok? ==> r.value == w.value.clusters && after == w.value.img
                  && log == before + (if w.value.cut then [SELF_CROSSED] else []))
  }

  /** The two outcomes of fix_self_crossing on a chain that reads. */
  lemma CrossingFixedOk(g: Geometry, img: seq<byte>, start: nat, before: seq<string>)
    requires GetClusters(g, img, start).Ok?
    ensures var ch := GetClusters(g, img, start).value;
            var cl := ch.clusters;
            && (ch.crossed.None? ==> CrossingFixed(g, img, start, Ok(cl), img, before, before))
            && (ch.crossed.Some? ==>
                  && cl != [] && SetFatEntry(g, img, cl[|cl| - 1], EOC).Ok?
                  && CrossingFixed(g, img, start, Ok(cl), SetFatEntry(g, img, cl[|cl| - 1], EOC).value,
                                   before, before + [SELF_CROSSED]))
  {
    SelfCrossingCut(g, img, start);
  }

  /** fix_self_crossing fails only where get_clusters does, returns
      get_clusters' list, cuts exactly the crossed chains (writing the mark
      into the last returned cluster's entry), and afterwards the walk from
      start gives the same list with no crossing. */
  lemma SelfCrossingCut(g: Geometry, img: seq<byte>, start: nat)
    ensures var ch := GetClusters(g, img, start);
            var w := FixSelfCrossingOn(g, img, start);
            (w.Ok? <==> ch.Ok?) && (ch.Fail? ==> w == Fail(ch.error))
            && (ch.Ok? ==>
                  && w.value.clusters == ch.value.clusters && (w.value.cut <==> ch.value.crossed.Some?)
                  && (!w.value.cut ==> w.value.img == img)
                  && (w.value.cut ==>
                        && ch.value.clusters != []
                        && SetFatEntry(g, img, ch.value.clusters[|ch.value.clusters| - 1], EOC) == Ok(w.value.img))
                  && GetClusters(g, w.value.img, start) == Ok(Chain(ch.value.clusters, None)))
  {
    var ch := GetClusters(g, img, start);
    if ch.Ok? && ch.value.crossed.Some? {
      CutChain(g, img, start, ch.value);
    }
  }

  // ---------------------------------------------------------------------
  // fix_size

  /** The directory bytes fix_size writes back: the last four bytes of
      record s - 1 become get_bytes(size), computed with Python's slices
      (s is sum(f.blocks), which a listed entry keeps at least 1). */
  function SizePatched(data: seq<byte>, s: nat, size: nat): seq<byte> {
    var lo := 32 * (s as int - 1);
    var rec := PySlice(PySlice(data, lo, 32 * s), 0, -4) + GetBytes(size);
    PySlice(data, 0, lo) + rec + PySlice(data, 32 * s, |data|)
  }

  /** For a record inside the data, only its bytes 28-31 change, to the new
      size. */
  lemma SizeOnly(data: seq<byte>, s: nat, size: nat)
    requires 1 <= s && 32 * s <= |data|
    ensures SizePatched(data, s, size) == Splice(data, 32 * (s - 1) + 28, GetBytes(size))
  {
    var lo := 32 * (s - 1);
    assert PySlice(data, lo, 32 * s) == data[lo..lo + 32];
    assert PySlice(data[lo..lo + 32], 0, -4) == data[lo..lo + 28];
    assert PySlice(data, 0, lo) == data[..lo];
    assert PySlice(data, 32 * s, |data|) == data[lo + 32..];
  }

  /** fix_size(f, size) in the directory starting at cluster dir. */
  function FixSizeOn(g: Geometry, img: seq<byte>, dir: nat, f: MyFile, size: nat): Result<seq<byte>>
    requires g.Valid()
  {
    var data :- GetData(g, img, dir);
    WriteData(g, img, dir, SizePatched(data, f.first + f.count, size))
  }

  /** On a directory whose chain is terminated and lies in the image, with
      f's last record inside its data, fix_size succeeds, keeps the chain,
      and the data reads back with only bytes 28-31 of that record changed. */
  lemma FixSizeEffect(g: Geometry, img: seq<byte>, dir: nat, f: MyFile, size: nat)
    requires g.Valid() && 1 < dir < EOC && GetClusters(g, img, dir).Ok?
    requires var ch := GetClusters(g, img, dir).value;
             ClustersInImage(g, img, ch.clusters) && ch.crossed.None? && LastLink(g, img, ch) >= EOC
    requires 1 <= f.first + f.count && 32 * (f.first + f.count) <= |GetData(g, img, dir).value|
    ensures FixSizeOn(g, img, dir, f, size).Ok?
    ensures var after := FixSizeOn(g, img, dir, f, size).value;
            GetClusters(g, after, dir) == GetClusters(g, img, dir)
            && GetData(g, after, dir)
                 == Ok(Splice(GetData(g, img, dir).value, 32 * (f.first + f.count - 1) + 28, GetBytes(size)))
  {
    var data := GetData(g, img, dir).value;
    var s := f.first + f.count;
    SizeOnly(data, s, size);
    RewriteReadsBack(g, img, dir, SizePatched(data, s, size));
  }

  /** Writing bytes as long as a terminated chain's data, along that chain,
      keeps the chain, and the data then reads back as written. */
  lemma RewriteReadsBack(g: Geometry, img: seq<byte>, dir: nat, data: seq<byte>)
    requires g.Valid() && 1 < dir < EOC && GetClusters(g, img, dir).Ok?
    requires var ch := GetClusters(g, img, dir).value;
             ClustersInImage(g, img, ch.clusters) && ch.crossed.None? && LastLink(g, img, ch) >= EOC
    requires |data| == |GetData(g, img, dir).value|
    ensures WriteData(g, img, dir, data).Ok?
    ensures var after := WriteData(g, img, dir, data).value;
            GetClusters(g, after, dir) == GetClusters(g, img, dir) && GetData(g, after, dir) == Ok(data)
  {
    var cl := GetClusters(g, img, dir).value.clusters;
    var before := GetData(g, img, dir).value;
    WriteThenRead(g, img, dir, data);
    ReadClustersIs(g, img, dir);
    assert Take(data, Mul(|cl|, g.lenClus)) == data;
    assert Drop(before, |data|) == [];
    assert data + [] == data;
  }

  /** The data of a chain that lies in the image is its clusters' bytes. */
  lemma ReadClustersIs(g: Geometry, img: seq<byte>, start: nat)
    requires GetClusters(g, img, start).Ok?
    requires ClustersInImage(g, img, GetClusters(g, img, start).value.clusters)
    ensures GetData(g, img, start) == Ok(ReadClusters(g, img, GetClusters(g, img, start).value.clusters))
  {
  }

  // ---------------------------------------------------------------------
  // fix_dir_struct

  /** `x in s` for bytes objects: x occurs as a contiguous piece of s (the
      empty piece occurs everywhere). */
  predicate Occurs(x: seq<byte>, s: seq<byte>)
    decreases |s|
  {
    if |x| > |s| then false else s[..|x|] == x || (|s| > 0 && Occurs(x, s[1..]))
  }

  /** b'.. ' */
  const DOTS: seq<byte> := [DOT, DOT, SPACE]

  /** The test of fix_dir_struct's loop for record i of the current buffer:
      its first two bytes occur in b'.. ', or its 32 bytes are zero. A slice
      past the buffer's end is empty, and the empty piece occurs in b'.. '. */
  predicate Removable(data: seq<byte>, i: nat) {
    Occurs(PySlice(data, 32 * i, 32 * i + 2), DOTS) || PySlice(data, 32 * i, 32 * (i + 1)) == Zeros(32)
  }

  /** The loop of fix_dir_struct from step i to n over the shrinking buffer:
      a removed record's successor moves into slot i and is never examined. */
  function StripFrom(data: seq<byte>, i: nat, n: nat, zeroes: nat): (r: (seq<byte>, nat))
    decreases n - i
  {
    if i >= n then (data, zeroes)
    else if Removable(data, i) then
      StripFrom(PySlice(data, 0, 32 * i) + PySlice(data, 32 * (i + 1), |data|), i + 1, n, zeroes + 32)
    else StripFrom(data, i + 1, n, zeroes)
  }

  /** The records fix_dir_struct keeps, and how many zero bytes it pads. */
  function Stripped(data: seq<byte>): (seq<byte>, nat) {
    StripFrom(data, 0, |data| / 32, 0)
  }

  /** Two zeroed records: the first is removed, the second moves into slot 0
      and survives, and the empty slice at slot 1 counts as one more removal. */
  lemma StripSkips()
    ensures Stripped(Zeros(64)) == (Zeros(32), 64)
  {
    var z := Zeros(64);
    assert PySlice(z, 0, 32) == Zeros(32);
    assert Removable(z, 0);
    var z1 := PySlice(z, 0, 0) + PySlice(z, 32, 64);
    assert z1 == Zeros(32);
    assert PySlice(z1, 32, 34) == [];
    assert Occurs([], DOTS);
    assert Removable(z1, 1);
    var z2 := PySlice(z1, 0, 32) + PySlice(z1, 64, 32);
    assert z2 == z1;
  }

  /** The bytes fix_dir_struct writes back: "." for d and ".." for the
      parent, then the kept records and the zero padding. */
  function Rebuilt(d: MyFile, parent: nat, count: nat, c: Clock, data: seq<byte>): (r: seq<byte>)
    requires c.Valid()
    ensures |r| >= 64 && r[..64] == DirHeader(d.start, parent, count, c)
  {
    var kept := Stripped(data);
    DirHeader(d.start, parent, count, c) + kept.0 + Zeros(kept.1)
  }

  /** fix_dir_struct(d) with self.ps == parent and count entries listed. */
  function FixDirStructOn(g: Geometry, img: seq<byte>, d: MyFile, parent: nat, count: nat, c: Clock)
    : Result<seq<byte>>
    requires g.Valid() && c.Valid()
  {
    var data :- GetData(g, img, d.start);
    WriteData(g, img, d.start, Rebuilt(d, parent, count, c, data))
  }

  /** one is a "." directory record for start and two a ".." directory
      record for parent, as get_info reads them. */
  predicate DotRecords(one: seq<byte>, two: seq<byte>, start: nat, parent: nat) {
    var a, b := GetInfo(one), GetInfo(two);
    a.Ok? && a.value.name == Latin1([DOT]) && a.value.start == start && a.value.kind == Dir
    && b.Ok? && b.value.name == Latin1([DOT, DOT]) && b.value.start == parent && b.value.kind == Dir
  }

  /** The first two records of h are "." for start and ".." for parent. */
  predicate DotsAt(h: seq<byte>, start: nat, parent: nat)
    requires |h| >= 64
  {
    DotRecords(h[..32], h[32..64], start, parent)
  }

  lemma Halves<T>(h: seq<T>, p: seq<T>)
    requires |p| == 64 && |h| >= 64 && h[..64] == p
    ensures h[..32] == p[..32] && h[32..64] == p[32..64]
  {
  }

  lemma HeaderDots(h: seq<byte>, start: nat, parent: nat, count: nat, c: Clock)
    requires c.Valid() && start < 0x1_0000_0000 && parent < 0x1_0000_0000
    requires |h| >= 64 && h[..64] == DirHeader(start, parent, count, c)
    ensures DotsAt(h, start, parent)
  {
    var p := DirHeader(start, parent, count, c);
    DirHeaderInfo(start, parent, count, c);
    assert DotRecords(p[..32], p[32..64], start, parent);
    Halves(h, p);
  }

  /** On a directory whose chain is terminated, lies in the image and holds
      at least two records, fix_dir_struct keeps the FAT chain and the
      data's length, and the data then starts with a "." record for d.start
      and a ".." record for the parent. */
  lemma FixDirStructHeader(g: Geometry, img: seq<byte>, d: MyFile, parent: nat, count: nat, c: Clock)
    requires g.Valid() && c.Valid() && 1 < d.start < EOC && GetClusters(g, img, d.start).Ok?
    requires var ch := GetClusters(g, img, d.start).value;
             ClustersInImage(g, img, ch.clusters) && ch.crossed.None? && LastLink(g, img, ch) >= EOC
             && 64 <= Mul(|ch.clusters|, g.lenClus)
    requires parent < 0x1_0000_0000
    ensures FixDirStructOn(g, img, d, parent, count, c).Ok?
    ensures var after := FixDirStructOn(g, img, d, parent, count, c).value;
            var h := GetData(g, after, d.start);
            GetClusters(g, after, d.start) == GetClusters(g, img, d.start)
            && h.Ok? && |h.value| == |GetData(g, img, d.start).value|
            && h.value[..64] == DirHeader(d.start, parent, count, c) && DotsAt(h.value, d.start, parent)
  {
    var data := GetData(g, img, d.start).value;
    var back := RebuiltReadsBack(g, img, d, parent, count, c);
    HeaderDots(back, d.start, parent, count, c);
  }

  /** The data read back after fix_dir_struct: the rebuilt bytes cut to the
      chain's length, which they reach. */
  lemma RebuiltReadsBack(g: Geometry, img: seq<byte>, d: MyFile, parent: nat, count: nat, c: Clock)
    returns (back: seq<byte>)
    requires g.Valid() && c.Valid() && 1 < d.start < EOC && GetClusters(g, img, d.start).Ok?
    requires var ch := GetClusters(g, img, d.start).value;
             ClustersInImage(g, img, ch.clusters) && ch.crossed.None? && LastLink(g, img, ch) >= EOC
             && 64 <= Mul(|ch.clusters|, g.lenClus)
    ensures FixDirStructOn(g, img, d, parent, count, c).Ok?
    ensures var after := FixDirStructOn(g, img, d, parent, count, c).value;
            GetClusters(g, after, d.start) == GetClusters(g, img, d.start)
            && GetData(g, after, d.start) == Ok(back)
    ensures |back| == |GetData(g, img, d.start).value| && |back| >= 64
    ensures back[..64] == DirHeader(d.start, parent, count, c)
  {
    var cl := GetClusters(g, img, d.start).value.clusters;
    var data := GetData(g, img, d.start).value;
    var rebuilt := Rebuilt(d, parent, count, c, data);
    var len := Mul(|cl|, g.lenClus);
    WriteThenRead(g, img, d.start, rebuilt);
    ReadClustersIs(g, img, d.start);
    assert FixDirStructOn(g, img, d, parent, count, c) == WriteData(g, img, d.start, rebuilt);
    assert |data| == len;
    HeaderSurvives(rebuilt, data);
    back := Take(rebuilt, len) + Drop(data, |rebuilt|);
  }

  /** Writing a buffer that starts with a 64-byte header over data at least
      that long leaves the header in front and the length unchanged. */
  lemma HeaderSurvives(rebuilt: seq<byte>, data: seq<byte>)
    requires |rebuilt| >= 64 && |data| >= 64
    ensures var back := Take(rebuilt, |data|) + Drop(data, |rebuilt|);
            |back| == |data| && back[..64] == rebuilt[..64]
  {
    var head := Take(rebuilt, |data|);
    assert head[..64] == rebuilt[..64];
  }

  // ---------------------------------------------------------------------
  // copy_clust

  /** copy_clust(last, target): cluster last is read (a short read near the
      image's end gives fewer bytes) and written over cluster target. */
  function CopyClustOn(g: Geometry, img: seq<byte>, last: nat, target: nat): Result<seq<byte>>
    requires g.Valid()
  {
    if last < 2 then Fail(BelowData) else WriteCluster(g, img, target, ClusterBytes(g, img, last))
  }

  /** A copy between clusters in the image makes cluster target hold cluster
      last's bytes and changes no other byte, so no FAT entry. */
  lemma CopyClustExact(g: Geometry, img: seq<byte>, last: nat, target: nat)
    requires g.Valid() && 2 <= last && 2 <= target
    requires ClusterAt(g, last) + g.lenClus <= |img| && ClusterAt(g, target) + g.lenClus <= |img|
    ensures CopyClustOn(g, img, last, target).Ok?
    ensures var after := CopyClustOn(g, img, last, target).value;
            |after| == |img| && ClusterBytes(g, after, target) == ClusterBytes(g, img, last)
            && (forall i :: 0 <= i < |img| && !(ClusterAt(g, target) <= i < ClusterAt(g, target) + g.lenClus) ==>
                  after[i] == img[i])
            && SameFat(g, img, after)
  {
    var after := CopyClustOn(g, img, last, target).value;
    forall m ensures FatEntry(g, img, m) == FatEntry(g, after, m) {
      WriteClusterFat(g, img, target, ClusterBytes(g, img, last), m);
    }
  }

  // ---------------------------------------------------------------------
  // The loop of copy_crossed

  /** One round of copy_crossed's loop for cluster cl, the copy so far
      ending at last: a kept cluster becomes the end as it is; otherwise
      cl's bytes are read, a cluster is added after last and the bytes are
      written into it. */
  function CopyStepOn(g: Geometry, img: seq<byte>, cl: nat, last: nat, keep: bool): Result<(nat, seq<byte>)>
    requires g.Valid()
  {
    if keep then Ok((cl, img))
    else if cl < 2 then Fail(BelowData)
    else
      var data := ClusterBytes(g, img, cl);
      var added :- AddCluster(g, img, last);
      var written :- WriteCluster(g, added.1, added.0, data);
      Ok((added.0, written))
  }

  /** A copied cluster goes to the lowest free entry, which is marked
      end-of-chain and linked from last, starts with cl's bytes, and no
      other FAT entry changes. A kept cluster changes nothing at all: the
      FAT entry of last is not made to point at it, so after a copied
      cluster the copy's chain ends there. */
  lemma CopyStepFacts(g: Geometry, img: seq<byte>, cl: nat, last: nat, keep: bool)
    requires g.Valid() && CopyStepOn(g, img, cl, last, keep).Ok?
    ensures var (n, after) := CopyStepOn(g, img, cl, last, keep).value;
            && (keep ==> n == cl && after == img)
            && (!keep ==>
                  && |after| == |img| && 2 <= n && FatEntry(g, img, n) == Ok(0)
                  && FatEntry(g, after, n) == Ok(0xFFFF_FFFF)
                  && (last != 0 && last != n ==> FatEntry(g, after, last) == Ok(n))
                  && (forall m :: m != n && m != last ==> FatEntry(g, after, m) == FatEntry(g, img, m))
                  && ClusterBytes(g, img, cl) <= ClusterBytes(g, after, n))
  {
    if !keep {
      CopyStepFat(g, img, cl, last);
      CopyStepBytes(g, img, cl, last);
    }
  }

  lemma CopyStepFat(g: Geometry, img: seq<byte>, cl: nat, last: nat)
    requires g.Valid() && CopyStepOn(g, img, cl, last, false).Ok?
    ensures var (n, after) := CopyStepOn(g, img, cl, last, false).value;
            && 2 <= n && FatEntry(g, img, n) == Ok(0) && FatEntry(g, after, n) == Ok(0xFFFF_FFFF)
            && (last != 0 && last != n ==> FatEntry(g, after, last) == Ok(n))
            && (forall m :: m != n && m != last ==> FatEntry(g, after, m) == FatEntry(g, img, m))
  {
    var data := ClusterBytes(g, img, cl);
    AddClusterFacts(g, img, last);
    var (n, added) := AddCluster(g, img, last).value;
    forall m ensures FatEntry(g, WriteCluster(g, added, n, data).value, m) == FatEntry(g, added, m) {
      WriteClusterFat(g, added, n, data, m);
    }
  }

  lemma CopyStepBytes(g: Geometry, img: seq<byte>, cl: nat, last: nat)
    requires g.Valid() && CopyStepOn(g, img, cl, last, false).Ok?
    ensures var (n, after) := CopyStepOn(g, img, cl, last, false).value;
            |after| == |img| && ClusterBytes(g, img, cl) <= ClusterBytes(g, after, n)
  {
    AddClusterFacts(g, img, last);
    var (n, added) := AddCluster(g, img, last).value;
    WrittenPrefix(g, added, n, ClusterBytes(g, img, cl));
  }

  /** Bytes written into a cluster inside the image are where the cluster
      starts. */
  lemma WrittenPrefix(g: Geometry, img: seq<byte>, n: nat, data: seq<byte>)
    requires g.Valid() && WriteCluster(g, img, n, data).Ok? && ClusterAt(g, n) + g.lenClus <= |img|
    ensures |WriteCluster(g, img, n, data).value| == |img|
    ensures data <= ClusterBytes(g, WriteCluster(g, img, n, data).value, n)
  {
    var after := WriteCluster(g, img, n, data).value;
    var lo := ClusterAt(g, n);
    assert ClusterBytes(g, after, n)[..|data|] == after[lo..lo + |data|];
  }

  /** One round of copy_crossed's loop as a value: from the image, the
      cluster, the end of the copy so far and whether the cluster is kept,
      the new end of the copy and the new image. */
  type Step = (seq<byte>, nat, nat, bool) -> Result<(nat, seq<byte>)>

  /** The round CopyStepOn describes, on geometry g. */
  function StepOn(g: Geometry): Step
    requires g.Valid()
  {
    (img: seq<byte>, cl: nat, last: nat, keep: bool) => CopyStepOn(g, img, cl, last, keep)
  }

  /** A kept cluster becomes the end of the copy and changes nothing. */
  ghost predicate KeepsKept(step: Step) {
    forall img, cl, last :: step(img, cl, last, true) == Ok((cl, img))
  }

  lemma StepOnKeepsKept(g: Geometry)
    requires g.Valid()
    ensures KeepsKept(StepOn(g))
  {
    forall img, cl, last ensures StepOn(g)(img, cl, last, true) == Ok((cl, img)) {
    }
  }

  /** copy_crossed's loop from position i, the copy so far ending at last:
      the copy's clusters from last on, and the image after. */
  function CopyLoopOn(step: Step, img: seq<byte>, clusters: seq<nat>, i: nat, last: nat, visited: seq<nat>,
                      f: MyFile): Result<(seq<nat>, seq<byte>)>
    decreases |clusters| - i
  {
    if i >= |clusters| then Ok(([last], img))
    else
      var s :- step(img, clusters[i], last, Reused(f, visited, clusters[i]));
      var rest :- CopyLoopOn(step, s.1, clusters, i + 1, s.0, visited, f);
      Ok(([last] + rest.0, rest.1))
  }

  /** The copy copy_crossed returns has one cluster per cluster of the
      chain, starts at end, and has each kept cluster in its own place. */
  lemma CopyShape(step: Step, img: seq<byte>, clusters: seq<nat>, end: nat, visited: seq<nat>, f: MyFile)
    requires KeepsKept(step) && |clusters| > 0 && CopyLoopOn(step, img, clusters, 1, end, visited, f).Ok?
    ensures var r := CopyLoopOn(step, img, clusters, 1, end, visited, f).value.0;
            && |r| == |clusters| && r[0] == end
            && forall i :: 1 <= i < |clusters| && Reused(f, visited, clusters[i]) ==> r[i] == clusters[i]
  {
    CopyLoopLength(step, img, clusters, 1, end, visited, f);
    forall i | 1 <= i < |clusters| && Reused(f, visited, clusters[i])
      ensures CopyLoopOn(step, img, clusters, 1, end, visited, f).value.0[i] == clusters[i]
    {
      CopyLoopKeptAt(step, img, clusters, 1, end, visited, f, i);
      assert i - 1 + 1 == i;
    }
  }

  /** The loop unfolded once after a round that succeeds. */
  lemma CopyLoopNext(step: Step, img: seq<byte>, clusters: seq<nat>, i: nat, last: nat, visited: seq<nat>,
                     f: MyFile)
    requires i < |clusters| && step(img, clusters[i], last, Reused(f, visited, clusters[i])).Ok?
    ensures var s := step(img, clusters[i], last, Reused(f, visited, clusters[i])).value;
            var rest := CopyLoopOn(step, s.1, clusters, i + 1, s.0, visited, f);
            CopyLoopOn(step, img, clusters, i, last, visited, f)
            == if rest.Ok? then Ok(([last] + rest.value.0, rest.value.1)) else rest
  {
  }

  /** The loop after one round, for a loop that succeeds. */
  lemma CopyLoopTail(step: Step, img: seq<byte>, clusters: seq<nat>, i: nat, last: nat, visited: seq<nat>,
                     f: MyFile) returns (n: nat, img1: seq<byte>)
    requires KeepsKept(step) && i < |clusters| && CopyLoopOn(step, img, clusters, i, last, visited, f).Ok?
    ensures CopyLoopOn(step, img1, clusters, i + 1, n, visited, f).Ok?
    ensures CopyLoopOn(step, img, clusters, i, last, visited, f).value.0
            == [last] + CopyLoopOn(step, img1, clusters, i + 1, n, visited, f).value.0
    ensures Reused(f, visited, clusters[i]) ==> n == clusters[i]
  {
    var s := step(img, clusters[i], last, Reused(f, visited, clusters[i])).value;
    n, img1 := s.0, s.1;
  }

  /** The copy from position i has one cluster per remaining cluster of the
      chain after its start. */
  lemma {:induction false} CopyLoopLength(step: Step, img: seq<byte>, clusters: seq<nat>, i: nat, last: nat,
                                          visited: seq<nat>, f: MyFile)
    requires KeepsKept(step) && i <= |clusters| && CopyLoopOn(step, img, clusters, i, last, visited, f).Ok?
    ensures var r := CopyLoopOn(step, img, clusters, i, last, visited, f).value.0;
            |r| == |clusters| - i + 1 && r[0] == last
    decreases |clusters| - i
  {
    if i < |clusters| {
      var n, img1 := CopyLoopTail(step, img, clusters, i, last, visited, f);
      CopyLoopLength(step, img1, clusters, i + 1, n, visited, f);
    }
  }

  /** A kept cluster at position j is in its own place in the copy from
      position i. */
  lemma {:induction false} CopyLoopKeptAt(step: Step, img: seq<byte>, clusters: seq<nat>, i: nat, last: nat,
                                          visited: seq<nat>, f: MyFile, j: nat)
    requires KeepsKept(step) && i <= j < |clusters| && CopyLoopOn(step, img, clusters, i, last, visited, f).Ok?
    requires Reused(f, visited, clusters[j])
    ensures var r := CopyLoopOn(step, img, clusters, i, last, visited, f).value.0;
            j - i + 1 < |r| && r[j - i + 1] == clusters[j]
    decreases j - i
  {
    var n, img1 := CopyLoopTail(step, img, clusters, i, last, visited, f);
    CopyLoopLength(step, img1, clusters, i + 1, n, visited, f);
    if i < j {
      CopyLoopKeptAt(step, img1, clusters, i + 1, n, visited, f, j);
      assert j - (i + 1) + 1 + 1 == j - i + 1;
    } else {
      assert j - i + 1 == 1;
    }
  }

  function CopiedAfter(done: seq<nat>, r: Result<(seq<nat>, seq<byte>)>): Result<(seq<nat>, seq<byte>)> {
    if r.Ok? then Ok((done + r.value.0, r.value.1)) else r
  }

  /** One round of the loop, as the method takes it. */
  lemma CopyLoopStep(step: Step, img: seq<byte>, clusters: seq<nat>, i: nat, last: nat, visited: seq<nat>,
                     f: MyFile, done: seq<nat>)
    requires i < |clusters| && step(img, clusters[i], last, Reused(f, visited, clusters[i])).Ok?
    ensures var s := step(img, clusters[i], last, Reused(f, visited, clusters[i])).value;
            CopiedAfter(done, CopyLoopOn(step, img, clusters, i, last, visited, f))
            == CopiedAfter(done + [last], CopyLoopOn(step, s.1, clusters, i + 1, s.0, visited, f))
  {
    CopyLoopNext(step, img, clusters, i, last, visited, f);
    var s := step(img, clusters[i], last, Reused(f, visited, clusters[i])).value;
    var rest := CopyLoopOn(step, s.1, clusters, i + 1, s.0, visited, f);
    if rest.Ok? {
      assert done + ([last] + rest.value.0) == (done + [last]) + rest.value.0;
    }
  }

  // ---------------------------------------------------------------------
  // Lost clusters: the scan of __init__ and get_losted_name

  /** The scan of Fixer.__init__ over the FAT from entry i: every non-zero
      entry not visited is lost. */
  function OrphansFrom(g: Geometry, img: seq<byte>, visited: seq<nat>, i: nat): (r: Result<seq<nat>>)
    decreases g.Entries() - i
  {
    if i >= g.Entries() then Ok([])
    else
      var v :- FatEntry(g, img, i);
      var rest :- OrphansFrom(g, img, visited, i + 1);
      Ok((if v != 0 && i !in visited then [i] else []) + rest)
  }

  predicate Increasing(s: seq<nat>) {
    forall a, b :: 0 <= a < b < |s| ==> s[a] < s[b]
  }

  /** The scan succeeds exactly when every entry from i lies in the image;
      it then lists, in increasing order, exactly the entries from i that
      are non-zero and not visited. */
  lemma OrphansFacts(g: Geometry, img: seq<byte>, visited: seq<nat>, i: nat)
    ensures var r := OrphansFrom(g, img, visited, i);
            && (r.Ok? <==> forall k :: i <= k < g.Entries() ==> EntryInImage(g, img, k))
            && (r.Fail? ==> r.error == IndexError)
            && (r.Ok? ==> Increasing(r.value) && (forall a :: 0 <= a < |r.value| ==> r.value[a] >= i)
                          && forall k: nat :: k in r.value <==>
                               i <= k < g.Entries() && FatEntry(g, img, k) != Ok(0) && k !in visited)
  {
    OrphansDefined(g, img, visited, i);
    OrphansOrder(g, img, visited, i);
    OrphansMembers(g, img, visited, i);
  }

  lemma {:induction false} OrphansDefined(g: Geometry, img: seq<byte>, visited: seq<nat>, i: nat)
    ensures var r := OrphansFrom(g, img, visited, i);
            && (r.Ok? <==> forall k :: i <= k < g.Entries() ==> EntryInImage(g, img, k))
            && (r.Fail? ==> r.error == IndexError)
    decreases g.Entries() - i
  {
    if i < g.Entries() {
      OrphansDefined(g, img, visited, i + 1);
      if !FatEntry(g, img, i).Ok? {
        assert !EntryInImage(g, img, i);
      }
    }
  }

  lemma {:induction false} OrphansOrder(g: Geometry, img: seq<byte>, visited: seq<nat>, i: nat)
    ensures var r := OrphansFrom(g, img, visited, i);
            r.Ok? ==> Increasing(r.value) && forall a :: 0 <= a < |r.value| ==> r.value[a] >= i
    decreases g.Entries() - i
  {
    if i < g.Entries() && FatEntry(g, img, i).Ok? {
      OrphansOrder(g, img, visited, i + 1);
      var rest := OrphansFrom(g, img, visited, i + 1);
      if rest.Ok? {
        var v := FatEntry(g, img, i).value;
        var here: seq<nat> := if v != 0 && i !in visited then [i] else [];
        assert OrphansFrom(g, img, visited, i).value == here + rest.value;
      }
    }
  }

  lemma {:induction false} OrphansMembers(g: Geometry, img: seq<byte>, visited: seq<nat>, i: nat)
    ensures var r := OrphansFrom(g, img, visited, i);
            r.Ok? ==> forall k: nat :: k in r.value <==> i <= k < g.Entries() && FatEntry(g, img, k) != Ok(0) && k !in visited
    decreases g.Entries() - i
  {
    if i < g.Entries() && FatEntry(g, img, i).Ok? {
      OrphansMembers(g, img, visited, i + 1);
      var rest := OrphansFrom(g, img, visited, i + 1);
      if rest.Ok? {
        var v := FatEntry(g, img, i).value;
        var here: seq<nat> := if v != 0 && i !in visited then [i] else [];
        assert OrphansFrom(g, img, visited, i).value == here + rest.value;
      }
    }
  }

  /** The Fixer gathers as lost exactly the clusters fschk reports lost
      for the same visited list. */
  lemma OrphansAreLost(g: Geometry, img: seq<byte>, visited: seq<nat>)
    ensures OrphansFrom(g, img, visited, 0).Ok? <==> LostFrom(g, img, visited, 0).Ok?
    ensures OrphansFrom(g, img, visited, 0).Ok? ==>
              forall k: nat :: k in OrphansFrom(g, img, visited, 0).value <==> Lost(k) in LostFrom(g, img, visited, 0).value
  {
    OrphansFacts(g, img, visited, 0);
    LostFromFacts(g, img, visited, 0);
  }

  function Joined(found: seq<nat>, r: Result<seq<nat>>): Result<seq<nat>> {
    if r.Ok? then Ok(found + r.value) else r
  }

  /** One step of the scan. */
  lemma OrphanStep(g: Geometry, img: seq<byte>, visited: seq<nat>, i: nat, found: seq<nat>)
    requires i < g.Entries() && FatEntry(g, img, i).Ok?
    ensures var v := FatEntry(g, img, i).value;
            Joined(found, OrphansFrom(g, img, visited, i))
            == Joined(found + (if v != 0 && i !in visited then [i] else []), OrphansFrom(g, img, visited, i + 1))
  {
    var v := FatEntry(g, img, i).value;
    var here: seq<nat> := if v != 0 && i !in visited then [i] else [];
    if OrphansFrom(g, img, visited, i + 1).Ok? {
      assert found + (here + OrphansFrom(g, img, visited, i + 1).value)
             == (found + here) + OrphansFrom(g, img, visited, i + 1).value;
    }
  }

  /** A strictly increasing list has no duplicates. */
  lemma IncreasingDistinct(s: seq<nat>)
    requires Increasing(s)
    ensures Distinct(s)
  {
  }

  /** A number of at least 10^k has more than k digits. */
  lemma {:induction false} LongDecimal(n: nat, k: nat)
    requires n >= Pow10(k)
    ensures |Decimal(n)| > k
  {
    if k > 0 {
      assert n / 10 >= Pow10(k - 1);
      LongDecimal(n / 10, k - 1);
    }
  }

  /** "FILE.{}".format(n) */
  function LostName(n: nat): (r: Name)
    ensures |r| == 5 + |Decimal(n)|
  {
    U("FILE.") + Latin1(Decimal(n))
  }

  /** list(map(str, files)): the names of the listing. */
  function Names(files: seq<MyFile>): (r: seq<Name>)
    ensures |r| == |files| && forall i :: 0 <= i < |files| ==> r[i] == files[i].name
  {
    seq(|files|, i requires 0 <= i < |files| => files[i].name)
  }

  /** The length of the longest name. */
  function Longest(names: seq<Name>): (r: nat)
    ensures forall i :: 0 <= i < |names| ==> |names[i]| <= r
  {
    if |names| == 0 then 0 else var m := Longest(names[1..]); if |names[0]| > m then |names[0]| else m
  }

  /** A lost-file name that a listing holds has a number below 10^L, L the
      longest name's length: so get_losted_name's search ends. */
  lemma TakenNameBound(names: seq<Name>, n: nat)
    requires LostName(n) in names
    ensures n < Pow10(Longest(names))
  {
    if n >= Pow10(Longest(names)) {
      LongDecimal(n, Longest(names));
    }
  }

  /** The crossed-file copy loop keeps a reused cluster only for a file. */
  predicate Reused(f: MyFile, visited: seq<nat>, c: nat) {
    c !in visited && f.kind == File
  }

  // ---------------------------------------------------------------------
  // get_files: grouping the lost clusters

  /** The groups joined in order. */
  function Concat(groups: seq<seq<nat>>): seq<nat> {
    if |groups| == 0 then [] else Concat(groups[..|groups| - 1]) + groups[|groups| - 1]
  }

  /** A group as get_files builds it: each cluster after the first has the
      one before it as its FAT entry. */
  predicate Backlinked(g: Geometry, img: seq<byte>, group: seq<nat>) {
    |group| >= 1 && forall j {:trigger FatEntry(g, img, group[j])} :: 0 < j < |group| ==> FatEntry(g, img, group[j]) == Ok(group[j - 1])
  }

  /** No cluster of s links to start. */
  predicate Unlinked(g: Geometry, img: seq<byte>, s: seq<nat>, start: nat) {
    forall x {:trigger x in s} :: x in s ==> FatEntry(g, img, x) != Ok(start)
  }

  lemma ConcatSnoc(groups: seq<seq<nat>>, m: seq<nat>)
    ensures Concat(groups + [m]) == Concat(groups) + m
  {
    assert (groups + [m])[..|groups|] == groups;
  }

  /** Closing a group keeps every lost cluster accounted for once. */
  lemma Regroup(groups: seq<seq<nat>>, m: seq<nat>, pending: seq<nat>, rest: seq<nat>, losted: seq<nat>)
    requires multiset(Concat(groups)) + multiset(pending) == multiset(losted)
    requires multiset(m) + multiset(rest) == multiset(pending)
    ensures multiset(Concat(groups + [m])) + multiset(rest) == multiset(losted)
  {
    ConcatSnoc(groups, m);
  }

  /** Two backlinked pieces, the second starting at the first's last
      cluster, make one. */
  lemma BackJoin(g: Geometry, img: seq<byte>, a: seq<nat>, b: seq<nat>)
    requires Backlinked(g, img, a) && Backlinked(g, img, [a[|a| - 1]] + b)
    ensures Backlinked(g, img, a + b)
  {
    var ab := a + b;
    var xb := [a[|a| - 1]] + b;
    forall j | 0 < j < |ab|
      ensures FatEntry(g, img, ab[j]) == Ok(ab[j - 1])
    {
      if j < |a| {
        assert ab[j] == a[j] && ab[j - 1] == a[j - 1] && FatEntry(g, img, a[j]) == Ok(a[j - 1]);
      } else {
        assert ab[j] == xb[j + 1 - |a|] && ab[j - 1] == xb[j - |a|] && FatEntry(g, img, xb[j + 1 - |a|]) == Ok(xb[j - |a|]);
      }
    }
  }

  /** The (start, count) pairs of get_files against the groups they come
      from: each group is backlinked, starts its pair at its last cluster
      and counts its clusters. */
  predicate Grouping(g: Geometry, img: seq<byte>, groups: seq<seq<nat>>, files: seq<(nat, nat)>) {
    |files| == |groups|
    && forall k :: 0 <= k < |groups| ==>
         Backlinked(g, img, groups[k]) && files[k] == (groups[k][|groups[k]| - 1], |groups[k]|)
  }

  lemma GroupingSnoc(g: Geometry, img: seq<byte>, groups: seq<seq<nat>>, files: seq<(nat, nat)>, m: seq<nat>,
                     f: (nat, nat))
    requires Grouping(g, img, groups, files) && Backlinked(g, img, m) && f == (m[|m| - 1], |m|)
    ensures Grouping(g, img, groups + [m], files + [f])
  {
  }

  /** A group grown so far: its start, the clusters taken after the first
      one, in order, and the lost clusters left. */
  datatype Growth = Growth(start: nat, taken: seq<nat>, rest: seq<nat>)

  /** The start a pass of get_files holds when it reaches pending[j]:
      each cluster whose entry holds the start becomes the start. */
  function Turn(g: Geometry, img: seq<byte>, pending: seq<nat>, start: nat, j: nat): nat
    requires j <= |pending|
  {
    if j == 0 then start
    else
      var t := Turn(g, img, pending, start, j - 1);
      if FatEntry(g, img, pending[j - 1]) == Ok(t) then pending[j - 1] else t
  }

  /** In a list without duplicates, the cluster at j is not found before
      it or after it. */
  lemma DistinctAt(s: seq<nat>, j: nat)
    requires Distinct(s) && j < |s|
    ensures forall i :: 0 <= i < |s| && i != j ==> s[i] != s[j]
    ensures s[j] !in s[..j] && s[j] !in s[j + 1..] && s[..j + 1] == s[..j] + [s[j]]
  {
  }

  /** Whether the pass takes pending[j]: its entry holds the start the
      pass holds on reaching it. */
  predicate Took(g: Geometry, img: seq<byte>, pending: seq<nat>, start: nat, j: nat)
    requires j < |pending|
  {
    FatEntry(g, img, pending[j]) == Ok(Turn(g, img, pending, start, j))
  }

  /** taken and kept split the first j pending clusters. */
  ghost predicate Parted(pending: seq<nat>, j: nat, taken: seq<nat>, kept: seq<nat>)
    requires j <= |pending|
  {
    && multiset(taken) + multiset(kept) == multiset(pending[..j])
    && Distinct(kept) && (forall x :: x in taken ==> x !in kept)
  }

  /** cur is Turn's start after the first j pending clusters, and each of
      them went where Took says. */
  ghost predicate Turned(g: Geometry, img: seq<byte>, pending: seq<nat>, start: nat, j: nat, cur: nat,
                         taken: seq<nat>, kept: seq<nat>)
    requires j <= |pending|
  {
    && cur == Turn(g, img, pending, start, j)
    && forall i :: 0 <= i < j ==>
         (pending[i] in taken <==> Took(g, img, pending, start, i)) && (pending[i] in kept <==> !Took(g, img, pending, start, i))
  }

  /** The taken clusters link backwards from start to cur; while none is
      taken, no kept cluster links to start. */
  ghost predicate Chained(g: Geometry, img: seq<byte>, start: nat, cur: nat, taken: seq<nat>, kept: seq<nat>)
  {
    && Backlinked(g, img, [start] + taken) && cur == ([start] + taken)[|taken|]
    && (cur == start || cur in taken)
    && (taken == [] ==> cur == start && Unlinked(g, img, kept, start))
  }

  /** What a pass of get_files has done after the first j pending
      clusters. */
  ghost predicate PassState(g: Geometry, img: seq<byte>, pending: seq<nat>, start: nat, j: nat, cur: nat,
                            taken: seq<nat>, kept: seq<nat>)
  {
    && j <= |pending|
    && Parted(pending, j, taken, kept)
    && Turned(g, img, pending, start, j, cur, taken, kept)
    && Chained(g, img, start, cur, taken, kept)
  }

  lemma PartedTake(pending: seq<nat>, j: nat, taken: seq<nat>, kept: seq<nat>)
    requires Distinct(pending) && j < |pending| && Parted(pending, j, taken, kept)
    ensures pending[j] !in taken && pending[j] !in kept
    ensures Parted(pending, j + 1, taken + [pending[j]], kept)
  {
    DistinctAt(pending, j);
    assert pending[j] !in multiset(pending[..j]);
  }

  lemma PartedKeep(pending: seq<nat>, j: nat, taken: seq<nat>, kept: seq<nat>)
    requires Distinct(pending) && j < |pending| && Parted(pending, j, taken, kept)
    ensures pending[j] !in taken && pending[j] !in kept
    ensures Parted(pending, j + 1, taken, kept + [pending[j]])
  {
    DistinctAt(pending, j);
    assert pending[j] !in multiset(pending[..j]);
  }

  lemma TurnedTake(g: Geometry, img: seq<byte>, pending: seq<nat>, start: nat, j: nat, cur: nat,
                   taken: seq<nat>, kept: seq<nat>)
    requires Distinct(pending) && j < |pending| && pending[j] !in taken && pending[j] !in kept
    requires Turned(g, img, pending, start, j, cur, taken, kept) && FatEntry(g, img, pending[j]) == Ok(cur)
    ensures Turned(g, img, pending, start, j + 1, pending[j], taken + [pending[j]], kept)
  {
    DistinctAt(pending, j);
  }

  lemma TurnedKeep(g: Geometry, img: seq<byte>, pending: seq<nat>, start: nat, j: nat, cur: nat,
                   taken: seq<nat>, kept: seq<nat>)
    requires Distinct(pending) && j < |pending| && pending[j] !in taken && pending[j] !in kept
    requires Turned(g, img, pending, start, j, cur, taken, kept) && FatEntry(g, img, pending[j]) != Ok(cur)
    ensures Turned(g, img, pending, start, j + 1, cur, taken, kept + [pending[j]])
  {
    DistinctAt(pending, j);
  }

  /** A cluster of the pass whose entry holds cur is taken. */
  lemma PassTake(g: Geometry, img: seq<byte>, pending: seq<nat>, start: nat, j: nat, cur: nat,
                 taken: seq<nat>, kept: seq<nat>)
    requires Distinct(pending) && j < |pending|
    requires PassState(g, img, pending, start, j, cur, taken, kept) && FatEntry(g, img, pending[j]) == Ok(cur)
    ensures PassState(g, img, pending, start, j + 1, pending[j], taken + [pending[j]], kept)
  {
    PartedTake(pending, j, taken, kept);
    TurnedTake(g, img, pending, start, j, cur, taken, kept);
    TakeOne(g, img, start, taken, pending[j]);
  }

  /** A cluster of the pass whose entry does not hold cur is kept. */
  lemma PassKeep(g: Geometry, img: seq<byte>, pending: seq<nat>, start: nat, j: nat, cur: nat,
                 taken: seq<nat>, kept: seq<nat>)
    requires Distinct(pending) && j < |pending|
    requires PassState(g, img, pending, start, j, cur, taken, kept) && FatEntry(g, img, pending[j]) != Ok(cur)
    ensures PassState(g, img, pending, start, j + 1, cur, taken, kept + [pending[j]])
  {
    PartedKeep(pending, j, taken, kept);
    TurnedKeep(g, img, pending, start, j, cur, taken, kept);
  }

  lemma TakeOne(g: Geometry, img: seq<byte>, start: nat, taken: seq<nat>, c: nat)
    requires Backlinked(g, img, [start] + taken) && FatEntry(g, img, c) == Ok(([start] + taken)[|taken|])
    ensures Backlinked(g, img, [start] + (taken + [c])) && ([start] + (taken + [c]))[|taken| + 1] == c
    ensures c in taken + [c]
  {
    assert [start] + (taken + [c]) == [start] + taken + [c];
  }

  /** The result p of a pass over pending from start: p.start is Turn's
      start at the end, and each pending cluster is taken exactly when its
      entry holds the start the pass held on reaching it. */
  ghost predicate PassTurns(g: Geometry, img: seq<byte>, pending: seq<nat>, start: nat, p: Growth)
  {
    && p.start == Turn(g, img, pending, start, |pending|)
    && forall j :: 0 <= j < |pending| ==>
         (pending[j] in p.taken <==> Took(g, img, pending, start, j)) && (pending[j] in p.rest <==> !Took(g, img, pending, start, j))
  }

  /** The pass over every pending cluster. */
  lemma PassEnd(g: Geometry, img: seq<byte>, pending: seq<nat>, start: nat, cur: nat, taken: seq<nat>, kept: seq<nat>)
    requires start !in pending && PassState(g, img, pending, start, |pending|, cur, taken, kept)
    ensures multiset(taken) + multiset(kept) == multiset(pending) && Distinct(kept) && cur !in kept
    ensures Backlinked(g, img, [start] + taken) && cur == ([start] + taken)[|taken|]
    ensures PassTurns(g, img, pending, start, Growth(cur, taken, kept))
    ensures taken == [] <==> cur == start
    ensures taken == [] ==> Unlinked(g, img, kept, start)
  {
    assert pending[..|pending|] == pending;
    PartedEnd(pending, start, cur, taken, kept);
    if taken != [] {
      assert cur in taken;
      assert cur in multiset(pending);
    }
  }

  lemma PartedEnd(pending: seq<nat>, start: nat, cur: nat, taken: seq<nat>, kept: seq<nat>)
    requires start !in pending && Parted(pending, |pending|, taken, kept) && (cur == start || cur in taken)
    ensures multiset(taken) + multiset(kept) == multiset(pending) && cur !in kept
  {
    assert pending[..|pending|] == pending;
    assert multiset(kept) <= multiset(pending);
    assert start !in multiset(pending);
  }

  /** A pass p from start over rest, within the `while cs != start` loop
      of get_files: the group grows by what p took and its start moves to
      p's; the pending clusters shrink when p took any. */
  lemma GrowStep(g: Geometry, img: seq<byte>, n: nat, start: nat, taken: seq<nat>, rest: seq<nat>, p: Growth)
    requires Backlinked(g, img, [n] + taken) && start == ([n] + taken)[|taken|]
    requires multiset(p.taken) + multiset(p.rest) == multiset(rest)
    requires Backlinked(g, img, [start] + p.taken) && p.start == ([start] + p.taken)[|p.taken|]
    requires p.taken == [] <==> p.start == start
    ensures Backlinked(g, img, [n] + (taken + p.taken)) && p.start == ([n] + (taken + p.taken))[|taken + p.taken|]
    ensures multiset(taken + p.taken) + multiset(p.rest) == multiset(taken) + multiset(rest)
    ensures |p.rest| <= |rest| && (p.start != start ==> |p.rest| < |rest|)
  {
    BackJoin(g, img, [n] + taken, p.taken);
    assert [n] + (taken + p.taken) == ([n] + taken) + p.taken;
    assert |multiset(p.taken) + multiset(p.rest)| == |multiset(rest)|;
  }

  /** One pass of get_files from start over the pending clusters: each
      cluster whose entry holds the current start is taken and becomes the
      start, the others are kept in their order; the first entry that
      cannot be read fails the pass. */
  function PassOn(g: Geometry, img: seq<byte>, pending: seq<nat>, start: nat): (r: Result<Growth>)
    ensures r.Ok? ==> |r.value.taken| + |r.value.rest| == |pending|
    ensures r.Ok? ==> multiset(r.value.taken) + multiset(r.value.rest) == multiset(pending)
    ensures r.Ok? && r.value.taken == [] ==> r.value.start == start
    decreases |pending|
  {
    if |pending| == 0 then Ok(Growth(start, [], []))
    else
      assert pending == [pending[0]] + pending[1..];
      var e :- FatEntry(g, img, pending[0]);
      if e == start then
        var p :- PassOn(g, img, pending[1..], pending[0]);
        Ok(Growth(p.start, [pending[0]] + p.taken, p.rest))
      else
        var p :- PassOn(g, img, pending[1..], start);
        Ok(Growth(p.start, p.taken, [pending[0]] + p.rest))
  }

  /** get_files' `while cs != start` loop, with the group's clusters taken
      so far and the lost clusters rest still pending: while cs is not the
      start, cs becomes the start and a pass is made (ScanOn). */
  function GrowOn(g: Geometry, img: seq<byte>, cs: nat, start: nat, taken: seq<nat>, rest: seq<nat>): (r: Result<Growth>)
    ensures r.Ok? ==> |r.value.rest| <= |rest|
    decreases |rest|, if cs == start then 0 else 2, 0
  {
    if cs == start then Ok(Growth(start, taken, rest))
    else ScanOn(g, img, start, start, taken, [], rest)
  }

  /** A pass of that loop begun when cs was set, with kept the clusters it
      has passed over and todo those it has still to look at: a cluster
      whose entry holds the current start is taken and becomes the start,
      the others are kept in their order; once todo is done the kept
      clusters are what is pending and the loop tests cs again. */
  function ScanOn(g: Geometry, img: seq<byte>, cs: nat, start: nat, taken: seq<nat>, kept: seq<nat>, todo: seq<nat>)
    : (r: Result<Growth>)
    ensures r.Ok? ==> |r.value.rest| <= |kept| + |todo|
    decreases |kept| + |todo| + (if start == cs then 0 else 1), if start == cs then 1 else 0, |todo|
  {
    if |todo| == 0 then GrowOn(g, img, cs, start, taken, kept)
    else
      var e :- FatEntry(g, img, todo[0]);
      if e == start then ScanOn(g, img, cs, todo[0], taken + [todo[0]], kept, todo[1..])
      else ScanOn(g, img, cs, start, taken, kept + [todo[0]], todo[1..])
  }

  /** The loop after a pass r that began with taken and kept. */
  function PassThen(g: Geometry, img: seq<byte>, cs: nat, taken: seq<nat>, kept: seq<nat>, r: Result<Growth>): Result<Growth> {
    if r.Fail? then Fail(r.error) else GrowOn(g, img, cs, r.value.start, taken + r.value.taken, kept + r.value.rest)
  }

  /** A pass as ScanOn makes it is the pass PassOn, followed by the loop. */
  lemma {:induction false} ScanPass(g: Geometry, img: seq<byte>, cs: nat, start: nat, taken: seq<nat>, kept: seq<nat>,
                                    todo: seq<nat>)
    ensures ScanOn(g, img, cs, start, taken, kept, todo) == PassThen(g, img, cs, taken, kept, PassOn(g, img, todo, start))
    decreases |todo|
  {
    if |todo| == 0 {
      assert taken + [] == taken && kept + [] == kept;
    } else {
      var e := FatEntry(g, img, todo[0]);
      if e.Ok? {
        var t := todo[0];
        if e.value == start {
          ScanPass(g, img, cs, t, taken + [t], kept, todo[1..]);
          var p := PassOn(g, img, todo[1..], t);
          if p.Ok? {
            assert taken + [t] + p.value.taken == taken + ([t] + p.value.taken);
          }
        } else {
          ScanPass(g, img, cs, start, taken, kept + [t], todo[1..]);
          var p := PassOn(g, img, todo[1..], start);
          if p.Ok? {
            assert kept + [t] + p.value.rest == kept + ([t] + p.value.rest);
          }
        }
      }
    }
  }

  /** The group grown and the rest partition what was taken and pending. */
  lemma {:induction false} GrowOnSplit(g: Geometry, img: seq<byte>, cs: nat, start: nat, taken: seq<nat>, rest: seq<nat>)
    ensures var r := GrowOn(g, img, cs, start, taken, rest);
            r.Ok? ==> multiset(r.value.taken) + multiset(r.value.rest) == multiset(taken) + multiset(rest)
    decreases |rest|, if cs == start then 0 else 2, 0
  {
    if cs != start {
      ScanOnSplit(g, img, start, start, taken, [], rest);
    }
  }

  lemma {:induction false} ScanOnSplit(g: Geometry, img: seq<byte>, cs: nat, start: nat, taken: seq<nat>, kept: seq<nat>,
                                       todo: seq<nat>)
    ensures var r := ScanOn(g, img, cs, start, taken, kept, todo);
            r.Ok? ==> multiset(r.value.taken) + multiset(r.value.rest) == multiset(taken) + multiset(kept) + multiset(todo)
    decreases |kept| + |todo| + (if start == cs then 0 else 1), if start == cs then 1 else 0, |todo|
  {
    if |todo| == 0 {
      GrowOnSplit(g, img, cs, start, taken, kept);
    } else if FatEntry(g, img, todo[0]).Ok? {
      assert todo == [todo[0]] + todo[1..];
      if FatEntry(g, img, todo[0]).value == start {
        ScanOnSplit(g, img, cs, todo[0], taken + [todo[0]], kept, todo[1..]);
      } else {
        ScanOnSplit(g, img, cs, start, taken, kept + [todo[0]], todo[1..]);
      }
    }
  }

  /** The clusters counted by the (start, count) pairs. */
  function Counted(files: seq<(nat, nat)>): nat {
    if |files| == 0 then 0 else files[0].1 + Counted(files[1..])
  }

  lemma {:induction false} CountedSnoc(files: seq<(nat, nat)>, f: (nat, nat))
    ensures Counted(files + [f]) == Counted(files) + f.1
  {
    if |files| > 0 {
      assert (files + [f])[1..] == files[1..] + [f];
      CountedSnoc(files[1..], f);
    }
  }

  /** get_files(losted) with the (start, count) pairs files found so far:
      the front cluster is popped and grown into a group, which adds (its
      start, the number of clusters it took from the list); then the same
      on what is left. The forward loop of fix.py:145-147 is left out: it
      runs only when the popped cluster is still in the list, which a list
      without repeats rules out. */
  function GetFilesOn(g: Geometry, img: seq<byte>, files: seq<(nat, nat)>, pending: seq<nat>): (r: Result<seq<(nat, nat)>>)
    ensures r.Ok? ==> |files| <= |r.value|
    decreases |pending|
  {
    if |pending| == 0 then Ok(files)
    else
      var p :- GrowOn(g, img, 0, pending[0], [], pending[1..]);
      GetFilesOn(g, img, files + [(p.start, |pending| - |p.rest|)], p.rest)
  }

  /** Every lost cluster is counted once, and what was found stays in
      front. */
  lemma {:induction false} GetFilesCounted(g: Geometry, img: seq<byte>, files: seq<(nat, nat)>, pending: seq<nat>)
    ensures var r := GetFilesOn(g, img, files, pending);
            r.Ok? ==> Counted(r.value) == Counted(files) + |pending| && r.value[..|files|] == files
    decreases |pending|
  {
    if |pending| > 0 {
      var p := GrowOn(g, img, 0, pending[0], [], pending[1..]);
      if p.Ok? {
        var f := (p.value.start, |pending| - |p.value.rest|);
        CountedSnoc(files, f);
        GetFilesCounted(g, img, files + [f], p.value.rest);
        var r := GetFilesOn(g, img, files + [f], p.value.rest);
        assert r.Ok? ==> r.value[..|files|] == (files + [f])[..|files|];
      }
    }
  }

  /** What a pass yields once taken and kept are put in front of the rest
      of it. */
  function PassedAfter(taken: seq<nat>, kept: seq<nat>, r: Result<Growth>): Result<Growth> {
    if r.Fail? then r else Ok(Growth(r.value.start, taken + r.value.taken, kept + r.value.rest))
  }

  lemma PassOnStart(g: Geometry, img: seq<byte>, pending: seq<nat>, start: nat)
    ensures PassOn(g, img, pending, start) == PassedAfter([], [], PassOn(g, img, pending[0..], start))
  {
    assert pending[0..] == pending;
    var p := PassOn(g, img, pending, start);
    if p.Ok? {
      assert [] + p.value.taken == p.value.taken && [] + p.value.rest == p.value.rest;
    }
  }

  /** pending[j], whose entry holds cur, is taken. */
  lemma PassOnTake(g: Geometry, img: seq<byte>, pending: seq<nat>, j: nat, cur: nat, taken: seq<nat>, kept: seq<nat>)
    requires j < |pending| && FatEntry(g, img, pending[j]) == Ok(cur)
    ensures PassedAfter(taken, kept, PassOn(g, img, pending[j..], cur))
            == PassedAfter(taken + [pending[j]], kept, PassOn(g, img, pending[j + 1..], pending[j]))
  {
    assert pending[j..][1..] == pending[j + 1..];
    var p := PassOn(g, img, pending[j + 1..], pending[j]);
    if p.Ok? {
      assert taken + ([pending[j]] + p.value.taken) == taken + [pending[j]] + p.value.taken;
    }
  }

  /** pending[j], whose entry does not hold cur, is kept. */
  lemma PassOnKeep(g: Geometry, img: seq<byte>, pending: seq<nat>, j: nat, cur: nat, taken: seq<nat>, kept: seq<nat>)
    requires j < |pending| && FatEntry(g, img, pending[j]).Ok? && FatEntry(g, img, pending[j]).value != cur
    ensures PassedAfter(taken, kept, PassOn(g, img, pending[j..], cur))
            == PassedAfter(taken, kept + [pending[j]], PassOn(g, img, pending[j + 1..], cur))
  {
    assert pending[j..][1..] == pending[j + 1..];
    var p := PassOn(g, img, pending[j + 1..], cur);
    if p.Ok? {
      assert kept + ([pending[j]] + p.value.rest) == kept + [pending[j]] + p.value.rest;
    }
  }

  /** An entry that cannot be read fails the pass. */
  lemma PassOnFails(g: Geometry, img: seq<byte>, pending: seq<nat>, j: nat, cur: nat, taken: seq<nat>, kept: seq<nat>)
    requires j < |pending| && FatEntry(g, img, pending[j]).Fail?
    ensures PassedAfter(taken, kept, PassOn(g, img, pending[j..], cur)) == Fail(FatEntry(g, img, pending[j]).error)
  {
  }

  lemma PassOnEnd(g: Geometry, img: seq<byte>, pending: seq<nat>, cur: nat, taken: seq<nat>, kept: seq<nat>)
    ensures PassedAfter(taken, kept, PassOn(g, img, pending[|pending|..], cur)) == Ok(Growth(cur, taken, kept))
  {
    assert pending[|pending|..] == [];
    assert taken + [] == taken && kept + [] == kept;
  }

  /** A round of get_files' outer loop that fails fails get_files. */
  lemma GetFilesFails(g: Geometry, img: seq<byte>, files: seq<(nat, nat)>, pending: seq<nat>)
    requires |pending| > 0 && GrowOn(g, img, 0, pending[0], [], pending[1..]).Fail?
    ensures GetFilesOn(g, img, files, pending) == Fail(GrowOn(g, img, 0, pending[0], [], pending[1..]).error)
  {
  }

  /** One round of get_files' outer loop: the group p grown from the front
      cluster adds f, and get_files goes on with the rest. */
  lemma GetFilesStep(g: Geometry, img: seq<byte>, files: seq<(nat, nat)>, pending: seq<nat>, p: Growth, f: (nat, nat))
    requires |pending| > 0 && GrowOn(g, img, 0, pending[0], [], pending[1..]) == Ok(p)
    requires f == (p.start, |pending| - |p.rest|)
    ensures GetFilesOn(g, img, files, pending) == GetFilesOn(g, img, files + [f], p.rest)
  {
  }

  /** Backward-only grouping: with losted [3, 5, 7], FAT[7] = 3, FAT[3] = 5
      and 5 ending its chain, 3 is popped and grows back to 7, while 5,
      which follows 3 in the chain, becomes a file of its own. */
  lemma GetFilesBackward(g: Geometry, img: seq<byte>)
    requires FatEntry(g, img, 3) == Ok(5) && FatEntry(g, img, 5) == Ok(EOC) && FatEntry(g, img, 7) == Ok(3)
    ensures GetFilesOn(g, img, [], [3, 5, 7]) == Ok([(7, 2), (5, 1)])
  {
    var s: seq<nat> := [3, 5, 7];
    assert s[1..] == [5, 7] && [5, 7][1..] == [7] && [7][1..] == [] && [5][1..] == [];
    assert [] + [5] == [5] && [] + [7] == [7];
    assert ScanOn(g, img, 7, 7, [7], [5], []) == Ok(Growth(7, [7], [5]));
    assert ScanOn(g, img, 7, 7, [7], [], [5]) == Ok(Growth(7, [7], [5]));
    assert GrowOn(g, img, 3, 7, [7], [5]) == Ok(Growth(7, [7], [5]));
    assert ScanOn(g, img, 3, 7, [7], [5], []) == Ok(Growth(7, [7], [5]));
    assert ScanOn(g, img, 3, 3, [], [5], [7]) == Ok(Growth(7, [7], [5]));
    assert ScanOn(g, img, 3, 3, [], [], [5, 7]) == Ok(Growth(7, [7], [5]));
    assert GrowOn(g, img, 0, 3, [], [5, 7]) == Ok(Growth(7, [7], [5]));
    assert ScanOn(g, img, 5, 5, [], [], []) == Ok(Growth(5, [], []));
    assert GrowOn(g, img, 0, 5, [], []) == Ok(Growth(5, [], []));
    assert [] + [(7, 2)] == [(7, 2)] && [(7, 2)] + [(5, 1)] == [(7, 2), (5, 1)];
    assert GetFilesOn(g, img, [(7, 2), (5, 1)], []) == Ok([(7, 2), (5, 1)]);
    assert GetFilesOn(g, img, [(7, 2)], [5]) == Ok([(7, 2), (5, 1)]);
  }

  /** When two pending clusters link to the start, the pass takes the
      first and the start moves to it, so the second no longer matches. */
  lemma GrowTakesFirst(g: Geometry, img: seq<byte>)
    requires FatEntry(g, img, 5) == Ok(3) && FatEntry(g, img, 7) == Ok(3)
    ensures GrowOn(g, img, 0, 3, [], [5, 7]) == Ok(Growth(5, [5], [7]))
  {
    assert [5, 7][1..] == [7] && [7][1..] == [] && [] + [5] == [5] && [] + [7] == [7];
    assert ScanOn(g, img, 5, 5, [5], [7], []) == Ok(Growth(5, [5], [7]));
    assert ScanOn(g, img, 5, 5, [5], [], [7]) == Ok(Growth(5, [5], [7]));
    assert GrowOn(g, img, 3, 5, [5], [7]) == Ok(Growth(5, [5], [7]));
    assert ScanOn(g, img, 3, 5, [5], [7], []) == Ok(Growth(5, [5], [7]));
    assert ScanOn(g, img, 3, 5, [5], [], [7]) == Ok(Growth(5, [5], [7]));
    assert ScanOn(g, img, 3, 3, [], [], [5, 7]) == Ok(Growth(5, [5], [7]));
  }

  /** The list get_files pops its front cluster from. */
  lemma PopFront(pending: seq<nat>)
    requires Distinct(pending) && |pending| > 0
    ensures Distinct(pending[1..]) && pending[0] !in pending[1..]
  {
    assert forall a :: 0 <= a < |pending[1..]| ==> pending[1..][a] == pending[a + 1];
  }

  /** A group grown from the popped front cluster over the rest of the
      list: with it, the group takes its clusters out of the whole list. */
  lemma PoppedGroup(g: Geometry, img: seq<byte>, pending: seq<nat>, p: Growth)
    requires |pending| > 0 && multiset(p.taken) + multiset(p.rest) == multiset(pending[1..])
    requires Backlinked(g, img, [pending[0]] + p.taken) && p.start == ([pending[0]] + p.taken)[|p.taken|]
    ensures var members := [pending[0]] + p.taken;
            && multiset(members) + multiset(p.rest) == multiset(pending)
            && |members| == |pending| - |p.rest| && Backlinked(g, img, members) && p.start == members[|members| - 1]
  {
    assert pending == [pending[0]] + pending[1..];
    assert |p.taken| + |p.rest| == |pending[1..]| by {
      assert |multiset(p.taken) + multiset(p.rest)| == |multiset(pending[1..])|;
    }
  }

  /** No pending cluster links to the start of a group whose first
      cluster is not 0: get_files' passes would have taken it. */
  ghost predicate Sealed(g: Geometry, img: seq<byte>, groups: seq<seq<nat>>, files: seq<(nat, nat)>, pending: seq<nat>)
    requires |files| == |groups|
  {
    forall k :: 0 <= k < |groups| && |groups[k]| > 0 && groups[k][0] != 0 ==>
      Unlinked(g, img, pending, files[k].0)
  }

  /** No cluster of a later group links to the start of an earlier group
      whose first cluster is not 0. */
  ghost predicate Apart(g: Geometry, img: seq<byte>, groups: seq<seq<nat>>, files: seq<(nat, nat)>)
    requires |files| == |groups|
  {
    forall k, k' {:trigger Unlinked(g, img, groups[k'], files[k].0)} ::
      0 <= k < k' < |groups| && |groups[k]| > 0 && groups[k][0] != 0 ==> Unlinked(g, img, groups[k'], files[k].0)
  }

  /** A new group cut from the pending clusters keeps both. */
  lemma SealStep(g: Geometry, img: seq<byte>, groups: seq<seq<nat>>, files: seq<(nat, nat)>, pending: seq<nat>,
                 members: seq<nat>, f: (nat, nat), rest: seq<nat>)
    requires |files| == |groups| && Sealed(g, img, groups, files, pending) && Apart(g, img, groups, files)
    requires multiset(members) + multiset(rest) == multiset(pending) && |members| > 0
    requires members[0] != 0 ==> Unlinked(g, img, rest, f.0)
    ensures Sealed(g, img, groups + [members], files + [f], rest) && Apart(g, img, groups + [members], files + [f])
  {
    assert forall x :: x in rest ==> x in multiset(pending);
    assert forall x :: x in members ==> x in multiset(pending);
    assert forall x :: x in rest ==> x in pending;
    assert forall x :: x in members ==> x in pending;
  }

  /** What get_files' outer loop keeps of the groups: the groups closed
      so far and the pending clusters account for every lost cluster once,
      the groups are backlinked and Apart, and no pending cluster links to
      a closed group's start. */
  ghost predicate Gathered(g: Geometry, img: seq<byte>, losted: seq<nat>, groups: seq<seq<nat>>,
                           files: seq<(nat, nat)>, pending: seq<nat>)
  {
    && multiset(Concat(groups)) + multiset(pending) == multiset(losted)
    && Grouping(g, img, groups, files)
    && Sealed(g, img, groups, files, pending) && Apart(g, img, groups, files)
  }

  /** What get_files' outer loop keeps: the pending clusters have no
      repeats and len_ is their number, the groups are Gathered, and what
      get_files returns is what it returns from here on. */
  ghost predicate Gathering(g: Geometry, img: seq<byte>, losted: seq<nat>, groups: seq<seq<nat>>,
                            files: seq<(nat, nat)>, pending: seq<nat>, len: nat)
  {
    && Distinct(pending) && len == |pending| && Gathered(g, img, losted, groups, files, pending)
    && GetFilesOn(g, img, [], losted) == GetFilesOn(g, img, files, pending)
  }

  /** Before get_files pops anything, every lost cluster is pending. */
  lemma GatherStart(g: Geometry, img: seq<byte>, losted: seq<nat>)
    requires Distinct(losted)
    ensures Gathering(g, img, losted, [], [], losted, |losted|)
  {
    assert Concat([]) == [];
  }

  /** Once nothing is pending, the groups hold every lost cluster and
      get_files returns the files found. */
  lemma GatherEnd(g: Geometry, img: seq<byte>, losted: seq<nat>, groups: seq<seq<nat>>, files: seq<(nat, nat)>,
                  pending: seq<nat>, len: nat)
    requires |pending| == 0 && Gathering(g, img, losted, groups, files, pending, len)
    ensures multiset(Concat(groups)) == multiset(losted) && Grouping(g, img, groups, files) && Apart(g, img, groups, files)
    ensures GetFilesOn(g, img, [], losted) == Ok(files)
  {
    assert multiset(pending) == multiset{};
  }

  /** A group grown from the front cluster closes: members are its
      clusters, f its (start, count) and rest what stays pending. */
  lemma GatherStep(g: Geometry, img: seq<byte>, losted: seq<nat>, groups: seq<seq<nat>>, files: seq<(nat, nat)>,
                   pending: seq<nat>, p: Growth, members: seq<nat>, f: (nat, nat))
    requires |pending| > 0 && Gathered(g, img, losted, groups, files, pending)
    requires members == [pending[0]] + p.taken && f == (p.start, |pending| - |p.rest|)
    requires && multiset(members) + multiset(p.rest) == multiset(pending)
             && |members| == |pending| - |p.rest| && Backlinked(g, img, members) && p.start == members[|members| - 1]
    requires pending[0] != 0 ==> Unlinked(g, img, p.rest, p.start)
    ensures Gathered(g, img, losted, groups + [members], files + [f], p.rest)
  {
    Regroup(groups, members, pending, p.rest, losted);
    GroupingSnoc(g, img, groups, files, members, f);
    SealStep(g, img, groups, files, pending, members, f, p.rest);
  }

  /** The index of the first entry of files named n; |files| when none
      is. */
  function FirstNamed(files: seq<MyFile>, n: Name): (r: nat)
    ensures r <= |files|
    ensures r < |files| ==> files[r].name == n
    ensures forall j :: 0 <= j < r ==> files[j].name != n
  {
    if |files| == 0 then 0
    else if files[0].name == n then 0
    else 1 + FirstNamed(files[1..], n)
  }

  /** cur is a directory other than start 0, and files is its listing on
      img. */
  ghost predicate InDir(g: Geometry, img: seq<byte>, cur: MyFile, files: seq<MyFile>) {
    cur.kind == Dir && cur.start != 0 && ListDir(g, img, cur) == Ok(files)
  }

  /** The loop `for f in files: if str(f) == n: cd(f); break` from cur,
      ending in r with current cur' and listing files': with no entry
      named n nothing happens; otherwise the first one is cd'd to, which
      refuses a file and lists a directory on img. */
  ghost predicate Entered(g: Geometry, img: seq<byte>, cur: MyFile, files: seq<MyFile>, n: Name,
                          r: Outcome, cur': MyFile, files': seq<MyFile>)
  {
    var i := FirstNamed(files, n);
    && (i == |files| ==> r == Done && cur' == cur && files' == files)
    && (i < |files| && files[i].kind == File ==> r == Failed(NotADirectory(files[i].name)) && cur' == cur && files' == files)
    && (i < |files| && files[i].kind == Dir ==>
          var l := ListDir(g, img, CdTarget(files[i]));
          cur' == CdTarget(files[i]) && (r.Done? <==> l.Ok?) && (l.Ok? ==> files' == l.value)
          && (l.Fail? ==> r == Failed(l.error)))
  }

  /** From a directory, the loop ends in one: the same, or the directory
      named n it entered. */
  lemma EnteredInDir(g: Geometry, img: seq<byte>, cur: MyFile, files: seq<MyFile>, n: Name,
                     r: Outcome, cur': MyFile, files': seq<MyFile>)
    requires InDir(g, img, cur, files) && Entered(g, img, cur, files, n, r, cur', files')
    ensures r.Done? ==> InDir(g, img, cur', files') && (cur' == cur || (cur'.name == n && cur'.kind == Dir) || cur' == Root)
  {
  }

  /** One file repair_losted creates: on image img, where the directory
      lists listing, cf(name, start, size) gives the image after. */
  datatype Filed = Filed(img: seq<byte>, listing: seq<MyFile>, name: Name, start: nat, size: nat, after: seq<byte>)

  /** What repair_losted did once the directory dir was entered on the
      image mid: get_files grouped the lost clusters into groups with
      (start, count) files, and steps[k] created the file of group k. */
  datatype Salvage = Salvage(mid: seq<byte>, dir: MyFile, groups: seq<seq<nat>>, files: seq<(nat, nat)>, steps: seq<Filed>)

  /** The name get_losted_name gives in a directory listing files: the
      first FILE.n not listed. */
  ghost predicate FirstFree(name: Name, files: seq<MyFile>) {
    name !in Names(files) && exists n: nat :: name == LostName(n) && forall m: nat :: m < n ==> LostName(m) in Names(files)
  }

  /** A step of the loop of repair_losted: dir's listing is read, the file
      is named as get_losted_name names it, and cf creates it. */
  ghost predicate CfDone(g: Geometry, writable: bool, c: Clock, dir: MyFile, f: Filed) {
    && g.Valid() && c.Valid()
    && ListDir(g, f.img, dir) == Ok(f.listing) && FirstFree(f.name, f.listing)
    && CfOn(g, f.img, writable, dir, f.listing, f.name, f.start, f.size, c) == Ok(f.after)
  }

  /** The image after the steps, the first of which works on start. */
  function Final(start: seq<byte>, steps: seq<Filed>): seq<byte> {
    if |steps| == 0 then start else steps[|steps| - 1].after
  }

  /** Step k of repair_losted from the image mid: it works on the image
      the steps before it left, and creates the file of group k, starting
      at the group's start with count times len_clus bytes. */
  ghost predicate StepOk(g: Geometry, writable: bool, c: Clock, dir: MyFile, files: seq<(nat, nat)>, mid: seq<byte>,
                         steps: seq<Filed>, k: nat)
    requires k < |steps| && k < |files|
  {
    && steps[k].img == Final(mid, steps[..k])
    && steps[k].start == files[k].0 && steps[k].size == files[k].1 * g.lenClus
    && CfDone(g, writable, c, dir, steps[k])
  }

  /** The steps of repair_losted from the image mid, one per group of
      files so far, each StepOk. */
  ghost predicate FiledAs(g: Geometry, writable: bool, c: Clock, dir: MyFile, files: seq<(nat, nat)>, mid: seq<byte>,
                          steps: seq<Filed>)
    decreases |steps|
  {
    && |steps| <= |files|
    && (|steps| > 0 ==>
          && FiledAs(g, writable, c, dir, files, mid, steps[..|steps| - 1])
          && StepOk(g, writable, c, dir, files, mid, steps, |steps| - 1))
  }

  /** Each step of the steps is StepOk. */
  lemma {:induction false} FiledAt(g: Geometry, writable: bool, c: Clock, dir: MyFile, files: seq<(nat, nat)>, mid: seq<byte>,
                                   steps: seq<Filed>, k: nat)
    requires FiledAs(g, writable, c, dir, files, mid, steps) && k < |steps|
    ensures k < |files| && StepOk(g, writable, c, dir, files, mid, steps, k)
    decreases |steps|
  {
    if k < |steps| - 1 {
      var p := steps[..|steps| - 1];
      FiledAt(g, writable, c, dir, files, mid, p, k);
      StepOkPrefix(g, writable, c, dir, files, mid, steps, |steps| - 1, k);
    }
  }

  /** StepOk of step k looks only at the steps up to k. */
  lemma StepOkPrefix(g: Geometry, writable: bool, c: Clock, dir: MyFile, files: seq<(nat, nat)>, mid: seq<byte>,
                     steps: seq<Filed>, n: nat, k: nat)
    requires k < n <= |steps| && k < |files| && StepOk(g, writable, c, dir, files, mid, steps[..n], k)
    ensures StepOk(g, writable, c, dir, files, mid, steps, k)
  {
    assert steps[..n][k] == steps[k] && steps[..n][..k] == steps[..k];
  }

  /** What repair_losted did: the lost clusters are split into the groups
      of get_files on mid, and one file per group was created, in order. */
  ghost predicate Salvaged(g: Geometry, writable: bool, c: Clock, losted: seq<nat>, s: Salvage)
  {
    && GetFilesOn(g, s.mid, [], losted) == Ok(s.files) && |s.files| == |s.steps|
    && multiset(Concat(s.groups)) == multiset(losted) && Grouping(g, s.mid, s.groups, s.files) && Apart(g, s.mid, s.groups, s.files)
    && FiledAs(g, writable, c, s.dir, s.files, s.mid, s.steps)
  }

  lemma SalvagedBy(g: Geometry, writable: bool, c: Clock, losted: seq<nat>, s: Salvage)
    requires GetFilesOn(g, s.mid, [], losted) == Ok(s.files) && |s.files| == |s.steps|
    requires multiset(Concat(s.groups)) == multiset(losted) && Grouping(g, s.mid, s.groups, s.files) && Apart(g, s.mid, s.groups, s.files)
    requires FiledAs(g, writable, c, s.dir, s.files, s.mid, s.steps)
    ensures Salvaged(g, writable, c, losted, s)
  {
  }

  /** count clusters of len_clus bytes, as repair_losted sizes a file. */
  function Bytes(count: nat, lenClus: nat): nat {
    count * lenClus
  }

  /** One more step of repair_losted keeps the earlier ones. */
  lemma FiledSnoc(g: Geometry, writable: bool, c: Clock, dir: MyFile, files: seq<(nat, nat)>, mid: seq<byte>,
                  steps: seq<Filed>, f: Filed)
    requires |steps| < |files| && FiledAs(g, writable, c, dir, files, mid, steps)
    requires f.img == Final(mid, steps) && f.start == files[|steps|].0 && f.size == files[|steps|].1 * g.lenClus
    requires CfDone(g, writable, c, dir, f)
    ensures FiledAs(g, writable, c, dir, files, mid, steps + [f])
  {
    var s := steps + [f];
    assert s[..|steps|] == steps && s[|steps|] == f;
    assert StepOk(g, writable, c, dir, files, mid, s, |steps|);
  }

  // ---------------------------------------------------------------------
  // The Fixer

  const LOSTFOUND: Name := U("LOSTFOUND")

  /** Some cluster of cl was visited already. */
  predicate Crosses(cl: seq<nat>, visited: seq<nat>) {
    exists i :: 0 <= i < |cl| && cl[i] in visited
  }

  /** The loop `for c in clusters: if c in visited` of check_crosses: it
      stops at the first visited cluster, or runs out. */
  method FindVisited(cl: seq<nat>, visited: seq<nat>) returns (found: bool)
    ensures found <==> Crosses(cl, visited)
  {
    for i := 0 to |cl|
      invariant forall j :: 0 <= j < i ==> cl[j] !in visited
    {
      if cl[i] in visited {
        return true;
      }
    }
    return false;
  }

  class Fixer {
    /** The Reader the Fixer extends: image, geometry, current directory
        and listing. */
    const rd: Reader
    /** self.errors: the repair log. */
    var errors: seq<string>
    /** self.ps: the start of the directory fix_crosses last descended
        from, which fix_dir_struct writes as "..". */
    var ps: nat

    ghost predicate Valid() {
      rd.Valid() && rd.writable
    }

    /** The part of __init__ after the image is opened for writing. */
    constructor Over(reader: Reader)
      requires reader.Valid() && reader.writable
      ensures Valid() && rd == reader && errors == [] && ps == 0
    {
      rd := reader;
      errors := [];
      ps := 0;
    }

    /** fix_self_crossing(start). */
    method FixSelfCrossing(start: nat) returns (r: Result<seq<nat>>)
      modifies this, rd.img
      ensures ps == old(ps) && Grew(old(errors), errors)
      ensures CrossingFixed(rd.g, old(rd.img[..]), start, r, rd.img[..], old(errors), errors)
    {
      ghost var before := rd.img[..];
      var ch := rd.GetClusters(start);
      if ch.Fail? {
        return Fail(ch.error);
      }
      var cl := ch.value.clusters;
      // a crossed chain is never empty, and its last entry was just read
      CrossingFixedOk(rd.g, before, start, errors);
      if ch.value.crossed.Some? {
        errors := errors + [SELF_CROSSED];
        EocBytes();
        var _ := rd.SetEntry(cl[|cl| - 1], EOC);
      }
      r := Ok(cl);
    }

    /** fix_size(f, size): "Illegal size" is logged and the size field of
        f's last record in the current directory is rewritten. */
    method FixSize(f: MyFile, size: nat) returns (r: Outcome)
      requires Valid()
      modifies this, rd.img
      ensures ps == old(ps) && errors == old(errors) + [ILLEGAL_SIZE]
      ensures var w := FixSizeOn(rd.g, old(rd.img[..]), rd.current.start, f, size);
              (r.Done? <==> w.Ok?) && (w.Ok? ==> rd.img[..] == w.value) && (w.Fail? ==> r == Failed(w.error))
    {
      errors := errors + [ILLEGAL_SIZE];
      var s := f.first + f.count;
      var data := rd.GetData(rd.current.start);
      if data.Fail? {
        return Failed(data.error);
      }
      r := rd.WriteData(rd.current.start, SizePatched(data.value, s, size));
    }

    /** fix_dir_struct(d): "Wrong directory structure" is logged and d's
        data is rewritten with "." and ".." in front. */
    method FixDirStruct(d: MyFile, c: Clock) returns (r: Outcome)
      requires Valid() && c.Valid()
      modifies this, rd.img
      ensures ps == old(ps) && errors == old(errors) + [WRONG_STRUCTURE]
      ensures var w := FixDirStructOn(rd.g, old(rd.img[..]), d, ps, |rd.files|, c);
              (r.Done? <==> w.Ok?) && (w.Ok? ==> rd.img[..] == w.value) && (w.Fail? ==> r == Failed(w.error))
    {
      errors := errors + [WRONG_STRUCTURE];
      var data := rd.GetData(d.start);
      if data.Fail? {
        return Failed(data.error);
      }
      var kept, zeroes := Strip(data.value);
      r := rd.WriteData(d.start, DirHeader(d.start, ps, |rd.files|, c) + kept + Zeros(zeroes));
    }

    /** The loop of fix_dir_struct: record i of the current buffer is cut
        out when removable, and 32 zero bytes are counted for it. */
    static method Strip(data: seq<byte>) returns (kept: seq<byte>, zeroes: nat)
      ensures (kept, zeroes) == Stripped(data)
    {
      kept, zeroes := data, 0;
      var n := |data| / 32;
      for i := 0 to n
        invariant StripFrom(kept, i, n, zeroes) == Stripped(data)
      {
        var zeroed := PySlice(kept, 32 * i, 32 * (i + 1)) == Zeros(32);
        if Occurs(PySlice(kept, 32 * i, 32 * i + 2), DOTS) || zeroed {
          kept := PySlice(kept, 0, 32 * i) + PySlice(kept, 32 * (i + 1), |kept|);
          zeroes := zeroes + 32;
        }
      }
    }

    /** copy_clust(last, target). */
    method CopyClust(last: nat, target: nat) returns (r: Outcome)
      requires Valid()
      modifies rd.img
      ensures var w := CopyClustOn(rd.g, old(rd.img[..]), last, target);
              (r.Done? <==> w.Ok?) && (w.Ok? ==> rd.img[..] == w.value) && (w.Fail? ==> r == Failed(w.error))
    {
      if last < 2 {
        return Failed(BelowData);
      }
      var data := ClusterBytes(rd.g, rd.img[..], last);
      r := rd.UpwriteDataByCluster(target, data);
    }

    /** get_losted_name: the first FILE.n, counting from 0, that the current
        listing does not hold. */
    method GetLostedName() returns (name: Name)
      ensures name !in Names(rd.files)
      ensures exists n: nat :: name == LostName(n) && forall m: nat :: m < n ==> LostName(m) in Names(rd.files)
    {
      var n: nat := 0;
      var names := Names(rd.files);
      while LostName(n) in names
        invariant forall m: nat :: m < n ==> LostName(m) in names
        decreases Pow10(Longest(names)) - n
      {
        TakenNameBound(names, n);
        n := n + 1;
      }
      name := LostName(n);
    }
  
    /** The scan of __init__: entries are read in order from the FAT's
        start, and the non-zero ones not visited are lost. */
    method Orphans(visited: seq<nat>) returns (r: Result<seq<nat>>)
      ensures r == OrphansFrom(rd.g, rd.img[..], visited, 0)
      ensures r.Ok? ==> Distinct(r.value)
    {
      OrphansOrder(rd.g, rd.img[..], visited, 0);
      var lost: seq<nat> := [];
      var i: nat := 0;
      assert OrphansFrom(rd.g, rd.img[..], visited, 0).Ok? ==>
               lost + OrphansFrom(rd.g, rd.img[..], visited, 0).value == OrphansFrom(rd.g, rd.img[..], visited, 0).value;
      while i < rd.g.Entries()
        invariant i <= rd.g.Entries()
        invariant OrphansFrom(rd.g, rd.img[..], visited, 0) == Joined(lost, OrphansFrom(rd.g, rd.img[..], visited, i))
        decreases rd.g.Entries() - i
      {
        var v := FatEntry(rd.g, rd.img[..], i);
        if v.Fail? {
          return Fail(v.error);
        }
        OrphanStep(rd.g, rd.img[..], visited, i, lost);
        lost := lost + (if v.value != 0 && i !in visited then [i] else []);
        i := i + 1;
      }
      assert OrphansFrom(rd.g, rd.img[..], visited, i) == Ok([]);
      assert lost + [] == lost;
      r := Ok(lost);
      IncreasingDistinct(lost);
    }

    /** get_files(losted): lost clusters are taken from the front one at a
        time; each grows backwards into a group by repeated passes over the
        rest, a pass taking every cluster whose entry holds the group's
        current start (which that cluster then becomes), until a pass takes
        nothing. The result lists (start, number of clusters) per group;
        groups holds each group's clusters in the order taken. */
    method GetFiles(losted: seq<nat>) returns (r: Result<seq<(nat, nat)>>, ghost groups: seq<seq<nat>>)
      requires Distinct(losted)
      ensures r.Ok? ==> multiset(Concat(groups)) == multiset(losted) && Grouping(rd.g, rd.img[..], groups, r.value)
      ensures r.Ok? ==> Apart(rd.g, rd.img[..], groups, r.value)
      ensures r == GetFilesOn(rd.g, rd.img[..], [], losted)
    {
      var pending := losted;
      var files: seq<(nat, nat)> := [];
      groups := [];
      var len: nat := |losted|;
      GatherStart(rd.g, rd.img[..], losted);
      while |pending| > 0
        invariant Gathering(rd.g, rd.img[..], losted, groups, files, pending, len)
        decreases |pending|
      {
        var done;
        done, files, groups, pending, len := Round(losted, groups, files, pending, len);
        if done.Failed? {
          return Fail(done.error), groups;
        }
      }
      GatherEnd(rd.g, rd.img[..], losted, groups, files, pending, len);
      r := Ok(files);
    }

    /** One turn of get_files' outer loop: the group grown from the front
        cluster closes, (its start, len_ - len(losted)) is appended to the
        files and len_ becomes len(losted). */
    method Round(ghost losted: seq<nat>, ghost groups: seq<seq<nat>>, files: seq<(nat, nat)>, pending: seq<nat>, len: nat)
      returns (r: Outcome, files': seq<(nat, nat)>, ghost groups': seq<seq<nat>>, pending': seq<nat>, len': nat)
      requires |pending| > 0 && Gathering(rd.g, rd.img[..], losted, groups, files, pending, len)
      ensures r.Failed? ==> GetFilesOn(rd.g, rd.img[..], [], losted) == Fail(r.error)
      ensures r.Done? ==> Gathering(rd.g, rd.img[..], losted, groups', files', pending', len') && |pending'| < |pending|
    {
      var next, members := Close(losted, groups, files, pending, len);
      if next.Fail? {
        GetFilesFails(rd.g, rd.img[..], files, pending);
        return Failed(next.error), files, groups, pending, len;
      }
      var start, rest := next.value.start, next.value.rest;
      var count: nat := len - |rest|;
      var f: (nat, nat) := (start, count);
      GetFilesStep(rd.g, rd.img[..], files, pending, next.value, f);
      r, files', groups', pending', len' := Done, files + [f], groups + [members], rest, |rest|;
    }

    /** The group grown from the front cluster closes: members are its
        clusters. */
    method Close(ghost losted: seq<nat>, ghost groups: seq<seq<nat>>, ghost files: seq<(nat, nat)>, pending: seq<nat>,
                 ghost len: nat)
      returns (r: Result<Growth>, ghost members: seq<nat>)
      requires Distinct(pending) && |pending| > 0 && len == |pending| && Gathered(rd.g, rd.img[..], losted, groups, files, pending)
      ensures r == GrowOn(rd.g, rd.img[..], 0, pending[0], [], pending[1..])
      ensures r.Ok? ==> Distinct(r.value.rest) && |r.value.rest| < |pending|
      ensures r.Ok? ==> Gathered(rd.g, rd.img[..], losted, groups + [members], files + [(r.value.start, len - |r.value.rest|)], r.value.rest)
    {
      r := NextGroup(pending);
      members := [];
      if r.Ok? {
        members := [pending[0]] + r.value.taken;
        GatherStep(rd.g, rd.img[..], losted, groups, files, pending, r.value, members, (r.value.start, len - |r.value.rest|));
      }
    }

    /** One round of get_files' outer loop: the front cluster is popped and
        its group grown over the rest. */
    method NextGroup(pending: seq<nat>) returns (r: Result<Growth>)
      requires Distinct(pending) && |pending| > 0
      ensures r.Ok? ==>
                var p := r.value;
                var members := [pending[0]] + p.taken;
                && multiset(members) + multiset(p.rest) == multiset(pending) && Distinct(p.rest)
                && |members| == |pending| - |p.rest| && Backlinked(rd.g, rd.img[..], members)
                && p.start == members[|members| - 1]
      ensures r.Ok? && pending[0] != 0 ==> Unlinked(rd.g, rd.img[..], r.value.rest, r.value.start)
      ensures pending[0] == 0 ==> r == Ok(Growth(0, [], pending[1..]))
      ensures r == GrowOn(rd.g, rd.img[..], 0, pending[0], [], pending[1..])
    {
      var n := pending[0];
      var rest := pending[1..];
      // the forward loop of get_files: n was just taken from a list
      // without duplicates, so `n in losted` is false and it never runs
      PopFront(pending);
      r := Grow(rest, n);
      if r.Ok? {
        PoppedGroup(rd.g, rd.img[..], pending, r.value);
      }
    }

    /** The `while cs != start` loop of get_files for the group popped as
        n, over the lost clusters pending. */
    method Grow(pending: seq<nat>, n: nat) returns (r: Result<Growth>)
      requires Distinct(pending) && n !in pending
      ensures r.Ok? ==>
                var p := r.value;
                && multiset(p.taken) + multiset(p.rest) == multiset(pending) && Distinct(p.rest)
                && Backlinked(rd.g, rd.img[..], [n] + p.taken) && p.start == ([n] + p.taken)[|p.taken|]
      ensures r.Ok? && n != 0 ==> Unlinked(rd.g, rd.img[..], r.value.rest, r.value.start)
      ensures n == 0 ==> r == Ok(Growth(0, [], pending))
      ensures r == GrowOn(rd.g, rd.img[..], 0, n, [], pending)
    {
      var cs: nat := 0;
      var start := n;
      var rest := pending;
      var taken: seq<nat> := [];
      ghost var passed := false;
      while cs != start
        invariant Distinct(rest) && start !in rest
        invariant multiset(taken) + multiset(rest) == multiset(pending)
        invariant Backlinked(rd.g, rd.img[..], [n] + taken) && start == ([n] + taken)[|taken|]
        invariant !passed ==> cs == 0 && start == n && taken == [] && rest == pending
        invariant passed ==> n != 0
        invariant passed && cs == start ==> Unlinked(rd.g, rd.img[..], rest, start)
        invariant GrowOn(rd.g, rd.img[..], 0, n, [], pending) == GrowOn(rd.g, rd.img[..], cs, start, taken, rest)
        decreases |rest| + (if cs != start then 1 else 0)
      {
        cs := start;
        var p := Pass(rest, start);
        ScanPass(rd.g, rd.img[..], start, start, taken, [], rest);
        if p.Fail? {
          return Fail(p.error);
        }
        passed := true;
        GrowStep(rd.g, rd.img[..], n, start, taken, rest, p.value);
        assert [] + p.value.rest == p.value.rest;
        start, taken, rest := p.value.start, taken + p.value.taken, p.value.rest;
      }
      r := Ok(Growth(start, taken, rest));
    }

    /** One pass of get_files over the pending clusters: each whose entry
        holds the current start (Turn) is taken and becomes the start.
        Removing each taken cluster once from a list without duplicates
        leaves the clusters the pass did not take, in their order. */
    method Pass(pending: seq<nat>, start: nat) returns (r: Result<Growth>)
      requires Distinct(pending) && start !in pending
      ensures r.Ok? ==>
                var p := r.value;
                && multiset(p.taken) + multiset(p.rest) == multiset(pending) && Distinct(p.rest) && p.start !in p.rest
                && Backlinked(rd.g, rd.img[..], [start] + p.taken) && p.start == ([start] + p.taken)[|p.taken|]
      ensures r.Ok? ==> PassTurns(rd.g, rd.img[..], pending, start, r.value)
      ensures r.Ok? ==> (r.value.taken == [] <==> r.value.start == start)
      ensures r.Ok? && r.value.taken == [] ==> Unlinked(rd.g, rd.img[..], r.value.rest, start)
      ensures r == PassOn(rd.g, rd.img[..], pending, start)
    {
      var cur := start;
      var taken: seq<nat> := [];
      var kept: seq<nat> := [];
      PassOnStart(rd.g, rd.img[..], pending, start);
      for j := 0 to |pending|
        invariant PassState(rd.g, rd.img[..], pending, start, j, cur, taken, kept)
        invariant PassOn(rd.g, rd.img[..], pending, start) == PassedAfter(taken, kept, PassOn(rd.g, rd.img[..], pending[j..], cur))
      {
        var c := pending[j];
        var e := FatEntry(rd.g, rd.img[..], c);
        if e.Fail? {
          PassOnFails(rd.g, rd.img[..], pending, j, cur, taken, kept);
          return Fail(e.error);
        }
        if e.value == cur {
          PassTake(rd.g, rd.img[..], pending, start, j, cur, taken, kept);
          PassOnTake(rd.g, rd.img[..], pending, j, cur, taken, kept);
          cur, taken := c, taken + [c];
        } else {
          PassKeep(rd.g, rd.img[..], pending, start, j, cur, taken, kept);
          PassOnKeep(rd.g, rd.img[..], pending, j, cur, taken, kept);
          kept := kept + [c];
        }
      }
      PassEnd(rd.g, rd.img[..], pending, start, cur, taken, kept);
      PassOnEnd(rd.g, rd.img[..], pending, cur, taken, kept);
      r := Ok(Growth(cur, taken, kept));
    }

    // -------------------------------------------------------------------
    // Crossed files

    /** fix_crosses(visited, is_root): one pass over the listing (the
        `while not_fixed` loop runs once); below the root, a listing that
        does not start with "." and ".." gets its header rebuilt, and those
        two entries are skipped. The clusters of each entry are added to
        visited, which is returned. */
    method FixCrosses(visited: seq<nat>, isRoot: bool, depth: Fuel, c: Clock) returns (r: Result<seq<nat>>)
      requires Valid() && c.Valid()
      modifies this, rd, rd.img
      ensures Grew(old(errors), errors)
      ensures r.Ok? ==> visited <= r.value
      decreases depth, 3
    {
      var files := rd.files;
      var isnrt := |files| < 2 || files[0].name != DotName || files[1].name != DotDotName;
      if !isRoot {
        if isnrt {
          var w := FixDirStruct(rd.current, c);
          if w.Failed? {
            return Fail(w.error);
          }
        }
        files := Drop(files, 2);
      }
      var seen := visited;
      for i := 0 to |files|
        invariant Grew(old(errors), errors)
        invariant visited <= seen
      {
        ghost var before := errors;
        var step := FixEntry(files[i], seen, depth, c);
        GrewTrans(old(errors), before, errors);
        if step.Fail? {
          return Fail(step.error);
        }
        seen := step.value;
      }
      r := Ok(seen);
    }

    /** The body of fix_crosses' loop for entry f: its chain is checked for
        crossings (and copied when crossed) and its clusters are added to
        visited; a directory is then descended into, and a file whose size
        does not fit its chain gets the chain's size. */
    method FixEntry(f: MyFile, visited: seq<nat>, depth: Fuel, c: Clock) returns (r: Result<seq<nat>>)
      requires Valid() && c.Valid()
      modifies this, rd, rd.img
      ensures Grew(old(errors), errors)
      ensures r.Ok? ==> visited <= r.value
      decreases depth, 2
    {
      var clusters := CheckCrosses(visited, f, c);
      if clusters.Fail? {
        return Fail(clusters.error);
      }
      ghost var before := errors;
      r := FixChecked(f, visited + clusters.value, |clusters.value|, depth, c);
      GrewTrans(old(errors), before, errors);
    }

    /** The rest of the loop body once f's count clusters are in seen. */
    method FixChecked(f: MyFile, seen: seq<nat>, count: nat, depth: Fuel, c: Clock) returns (r: Result<seq<nat>>)
      requires Valid() && c.Valid()
      modifies this, rd, rd.img
      ensures Grew(old(errors), errors)
      ensures r.Ok? ==> seen <= r.value
      ensures f.kind == File ==> (r.Ok? ==> r.value == seen) && ps == old(ps)
      ensures f.kind == File ==>
                var size := count * rd.g.lenClus;
                && (size - rd.g.lenClus <= f.size <= size ==>
                      r == Ok(seen) && errors == old(errors) && rd.img[..] == old(rd.img[..]))
                && (!(size - rd.g.lenClus <= f.size <= size) ==>
                      var w := FixSizeOn(rd.g, old(rd.img[..]), old(rd.current).start, f, size);
                      && errors == old(errors) + [ILLEGAL_SIZE] && rd.current == old(rd.current)
                      && (r.Ok? <==> w.Ok?) && (w.Ok? ==> rd.img[..] == w.value) && (w.Fail? ==> r == Fail(w.error)))
      decreases depth, 1
    {
      if f.kind == Dir {
        r := Descend(f, seen, depth, c);
      } else {
        var w := FitSize(f, count * rd.g.lenClus);
        r := if w.Failed? then Fail(w.error) else Ok(seen);
      }
    }

    /** A file whose size lies outside size - len_clus .. size gets size. */
    method FitSize(f: MyFile, size: nat) returns (r: Outcome)
      requires Valid()
      modifies this, rd.img
      ensures ps == old(ps)
      ensures size - rd.g.lenClus <= f.size <= size ==> r == Done && errors == old(errors) && rd.img[..] == old(rd.img[..])
      ensures !(size - rd.g.lenClus <= f.size <= size) ==>
                var w := FixSizeOn(rd.g, old(rd.img[..]), rd.current.start, f, size);
                && errors == old(errors) + [ILLEGAL_SIZE]
                && (r.Done? <==> w.Ok?) && (w.Ok? ==> rd.img[..] == w.value) && (w.Fail? ==> r == Failed(w.error))
    {
      r := Done;
      if !(size - rd.g.lenClus <= f.size <= size) {
        r := FixSize(f, size);
      }
    }

    /** The directory branch of fix_crosses' loop: a non-zero size becomes
        0, the parent is remembered in ps, the directory is entered and
        fixed below (depth stands for Python's recursion limit), and its
        ".." (the second entry of its listing) is entered again. */
    method Descend(f: MyFile, seen: seq<nat>, depth: Fuel, c: Clock) returns (r: Result<seq<nat>>)
      requires Valid() && c.Valid()
      modifies this, rd, rd.img
      ensures Grew(old(errors), errors)
      ensures r.Ok? ==> seen <= r.value
      ensures depth.Spent? ==> r.Fail?
      ensures f.size != 0 ==> |errors| > |old(errors)| && errors[|old(errors)|] == ILLEGAL_SIZE
      ensures var w := FixSizeOn(rd.g, old(rd.img[..]), old(rd.current).start, f, 0);
              f.size != 0 && w.Fail? ==> r == Fail(w.error) && errors == old(errors) + [ILLEGAL_SIZE]
      decreases depth, 0
    {
      if f.size != 0 {
        var w := FixSize(f, 0);
        GrewByOne(old(errors), ILLEGAL_SIZE);
        if w.Failed? {
          GrewKeeps(old(errors), ILLEGAL_SIZE, errors);
          return Fail(w.error);
        }
      } else {
        GrewSame(errors);
      }
      ghost var before := errors;
      ps := rd.current.start;
      var l := rd.Cd(f);
      if l.Failed? {
        return Fail(l.error);
      }
      var inner: Result<seq<nat>>;
      match depth {
        case Spent =>
          return Fail(TooDeep);
        case Left(rest) =>
          inner := FixCrosses(seen, false, rest, c);
      }
      GrewTrans(old(errors), before, errors);
      if f.size != 0 {
        GrewKeeps(old(errors), ILLEGAL_SIZE, errors);
      }
      if inner.Fail? {
        return Fail(inner.error);
      }
      r := Leave(inner.value);
    }

    /** cd(files[1]): back up through the listing's second entry, which an
        intact directory holds as "..". */
    method Leave(seen: seq<nat>) returns (r: Result<seq<nat>>)
      modifies rd
      ensures r.Ok? ==> r.value == seen
      ensures |old(rd.files)| < 2 ==> r == Fail(IndexError)
    {
      if |rd.files| < 2 {
        return Fail(IndexError);
      }
      var l := rd.Cd(rd.files[1]);
      r := if l.Failed? then Fail(l.error) else Ok(seen);
    }

    /** check_crosses(visited, f): f's chain, cut when self-crossed; when
        one of its clusters was visited already, it is copied. */
    method CheckCrosses(visited: seq<nat>, f: MyFile, c: Clock) returns (r: Result<seq<nat>>)
      requires Valid() && c.Valid()
      modifies this, rd, rd.img
      ensures ps == old(ps) && Grew(old(errors), errors)
      ensures var w := FixSelfCrossingOn(rd.g, old(rd.img[..]), f.start);
              && (w.Fail? ==> r == Fail(w.error))
              && (w.Ok? && !Crosses(w.value.clusters, visited) ==>
                    && r == Ok(w.value.clusters) && rd.img[..] == w.value.img
                    && rd.current == old(rd.current) && rd.files == old(rd.files))
      ensures var w := FixSelfCrossingOn(rd.g, old(rd.img[..]), f.start);
              w.Ok? && Crosses(w.value.clusters, visited) ==>
                var cl := w.value.clusters;
                var logged := old(errors) + (if w.value.cut then [SELF_CROSSED] else []);
                && (errors == logged || errors == logged + [CROSSED])
                && (r.Ok? ==> errors == logged + [CROSSED] && |r.value| == |cl|
                              && forall i :: 1 <= i < |cl| && Reused(f, visited, cl[i]) ==> r.value[i] == cl[i])
                && (f.kind == Dir && cl[0] !in visited ==> r.Fail? && errors == logged)
    {
      var clusters := FixSelfCrossing(f.start);
      ghost var before := errors;
      if clusters.Fail? {
        return Fail(clusters.error);
      }
      var cl := clusters.value;
      var crossed := FindVisited(cl, visited);
      if crossed {
        r := CopyCrossed(cl, visited, f, c);
        GrewTrans(old(errors), before, errors);
        return;
      }
      r := Ok(cl);
    }

    /** copy_crossed(clusters, visited, f): after prepare_to_copy gives the
        new first cluster, "Crossed file" is logged; every later cluster
        that was visited, or every later cluster of a directory, is copied
        into a newly added cluster linked from the previous one, and any
        other cluster is reused as it is. The clusters the copy consists of
        are returned. */
    method CopyCrossed(clusters: seq<nat>, visited: seq<nat>, f: MyFile, c: Clock) returns (r: Result<seq<nat>>)
      requires Valid() && c.Valid()
      modifies this, rd, rd.img
      ensures ps == old(ps)
      ensures errors == old(errors) || errors == old(errors) + [CROSSED]
      ensures r.Ok? ==> errors == old(errors) + [CROSSED] && |r.value| == |clusters|
      ensures r.Ok? ==> forall i :: 1 <= i < |clusters| && Reused(f, visited, clusters[i]) ==> r.value[i] == clusters[i]
      ensures f.kind == Dir && |clusters| > 0 && clusters[0] !in visited ==> r.Fail? && errors == old(errors)
    {
      var end := PrepareToCopy(clusters, visited, f, c);
      if end.Fail? {
        return Fail(end.error);
      }
      errors := errors + [CROSSED];
      r := CopyRest(clusters, visited, f, end.value);
    }

    /** The loop of copy_crossed over clusters[1:], the copy starting at
        end: it does what CopyLoopOn says, so the copy has one cluster per
        cluster of the chain and keeps each kept cluster in its place. */
    method CopyRest(clusters: seq<nat>, visited: seq<nat>, f: MyFile, end: nat) returns (r: Result<seq<nat>>)
      requires Valid() && |clusters| > 0
      modifies rd.img
      ensures var w := CopyLoopOn(StepOn(rd.g), old(rd.img[..]), clusters, 1, end, visited, f);
              (r.Ok? <==> w.Ok?) && (w.Ok? ==> r.value == w.value.0 && rd.img[..] == w.value.1)
              && (w.Fail? ==> r == Fail(w.error))
      ensures r.Ok? ==>
                && |r.value| == |clusters| && r.value[0] == end
                && forall i :: 1 <= i < |clusters| && Reused(f, visited, clusters[i]) ==> r.value[i] == clusters[i]
    {
      r := CopyLoop(clusters, visited, f, end);
      if r.Ok? {
        StepOnKeepsKept(rd.g);
        CopyShape(StepOn(rd.g), old(rd.img[..]), clusters, end, visited, f);
      }
    }

    method CopyLoop(clusters: seq<nat>, visited: seq<nat>, f: MyFile, end: nat) returns (r: Result<seq<nat>>)
      requires Valid() && |clusters| > 0
      modifies rd.img
      ensures var w := CopyLoopOn(StepOn(rd.g), old(rd.img[..]), clusters, 1, end, visited, f);
              (r.Ok? <==> w.Ok?) && (w.Ok? ==> r.value == w.value.0 && rd.img[..] == w.value.1)
              && (w.Fail? ==> r == Fail(w.error))
    {
      var last := end;
      var done: seq<nat> := [];
      ghost var w := CopyLoopOn(StepOn(rd.g), rd.img[..], clusters, 1, end, visited, f);
      if w.Ok? {
        assert done + w.value.0 == w.value.0;
      }
      for i := 1 to |clusters|
        invariant CopiedAfter(done, CopyLoopOn(StepOn(rd.g), rd.img[..], clusters, i, last, visited, f))
                  == CopyLoopOn(StepOn(rd.g), old(rd.img[..]), clusters, 1, end, visited, f)
      {
        ghost var before := rd.img[..];
        var step := CopyStep(clusters[i], last, Reused(f, visited, clusters[i]));
        if step.Fail? {
          return Fail(step.error);
        }
        CopyLoopStep(StepOn(rd.g), before, clusters, i, last, visited, f, done);
        done := done + [last];
        last := step.value;
      }
      r := Ok(done + [last]);
    }

    /** One round of the loop: a visited cluster, or any cluster of a
        directory, is copied into a new cluster after last; another is
        kept. */
    method CopyStep(cl: nat, last: nat, keep: bool) returns (r: Result<nat>)
      requires Valid()
      modifies rd.img
      ensures var w := CopyStepOn(rd.g, old(rd.img[..]), cl, last, keep);
              (r.Ok? <==> w.Ok?) && (w.Ok? ==> r.value == w.value.0 && rd.img[..] == w.value.1)
              && (w.Fail? ==> r == Fail(w.error))
    {
      if keep {
        return Ok(cl);
      }
      if cl < 2 {
        return Fail(BelowData);
      }
      var data := ClusterBytes(rd.g, rd.img[..], cl);
      var added := rd.AddCluster(last);
      if added.Fail? {
        return Fail(added.error);
      }
      var w := rd.UpwriteDataByCluster(added.value, data);
      if w.Failed? {
        return Fail(w.error);
      }
      r := Ok(added.value);
    }

    /** prepare_to_copy(clusters, visited, f): f's records are marked
        deleted and the listing is read again. A directory is made anew
        under its name (its start is taken from the listing's last entry);
        a first cluster not visited then reaches self.write, which the
        class does not have, so AttributeError is raised; otherwise the old
        first cluster is copied into the new one. A file gets a new record
        whose start is a newly added cluster, holding a copy of the first
        one, when the first one was visited, and the first one itself
        otherwise. The new start is returned. */
    method PrepareToCopy(clusters: seq<nat>, visited: seq<nat>, f: MyFile, c: Clock) returns (r: Result<nat>)
      requires Valid() && c.Valid()
      modifies rd, rd.img
      ensures f.kind == Dir && |clusters| > 0 && clusters[0] !in visited ==> r.Fail?
      ensures f.kind == File && |clusters| > 0 && clusters[0] !in visited && r.Ok? ==> r.value == clusters[0]
      ensures r.Ok? ==> |clusters| > 0
    {
      var d := rd.DelDirRecord(f.first, f.count);
      if d.Failed? {
        return Fail(d.error);
      }
      var l := rd.Cd(rd.current);
      if l.Failed? {
        return Fail(l.error);
      }
      if f.kind == Dir {
        var m := rd.Md(f.name, true, c);
        if m.Failed? {
          return Fail(m.error);
        }
        l := rd.Cd(rd.current);
        if l.Failed? {
          return Fail(l.error);
        }
        if |rd.files| == 0 {
          return Fail(IndexError);
        }
        var end := rd.files[|rd.files| - 1].start;
        if |clusters| == 0 {
          return Fail(IndexError);
        }
        if clusters[0] !in visited {
          return Fail(AttributeError);
        }
        var cp := CopyClust(clusters[0], end);
        if cp.Failed? {
          return Fail(cp.error);
        }
        return Ok(end);
      }
      if |clusters| == 0 {
        return Fail(IndexError);
      }
      var end := clusters[0];
      if clusters[0] in visited {
        var added := rd.AddCluster(0);
        if added.Fail? {
          return Fail(added.error);
        }
        end := added.value;
      }
      var made := rd.Cf(f.name, end, f.size, c);
      if made.Failed? {
        return Fail(made.error);
      }
      if clusters[0] in visited {
        var cp := CopyClust(clusters[0], end);
        if cp.Failed? {
          return Fail(cp.error);
        }
      }
      r := Ok(end);
    }

    // -------------------------------------------------------------------
    // Lost clusters

    /** repair_losted(losted): when there are lost clusters, "Found losted
        clusters" is logged, a LOSTFOUND directory is made and entered, and
        each group of get_files becomes a file FILE.n there, of count times
        len_clus bytes, starting at the group's start; s records the steps
        (Salvage). */
    method RepairLosted(losted: seq<nat>, c: Clock) returns (r: Outcome, ghost s: Salvage)
      requires Valid() && c.Valid() && Distinct(losted)
      modifies this, rd, rd.img
      ensures ps == old(ps) && Grew(old(errors), errors)
      ensures errors == old(errors) + (if |losted| > 0 then [LOST_FOUND] else [])
      ensures |losted| == 0 ==>
                r == Done && rd.img[..] == old(rd.img[..]) && rd.current == old(rd.current) && rd.files == old(rd.files)
      ensures r.Done? && |losted| > 0 ==>
                && Salvaged(rd.g, rd.writable, c, losted, s)
                && rd.img[..] == Final(s.mid, s.steps) && rd.current == s.dir
                && (s.dir == Root || (s.dir.name == LOSTFOUND && s.dir.kind == Dir))
                && var l0 := ListDir(rd.g, old(rd.img[..]), Root);
                   && l0.Ok? && MdOn(rd.g, old(rd.img[..]), rd.writable, false, Root, l0.value, LOSTFOUND, c).Ok?
                   && MdOn(rd.g, old(rd.img[..]), rd.writable, false, Root, l0.value, LOSTFOUND, c).value.1 == s.mid
    {
      s := Salvage([], Root, [], [], []);
      if |losted| == 0 {
        GrewSame(errors);
        return Done, s;
      }
      errors := errors + [LOST_FOUND];
      GrewByOne(old(errors), LOST_FOUND);
      var made := CreateLostFound(c);
      if made.Failed? {
        return made, s;
      }
      r, s := FileGroups(losted, c);
    }

    /** The rest of repair_losted once LOSTFOUND (or the root) is current:
        get_files groups the lost clusters, and for each group a file
        named by get_losted_name is created with cf and the directory is
        listed again. */
    method FileGroups(losted: seq<nat>, c: Clock) returns (r: Outcome, ghost s: Salvage)
      requires Valid() && c.Valid() && Distinct(losted) && InDir(rd.g, rd.img[..], rd.current, rd.files)
      modifies rd, rd.img
      ensures r.Done? ==>
                && Salvaged(rd.g, rd.writable, c, losted, s) && s.mid == old(rd.img[..]) && s.dir == old(rd.current)
                && rd.img[..] == Final(s.mid, s.steps) && rd.current == s.dir
    {
      s := Salvage([], Root, [], [], []);
      ghost var mid := rd.img[..];
      ghost var dir := rd.current;
      ghost var groups;
      var files;
      files, groups := GetFiles(losted);
      if files.Fail? {
        return Failed(files.error), s;
      }
      ghost var steps: seq<Filed> := [];
      for k := 0 to |files.value|
        invariant rd.current == dir && InDir(rd.g, rd.img[..], dir, rd.files)
        invariant |steps| == k && Final(mid, steps) == rd.img[..]
        invariant FiledAs(rd.g, rd.writable, c, dir, files.value, mid, steps)
      {
        var made, f := FileOne(files.value[k].0, files.value[k].1, c);
        if made.Failed? {
          return made, s;
        }
        FiledSnoc(rd.g, rd.writable, c, dir, files.value, mid, steps, f);
        assert Final(mid, steps + [f]) == f.after;
        steps := steps + [f];
      }
      r := Done;
      s := Salvage(mid, dir, groups, files.value, steps);
      assert Salvaged(rd.g, rd.writable, c, losted, s) by {
        SalvagedBy(rd.g, rd.writable, c, losted, s);
      }
    }

    /** One turn of repair_losted's loop: cf(get_losted_name(), start,
        count * len_clus), then cd(current) to read the listing again; f
        records it. */
    method FileOne(start: nat, count: nat, c: Clock) returns (r: Outcome, ghost f: Filed)
      requires Valid() && c.Valid() && InDir(rd.g, rd.img[..], rd.current, rd.files)
      modifies rd, rd.img
      ensures rd.current == old(rd.current)
      ensures r.Done? ==>
                && InDir(rd.g, rd.img[..], rd.current, rd.files) && CfDone(rd.g, rd.writable, c, rd.current, f)
                && f.img == old(rd.img[..]) && f.start == start && f.size == count * rd.g.lenClus && f.after == rd.img[..]
    {
      var size := Bytes(count, rd.g.lenClus);
      var name := GetLostedName();
      ghost var before := rd.img[..];
      ghost var listing := rd.files;
      r := rd.Cf(name, start, size, c);
      f := Filed(before, listing, name, start, size, rd.img[..]);
      if r.Failed? {
        return;
      }
      r := rd.Cd(rd.current);
    }

    /** create_LOSTFOUND: from the root a directory LOSTFOUND is made without
        the duplicate check (so a second one when it exists), and the first
        entry of that name in the root's listing, read again, is entered. */
    method CreateLostFound(c: Clock) returns (r: Outcome)
      requires Valid() && c.Valid()
      modifies rd, rd.img
      ensures r.Done? ==> rd.current == Root || (rd.current.name == LOSTFOUND && rd.current.kind == Dir)
      ensures r.Done? ==> InDir(rd.g, rd.img[..], rd.current, rd.files)
      ensures r.Done? ==>
                var l0 := ListDir(rd.g, old(rd.img[..]), Root);
                && l0.Ok? && MdOn(rd.g, old(rd.img[..]), rd.writable, false, Root, l0.value, LOSTFOUND, c).Ok?
                && MdOn(rd.g, old(rd.img[..]), rd.writable, false, Root, l0.value, LOSTFOUND, c).value.1 == rd.img[..]
      ensures var l0 := ListDir(rd.g, old(rd.img[..]), Root);
              && (l0.Fail? ==> r == Failed(l0.error))
              && (l0.Ok? ==>
                    var w := MdOn(rd.g, old(rd.img[..]), rd.writable, false, Root, l0.value, LOSTFOUND, c);
                    && (w.Fail? ==> r == Failed(w.error))
                    && (w.Ok? ==>
                          var l1 := ListDir(rd.g, w.value.1, Root);
                          && rd.img[..] == w.value.1
                          && (l1.Fail? ==> r == Failed(l1.error))
                          && (l1.Ok? ==> Entered(rd.g, w.value.1, Root, l1.value, LOSTFOUND, r, rd.current, rd.files))))
    {
      r := MakeLostFound(c);
      if r.Done? {
        ghost var files := rd.files;
        r := EnterLostFound();
        EnteredInDir(rd.g, rd.img[..], Root, files, LOSTFOUND, r, rd.current, rd.files);
      }
    }

    /** cd(root), md("LOSTFOUND", check=False), cd(root): the directory is
        made in the root as md makes it, and the root's listing is read
        again. */
    method MakeLostFound(c: Clock) returns (r: Outcome)
      requires Valid() && c.Valid()
      modifies rd, rd.img
      ensures r.Done? ==> rd.current == Root && InDir(rd.g, rd.img[..], Root, rd.files)
      ensures var l0 := ListDir(rd.g, old(rd.img[..]), Root);
              && (l0.Fail? ==> r == Failed(l0.error) && rd.img[..] == old(rd.img[..]))
              && (l0.Ok? ==>
                    var w := MdOn(rd.g, old(rd.img[..]), rd.writable, false, Root, l0.value, LOSTFOUND, c);
                    && (w.Fail? ==> r == Failed(w.error))
                    && (w.Ok? ==>
                          var l1 := ListDir(rd.g, w.value.1, Root);
                          && rd.img[..] == w.value.1 && rd.current == Root
                          && (r.Done? <==> l1.Ok?) && (l1.Ok? ==> rd.files == l1.value)
                          && (l1.Fail? ==> r == Failed(l1.error))))
    {
      r := rd.Cd(Root);
      if r.Failed? {
        return;
      }
      r := rd.Md(LOSTFOUND, false, c);
      if r.Failed? {
        return;
      }
      r := rd.Cd(Root);
    }

    /** The loop of create_LOSTFOUND over the listing: the first entry
        named LOSTFOUND is entered; when there is none, current stays. */
    method EnterLostFound() returns (r: Outcome)
      modifies rd
      ensures rd.img[..] == old(rd.img[..])
      ensures Entered(rd.g, rd.img[..], old(rd.current), old(rd.files), LOSTFOUND, r, rd.current, rd.files)
      ensures (forall i :: 0 <= i < |old(rd.files)| ==> old(rd.files)[i].name != LOSTFOUND) ==>
                r == Done && rd.current == old(rd.current) && rd.files == old(rd.files)
    {
      var files := rd.files;
      for i := 0 to |files|
        invariant rd.current == old(rd.current) && rd.files == files && rd.img[..] == old(rd.img[..])
        invariant forall j :: 0 <= j < i ==> files[j].name != LOSTFOUND
      {
        if files[i].name == LOSTFOUND {
          r := rd.Cd(files[i]);
          return;
        }
      }
      r := Done;
    }

    // -------------------------------------------------------------------
    // The driver

    /** The repairs of Fixer.__init__ in order: the root chain is cut if
        self-crossed and, with 0 and 1, starts visited; crossings are fixed
        from the root listing; the clusters nobody visited are gathered
        into LOSTFOUND. Every entry this adds to the log is one of the
        report's categories. */
    method FixAll(c: Clock, depth: Fuel) returns (r: Outcome)
      requires Valid() && c.Valid()
      modifies this, rd, rd.img
      ensures Grew(old(errors), errors)
    {
      var root := FixSelfCrossing(Root.start);
      if root.Fail? {
        return Failed(root.error);
      }
      ghost var e1 := errors;
      var checked := FixCrosses([0, 1] + root.value, true, depth, c);
      GrewTrans(old(errors), e1, errors);
      if checked.Fail? {
        return Failed(checked.error);
      }
      ghost var e2 := errors;
      var losted := Orphans(checked.value);
      if losted.Fail? {
        return Failed(losted.error);
      }
      ghost var salvage;
      r, salvage := RepairLosted(losted.value, c);
      GrewTrans(old(errors), e2, errors);
    }

    /** Fixer.__init__: the image is opened (a read-only one raises
        PermissionDenied); the root chain is cut if self-crossed and, with
        0 and 1, starts visited; crossings are fixed from the root listing;
        the lost clusters are gathered into LOSTFOUND; the log is raised as
        ErrorsFixed. canWrite says whether the image could be opened for
        writing, c is the clock reading every new record gets. */
    static method Run(image: array<byte>, canWrite: bool, c: Clock, depth: Fuel) returns (r: Result<ErrorsFixed>)
      requires c.Valid()
      modifies image
      ensures !canWrite ==> r.Fail? && image[..] == old(image[..])
      ensures r.Ok? ==> fresh(r.value) && forall i :: 0 <= i < |r.value.errors| ==> Category(r.value.errors[i])
    {
      var loaded := Reader.Open(image, canWrite);
      if loaded.Fail? {
        return Fail(loaded.error);
      }
      var rd := loaded.value;
      if !rd.writable {
        return Fail(PermissionDenied);
      }
      var fx := new Fixer.Over(rd);
      var fixed := fx.FixAll(c, depth);
      if fixed.Failed? {
        return Fail(fixed.error);
      }
      var raised := new ErrorsFixed(fx.errors);
      r := Ok(raised);
    }
  }
}
