/** Directory data as the engine reads and rewrites it: the listing `cd`
    builds from a directory's bytes, and the record-level edits of
    add_entry, clear_dir, del_dir_record and make_new_records, all as
    functions of the directory's bytes. */
module Directory {
  import opened Common
  import opened Codec

  /** A listing entry (MyFile): name, start cluster, kind, time and date of
      the last write, size, and `blocks` as the index of its first record
      and the number of its records. */
  datatype MyFile = MyFile(name: Name, start: nat, kind: Kind, time: TimeOfDay, date: Day, size: nat,
                           first: nat, count: nat)

  /** The root entry the reader starts from: cluster 2, 00:00:00 on
      01.01.1980, blocks (0, 0). */
  const Root: MyFile := MyFile(U("root"), 2, Dir, TimeOfDay(0, 0, 0), Day(1, 1, 1980), 0, 0, 0)

  const FREE: byte := 0x00
  const DELETED: byte := 0xE5
  const LFN_ATTR: byte := 0x0F

  /** data[i*32:(i+1)*32]: record i, shorter or empty at the end. */
  function Record(data: seq<byte>, i: nat): (r: seq<byte>)
    ensures |r| == if |data| <= 32 * i then 0 else Min(32, |data| - 32 * i)
    ensures 32 * i + 32 <= |data| ==> r == data[32 * i..32 * i + 32]
  {
    if |data| <= 32 * i then [] else data[32 * i..Min(32 * i + 32, |data|)]
  }

  /** Record i starts a live entry: its first byte is neither 0x00 nor 0xE5. */
  predicate Live(data: seq<byte>, i: nat)
    requires 32 * i < |data|
  {
    data[32 * i] != FREE && data[32 * i] != DELETED
  }

  lemma RecordInside(len: nat, i: nat)
    requires i < len / 32
    ensures 32 * i + 32 <= len
  {
  }

  // ---------------------------------------------------------------------
  // The listing (cd)

  /** The inner loop of cd from record p: the number of records carrying
      attribute 0x0F before the first that does not; a block too short for
      byte 0x0B fails as Python's index does. */
  function LfnCount(data: seq<byte>, p: nat): (r: Result<nat>)
    decreases |data| - 32 * p
  {
    // block[0x0b] of block = data[p*32:(p+1)*32] exists when the data
    // extends past byte 32p + 11.
    if |data| <= 32 * p + 0x0b then Fail(IndexError)
    else if data[32 * p + 0x0b] != LFN_ATTR then Ok(0)
    else
      var m :- LfnCount(data, p + 1);
      Ok(m + 1)
  }

  /** The name bytes of the k long-name records from record i, gathered
      the way cd gathers them: each record's bytes in front of the bytes of
      the records before it. */
  function LongName(data: seq<byte>, i: nat, k: nat): seq<byte> {
    Gather(Slice(data, 32 * i, 32 * (i + k)))
  }

  /** The entry cd builds at record i: the long name when there is one,
      the short name of get_info otherwise. */
  function ParseEntry(data: seq<byte>, i: nat): (r: Result<MyFile>)
    ensures r.Ok? ==> r.value.first == i && r.value.count >= 1
  {
    var m := LfnCount(data, i);
    if m.Fail? then Fail(m.error) else EntryAt(data, i, m.value)
  }

  /** The entry of the k long-name records from record i and the short
      record after them. */
  function EntryAt(data: seq<byte>, i: nat, k: nat): (r: Result<MyFile>)
    ensures r.Ok? ==> r.value.first == i && r.value.count == k + 1
  {
    var name :- Decode16(LongName(data, i, k));
    var info :- GetInfo(Record(data, i + k));
    Ok(MyFile(if |name| == 0 then info.name else name, info.start, info.kind, info.time, info.date, info.size,
              i, k + 1))
  }

  /** The outer loop of cd from record i, k records still to skip, files
      the entries found so far. */
  function ListFrom(data: seq<byte>, i: nat, k: nat, files: seq<MyFile>): (r: Result<seq<MyFile>>)
    decreases |data| / 32 - i
  {
    if i >= |data| / 32 then Ok(files)
    else if k > 0 then ListFrom(data, i + 1, k - 1, files)
    else
      RecordInside(|data|, i);
      if !Live(data, i) then ListFrom(data, i + 1, 0, files)
      else
        var f :- ParseEntry(data, i);
        ListFrom(data, i + 1, f.count - 1, files + [f])
  }

  /** The listing of a directory's bytes. */
  function Listing(data: seq<byte>): Result<seq<MyFile>> {
    ListFrom(data, 0, 0, [])
  }

  /** Where cd's outer loop stops: the entries it has appended to
      self.files, and the error of the first entry that fails to parse, if
      one does; that error leaves the entries before it in place. */
  datatype Stop<T> = Stop(found: T, error: Option<Error>)

  /** cd's outer loop from record i, k records still to skip, files the
      entries appended so far. */
  function StopFrom(data: seq<byte>, i: nat, k: nat, files: seq<MyFile>): Stop<seq<MyFile>>
    decreases |data| / 32 - i
  {
    if i >= |data| / 32 then Stop(files, None)
    else if k > 0 then StopFrom(data, i + 1, k - 1, files)
    else
      RecordInside(|data|, i);
      if !Live(data, i) then StopFrom(data, i + 1, 0, files)
      else
        var e := ParseEntry(data, i);
        if e.Fail? then Stop(files, Some(e.error)) else StopFrom(data, i + 1, e.value.count - 1, files + [e.value])
  }

  /** Where cd stops on a directory's bytes. */
  function CdStop(data: seq<byte>): Stop<seq<MyFile>> {
    StopFrom(data, 0, 0, [])
  }

  /** The stop s agrees with the listing l: no error exactly when l
      succeeds, with l's entries, and l's error otherwise. */
  ghost predicate StopAgrees(l: Result<seq<MyFile>>, s: Stop<seq<MyFile>>) {
    (l.Ok? <==> s.error.None?) && (l.Ok? ==> s.found == l.value) && (l.Fail? ==> s.error == Some(l.error))
  }

  /** The loop stops without an error exactly when the listing succeeds,
      with the listing's entries; it stops with the listing's error
      otherwise. */
  lemma {:induction false} StopIsListing(data: seq<byte>, i: nat, k: nat, files: seq<MyFile>)
    ensures StopAgrees(ListFrom(data, i, k, files), StopFrom(data, i, k, files))
    decreases |data| / 32 - i, 1
  {
    if i >= |data| / 32 {
      ListFromEnd(data, i, k, files);
      StopFromEnd(data, i, k, files);
    } else {
      RecordInside(|data|, i);
      if k > 0 {
        ListFromCovered(data, i, k, files);
        StopFromCovered(data, i, k, files);
        StopIsListing(data, i + 1, k - 1, files);
      } else if !Live(data, i) {
        ListFromDead(data, i, files);
        StopFromDead(data, i, files);
        StopIsListing(data, i + 1, 0, files);
      } else if ParseEntry(data, i).Ok? {
        var f := ParseEntry(data, i).value;
        ListFromLive(data, i, files, f);
        StopFromLive(data, i, files, f);
        StopIsListingEntry(data, i, files, f);
      } else {
        ListFromFail(data, i, files);
        StopFromFail(data, i, files);
      }
    }
  }

  /** StopIsListing at a live record i that starts the entry f. */
  lemma {:induction false} StopIsListingEntry(data: seq<byte>, i: nat, files: seq<MyFile>, f: MyFile)
    requires i < |data| / 32 && f.count >= 1
    requires ListFrom(data, i, 0, files) == ListFrom(data, i + 1, f.count - 1, files + [f])
    requires StopFrom(data, i, 0, files) == StopFrom(data, i + 1, f.count - 1, files + [f])
    ensures StopAgrees(ListFrom(data, i, 0, files), StopFrom(data, i, 0, files))
    decreases |data| / 32 - i, 0
  {
    StopIsListing(data, i + 1, f.count - 1, files + [f]);
  }

  /** The state of cd's outer loop at record i: the listing and the stop
      still to come from there are those of the whole directory. */
  ghost predicate Scanning(data: seq<byte>, i: nat, k: nat, found: seq<MyFile>) {
    ListFrom(data, i, k, found) == Listing(data) && StopFrom(data, i, k, found) == CdStop(data)
  }

  /** A record inside the last entry's records keeps the loop state. */
  lemma ScanCovered(data: seq<byte>, i: nat, k: nat, found: seq<MyFile>)
    requires i < |data| / 32 && k > 0 && Scanning(data, i, k, found)
    ensures Scanning(data, i + 1, k - 1, found)
  {
    ListFromCovered(data, i, k, found);
    StopFromCovered(data, i, k, found);
  }

  /** A deleted or unused record keeps the loop state. */
  lemma ScanDead(data: seq<byte>, i: nat, found: seq<MyFile>)
    requires i < |data| / 32 && (RecordInside(|data|, i); !Live(data, i)) && Scanning(data, i, 0, found)
    ensures Scanning(data, i + 1, 0, found)
  {
    ListFromDead(data, i, found);
    StopFromDead(data, i, found);
  }

  /** A live record that parses as f appends f. */
  lemma ScanLive(data: seq<byte>, i: nat, found: seq<MyFile>, f: MyFile)
    requires i < |data| / 32 && (RecordInside(|data|, i); Live(data, i)) && ParseEntry(data, i) == Ok(f)
    requires Scanning(data, i, 0, found)
    ensures f.count >= 1 && Scanning(data, i + 1, f.count - 1, found + [f])
  {
    ListFromLive(data, i, found, f);
    StopFromLive(data, i, found, f);
  }

  /** A live record that fails to parse ends the loop: the listing fails
      with its error and cd keeps the entries found. */
  lemma ScanFail(data: seq<byte>, i: nat, found: seq<MyFile>)
    requires i < |data| / 32 && (RecordInside(|data|, i); Live(data, i)) && ParseEntry(data, i).Fail?
    requires Scanning(data, i, 0, found)
    ensures Listing(data) == Fail(ParseEntry(data, i).error) && CdStop(data).found == found
  {
    ListFromFail(data, i, found);
    StopFromFail(data, i, found);
  }

  /** Past the last record the listing is the entries found. */
  lemma ScanEnd(data: seq<byte>, i: nat, k: nat, found: seq<MyFile>)
    requires i >= |data| / 32 && Scanning(data, i, k, found)
    ensures Listing(data) == Ok(found) && CdStop(data).found == found
  {
    ListFromEnd(data, i, k, found);
    StopFromEnd(data, i, k, found);
  }

  /** Past the last record the loop stops with what it found. */
  lemma StopFromEnd(data: seq<byte>, i: nat, k: nat, files: seq<MyFile>)
    requires i >= |data| / 32
    ensures StopFrom(data, i, k, files) == Stop(files, None)
  {
  }

  /** A record inside the last entry's records is passed over. */
  lemma StopFromCovered(data: seq<byte>, i: nat, k: nat, files: seq<MyFile>)
    requires i < |data| / 32 && k > 0
    ensures StopFrom(data, i, k, files) == StopFrom(data, i + 1, k - 1, files)
  {
  }

  /** A deleted or unused record is passed over. */
  lemma StopFromDead(data: seq<byte>, i: nat, files: seq<MyFile>)
    requires i < |data| / 32 && (RecordInside(|data|, i); !Live(data, i))
    ensures StopFrom(data, i, 0, files) == StopFrom(data, i + 1, 0, files)
  {
  }

  /** At a live record i that parses as f, f joins the entries found. */
  lemma StopFromLive(data: seq<byte>, i: nat, files: seq<MyFile>, f: MyFile)
    requires i < |data| / 32 && (RecordInside(|data|, i); Live(data, i)) && ParseEntry(data, i) == Ok(f)
    ensures StopFrom(data, i, 0, files) == StopFrom(data, i + 1, f.count - 1, files + [f])
  {
  }

  /** At a live record i that fails to parse, the loop stops with its error. */
  lemma StopFromFail(data: seq<byte>, i: nat, files: seq<MyFile>)
    requires i < |data| / 32 && (RecordInside(|data|, i); Live(data, i)) && ParseEntry(data, i).Fail?
    ensures StopFrom(data, i, 0, files) == Stop(files, Some(ParseEntry(data, i).error))
  {
  }


  /** f is the entry whose f.count records start at record f.first. */
  predicate ReadAt(data: seq<byte>, f: MyFile) {
    EntryRecords(data, f.first, f.count, f)
  }

  /** The count records from i are a live first record, long-name records
      up to the last one, and a short record carrying f's start, kind,
      size, time and date; f's name is the long name when it is not empty,
      the short name otherwise. */
  predicate EntryRecords(data: seq<byte>, i: nat, count: nat, f: MyFile) {
    count >= 1 && 32 * (i + count) <= |data| && Live(data, i)
    && (forall j :: i <= j < i + count - 1 ==> data[32 * j + 11] == LFN_ATTR)
    && data[32 * (i + count - 1) + 11] != LFN_ATTR
    && var info := GetInfo(Record(data, i + count - 1));
       var long := Decode16(LongName(data, i, count - 1));
       && info.Ok? && long.Ok?
       && f.start == info.value.start && f.kind == info.value.kind && f.size == info.value.size
       && f.time == info.value.time && f.date == info.value.date
       && f.name == if |long.value| == 0 then info.value.name else long.value
  }

  /** The inner loop stops at the first record from p without attribute
      0x0F, all records before it carrying it. */
  lemma {:induction false} LfnCountFacts(data: seq<byte>, p: nat)
    ensures var r := LfnCount(data, p);
            r.Ok? ==> 32 * (p + r.value) + 11 < |data| && data[32 * (p + r.value) + 11] != LFN_ATTR
                      && (forall j :: p <= j < p + r.value ==> data[32 * j + 11] == LFN_ATTR)
    decreases |data| - 32 * p
  {
    if 32 * p + 0x0b < |data| && data[32 * p + 0x0b] == LFN_ATTR {
      LfnCountFacts(data, p + 1);
    }
  }

  /** Records p .. p + m - 1 all reach byte 0x0B and carry attribute 0x0F. */
  predicate LfnRun(data: seq<byte>, p: nat, m: nat) {
    forall j :: p <= j < p + m ==> 32 * j + 0x0b < |data| && data[32 * j + 0x0b] == LFN_ATTR
  }

  /** A run of long-name records ended by a block too short for byte 0x0B
      is cd's IndexError. */
  lemma {:induction false} LfnCountShort(data: seq<byte>, p: nat, m: nat)
    requires LfnRun(data, p, m) && |data| <= 32 * (p + m) + 0x0b
    ensures LfnCount(data, p) == Fail(IndexError)
    decreases m
  {
    if m > 0 {
      LfnCountShort(data, p + 1, m - 1);
    }
  }

  /** A run ended by a block whose byte 0x0B is not 0x0F is the count. */
  lemma LfnRunEnd(data: seq<byte>, p: nat, m: nat, block: seq<byte>)
    requires LfnRun(data, p, m)
    requires block == Record(data, p + m) && |block| > 0x0b && block[0x0b] != LFN_ATTR
    ensures LfnCount(data, p) == Ok(m)
  {
    assert block[0x0b] == data[32 * (p + m) + 0x0b];
    LfnCountRun(data, p, m);
  }

  /** The run grows by a block whose byte 0x0B is 0x0F. */
  lemma LfnRunNext(data: seq<byte>, p: nat, m: nat, block: seq<byte>)
    requires LfnRun(data, p, m)
    requires block == Record(data, p + m) && |block| > 0x0b && block[0x0b] == LFN_ATTR
    ensures LfnRun(data, p, m + 1)
  {
    assert block[0x0b] == data[32 * (p + m) + 0x0b];
  }

  /** One more long-name record puts its name bytes in front. */
  lemma LongNameStep(data: seq<byte>, i: nat, k: nat)
    requires 32 * (i + k) + 32 <= |data|
    ensures LongName(data, i, k + 1) == ParseRecord(Record(data, i + k)) + LongName(data, i, k)
  {
    var a := data[32 * i..32 * (i + k)];
    var block := data[32 * (i + k)..32 * (i + k) + 32];
    assert Slice(data, 32 * i, 32 * (i + k)) == a;
    assert Slice(data, 32 * i, 32 * (i + k + 1)) == a + block;
    GatherAppend(a, block);
  }

  /** cd's name accumulator after one more record, as long as every
      record gathered so far was a whole one. */
  predicate NameSoFar(data: seq<byte>, i: nat, k: nat, name: seq<byte>) {
    32 * (i + k) <= |data| ==> name == LongName(data, i, k)
  }

  lemma LongNameNext(data: seq<byte>, i: nat, k: nat, block: seq<byte>, name: seq<byte>)
    requires block == Record(data, i + k)
    requires NameSoFar(data, i, k, name)
    ensures NameSoFar(data, i, k + 1, ParseRecord(block) + name)
  {
    if 32 * (i + (k + 1)) <= |data| {
      LongNameStep(data, i, k);
    }
  }

  /** An entry parsed at a live record i reads back as ReadAt describes. */
  lemma ParseEntryFacts(data: seq<byte>, i: nat)
    requires 32 * i + 32 <= |data| && Live(data, i)
    ensures ParseEntry(data, i).Ok? ==> ReadAt(data, ParseEntry(data, i).value)
  {
    if ParseEntry(data, i).Ok? {
      ParseEntryCount(data, i);
      LfnCountFacts(data, i);
      EntryAtFacts(data, i, LfnCount(data, i).value);
    }
  }

  /** cd counts the long-name records first and builds the entry from the
      records counted and the short record after them. */
  lemma ParseEntryCount(data: seq<byte>, i: nat)
    ensures LfnCount(data, i).Ok? ==> ParseEntry(data, i) == EntryAt(data, i, LfnCount(data, i).value)
  {
  }

  lemma EntryAtFacts(data: seq<byte>, i: nat, k: nat)
    requires 32 * i + 32 <= |data| && Live(data, i)
    requires 32 * (i + k) + 11 < |data| && data[32 * (i + k) + 11] != LFN_ATTR
    requires forall j :: i <= j < i + k ==> data[32 * j + 11] == LFN_ATTR
    ensures EntryAt(data, i, k).Ok? ==> ReadAt(data, EntryAt(data, i, k).value)
  {
    var r := EntryAt(data, i, k);
    if r.Ok? {
      var long := Decode16(LongName(data, i, k));
      var info := GetInfo(Record(data, i + k));
      assert long.Ok? && info.Ok?;
      var n, d := long.value, info.value;
      assert r.value == MyFile(if |n| == 0 then d.name else n, d.start, d.kind, d.time, d.date, d.size, i, k + 1);
      ReadAtOf(data, i, k, n, d);
    }
  }

  /** The entry built from the long name of the k long-name records from
      i and the short record after them reads back at i. */
  lemma ReadAtOf(data: seq<byte>, i: nat, k: nat, long: Name, info: Info)
    requires 32 * i + 32 <= |data| && Live(data, i)
    requires 32 * (i + k) + 11 < |data| && data[32 * (i + k) + 11] != LFN_ATTR
    requires forall j :: i <= j < i + k ==> data[32 * j + 11] == LFN_ATTR
    requires Decode16(LongName(data, i, k)) == Ok(long)
    requires GetInfo(Record(data, i + k)) == Ok(info)
    ensures EntryRecords(data, i, k + 1, MyFile(if |long| == 0 then info.name else long, info.start, info.kind,
                                                info.time, info.date, info.size, i, k + 1))
  {
    assert |Record(data, i + k)| >= 32;
  }

  predicate Ordered(files: seq<MyFile>) {
    forall j :: 0 <= j < |files| - 1 ==> files[j].first + files[j].count <= files[j + 1].first
  }

  /** Record p belongs to one of the entries. */
  predicate Covered(files: seq<MyFile>, p: nat) {
    exists j :: 0 <= j < |files| && files[j].first <= p < files[j].first + files[j].count
  }

  /** Every entry is read at its records, and the entries' records follow
      each other without overlap. */
  predicate Shaped(data: seq<byte>, files: seq<MyFile>) {
    (forall f :: f in files ==> ReadAt(data, f)) && Ordered(files)
  }

  /** Every live record before upto belongs to an entry. */
  predicate Complete(data: seq<byte>, files: seq<MyFile>, upto: nat) {
    forall p :: 0 <= p < upto && p < |data| / 32 ==> (RecordInside(|data|, p); Live(data, p) ==> Covered(files, p))
  }

  /** A listing that succeeds is shaped and complete over all of data. */
  predicate WellListed(data: seq<byte>, r: Result<seq<MyFile>>) {
    r.Ok? ==> Shaped(data, r.value) && Complete(data, r.value, |data| / 32)
  }

  lemma {:induction false} ListFromFacts(data: seq<byte>, i: nat, k: nat, files: seq<MyFile>)
    requires Shaped(data, files) && Complete(data, files, i)
    requires k > 0 ==> files != [] && files[|files| - 1].first < i && files[|files| - 1].first + files[|files| - 1].count == i + k
    requires k == 0 && files != [] ==> files[|files| - 1].first + files[|files| - 1].count <= i
    ensures WellListed(data, ListFrom(data, i, k, files))
    decreases |data| / 32 - i, 1
  {
    if i < |data| / 32 {
      RecordInside(|data|, i);
      if k > 0 {
        CompleteCovered(data, files, i);
        ListFromFacts(data, i + 1, k - 1, files);
      } else if !Live(data, i) {
        CompleteDead(data, files, i);
        ListFromFacts(data, i + 1, 0, files);
      } else if ParseEntry(data, i).Ok? {
        var f := ParseEntry(data, i).value;
        ListFromEntryPrep(data, i, files, f);
        ListFromLive(data, i, files, f);
        ListFromEntryFacts(data, i, files, f);
      } else {
        ListFromFail(data, i, files);
      }
    }
  }

  /** ListFromFacts at a live record i that starts an entry. */
  lemma {:induction false} ListFromEntryFacts(data: seq<byte>, i: nat, files: seq<MyFile>, f: MyFile)
    requires i < |data| / 32 && f.first == i && f.count >= 1 && (files + [f])[|files|] == f
    requires Shaped(data, files + [f]) && Complete(data, files + [f], i + 1)
    requires ListFrom(data, i, 0, files) == ListFrom(data, i + 1, f.count - 1, files + [f])
    ensures WellListed(data, ListFrom(data, i, 0, files))
    decreases |data| / 32 - i, 0
  {
    ListFromFacts(data, i + 1, f.count - 1, files + [f]);
  }

  /** The listing state after appending the entry at record i. */
  lemma ListFromEntryPrep(data: seq<byte>, i: nat, files: seq<MyFile>, f: MyFile)
    requires Shaped(data, files) && Complete(data, files, i)
    requires files != [] ==> files[|files| - 1].first + files[|files| - 1].count <= i
    requires i < |data| / 32 && (RecordInside(|data|, i); Live(data, i)) && ParseEntry(data, i) == Ok(f)
    ensures f.first == i && f.count >= 1 && (files + [f])[|files|] == f
    ensures Shaped(data, files + [f]) && Complete(data, files + [f], i + 1)
  {
    ParseEntryFacts(data, i);
    ShapedAppend(data, files, f);
    CompleteAppend(data, files, f);
  }

  /** A record inside the last entry's records is passed over. */
  lemma ListFromCovered(data: seq<byte>, i: nat, k: nat, files: seq<MyFile>)
    requires i < |data| / 32 && k > 0
    ensures ListFrom(data, i, k, files) == ListFrom(data, i + 1, k - 1, files)
  {
  }

  /** A deleted or unused record is passed over. */
  lemma ListFromDead(data: seq<byte>, i: nat, files: seq<MyFile>)
    requires i < |data| / 32 && (RecordInside(|data|, i); !Live(data, i))
    ensures ListFrom(data, i, 0, files) == ListFrom(data, i + 1, 0, files)
  {
  }

  /** Past the last record the listing is the entries found. */
  lemma ListFromEnd(data: seq<byte>, i: nat, k: nat, files: seq<MyFile>)
    requires i >= |data| / 32
    ensures ListFrom(data, i, k, files) == Ok(files)
  {
  }

  /** cd's step at a live record i, e being what parsing it gives. */
  lemma ListFromAt(data: seq<byte>, i: nat, files: seq<MyFile>, e: Result<MyFile>, want: Result<seq<MyFile>>)
    requires i < |data| / 32 && (RecordInside(|data|, i); Live(data, i)) && e == ParseEntry(data, i)
    requires ListFrom(data, i, 0, files) == want
    ensures e.Fail? ==> want == Fail(e.error)
    ensures e.Ok? ==> e.value.count >= 1 && ListFrom(data, i + 1, e.value.count - 1, files + [e.value]) == want
  {
    if e.Ok? {
      ListFromLive(data, i, files, e.value);
    } else {
      ListFromFail(data, i, files);
    }
  }

  lemma ListFromLive(data: seq<byte>, i: nat, files: seq<MyFile>, f: MyFile)
    requires i < |data| / 32 && (RecordInside(|data|, i); Live(data, i)) && ParseEntry(data, i) == Ok(f)
    ensures ListFrom(data, i, 0, files) == ListFrom(data, i + 1, f.count - 1, files + [f])
  {
  }

  /** An entry at record i that fails to parse ends the listing with its error. */
  lemma ListFromFail(data: seq<byte>, i: nat, files: seq<MyFile>)
    requires i < |data| / 32 && (RecordInside(|data|, i); Live(data, i)) && ParseEntry(data, i).Fail?
    ensures ListFrom(data, i, 0, files) == Fail(ParseEntry(data, i).error)
  {
  }

  /** Record i inside the last entry's records keeps the listing complete. */
  lemma CompleteCovered(data: seq<byte>, files: seq<MyFile>, i: nat)
    requires Complete(data, files, i)
    requires files != [] && files[|files| - 1].first <= i < files[|files| - 1].first + files[|files| - 1].count
    ensures Complete(data, files, i + 1)
  {
    assert Covered(files, i);
  }

  /** A free or deleted record i keeps the listing complete. */
  lemma CompleteDead(data: seq<byte>, files: seq<MyFile>, i: nat)
    requires Complete(data, files, i)
    requires i < |data| / 32 && (RecordInside(|data|, i); !Live(data, i))
    ensures Complete(data, files, i + 1)
  {
  }

  /** An entry read at records following the last entry's keeps the shape. */
  lemma ShapedAppend(data: seq<byte>, files: seq<MyFile>, f: MyFile)
    requires Shaped(data, files) && ReadAt(data, f)
    requires files != [] ==> files[|files| - 1].first + files[|files| - 1].count <= f.first
    ensures Shaped(data, files + [f])
  {
    var files' := files + [f];
    assert forall g :: g in files' ==> g in files || g == f;
    OrderedAppend(files, f);
  }

  lemma OrderedAppend(files: seq<MyFile>, f: MyFile)
    requires Ordered(files)
    requires files != [] ==> files[|files| - 1].first + files[|files| - 1].count <= f.first
    ensures Ordered(files + [f])
  {
    var files' := files + [f];
    forall j | 0 <= j < |files'| - 1
      ensures files'[j].first + files'[j].count <= files'[j + 1].first
    {
      assert files'[j] == files[j];
      if j + 1 < |files| {
        assert files'[j + 1] == files[j + 1];
      }
    }
  }

  /** An entry starting at record i covers it; earlier records stay covered. */
  lemma CompleteAppend(data: seq<byte>, files: seq<MyFile>, f: MyFile)
    requires Complete(data, files, f.first) && f.count >= 1
    ensures Complete(data, files + [f], f.first + 1)
  {
    var files' := files + [f];
    assert files'[|files|] == f;
    forall p | 0 <= p < f.first + 1 && p < |data| / 32 && (RecordInside(|data|, p); Live(data, p))
      ensures Covered(files', p)
    {
      if p < f.first {
        var j :| 0 <= j < |files| && files[j].first <= p < files[j].first + files[j].count;
        assert files'[j] == files[j];
      }
    }
  }

  /** cd's listing: each entry is read at its own records, entries appear in
      the order of their records without overlap, and every live record of
      the directory belongs to some entry. */
  lemma ListingFacts(data: seq<byte>)
    ensures Listing(data).Ok? ==> Shaped(data, Listing(data).value) && Complete(data, Listing(data).value, |data| / 32)
  {
    ListFromFacts(data, 0, 0, []);
  }

  // ---------------------------------------------------------------------
  // New entries (make_new_records)

  /** Python's `dn in '..'` for a name: "", "." or "..". */
  predicate DotUnits(dn: Name) {
    dn == [] || dn == [0x2E] || dn == [0x2E, 0x2E]
  }

  /** The short name make_new_records asks for: a dot name as its Latin-1
      bytes, any other name as a single space (which make_dos_record then
      replaces by the decimal count). */
  function ShortFor(dn: Name): (r: seq<byte>)
    ensures IsDotName(r) <==> DotUnits(dn)
    ensures r != [] <==> dn != []
  {
    if DotUnits(dn) then seq(|dn|, _ => DOT) else [SPACE]
  }

  /** The records make_new_records hands to add_entry: the long-name records
      of the UTF-16 name, then the short record, whose checksum they carry. */
  function NewRecords(dn: Name, kind: Kind, start: nat, size: nat, count: nat, c: Clock): Result<seq<byte>>
    requires c.Valid()
  {
    var dos := MakeDosRecord(ShortFor(dn), kind, start, size, count, c);
    var chk := StdChkSum(dos[..11]);
    var enc :- Encode16(dn);
    var lfn :- MakeLfnRecords(enc, chk);
    Ok(lfn + dos)
  }

  /** A name make_new_records stores and cd reads back unchanged: valid
      UTF-16 without a leading byte-order mark or a zero unit, short enough
      for the 0x40-flagged sequence byte, and not one whose first record
      would start with 0xE5 and so read as deleted. */
  predicate Storable(dn: Name) {
    Paired(dn) && dn != [] && dn[0] != 0xFEFF && dn[0] != 0xFFFE
    && (forall j :: 0 <= j < |dn| ==> dn[j] != 0)
    && Chunks(2 * |dn|) <= 191 && Chunks(2 * |dn|) + 0x40 != DELETED as int
  }

  /** The inner loop of cd counts a run of m records with attribute 0x0F. */
  lemma {:induction false} LfnCountRun(data: seq<byte>, p: nat, m: nat)
    requires 32 * (p + m) + 11 < |data| && data[32 * (p + m) + 11] != LFN_ATTR
    requires forall j :: p <= j < p + m ==> data[32 * j + 11] == LFN_ATTR
    ensures LfnCount(data, p) == Ok(m)
    decreases m
  {
    if m > 0 {
      LfnCountRun(data, p + 1, m - 1);
    }
  }

  lemma NoZeroUnits(dn: Name)
    requires forall j :: 0 <= j < |dn| ==> dn[j] != 0
    ensures NoZeroUnit(LittleEndian(dn))
  {
    var b := LittleEndian(dn);
    forall j | 0 <= j < |b| / 2
      ensures !(b[2 * j] == 0 && b[2 * j + 1] == 0)
    {
      assert b[2 * j] as int == dn[j] as int % 256 && b[2 * j + 1] as int == dn[j] as int / 256;
    }
  }

  /** The records of a new entry for a storable name: its long-name
      records, then its short record. */
  lemma NewRecordsShape(dn: Name, kind: Kind, start: nat, size: nat, count: nat, c: Clock)
    requires c.Valid() && Storable(dn)
    ensures var dos := MakeDosRecord(ShortFor(dn), kind, start, size, count, c);
            var lfn := MakeLfnRecords(LittleEndian(dn), StdChkSum(dos[..11]));
            lfn.Ok? && NewRecords(dn, kind, start, size, count, c) == Ok(lfn.value + dos)
  {
    var dos := MakeDosRecord(ShortFor(dn), kind, start, size, count, c);
    LfnOfName(dn, StdChkSum(dos[..11]));
  }

  /** The long-name records of a storable name. */
  lemma LfnOfName(dn: Name, chk: byte)
    requires Storable(dn)
    ensures var lfn := MakeLfnRecords(LittleEndian(dn), chk);
            lfn.Ok? && |lfn.value| == 32 * Chunks(2 * |dn|)
            && RecordShape(lfn.value, 1, Chunks(2 * |dn|), chk) && Gather(lfn.value) == LittleEndian(dn)
  {
    var enc := LittleEndian(dn);
    NoZeroUnits(dn);
    assert |enc| == 2 * |dn|;
    LfnRoundTrip(enc, chk);
  }

  /** The entry cd reads from a new entry's records. */
  function NewEntry(dn: Name, kind: Kind, start: nat, size: nat, c: Clock, i: nat): MyFile {
    MyFile(dn, start, kind, WrittenTime(c), WrittenDate(c), size, i, Chunks(2 * |dn|) + 1)
  }

  /** Round trip: the records make_new_records builds for a storable name,
      found at record i of a directory, are listed by cd as one entry with
      that name, start cluster, kind, size, the clock's time (seconds
      rounded down to even) and date, and blocks (i, records). */
  lemma EntryRoundTrip(data: seq<byte>, i: nat, e: seq<byte>, dn: Name, kind: Kind, start: nat, size: nat, count: nat,
                       c: Clock)
    requires c.Valid() && Storable(dn) && start < 0x1_0000_0000 && size < 0x1_0000_0000
    requires NewRecords(dn, kind, start, size, count, c) == Ok(e)
    requires 32 * i + |e| <= |data| && data[32 * i..32 * i + |e|] == e
    ensures ParseEntry(data, i) == Ok(NewEntry(dn, kind, start, size, c, i))
  {
    var lfn, dos, chk, info := EntryParts(dn, kind, start, size, count, c, i);
    EntryFromParts(data, i, e, lfn, dos, Chunks(2 * |dn|), chk, dn, info);
    var r := ParseEntry(data, i).value;
    SameFile(r, NewEntry(dn, kind, start, size, c, i));
  }

  /** Entries agreeing field by field are equal. */
  lemma SameFile(f: MyFile, g: MyFile)
    requires f.name == g.name && f.start == g.start && f.kind == g.kind && f.time == g.time && f.date == g.date
    requires f.size == g.size && f.first == g.first && f.count == g.count
    ensures f == g
  {
  }

  /** The pieces of a new entry: long-name records that gather back to the
      name's bytes, and a short record with the entry's fields. */
  lemma EntryParts(dn: Name, kind: Kind, start: nat, size: nat, count: nat, c: Clock, i: nat)
    returns (lfn: seq<byte>, dos: seq<byte>, chk: byte, info: Info)
    requires c.Valid() && Storable(dn) && start < 0x1_0000_0000 && size < 0x1_0000_0000
    ensures NewRecords(dn, kind, start, size, count, c) == Ok(lfn + dos)
    ensures |lfn| == 32 * Chunks(2 * |dn|) && RecordShape(lfn, 1, Chunks(2 * |dn|), chk)
    ensures |dos| == 32 && dos[11] != LFN_ATTR
    ensures Decode16(Gather(lfn)) == Ok(dn) && GetInfo(dos) == Ok(info)
    ensures MyFile(dn, info.start, info.kind, info.time, info.date, info.size, i, Chunks(2 * |dn|) + 1)
            == NewEntry(dn, kind, start, size, c, i)
  {
    dos := MakeDosRecord(ShortFor(dn), kind, start, size, count, c);
    chk := StdChkSum(dos[..11]);
    NewRecordsShape(dn, kind, start, size, count, c);
    LfnOfName(dn, chk);
    lfn := MakeLfnRecords(LittleEndian(dn), chk).value;
    NameRoundTrip(dn);
    info := ShortInfo(dn, kind, start, size, count, c, i);
    DosAttr(ShortFor(dn), kind, start, size, count, c);
  }

  /** The short record of a new entry yields its start, kind, size, time and date. */
  lemma ShortInfo(dn: Name, kind: Kind, start: nat, size: nat, count: nat, c: Clock, i: nat) returns (info: Info)
    requires c.Valid() && dn != [] && start < 0x1_0000_0000 && size < 0x1_0000_0000
    ensures GetInfo(MakeDosRecord(ShortFor(dn), kind, start, size, count, c)) == Ok(info)
    ensures MyFile(dn, info.start, info.kind, info.time, info.date, info.size, i, Chunks(2 * |dn|) + 1)
            == NewEntry(dn, kind, start, size, c, i)
  {
    DosRecordInfo(ShortFor(dn), kind, start, size, count, c);
    info := GetInfo(MakeDosRecord(ShortFor(dn), kind, start, size, count, c)).value;
  }

  lemma DosAttr(fn: seq<byte>, kind: Kind, start: nat, size: nat, count: nat, c: Clock)
    requires c.Valid()
    ensures MakeDosRecord(fn, kind, start, size, count, c)[11] != LFN_ATTR
  {
  }

  /** cd reads m long-name records followed by a short record as one entry. */
  lemma EntryFromParts(data: seq<byte>, i: nat, e: seq<byte>, lfn: seq<byte>, dos: seq<byte>, m: nat, chk: byte,
                       name: Name, info: Info)
    requires |lfn| == 32 * m && RecordShape(lfn, 1, m, chk) && |dos| == 32 && dos[11] != LFN_ATTR
    requires e == lfn + dos && 32 * i + |e| <= |data| && data[32 * i..32 * i + |e|] == e
    requires Decode16(Gather(lfn)) == Ok(name) && name != [] && GetInfo(dos) == Ok(info)
    ensures ParseEntry(data, i) == Ok(MyFile(name, info.start, info.kind, info.time, info.date, info.size, i, m + 1))
  {
    assert e[..32 * m] == lfn && e[32 * m..] == dos;
    RecordsAt(data, i, e, m, dos, chk);
    LfnCountRun(data, i, m);
    ParseEntryAt(data, i, m);
    assert Slice(data, 32 * i, 32 * (i + m)) == lfn;
    assert LongName(data, i, m) == Gather(lfn);
    assert Record(data, i + m) == dos;
    EntryAtIs(data, i, m, name, info);
  }

  lemma ParseEntryAt(data: seq<byte>, i: nat, m: nat)
    requires LfnCount(data, i) == Ok(m)
    ensures ParseEntry(data, i) == EntryAt(data, i, m)
  {
    ParseEntryCount(data, i);
  }

  /** The two ways EntryAt fails: a long name that does not decode, or a
      short record get_info refuses. */
  lemma EntryAtCases(data: seq<byte>, i: nat, k: nat)
    ensures Decode16(LongName(data, i, k)).Fail? ==> EntryAt(data, i, k) == Fail(Decode16(LongName(data, i, k)).error)
    ensures Decode16(LongName(data, i, k)).Ok? && GetInfo(Record(data, i + k)).Fail? ==>
              EntryAt(data, i, k) == Fail(GetInfo(Record(data, i + k)).error)
  {
  }

  lemma EntryAtIs(data: seq<byte>, i: nat, k: nat, name: Name, info: Info)
    requires Decode16(LongName(data, i, k)) == Ok(name) && GetInfo(Record(data, i + k)) == Ok(info)
    ensures EntryAt(data, i, k)
            == Ok(MyFile(if |name| == 0 then info.name else name, info.start, info.kind, info.time, info.date, info.size, i, k + 1))
  {
  }

  /** Where the records of a new entry lie in the directory bytes. */
  lemma RecordsAt(data: seq<byte>, i: nat, e: seq<byte>, m: nat, dos: seq<byte>, chk: byte)
    requires |e| == 32 * (m + 1) && e[32 * m..] == dos && |dos| == 32 && dos[11] != LFN_ATTR
    requires RecordShape(e[..32 * m], 1, m, chk)
    requires 32 * i + |e| <= |data| && data[32 * i..32 * i + |e|] == e
    ensures 32 * (i + m) + 11 < |data| && data[32 * (i + m) + 11] != LFN_ATTR
    ensures forall j :: i <= j < i + m ==> data[32 * j + 11] == LFN_ATTR
    ensures data[32 * i..32 * (i + m)] == e[..32 * m]
    ensures data[32 * (i + m)..32 * (i + m) + 32] == dos
  {
    forall j | i <= j < i + m
      ensures data[32 * j + 11] == LFN_ATTR
    {
      var rec := e[..32 * m][32 * (j - i)..32 * (j - i) + 32];
      assert Header(rec, 1 + m - 1 - (j - i) + (if j - i == 0 then 0x40 else 0), chk);
      assert rec[11] == e[32 * (j - i) + 11];
    }
    assert data[32 * (i + m) + 11] == e[32 * m + 11];
  }

  // ---------------------------------------------------------------------
  // Placing records in free slots (add_entry)

  /** The loop of add_entry from record i of the n records the directory
      had when read: a record whose first byte is 0x00 takes the next 32
      bytes of data (deleted 0xE5 records are not reused), and the loop
      stops as soon as data is used up. It returns the new directory bytes
      and the data left over; a record index past the end of bytes that
      shrank fails as Python's index does. */
  function FillFrom(d: seq<byte>, data: seq<byte>, i: nat, n: nat): (r: Result<(seq<byte>, seq<byte>)>)
    decreases n - i
  {
    if i >= n then Ok((d, data))
    else if |d| <= 32 * i then Fail(IndexError)
    else if d[32 * i] == FREE then
      var d' := Take(d, 32 * i) + Take(data, 32) + Drop(d, 32 * (i + 1));
      var data' := Drop(data, 32);
      if |data'| == 0 then Ok((d', data')) else FillFrom(d', data', i + 1, n)
    else if |data| == 0 then Ok((d, data))
    else FillFrom(d, data, i + 1, n)
  }

  function AddEntry(d: seq<byte>, data: seq<byte>): Result<(seq<byte>, seq<byte>)> {
    FillFrom(d, data, 0, |d| / 32)
  }

  /** The number of free (0x00) records before record j. */
  function FreeBefore(d: seq<byte>, j: nat): (r: nat)
    requires 32 * j <= |d|
    ensures r <= j
  {
    if j == 0 then 0 else FreeBefore(d, j - 1) + (if d[32 * (j - 1)] == FREE then 1 else 0)
  }

  /** Record j after add_entry: the free records, in order, take the
      records of data until those run out; every other record stays. */
  function Slot(d: seq<byte>, data: seq<byte>, j: nat): (r: seq<byte>)
    requires 32 * j + 32 <= |d| && |data| % 32 == 0
    ensures |r| == 32
  {
    var k := FreeBefore(d, j);
    if d[32 * j] == FREE && 32 * k < |data| then data[32 * k..32 * k + 32] else d[32 * j..32 * j + 32]
  }

  /** The first j records after add_entry. */
  function Placed(d: seq<byte>, data: seq<byte>, j: nat): (r: seq<byte>)
    requires 32 * j <= |d| && |data| % 32 == 0
    ensures |r| == 32 * j
  {
    if j == 0 then [] else Placed(d, data, j - 1) + Slot(d, data, j - 1)
  }

  /** add_entry with whole records to place: the directory keeps its
      length; its free records, lowest first, receive the records of data
      in order and all other records and the bytes past the last whole
      record are unchanged; what is returned is the data that found no
      free record. */
  lemma AddEntryFacts(d: seq<byte>, data: seq<byte>)
    requires |data| % 32 == 0 && data != []
    ensures var n := |d| / 32;
            AddEntry(d, data) == Ok((Placed(d, data, n) + d[32 * n..], Drop(data, 32 * Min(FreeBefore(d, n), |data| / 32))))
  {
    var n := |d| / 32;
    assert d == Placed(d, data, 0) + d[0..];
    FillFacts(d, data, d, data, 0, n);
  }

  /** The outcome add_entry ends with from the directory d0 and the records data0. */
  predicate FillsTo(r: Result<(seq<byte>, seq<byte>)>, d0: seq<byte>, data0: seq<byte>)
    requires |data0| % 32 == 0
  {
    var n := |d0| / 32;
    r == Ok((Placed(d0, data0, n) + d0[32 * n..], Drop(data0, 32 * Min(FreeBefore(d0, n), |data0| / 32))))
  }

  lemma {:induction false} FillFacts(d0: seq<byte>, data0: seq<byte>, d: seq<byte>, data: seq<byte>, i: nat, n: nat)
    requires |data0| % 32 == 0 && n == |d0| / 32 && i <= n
    requires d == Placed(d0, data0, i) + d0[32 * i..]
    requires 32 * FreeBefore(d0, i) < |data0| && data == Drop(data0, 32 * FreeBefore(d0, i))
    ensures FillsTo(FillFrom(d, data, i, n), d0, data0)
    decreases n - i, 2
  {
    if i == n {
      DivBelow(FreeBefore(d0, n), |data0|);
    } else {
      FillPos(d0, data0, d, i);
      if d0[32 * i] == FREE {
        FillFree(d0, data0, d, data, i, n);
      } else {
        FillKeep(d0, data0, d, data, i, n);
      }
    }
  }

  /** Free record i takes the next record of data. */
  lemma {:induction false} FillFree(d0: seq<byte>, data0: seq<byte>, d: seq<byte>, data: seq<byte>, i: nat, n: nat)
    requires |data0| % 32 == 0 && n == |d0| / 32 && i < n && d0[32 * i] == FREE
    requires d == Placed(d0, data0, i) + d0[32 * i..]
    requires 32 * FreeBefore(d0, i) < |data0| && data == Drop(data0, 32 * FreeBefore(d0, i))
    ensures FillsTo(FillFrom(d, data, i, n), d0, data0)
    decreases n - i, 1
  {
    DivBelow(FreeBefore(d0, i), |data0|);
    if 32 * FreeBefore(d0, i) + 32 == |data0| {
      FreeLast(d0, data0, d, data, i, n);
    } else {
      FreeNext(d0, data0, d, data, i, n);
      FillOn(d0, data0, d, data, i, n);
    }
  }

  lemma {:induction false} FillOn(d0: seq<byte>, data0: seq<byte>, d: seq<byte>, data: seq<byte>, i: nat, n: nat)
    requires |data0| % 32 == 0 && n == |d0| / 32 && i < n && 32 * (i + 1) <= |d0|
    requires 32 * FreeBefore(d0, i + 1) < |data0|
    requires FillFrom(d, data, i, n)
          == FillFrom(Placed(d0, data0, i + 1) + d0[32 * (i + 1)..], Drop(data0, 32 * FreeBefore(d0, i + 1)), i + 1, n)
    ensures FillsTo(FillFrom(d, data, i, n), d0, data0)
    decreases n - i, 0
  {
    FillFacts(d0, data0, Placed(d0, data0, i + 1) + d0[32 * (i + 1)..], Drop(data0, 32 * FreeBefore(d0, i + 1)), i + 1, n);
  }

  /** A free record with more data to follow: the loop goes on at record i + 1. */
  lemma FreeNext(d0: seq<byte>, data0: seq<byte>, d: seq<byte>, data: seq<byte>, i: nat, n: nat)
    requires |data0| % 32 == 0 && n == |d0| / 32 && i < n && d0[32 * i] == FREE
    requires d == Placed(d0, data0, i) + d0[32 * i..]
    requires 32 * FreeBefore(d0, i) + 32 < |data0| && data == Drop(data0, 32 * FreeBefore(d0, i))
    ensures 32 * (i + 1) <= |d0| && 32 * FreeBefore(d0, i + 1) < |data0|
    ensures FillFrom(d, data, i, n)
         == FillFrom(Placed(d0, data0, i + 1) + d0[32 * (i + 1)..], Drop(data0, 32 * FreeBefore(d0, i + 1)), i + 1, n)
  {
    FreeStep(d0, data0, d, data, i, n);
  }

  /** The last record of data goes to free record i. */
  lemma FreeLast(d0: seq<byte>, data0: seq<byte>, d: seq<byte>, data: seq<byte>, i: nat, n: nat)
    requires |data0| % 32 == 0 && n == |d0| / 32 && i < n && d0[32 * i] == FREE
    requires d == Placed(d0, data0, i) + d0[32 * i..]
    requires 32 * FreeBefore(d0, i) + 32 == |data0| && data == Drop(data0, 32 * FreeBefore(d0, i))
    ensures FillsTo(FillFrom(d, data, i, n), d0, data0)
  {
    FreeStep(d0, data0, d, data, i, n);
    FillLast(d0, data0, i, n);
  }

  /** The step of FillFrom at a free record, in terms of the placement. */
  lemma FreeStep(d0: seq<byte>, data0: seq<byte>, d: seq<byte>, data: seq<byte>, i: nat, n: nat)
    requires |data0| % 32 == 0 && n == |d0| / 32 && i < n && d0[32 * i] == FREE
    requires d == Placed(d0, data0, i) + d0[32 * i..]
    requires 32 * FreeBefore(d0, i) < |data0| && data == Drop(data0, 32 * FreeBefore(d0, i))
    ensures FreeBefore(d0, i + 1) == FreeBefore(d0, i) + 1
    ensures var x := Placed(d0, data0, i + 1) + d0[32 * (i + 1)..];
            var y := Drop(data0, 32 * (FreeBefore(d0, i) + 1));
            (y == [] ==> FillFrom(d, data, i, n) == Ok((x, y))) && (y != [] ==> FillFrom(d, data, i, n) == FillFrom(x, y, i + 1, n))
  {
    FillPos(d0, data0, d, i);
    FillStep(d0, data0, d, data, i);
    FillFromFree(d, data, i, n);
  }

  /** A record in use is skipped. */
  lemma {:induction false} FillKeep(d0: seq<byte>, data0: seq<byte>, d: seq<byte>, data: seq<byte>, i: nat, n: nat)
    requires |data0| % 32 == 0 && n == |d0| / 32 && i < n && d0[32 * i] != FREE
    requires d == Placed(d0, data0, i) + d0[32 * i..]
    requires 32 * FreeBefore(d0, i) < |data0| && data == Drop(data0, 32 * FreeBefore(d0, i))
    ensures FillsTo(FillFrom(d, data, i, n), d0, data0)
    decreases n - i, 1
  {
    assert FillFrom(d, data, i, n) == FillFrom(d, data, i + 1, n) by {
      FillPos(d0, data0, d, i);
      FillFromKeep(d, data, i, n);
    }
    KeepPlaced(d0, data0, d, i);
    FillFacts(d0, data0, d, data, i + 1, n);
  }

  /** The last record of data placed at record i: the rest stays. */
  lemma FillLast(d0: seq<byte>, data0: seq<byte>, i: nat, n: nat)
    requires |data0| % 32 == 0 && n == |d0| / 32 && i < n && FreeBefore(d0, i + 1) == |data0| / 32
    ensures Placed(d0, data0, n) + d0[32 * n..] == Placed(d0, data0, i + 1) + d0[32 * (i + 1)..]
    ensures Min(FreeBefore(d0, n), |data0| / 32) == FreeBefore(d0, i + 1)
    ensures Drop(data0, 32 * FreeBefore(d0, i + 1)) == []
  {
    PlacedRest(d0, data0, i + 1, n);
    FreeBelow(d0, i + 1, n);
  }

  lemma DivBelow(k: nat, len: nat)
    requires len % 32 == 0 && 32 * k < len
    ensures k < len / 32 && Min(k, len / 32) == k && (k + 1 < len / 32 ==> 32 * (k + 1) < len)
  {
  }

  lemma {:induction false} FreeBelow(d: seq<byte>, j: nat, n: nat)
    requires j <= n && 32 * n <= |d|
    ensures FreeBefore(d, j) <= FreeBefore(d, n)
    decreases n - j
  {
    if j < n {
      FreeBelow(d, j + 1, n);
    }
  }

  lemma FillFromFree(d: seq<byte>, data: seq<byte>, i: nat, n: nat)
    requires i < n && 32 * i < |d| && d[32 * i] == FREE
    ensures var d' := Take(d, 32 * i) + Take(data, 32) + Drop(d, 32 * (i + 1));
            FillFrom(d, data, i, n) == if |Drop(data, 32)| == 0 then Ok((d', Drop(data, 32))) else FillFrom(d', Drop(data, 32), i + 1, n)
  {
  }

  lemma FillFromKeep(d: seq<byte>, data: seq<byte>, i: nat, n: nat)
    requires i < n && 32 * i < |d| && d[32 * i] != FREE && |data| > 0
    ensures FillFrom(d, data, i, n) == FillFrom(d, data, i + 1, n)
  {
  }

  lemma KeepPlaced(d0: seq<byte>, data0: seq<byte>, d: seq<byte>, i: nat)
    requires |data0| % 32 == 0 && i < |d0| / 32 && d0[32 * i] != FREE
    requires d == Placed(d0, data0, i) + d0[32 * i..]
    ensures d == Placed(d0, data0, i + 1) + d0[32 * (i + 1)..]
    ensures FreeBefore(d0, i + 1) == FreeBefore(d0, i)
  {
    PlacedKeep(d0, data0, i);
  }

  lemma FillPos(d0: seq<byte>, data0: seq<byte>, d: seq<byte>, i: nat)
    requires |data0| % 32 == 0 && i < |d0| / 32
    requires d == Placed(d0, data0, i) + d0[32 * i..]
    ensures |d| == |d0| && d[32 * i] == d0[32 * i]
  {
  }

  /** One placement: free record i takes the next record of data. */
  lemma FillStep(d0: seq<byte>, data0: seq<byte>, d: seq<byte>, data: seq<byte>, i: nat)
    requires |data0| % 32 == 0 && i < |d0| / 32 && d0[32 * i] == FREE
    requires d == Placed(d0, data0, i) + d0[32 * i..]
    requires 32 * FreeBefore(d0, i) < |data0| && data == Drop(data0, 32 * FreeBefore(d0, i))
    ensures Take(d, 32 * i) + Take(data, 32) + Drop(d, 32 * (i + 1)) == Placed(d0, data0, i + 1) + d0[32 * (i + 1)..]
    ensures FreeBefore(d0, i + 1) == FreeBefore(d0, i) + 1
    ensures Drop(data, 32) == Drop(data0, 32 * (FreeBefore(d0, i) + 1))
  {
    var k := FreeBefore(d0, i);
    WholeRecord(k, |data0|);
    assert Take(data, 32) == data0[32 * k..32 * k + 32];
    assert Slot(d0, data0, i) == data0[32 * k..32 * k + 32];
    assert Take(d, 32 * i) == Placed(d0, data0, i);
    assert Drop(d, 32 * (i + 1)) == d0[32 * (i + 1)..];
  }

  /** A record that starts inside whole records ends inside them too. */
  lemma WholeRecord(k: nat, n: nat)
    requires n % 32 == 0 && 32 * k < n
    ensures 32 * k + 32 <= n
  {
    assert n == 32 * (n / 32);
  }

  /** Once data is used up, the remaining records stay as they are. */
  lemma {:induction false} PlacedRest(d0: seq<byte>, data0: seq<byte>, j: nat, n: nat)
    requires |data0| % 32 == 0 && j <= n && n == |d0| / 32 && 32 * FreeBefore(d0, j) >= |data0|
    ensures Placed(d0, data0, n) + d0[32 * n..] == Placed(d0, data0, j) + d0[32 * j..]
    ensures FreeBefore(d0, n) >= FreeBefore(d0, j)
    decreases n - j
  {
    if j < n {
      var k := FreeBefore(d0, j);
      assert FreeBefore(d0, j + 1) >= k;
      PlacedKeep(d0, data0, j);
      PlacedRest(d0, data0, j + 1, n);
      assert FreeBefore(d0, n) >= FreeBefore(d0, j + 1) >= k;
    }
  }

  /** A record that receives no data stays in place. */
  lemma PlacedKeep(d0: seq<byte>, data0: seq<byte>, j: nat)
    requires |data0| % 32 == 0 && 32 * j + 32 <= |d0|
    requires !(d0[32 * j] == FREE && 32 * FreeBefore(d0, j) < |data0|)
    ensures Placed(d0, data0, j + 1) + d0[32 * (j + 1)..] == Placed(d0, data0, j) + d0[32 * j..]
  {
    assert Slot(d0, data0, j) == d0[32 * j..32 * j + 32];
    assert d0[32 * j..] == d0[32 * j..32 * j + 32] + d0[32 * (j + 1)..];
  }

  // ---------------------------------------------------------------------
  // A new entry in the listing (cf, md)

  /** Room for m records at record p: p is the first free record, the m
      records from it are free, and the record before it is not a
      long-name record (whose run would otherwise swallow the new ones). */
  predicate Room(d: seq<byte>, p: nat, m: nat) {
    32 * (p + m) <= |d| && (forall j :: 0 <= j < p ==> d[32 * j] != FREE) && (forall j :: p <= j < p + m ==> d[32 * j] == FREE)
    && (p > 0 ==> d[32 * (p - 1) + 11] != LFN_ATTR)
  }

  /** add_entry's loop passes over the records before p, none of them free. */
  lemma {:induction false} FillUpTo(d: seq<byte>, data: seq<byte>, i: nat, p: nat, n: nat)
    requires data != [] && i <= p && 32 * p <= |d| && forall j :: i <= j < p ==> d[32 * j] != FREE
    ensures FillFrom(d, data, i, n) == FillFrom(d, data, p, n)
    decreases p - i
  {
    if i < p && i < n {
      FillUpTo(d, data, i + 1, p, n);
    }
  }

  /** add_entry's loop from a run of m free records, data being m records:
      data lies at record i and nothing is left over. */
  lemma {:induction false} FillRun(d: seq<byte>, data: seq<byte>, i: nat, n: nat, m: nat)
    requires m >= 1 && |data| == 32 * m && i + m <= n && 32 * n <= |d|
    requires forall j :: i <= j < i + m ==> d[32 * j] == FREE
    ensures FillFrom(d, data, i, n) == Ok((d[..32 * i] + data + d[32 * i + |data|..], []))
    decreases m
  {
    var d' := FillHead(d, data, i, n, m);
    if m > 1 {
      FillRun(d', data[32..], i + 1, n, m - 1);
      FillJoin(d, data, i, d', FillFrom(d', data[32..], i + 1, n));
    }
  }

  /** The outcome of the loop after the first placement is the outcome of
      placing all of data at record i. */
  lemma FillJoin(d: seq<byte>, data: seq<byte>, i: nat, d': seq<byte>, r: Result<(seq<byte>, seq<byte>)>)
    requires 32 < |data| && 32 * i + |data| <= |d| && d' == d[..32 * i] + data[..32] + d[32 * i + 32..]
    requires r == Ok((d'[..32 * (i + 1)] + data[32..] + d'[32 * (i + 1) + |data[32..]|..], []))
    ensures r == Ok((d[..32 * i] + data + d[32 * i + |data|..], []))
  {
    var a := 32 * i;
    assert 32 * (i + 1) == a + 32;
    SpliceNext(d, data, a);
  }

  /** One step of add_entry's loop at a free record i: its 32 bytes take
      the first record of data. */
  lemma FillHead(d: seq<byte>, data: seq<byte>, i: nat, n: nat, m: nat) returns (d': seq<byte>)
    requires m >= 1 && |data| == 32 * m && i + m <= n && 32 * n <= |d| && d[32 * i] == FREE
    ensures d' == d[..32 * i] + data[..32] + d[32 * i + 32..] && |d'| == |d| && |data[32..]| == 32 * (m - 1)
    ensures forall j :: i < j < i + m ==> d'[32 * j] == d[32 * j]
    ensures FillFrom(d, data, i, n) == if m == 1 then Ok((d[..32 * i] + data + d[32 * i + |data|..], []))
                                       else FillFrom(d', data[32..], i + 1, n)
  {
    var a := 32 * i;
    d' := d[..a] + data[..32] + d[a + 32..];
    assert Take(d, a) == d[..a] && Take(data, 32) == data[..32] && Drop(d, 32 * (i + 1)) == d[a + 32..];
    assert Drop(data, 32) == data[32..];
    if |data| == 32 {
      assert data[..32] == data;
    }
  }

  /** The bytes after two placements are the bytes after placing both
      records at once. */
  lemma SpliceNext(d: seq<byte>, data: seq<byte>, a: nat)
    requires 32 < |data| && a + |data| <= |d|
    ensures var d' := d[..a] + data[..32] + d[a + 32..];
            d'[..a + 32] + data[32..] + d'[a + 32 + |data[32..]|..] == d[..a] + data + d[a + |data|..]
  {
    var d' := d[..a] + data[..32] + d[a + 32..];
    assert d'[..a + 32] == d[..a] + data[..32];
    assert d'[a + 32 + |data[32..]|..] == d[a + |data|..];
    assert data[..32] + data[32..] == data;
  }

  /** add_entry into room for all of data: nothing is left over, the
      directory keeps its length and its records before p, and data lies
      at record p. */
  lemma AddIntoRoom(d: seq<byte>, data: seq<byte>, p: nat)
    requires |data| % 32 == 0 && data != [] && Room(d, p, |data| / 32)
    ensures AddEntry(d, data) == Ok((d[..32 * p] + data + d[32 * p + |data|..], []))
  {
    var m := |data| / 32;
    assert |data| == 32 * m;
    FillUpTo(d, data, 0, p, |d| / 32);
    FillRun(d, data, p, |d| / 32, m);
  }

  /** Every entry of cd's listing is the entry parsed at its first record. */
  predicate Parsed(data: seq<byte>, files: seq<MyFile>) {
    forall f :: f in files ==> ParseEntry(data, f.first) == Ok(f)
  }

  predicate ParsedListing(data: seq<byte>, r: Result<seq<MyFile>>) {
    r.Ok? ==> Parsed(data, r.value)
  }

  lemma {:induction false} ListFromParsed(data: seq<byte>, i: nat, k: nat, files: seq<MyFile>)
    requires Parsed(data, files)
    ensures ParsedListing(data, ListFrom(data, i, k, files))
    decreases |data| / 32 - i, 1
  {
    if i >= |data| / 32 {
      ListFromEnd(data, i, k, files);
    } else if k > 0 {
      ListFromCovered(data, i, k, files);
      ListFromParsed(data, i + 1, k - 1, files);
    } else {
      RecordInside(|data|, i);
      if !Live(data, i) {
        ListFromDead(data, i, files);
        ListFromParsed(data, i + 1, 0, files);
      } else if ParseEntry(data, i).Ok? {
        var f := ParseEntry(data, i).value;
        ParsedAppend(data, files, f);
        ListFromLive(data, i, files, f);
        ListFromParsedEntry(data, i, files, f);
      } else {
        ListFromFail(data, i, files);
      }
    }
  }

  /** ListFromParsed at a live record i that starts entry f. */
  lemma {:induction false} ListFromParsedEntry(data: seq<byte>, i: nat, files: seq<MyFile>, f: MyFile)
    requires i < |data| / 32 && f.count >= 1 && Parsed(data, files + [f])
    requires ListFrom(data, i, 0, files) == ListFrom(data, i + 1, f.count - 1, files + [f])
    ensures ParsedListing(data, ListFrom(data, i, 0, files))
    decreases |data| / 32 - i, 0
  {
    ListFromParsed(data, i + 1, f.count - 1, files + [f]);
  }

  lemma ParsedAppend(data: seq<byte>, files: seq<MyFile>, f: MyFile)
    requires Parsed(data, files) && ParseEntry(data, f.first) == Ok(f)
    ensures Parsed(data, files + [f])
  {
    assert forall h :: h in files + [f] ==> h in files || h == f;
  }

  /** An entry that parses at a live record p, whose record before is not
      a long-name record, is in the listing when cd succeeds. */
  lemma ListedAt(data: seq<byte>, p: nat, x: MyFile)
    requires 32 * p + 32 <= |data| && Live(data, p) && ParseEntry(data, p) == Ok(x)
    requires p > 0 ==> data[32 * (p - 1) + 11] != LFN_ATTR
    ensures Listing(data).Ok? ==> x in Listing(data).value
  {
    if Listing(data).Ok? {
      ListingFacts(data);
      ListFromParsed(data, 0, 0, []);
      assert ParsedListing(data, Listing(data));
      InShaped(data, Listing(data).value, p, x);
    }
  }

  lemma InShaped(data: seq<byte>, files: seq<MyFile>, p: nat, x: MyFile)
    requires Shaped(data, files) && Complete(data, files, |data| / 32) && Parsed(data, files)
    requires 32 * p + 32 <= |data| && Live(data, p) && ParseEntry(data, p) == Ok(x)
    requires p > 0 ==> data[32 * (p - 1) + 11] != LFN_ATTR
    ensures x in files
  {
    var f := Covering(data, files, p);
    assert f.first == p by {
      if f.first < p {
        assert false;
      }
    }
    assert ParseEntry(data, f.first) == Ok(f);
  }

  /** The entry a live record of a complete listing belongs to. */
  lemma Covering(data: seq<byte>, files: seq<MyFile>, p: nat) returns (f: MyFile)
    requires Complete(data, files, |data| / 32) && 32 * p + 32 <= |data| && Live(data, p)
    ensures f in files && f.first <= p < f.first + f.count
  {
    assert p < |data| / 32;
    assert Covered(files, p);
    var j :| 0 <= j < |files| && files[j].first <= p < files[j].first + files[j].count;
    f := files[j];
  }

  /** make_new_records into room at record p: add_entry places every
      record, and cd on the new bytes lists the entry with its name, start,
      kind, size and the clock's time and date. */
  lemma NewEntryListed(d: seq<byte>, p: nat, dn: Name, kind: Kind, start: nat, size: nat, count: nat, c: Clock,
                       e: seq<byte>)
    requires c.Valid() && Storable(dn) && start < 0x1_0000_0000 && size < 0x1_0000_0000
    requires NewRecords(dn, kind, start, size, count, c) == Ok(e) && Room(d, p, Chunks(2 * |dn|) + 1)
    ensures AddEntry(d, e).Ok? && AddEntry(d, e).value.1 == [] && |AddEntry(d, e).value.0| == |d|
    ensures var d' := AddEntry(d, e).value.0;
            Listing(d').Ok? ==> NewEntry(dn, kind, start, size, c, p) in Listing(d').value
  {
    var lfn, dos, chk, info := EntryParts(dn, kind, start, size, count, c, p);
    var m := Chunks(2 * |dn|);
    assert |e| == 32 * (m + 1) && |e| / 32 == m + 1;
    AddIntoRoom(d, e, p);
    var d' := d[..32 * p] + e + d[32 * p + |e|..];
    assert d'[32 * p..32 * p + |e|] == e;
    EntryRoundTrip(d', p, e, dn, kind, start, size, count, c);
    assert Header(lfn[0..32], m + 0x40, chk);
    assert d'[32 * p] == e[0] == lfn[0];
    if p > 0 {
      assert d'[32 * (p - 1) + 11] == d[32 * (p - 1) + 11];
    }
    ListedAt(d', p, NewEntry(dn, kind, start, size, c, p));
  }

  // ---------------------------------------------------------------------
  // Compaction (clear_dir)

  /** The live records among the first j, in order. */
  function Kept(d: seq<byte>, j: nat): (r: seq<byte>)
    requires 32 * j <= |d|
  {
    if j == 0 then [] else Kept(d, j - 1) + (if Live(d, j - 1) then d[32 * (j - 1)..32 * j] else [])
  }

  /** The number of free or deleted records among the first j. */
  function Dead(d: seq<byte>, j: nat): (r: nat)
    requires 32 * j <= |d|
    ensures r <= j
  {
    if j == 0 then 0 else Dead(d, j - 1) + (if Live(d, j - 1) then 0 else 1)
  }

  /** What clear_dir writes back: the live records moved to the front in
      their order, then the bytes past the last whole record, then one
      record of zeros for every record dropped. */
  function Compacted(d: seq<byte>): seq<byte> {
    var n := |d| / 32;
    Kept(d, n) + d[32 * n..] + Zeros(32 * Dead(d, n))
  }

  /** clear_dir's buffer after its first j steps: the live records among
      the first j moved to the front, the rest of d, and zeros for the
      records dropped so far. */
  function ClearedTo(d: seq<byte>, j: nat): (r: seq<byte>)
    requires 32 * j <= |d|
    ensures j == |d| / 32 ==> r == Compacted(d)
  {
    Kept(d, j) + d[32 * j..] + Zeros(32 * Dead(d, j))
  }

  /** clear_dir's buffer after its first j steps, step by step: step i
      looks at record i - Dead(d, i) of the buffer, which is record i of
      d, and a free or deleted one is cut out and 32 zeros appended. */
  function Sweep(d: seq<byte>, j: nat): (r: seq<byte>)
    requires 32 * j <= |d|
    ensures |r| == |d|
  {
    if j == 0 then d
    else
      var b, p := Sweep(d, j - 1), j - 1 - Dead(d, j - 1);
      if b[32 * p] == DELETED || b[32 * p] == FREE then b[..32 * p] + b[32 * p + 32..] + Zeros(32) else b
  }

  /** The step-by-step buffer is the closed form: clear_dir gathers the
      live records in front and pads with one record of zeros per record
      dropped. */
  lemma {:induction false} SweepGathers(d: seq<byte>, j: nat)
    requires 32 * j <= |d|
    ensures Sweep(d, j) == ClearedTo(d, j)
  {
    if j > 0 {
      var i := j - 1;
      assert i < |d| / 32;
      SweepGathers(d, i);
      var b, k := Sweep(d, i), Dead(d, i);
      var p := i - k;
      SweepNext(d, i, j, b, p);
      ClearStep(d, i, b, k, p, j);
    }
  }

  /** One step of Sweep, with the buffer b before it and the record p it looks at. */
  lemma SweepNext(d: seq<byte>, i: nat, j: nat, b: seq<byte>, p: nat)
    requires 32 * j <= |d| && j == i + 1 && b == Sweep(d, i) && p == i - Dead(d, i)
    ensures 32 * p + 32 <= |b|
    ensures Sweep(d, j) == if b[32 * p] == DELETED || b[32 * p] == FREE then b[..32 * p] + b[32 * p + 32..] + Zeros(32) else b
  {
  }

  /** At step i the buffer's record i - Dead(d, i) is record i of d. */
  lemma SweepAt(d: seq<byte>, i: nat)
    requires i < |d| / 32
    ensures 32 * (i - Dead(d, i)) + 32 <= |d| && Sweep(d, i)[32 * (i - Dead(d, i))] == d[32 * i]
  {
    SweepGathers(d, i);
    ClearStep(d, i, Sweep(d, i), Dead(d, i), i - Dead(d, i), i + 1);
  }

  /** Step i of clear_dir, with buffer b and k records dropped so far:
      record j = i - k of the buffer is record i of d; a live one stays
      where it is, a dead one is cut out and 32 zeros are appended. */
  lemma ClearStep(d: seq<byte>, i: nat, b: seq<byte>, k: nat, j: nat, n: nat)
    requires i < |d| / 32 && b == ClearedTo(d, i) && k == Dead(d, i) && j == i - k && n == i + 1
    ensures 32 * j + 32 <= |b| && b[32 * j] == d[32 * i]
    ensures !(b[32 * j] == DELETED || b[32 * j] == FREE) ==> b == ClearedTo(d, n) && k == Dead(d, n)
    ensures (b[32 * j] == DELETED || b[32 * j] == FREE) ==>
              b[..32 * j] + b[32 * j + 32..] + Zeros(32) == ClearedTo(d, n) && k + 1 == Dead(d, n)
  {
    KeptLength(d, i);
    KeptStep(d, i);
    var rec, tail := d[32 * i..32 * i + 32], d[32 * (i + 1)..];
    assert d[32 * i..] == rec + tail;
    assert b == Kept(d, i) + rec + tail + Zeros(32 * k);
    if !Live(d, i) {
      ClearDead(Kept(d, i), rec, tail, k, b, j);
    }
  }

  /** Kept and Dead grow by record i. */
  lemma KeptStep(d: seq<byte>, i: nat)
    requires 32 * i + 32 <= |d|
    ensures Kept(d, i + 1) == Kept(d, i) + (if Live(d, i) then d[32 * i..32 * i + 32] else [])
    ensures Dead(d, i + 1) == Dead(d, i) + (if Live(d, i) then 0 else 1)
  {
  }

  lemma ClearDead(kept: seq<byte>, rec: seq<byte>, tail: seq<byte>, k: nat, b: seq<byte>, j: nat)
    requires |kept| == 32 * j && |rec| == 32 && b == kept + rec + tail + Zeros(32 * k)
    ensures 32 * j + 32 <= |b| && b[..32 * j] == kept && b[32 * j + 32..] == tail + Zeros(32 * k)
    ensures kept + tail + Zeros(32 * (k + 1)) == b[..32 * j] + b[32 * j + 32..] + Zeros(32)
  {
    assert b[..32 * j] == kept;
    assert b[32 * j + 32..] == tail + Zeros(32 * k);
    assert Zeros(32 * k) + Zeros(32) == Zeros(32 * (k + 1));
  }

  lemma {:induction false} KeptLength(d: seq<byte>, j: nat)
    requires 32 * j <= |d|
    ensures |Kept(d, j)| == 32 * (j - Dead(d, j))
  {
    if j > 0 {
      KeptLength(d, j - 1);
    }
  }

  /** Every record of Kept(d, j) is live, and each is one of d's records. */
  lemma {:induction false} KeptLive(d: seq<byte>, j: nat)
    requires 32 * j <= |d|
    ensures |Kept(d, j)| == 32 * (j - Dead(d, j))
    ensures forall r :: 0 <= r < j - Dead(d, j) ==> Live(Kept(d, j), r)
  {
    KeptLength(d, j);
    if j > 0 {
      KeptLive(d, j - 1);
      var a := Kept(d, j - 1);
      if Live(d, j - 1) {
        var b := d[32 * (j - 1)..32 * j];
        assert Kept(d, j) == a + b;
        forall r | 0 <= r < j - Dead(d, j)
          ensures Live(a + b, r)
        {
          if r < j - 1 - Dead(d, j - 1) {
            assert Live(a, r);
            assert (a + b)[32 * r] == a[32 * r];
          } else {
            assert 32 * r == |a|;
            assert (a + b)[32 * r] == b[0] == d[32 * (j - 1)];
          }
        }
      } else {
        assert Kept(d, j) == a && Dead(d, j) == Dead(d, j - 1) + 1;
      }
    }
  }

  /** clear_dir keeps the length of the directory; its leading records
      are live and all that follow the bytes past the old last record are
      zero. */
  lemma CompactedShape(d: seq<byte>)
    ensures |Compacted(d)| == |d|
    ensures var n := |d| / 32; var live := n - Dead(d, n);
            (forall r :: 0 <= r < live ==> Live(Compacted(d), r))
            && (forall j :: 32 * live + |d| - 32 * n <= j < |d| ==> Compacted(d)[j] == 0)
  {
    var n := |d| / 32;
    KeptLive(d, n);
    var c := Compacted(d);
    var k := Kept(d, n);
    assert c == k + d[32 * n..] + Zeros(32 * Dead(d, n));
    forall r | 0 <= r < n - Dead(d, n)
      ensures Live(c, r)
    {
      assert Live(k, r);
      assert c[32 * r] == k[32 * r];
    }
  }

  /** Without a partial record at the end, a compacted directory is left
      as it is by a second clear_dir. */
  lemma CompactIdempotent(d: seq<byte>)
    requires |d| % 32 == 0
    ensures Compacted(Compacted(d)) == Compacted(d)
  {
    var n := |d| / 32;
    var live := n - Dead(d, n);
    var c := Compacted(d);
    CompactedShape(d);
    KeptLength(d, n);
    assert c == Kept(d, n) + Zeros(32 * Dead(d, n));
    KeptOfCompact(c, live, n);
  }

  /** Records from `live` on are all zero, those before all live: the
      records before `live` stay and the rest compact to zeros. */
  lemma {:induction false} KeptOfCompact(c: seq<byte>, live: nat, j: nat)
    requires live <= j && 32 * j <= |c|
    requires forall r :: 0 <= r < live ==> Live(c, r)
    requires forall b :: 32 * live <= b < |c| ==> c[b] == 0
    ensures Kept(c, j) == c[..32 * live] && Dead(c, j) == j - live
  {
    if j == live {
      KeptAllLive(c, live);
    } else {
      KeptOfCompact(c, live, j - 1);
      assert c[32 * (j - 1)] == 0;
    }
  }

  lemma {:induction false} KeptAllLive(c: seq<byte>, j: nat)
    requires 32 * j <= |c|
    requires forall r :: 0 <= r < j ==> Live(c, r)
    ensures Kept(c, j) == c[..32 * j] && Dead(c, j) == 0
  {
    if j > 0 {
      KeptAllLive(c, j - 1);
      assert c[..32 * j] == c[..32 * (j - 1)] + c[32 * (j - 1)..32 * j];
    }
  }

  // ---------------------------------------------------------------------
  // Deleting records (del_dir_record)

  /** The loop of del_dir_record from record i up to (not including)
      record end: byte 0 of each record becomes 0xE5; an index past the
      end fails as Python's list assignment does, before anything is
      written back. */
  function MarkFrom(d: seq<byte>, i: nat, end: nat): (r: Result<seq<byte>>)
    decreases end - i
  {
    if i >= end then Ok(d)
    else if |d| <= 32 * i then Fail(IndexError)
    else MarkFrom(d[32 * i := DELETED], i + 1, end)
  }

  function DelDirRecord(d: seq<byte>, start: nat, length: nat): Result<seq<byte>> {
    MarkFrom(d, start, start + length)
  }

  /** Marked at byte b: b opens one of the records [start, end). */
  predicate MarkedByte(b: nat, start: nat, end: nat) {
    b % 32 == 0 && start <= b / 32 < end
  }

  /** del_dir_record succeeds exactly when the last record to mark starts
      inside the bytes; it then changes only byte 0 of each record, to
      0xE5, and every other byte stays. */
  lemma {:induction false} MarkFromFacts(d: seq<byte>, i: nat, end: nat)
    ensures var r := MarkFrom(d, i, end);
            && (r.Ok? <==> (end <= i || 32 * (end - 1) < |d|))
            && (r.Fail? ==> r.error == IndexError)
            && (r.Ok? ==> |r.value| == |d|
                          && forall b :: 0 <= b < |d| ==> r.value[b] == if MarkedByte(b, i, end) then DELETED else d[b])
    decreases end - i
  {
    if i < end && 32 * i < |d| {
      var d' := d[32 * i := DELETED];
      MarkFromFacts(d', i + 1, end);
      var r := MarkFrom(d', i + 1, end);
      if r.Ok? {
        forall b | 0 <= b < |d|
          ensures r.value[b] == if MarkedByte(b, i, end) then DELETED else d[b]
        {
          if b == 32 * i {
            assert MarkedByte(b, i, end);
          } else {
            assert MarkedByte(b, i, end) <==> MarkedByte(b, i + 1, end);
          }
        }
      }
    }
  }

  /** Every listed entry starts at a live record. */
  lemma ListedLive(data: seq<byte>)
    ensures Listing(data).Ok? ==> forall f :: f in Listing(data).value ==> 32 * f.first < |data| && Live(data, f.first)
  {
    ListingFacts(data);
  }

  /** After del_dir_record of [start, start + length) no entry of the new
      listing has its first record there. */
  lemma MarkedUnlisted(d: seq<byte>, start: nat, length: nat)
    requires DelDirRecord(d, start, length).Ok?
    ensures var m := DelDirRecord(d, start, length).value;
            Listing(m).Ok? ==> forall f :: f in Listing(m).value ==> !(start <= f.first < start + length)
  {
    var m := DelDirRecord(d, start, length).value;
    MarkFromFacts(d, start, start + length);
    ListedLive(m);
    if Listing(m).Ok? {
      forall f | f in Listing(m).value
        ensures !(start <= f.first < start + length)
      {
        var b := 32 * f.first;
        assert b % 32 == 0 && b / 32 == f.first;
      }
    }
  }

  // ---------------------------------------------------------------------
  // Duplicate names (check_double)

  /** Some entry of the listing is called fn. */
  predicate Named(files: seq<MyFile>, fn: Name) {
    exists j :: 0 <= j < |files| && files[j].name == fn
  }

  /** check_double: the first entry called fn stops the scan. */
  function CheckDoubleFrom(files: seq<MyFile>, fn: Name, j: nat): (r: Outcome)
    decreases |files| - j
  {
    if j >= |files| then Done
    else if files[j].name == fn then Failed(FileExists(fn))
    else CheckDoubleFrom(files, fn, j + 1)
  }

  function CheckDouble(files: seq<MyFile>, fn: Name): Outcome {
    CheckDoubleFrom(files, fn, 0)
  }

  /** check_double fails, with FileExistsError naming fn, exactly when an
      entry of the listing is called fn. */
  lemma {:induction false} CheckDoubleFromFacts(files: seq<MyFile>, fn: Name, j: nat)
    ensures var r := CheckDoubleFrom(files, fn, j);
            (r.Failed? <==> exists p :: j <= p < |files| && files[p].name == fn)
            && (r.Failed? ==> r.error == FileExists(fn))
    decreases |files| - j
  {
    if j < |files| && files[j].name != fn {
      CheckDoubleFromFacts(files, fn, j + 1);
      assert forall p :: j <= p < |files| && files[p].name == fn ==> j + 1 <= p;
    }
  }

  lemma CheckDoubleFacts(files: seq<MyFile>, fn: Name)
    ensures CheckDouble(files, fn).Failed? <==> Named(files, fn)
    ensures CheckDouble(files, fn).Failed? ==> CheckDouble(files, fn).error == FileExists(fn)
  {
    CheckDoubleFromFacts(files, fn, 0);
  }
}
