/** The on-disk codec of reader.py: little-endian numbers, FAT date and time
    fields, the 32-byte short directory record, the short-name checksum and
    the long-name (LFN) records, following the "FAT Directory Structure" and
    "FAT Long Directory Entries" sections of Microsoft's FAT32 File System
    Specification v1.03. */
module Codec {
  import opened Common

  // ---------------------------------------------------------------------
  // Little-endian numbers (get_bytes, read_num)

  function Pow256(i: nat): (r: nat)
    ensures r >= 1
  {
    if i == 0 then 1 else 256 * Pow256(i - 1)
  }

  /** num divided by 256, i times over (the `num //= 256` of get_bytes). */
  function Quot(num: nat, i: nat): nat {
    if i == 0 then num else Quot(num, i - 1) / 256
  }

  /** get_bytes: four bytes, least significant first; the loop divides by
      256 four times, so only num mod 2^32 survives. */
  function GetBytes(num: nat): (r: seq<byte>)
    ensures |r| == 4
  {
    seq(4, i requires 0 <= i < 4 => (Quot(num, i) % 256) as byte)
  }

  /** read_num: the sum of s[i] * 256^i, written in Horner form. */
  function ReadNum(s: seq<byte>): nat
  {
    if |s| == 0 then 0 else s[0] as nat + 256 * ReadNum(s[1..])
  }

  /** One more byte at the end weighs 256^|s|, as read_num's loop adds it. */
  lemma {:induction false} ReadNumSnoc(s: seq<byte>, b: byte)
    ensures ReadNum(s + [b]) == ReadNum(s) + (b as nat) * Pow256(|s|)
  {
    if |s| == 0 {
      assert (s + [b])[1..] == [];
    } else {
      assert (s + [b])[1..] == s[1..] + [b];
      ReadNumSnoc(s[1..], b);
      assert 256 * ((b as nat) * Pow256(|s| - 1)) == (b as nat) * Pow256(|s|);
    }
  }

  lemma ReadNum2(s: seq<byte>)
    requires |s| == 2
    ensures ReadNum(s) == s[0] as nat + 256 * (s[1] as nat)
  {
    assert ReadNum(s[1..][1..]) == 0;
  }

  lemma ReadNum4(s: seq<byte>)
    requires |s| == 4
    ensures ReadNum(s) == s[0] as nat + 256 * (s[1] as nat) + 65536 * (s[2] as nat) + 16777216 * (s[3] as nat)
  {
    var s1, s2, s3 := s[1..], s[2..], s[3..];
    assert s1[1..] == s2 && s2[1..] == s3 && |s3[1..]| == 0;
    assert ReadNum(s3) == s[3] as nat;
    assert ReadNum(s2) == s[2] as nat + 256 * (s[3] as nat);
    assert ReadNum(s1) == s[1] as nat + 256 * (s[2] as nat) + 65536 * (s[3] as nat);
  }

  lemma ReadNum1(s: seq<byte>)
    requires |s| == 1
    ensures ReadNum(s) == s[0] as nat
  {
    assert |s[1..]| == 0;
  }

  /** Four bytes read as a number stay below 2^32. */
  lemma ReadNum4Bound(s: seq<byte>)
    requires |s| == 4
    ensures ReadNum(s) < 0x1_0000_0000
  {
    ReadNum4(s);
  }

  /** read_num(4, get_bytes(x)) == x for every 32-bit x. */
  lemma ReadGetBytes(x: nat)
    requires x < 0x1_0000_0000
    ensures ReadNum(GetBytes(x)) == x
  {
    var q1 := x / 256;
    var q2 := q1 / 256;
    var q3 := q2 / 256;
    assert Quot(x, 1) == q1 && Quot(x, 2) == q2 && Quot(x, 3) == q3;
    ReadNum4(GetBytes(x));
    assert x == 256 * q1 + x % 256;
    assert q1 == 256 * q2 + q1 % 256;
    assert q2 == 256 * q3 + q2 % 256;
    assert q3 < 256;
    DivUnique(q3, 256, 0, q3);
  }

  /** And the other way round: four bytes survive a read and a re-encode. */
  lemma GetBytesReadNum(s: seq<byte>)
    requires |s| == 4
    ensures GetBytes(ReadNum(s)) == s
  {
    ReadNum4(s);
    var x := ReadNum(s);
    var a, b, c, d := s[0] as nat, s[1] as nat, s[2] as nat, s[3] as nat;
    DivUnique(x, 256, b + 256 * (c + 256 * d), a);
    DivUnique(b + 256 * (c + 256 * d), 256, c + 256 * d, b);
    DivUnique(c + 256 * d, 256, d, c);
    DivUnique(d, 256, 0, d);
    assert Quot(x, 1) == b + 256 * (c + 256 * d);
    assert Quot(x, 2) == c + 256 * d;
    assert Quot(x, 3) == d;
    forall i | 0 <= i < 4
      ensures GetBytes(x)[i] == s[i]
    {
      assert (Quot(x, i) % 256) as byte == s[i];
    }
  }

  /** The loop of get_bytes. */
  method ComputeBytes(num: nat) returns (r: seq<byte>)
    ensures r == GetBytes(num)
  {
    var result: seq<byte> := [];
    var n := num;
    for i := 0 to 4
      invariant |result| == i && n == Quot(num, i)
      invariant forall j :: 0 <= j < i ==> result[j] == (Quot(num, j) % 256) as byte
    {
      result := result + [(n % 256) as byte];
      n := n / 256;
    }
    r := result;
  }

  /** The loop of read_num over n bytes; a short buffer fails as Python's
      index past the end does. */
  method ComputeNum(data: seq<byte>, n: nat) returns (r: Result<nat>)
    ensures r == if |data| < n then Fail(IndexError) else Ok(ReadNum(data[..n]))
  {
    var result := 0;
    for i := 0 to n
      invariant i <= |data| ==> result == ReadNum(data[..i])
    {
      if i >= |data| {
        return Fail(IndexError);
      }
      assert data[..i + 1] == data[..i] + [data[i]];
      ReadNumSnoc(data[..i], data[i]);
      result := result + (data[i] as nat) * Pow256(i);
    }
    if |data| < n {
      return Fail(IndexError);
    }
    r := Ok(result);
  }

  // ---------------------------------------------------------------------
  // Decimal short names: str(len(self.files)).encode('latin-1')

  function Decimal(n: nat): (r: seq<byte>)
    ensures |r| >= 1
    ensures forall i :: 0 <= i < |r| ==> 0x30 <= r[i] <= 0x39
  {
    if n < 10 then [(0x30 + n) as byte] else Decimal(n / 10) + [(0x30 + n % 10) as byte]
  }

  function DecimalValue(s: seq<byte>): nat {
    if s == [] then 0 else 10 * DecimalValue(s[..|s| - 1]) + (s[|s| - 1] as int - 0x30) % 10
  }

  lemma {:induction false} DecimalRoundTrip(n: nat)
    ensures DecimalValue(Decimal(n)) == n
  {
    if n >= 10 {
      DecimalRoundTrip(n / 10);
      var s := Decimal(n);
      assert s[..|s| - 1] == Decimal(n / 10);
    }
  }

  /** Distinct counts give distinct short names. */
  lemma DecimalInjective(a: nat, b: nat)
    requires Decimal(a) == Decimal(b)
    ensures a == b
  {
    DecimalRoundTrip(a);
    DecimalRoundTrip(b);
  }

  // ---------------------------------------------------------------------
  // Date and time (get_date_time, the unpacking in get_info)

  /** What datetime.now() supplies; the wall clock itself is not modelled. */
  datatype Clock = Clock(year: nat, month: nat, day: nat, hour: nat, minute: nat, second: nat, microsecond: nat)
  {
    predicate Valid() {
      1980 <= year && 1 <= month <= 12 && 1 <= day <= 31 && hour < 24 && minute < 60 && second < 60
      && microsecond < 1_000_000
    }
  }

  /** The 16-bit time word: 5 bits hour, 6 bits minute, 5 bits second/2;
      ('0'*5+bin)[-5:] keeps the low 5 bits, and so on. */
  function PackTime(hour: nat, minute: nat, sec2: nat): (r: nat)
    ensures r < 0x1_0000
  {
    (hour % 32) * 2048 + (minute % 64) * 32 + sec2 % 32
  }

  /** The 16-bit date word: 7 bits year-1980, 4 bits month, 5 bits day. */
  function PackDate(day: nat, month: nat, year80: nat): (r: nat)
    ensures r < 0x1_0000
  {
    (year80 % 128) * 512 + (month % 16) * 32 + day % 32
  }

  datatype Packed = Packed(date: seq<byte>, time: seq<byte>, hundredths: byte)

  /** get_date_time with the clock passed in: date and time as two
      little-endian bytes each, and the hundredths of a second. */
  function GetDateTime(c: Clock): (r: Packed)
    requires c.Valid()
    ensures |r.date| == 2 && |r.time| == 2
  {
    var t := PackTime(c.hour, c.minute, c.second / 2);
    var d := PackDate(c.day, c.month, c.year - 1980);
    Packed(GetBytes(d)[..2], GetBytes(t)[..2], (c.microsecond / 10000) as byte)
  }

  lemma Word16(w: nat)
    requires w < 0x1_0000
    ensures ReadNum(GetBytes(w)[..2]) == w
  {
    ReadNum2(GetBytes(w)[..2]);
    assert Quot(w, 1) == w / 256;
  }

  /** The two words get_date_time writes decode to the packed fields. */
  lemma DateTimeWords(c: Clock)
    requires c.Valid()
    ensures ReadNum(GetDateTime(c).time) == PackTime(c.hour, c.minute, c.second / 2)
    ensures ReadNum(GetDateTime(c).date) == PackDate(c.day, c.month, c.year - 1980)
    ensures GetDateTime(c).hundredths as nat == c.microsecond / 10000
  {
    Word16(PackTime(c.hour, c.minute, c.second / 2));
    Word16(PackDate(c.day, c.month, c.year - 1980));
  }

  datatype TimeOfDay = TimeOfDay(hour: nat, minute: nat, second: nat)
  datatype Day = Day(day: nat, month: nat, year: nat)

  /** get_info's unpacking of the 32-bit value read at 0x16: the time word
      in the low half and the date word in the high half. */
  function UnpackTime(n: nat): TimeOfDay {
    TimeOfDay((n / 2048) % 32, (n / 32) % 64, (n % 32) * 2)
  }

  /** The time and date a record written at clock c carries: seconds
      rounded down to even, the year modulo 128 years from 1980. */
  function WrittenTime(c: Clock): TimeOfDay {
    TimeOfDay(c.hour, c.minute, c.second / 2 * 2)
  }

  function WrittenDate(c: Clock): Day {
    Day(c.day, c.month, (c.year - 1980) % 128 + 1980)
  }

  function UnpackDate(n: nat): Day {
    Day((n / 0x1_0000) % 32, (n / 0x20_0000) % 16, (n / 0x200_0000) % 128 + 1980)
  }

  lemma UnpackTimeWord(h: nat, mi: nat, s: nat, d: nat)
    requires h < 32 && mi < 64 && s < 32
    ensures UnpackTime(h * 2048 + mi * 32 + s + 0x1_0000 * d) == TimeOfDay(h, mi, s * 2)
  {
    var n := h * 2048 + mi * 32 + s + 0x1_0000 * d;
    DivUnique(n, 2048, h + 32 * d, mi * 32 + s);
    DivUnique(h + 32 * d, 32, d, h);
    DivUnique(n, 32, h * 64 + mi + 2048 * d, s);
    DivUnique(h * 64 + mi + 2048 * d, 64, h + 32 * d, mi);
  }

  lemma UnpackDateWord(t: nat, dd: nat, mo: nat, y: nat)
    requires t < 0x1_0000 && dd < 32 && mo < 16 && y < 128
    ensures UnpackDate(t + 0x1_0000 * (y * 512 + mo * 32 + dd)) == Day(dd, mo, y + 1980)
  {
    var n := t + 0x1_0000 * (y * 512 + mo * 32 + dd);
    DivUnique(n, 0x1_0000, y * 512 + mo * 32 + dd, t);
    DivUnique(y * 512 + mo * 32 + dd, 32, y * 16 + mo, dd);
    DivUnique(n, 0x20_0000, y * 16 + mo, dd * 0x1_0000 + t);
    DivUnique(y * 16 + mo, 16, y, mo);
    DivUnique(n, 0x200_0000, y, (mo * 32 + dd) * 0x1_0000 + t);
    DivUnique(y, 128, 0, y);
  }

  /** Unpacking the words packed from the clock gives the clock's fields back
      (seconds rounded down to even, the year modulo 128 years). */
  lemma UnpackPacked(c: Clock)
    requires c.Valid()
    ensures var n := PackTime(c.hour, c.minute, c.second / 2) + 0x1_0000 * PackDate(c.day, c.month, c.year - 1980);
            UnpackTime(n) == WrittenTime(c)
            && UnpackDate(n) == WrittenDate(c)
  {
    var d := PackDate(c.day, c.month, c.year - 1980);
    var t := PackTime(c.hour, c.minute, c.second / 2);
    assert t == c.hour * 2048 + c.minute * 32 + c.second / 2;
    assert d == ((c.year - 1980) % 128) * 512 + c.month * 32 + c.day;
    UnpackTimeWord(c.hour, c.minute, c.second / 2, d);
    UnpackDateWord(PackTime(c.hour, c.minute, c.second / 2), c.day, c.month, (c.year - 1980) % 128);
  }

  // ---------------------------------------------------------------------
  // The 32-byte short directory record (make_dos_record, get_info)

  datatype Kind = Dir | File

  const SPACE: byte := 0x20
  const DOT: byte := 0x2E

  function Spaces(n: nat): (r: seq<byte>)
    ensures |r| == n && forall i :: 0 <= i < n ==> r[i] == SPACE
  {
    seq(n, _ => SPACE)
  }

  /** Python's `fn in b'..'`: fn is a substring of "..". */
  predicate IsDotName(fn: seq<byte>) {
    fn == [] || fn == [DOT] || fn == [DOT, DOT]
  }

  /** The 32-byte layout of a short record: name, extension, attribute and a
      zero byte, hundredths, creation time and date, access date, high half of
      the start cluster, write time and date, low half, size. */
  function DosLayout(name8: seq<byte>, ext3: seq<byte>, attr: byte, ss: byte, time: seq<byte>, date: seq<byte>,
                     hi: seq<byte>, lo: seq<byte>, size: seq<byte>): (r: seq<byte>)
    requires |name8| == 8 && |ext3| == 3 && |time| == 2 && |date| == 2 && |hi| == 2 && |lo| == 2 && |size| == 4
    ensures |r| == 32
    ensures r[..8] == name8 && r[8..11] == ext3 && r[11] == attr && r[12] == 0 && r[13] == ss
    ensures r[0x14..0x16] == hi && r[0x16..0x1a] == time + date && r[0x1a..0x1c] == lo && r[0x1c..] == size
  {
    var head := name8 + ext3 + [attr, 0] + [ss];
    assert |head| == 14;
    var mid := time + date + date;
    var tail := hi + time + date + lo + size;
    assert (head + mid + tail)[0x14..] == tail;
    assert tail[..2] == hi && tail[2..6] == time + date && tail[6..8] == lo && tail[8..] == size;
    assert (head + mid + tail)[..14] == head;
    assert head[..8] == name8 && head[8..11] == ext3;
    head + mid + tail
  }

  /** The name part of a short record before padding: a dot name is kept,
      every other name becomes the first 8 decimal digits of `count`. */
  function DosName(fn: seq<byte>, count: nat): (r: seq<byte>)
    ensures 1 <= |r| <= 8 || fn == []
    ensures fn != [] ==> r[0] != SPACE
  {
    if IsDotName(fn) then fn else Take(Decimal(count), 8)
  }

  /** The extension part: the decimal digits of `count` past the eighth. */
  function DosExt(fn: seq<byte>, count: nat): seq<byte> {
    if IsDotName(fn) then [] else Drop(Decimal(count), 8)
  }

  /** The attribute byte make_dos_record writes: 0x10 for a directory,
      0x20 (archive) for a file. */
  function Attr(kind: Kind): byte {
    if kind == Dir then 0x10 else 0x20
  }

  /** get_info's reading of the attribute byte: bit 0x10 means directory. */
  function KindOf(attr: byte): Kind {
    if (attr as bv8) & 0x10 != 0 then Dir else File
  }

  lemma KindOfAttr(kind: Kind)
    ensures KindOf(Attr(kind)) == kind
  {
    assert (0x10 as bv8) & 0x10 != 0 && (0x20 as bv8) & 0x10 == 0;
  }

  /** make_dos_record. `count` is len(self.files), the number of entries in
      the current listing, whose decimal digits name every entry other than
      "." and "..". */
  function MakeDosRecord(fn: seq<byte>, kind: Kind, start: nat, size: nat, count: nat, c: Clock): (r: seq<byte>)
    requires c.Valid()
    ensures |r| == 32
  {
    DosLayout(Take(DosName(fn, count) + Spaces(8), 8), Take(DosExt(fn, count) + Spaces(3), 3), Attr(kind),
              GetDateTime(c).hundredths, GetDateTime(c).time, GetDateTime(c).date,
              GetBytes(start)[2..], GetBytes(start)[..2], GetBytes(size))
  }

  datatype Info = Info(start: nat, kind: Kind, time: TimeOfDay, date: Day, name: Name, size: nat)

  function Latin1(s: seq<byte>): (r: Name)
    ensures |r| == |s| && forall i :: 0 <= i < |s| ==> r[i] as int == s[i] as int
  {
    seq(|s|, i requires 0 <= i < |s| => s[i] as Unit)
  }

  /** Some byte of s is not a space. */
  predicate NotBlank(s: seq<byte>) {
    exists i :: 0 <= i < |s| && s[i] != SPACE
  }

  /** `while name[-1] == " "`: fails on a name of spaces only. */
  function StripSpaces(s: seq<byte>): (r: Result<seq<byte>>)
    ensures r.Ok? <==> NotBlank(s)
    ensures r.Ok? ==> |r.value| >= 1 && r.value[|r.value| - 1] != SPACE
                      && r.value <= s && forall i :: |r.value| <= i < |s| ==> s[i] == SPACE
  {
    if |s| == 0 then Fail(IndexError)
    else if s[|s| - 1] == SPACE then
      var r := StripSpaces(s[..|s| - 1]);
      assert r.Ok? ==> r.value <= s;
      r
    else Ok(s)
  }

  function Sum4(b0: byte, b1: byte, b2: byte, b3: byte): nat {
    b0 as nat + 256 * (b1 as nat) + 65536 * (b2 as nat) + 16777216 * (b3 as nat)
  }

  /** get_info: start cluster from the low half at 0x1A and the high half at
      0x14 (low half first), kind from attribute bit 0x10, packed time and
      date at 0x16, size at 0x1C and the 8.3 name with trailing spaces cut;
      a name of spaces only fails as Python's name[-1] does. The start,
      the packed time and date and the size are the sums b0 + b1 * 256 +
      b2 * 256^2 + b3 * 256^3 that get_info forms (Sum4). */

  function GetInfo(block: seq<byte>): (r: Result<Info>)
    ensures r.Ok? <==> |block| >= 32 && NotBlank(block[..8])
  {
    if |block| < 32 then Fail(IndexError)
    else
      var start := Sum4(block[0x1a], block[0x1b], block[0x14], block[0x15]);
      var kind := KindOf(block[0x0b]);
      var n := Sum4(block[0x16], block[0x17], block[0x18], block[0x19]);
      var size := Sum4(block[0x1c], block[0x1d], block[0x1e], block[0x1f]);
      var name :- StripSpaces(block[..8]);
      var ext := block[8..11];
      // The second strip before the extension finds no trailing space left.
      var full := if ext != Spaces(3) then name + [DOT] + ext else name;
      Ok(Info(start, kind, UnpackTime(n), UnpackDate(n), Latin1(full), size))
  }

  lemma {:induction false} StripPadded(s: seq<byte>, n: nat)
    requires |s| >= 1 && s[|s| - 1] != SPACE
    ensures StripSpaces(s + Spaces(n)) == Ok(s)
  {
    if n > 0 {
      assert (s + Spaces(n))[..|s| + n - 1] == s + Spaces(n - 1);
      StripPadded(s, n - 1);
    } else {
      assert s + Spaces(0) == s;
    }
  }

  function Pow10(k: nat): nat { if k == 0 then 1 else 10 * Pow10(k - 1) }

  lemma {:induction false} DecimalLength(n: nat, k: nat)
    requires k >= 1 && n < Pow10(k)
    ensures |Decimal(n)| <= k
  {
    if n >= 10 {
      DecimalLength(n / 10, k - 1);
    }
  }

  /** get_info on a laid-out record, in terms of the layout's parts. */
  lemma InfoOfLayout(name8: seq<byte>, ext3: seq<byte>, attr: byte, ss: byte, time: seq<byte>, date: seq<byte>,
                     hi: seq<byte>, lo: seq<byte>, size: seq<byte>)
    requires |name8| == 8 && |ext3| == 3 && |time| == 2 && |date| == 2 && |hi| == 2 && |lo| == 2 && |size| == 4
    requires StripSpaces(name8).Ok?
    ensures var r := GetInfo(DosLayout(name8, ext3, attr, ss, time, date, hi, lo, size));
            r.Ok? && r.value.start == ReadNum(lo + hi) && r.value.size == ReadNum(size)
            && r.value.kind == KindOf(attr)
            && r.value.time == UnpackTime(ReadNum(time + date)) && r.value.date == UnpackDate(ReadNum(time + date))
            && (ext3 == Spaces(3) ==> r.value.name == Latin1(StripSpaces(name8).value))
  {
    var rec := DosLayout(name8, ext3, attr, ss, time, date, hi, lo, size);
    var r := GetInfo(rec);
    assert r.Ok? && r.value.start == ReadNum(lo + hi) by {
      assert rec[0x1a] == lo[0] && rec[0x1b] == lo[1] && rec[0x14] == hi[0] && rec[0x15] == hi[1];
      ReadNum4(lo + hi);
    }
    assert r.value.size == ReadNum(size) by {
      assert rec[0x1c..0x20] == rec[0x1c..];
      Sum4Slice(rec, 0x1c);
    }
    assert r.value.time == UnpackTime(ReadNum(time + date)) && r.value.date == UnpackDate(ReadNum(time + date)) by {
      Sum4Slice(rec, 0x16);
    }
  }

  /** Four bytes of s from at, summed as get_info does, are read_num of them. */
  lemma Sum4Slice(s: seq<byte>, at: nat)
    requires at + 4 <= |s|
    ensures Sum4(s[at], s[at + 1], s[at + 2], s[at + 3]) == ReadNum(s[at..at + 4])
  {
    ReadNum4(s[at..at + 4]);
  }

  /** The packed time and date of get_date_time unpack to the clock's
      fields, seconds rounded down to even and the year taken modulo 128
      from 1980. */
  lemma PackedClock(c: Clock)
    requires c.Valid()
    ensures var p := GetDateTime(c);
            UnpackTime(ReadNum(p.time + p.date)) == WrittenTime(c)
            && UnpackDate(ReadNum(p.time + p.date)) == WrittenDate(c)
  {
    var p := GetDateTime(c);
    ReadNum4(p.time + p.date);
    ReadNum2(p.time);
    ReadNum2(p.date);
    DateTimeWords(c);
    assert ReadNum(p.time + p.date)
      == PackTime(c.hour, c.minute, c.second / 2) + 0x1_0000 * PackDate(c.day, c.month, c.year - 1980);
    UnpackPacked(c);
  }

  /** The short name get_info reads back from make_dos_record: the dot name
      itself, or the decimal count when it fits the 8 name bytes. */
  lemma DosRecordName(fn: seq<byte>, kind: Kind, start: nat, size: nat, count: nat, c: Clock)
    requires c.Valid() && fn != [] && (IsDotName(fn) || count < 100_000_000)
    ensures GetInfo(MakeDosRecord(fn, kind, start, size, count, c)).Ok?
    ensures GetInfo(MakeDosRecord(fn, kind, start, size, count, c)).value.name
            == if IsDotName(fn) then Latin1(fn) else Latin1(Decimal(count))
  {
    var st := GetBytes(start);
    var p := GetDateTime(c);
    var name := DosName(fn, count);
    ShortNameFits(fn, count);
    var name8 := Take(name + Spaces(8), 8);
    assert name8 == name + Spaces(8 - |name|);
    StripPadded(name, 8 - |name|);
    assert Take(DosExt(fn, count) + Spaces(3), 3) == Spaces(3);
    InfoOfLayout(name8, Spaces(3), Attr(kind), p.hundredths, p.time, p.date, st[2..], st[..2], GetBytes(size));
  }

  /** A name part of at most 8 digits leaves the extension empty. */
  lemma ShortNameFits(fn: seq<byte>, count: nat)
    requires fn != [] && (IsDotName(fn) || count < 100_000_000)
    ensures DosName(fn, count) == if IsDotName(fn) then fn else Decimal(count)
    ensures DosExt(fn, count) == []
    ensures DosName(fn, count)[|DosName(fn, count)| - 1] != SPACE
  {
    if !IsDotName(fn) {
      assert Pow10(8) == 100_000_000 by {
        assert Pow10(4) == 10000;
      }
      DecimalLength(count, 8);
    }
  }

  /** get_info on a record built by make_dos_record, field by field. */
  lemma DosRecordFields(fn: seq<byte>, kind: Kind, start: nat, size: nat, count: nat, c: Clock)
    requires c.Valid() && fn != []
    ensures var r := GetInfo(MakeDosRecord(fn, kind, start, size, count, c));
            var p := GetDateTime(c);
            r.Ok? && r.value.start == ReadNum(GetBytes(start)) && r.value.size == ReadNum(GetBytes(size))
            && r.value.kind == KindOf(Attr(kind))
            && r.value.time == UnpackTime(ReadNum(p.time + p.date)) && r.value.date == UnpackDate(ReadNum(p.time + p.date))
  {
    var st := GetBytes(start);
    var p := GetDateTime(c);
    var name8 := Take(DosName(fn, count) + Spaces(8), 8);
    assert name8[0] != SPACE;
    assert StripSpaces(name8).Ok?;
    InfoOfLayout(name8, Take(DosExt(fn, count) + Spaces(3), 3), Attr(kind), p.hundredths, p.time, p.date,
                 st[2..], st[..2], GetBytes(size));
    SplitAt(st, 2);
  }

  lemma SplitAt(s: seq<byte>, i: nat)
    requires i <= |s|
    ensures s[..i] + s[i..] == s
  {
  }

  /** A record built by make_dos_record reads back with the same start
      cluster, size, kind, time and date. */
  lemma DosRecordInfo(fn: seq<byte>, kind: Kind, start: nat, size: nat, count: nat, c: Clock)
    requires c.Valid() && start < 0x1_0000_0000 && size < 0x1_0000_0000 && fn != []
    ensures GetInfo(MakeDosRecord(fn, kind, start, size, count, c)).Ok?
    ensures var info := GetInfo(MakeDosRecord(fn, kind, start, size, count, c)).value;
            info.start == start && info.size == size && info.kind == kind
            && info.time == WrittenTime(c)
            && info.date == WrittenDate(c)
  {
    DosRecordFields(fn, kind, start, size, count, c);
    ReadGetBytes(start);
    ReadGetBytes(size);
    KindOfAttr(kind);
    PackedClock(c);
  }

  // ---------------------------------------------------------------------
  // The short-name checksum (make_new_records, reader.py:303-305)

  function Step(s: byte, b: byte): byte {
    (((s as int % 2) * 128 + s as int / 2 + b as int) % 256) as byte
  }

  /** The checksum rolled over bs from the given seed. */
  function SumFrom(seed: byte, bs: seq<byte>): byte
    decreases |bs|
  {
    if bs == [] then seed else SumFrom(Step(seed, bs[0]), bs[1..])
  }

  /** The specification's ChkSum: seeded with 0, over the 11 name bytes. */
  function StdChkSum(name11: seq<byte>): byte
    requires |name11| == 11
  {
    SumFrom(0, name11)
  }

  lemma {:induction false} SumFromSnoc(seed: byte, bs: seq<byte>, b: byte)
    ensures SumFrom(seed, bs + [b]) == Step(SumFrom(seed, bs), b)
    decreases |bs|
  {
    if bs == [] {
      assert [b][1..] == [];
    } else {
      assert (bs + [b])[1..] == bs[1..] + [b];
      SumFromSnoc(Step(seed, bs[0]), bs[1..], b);
    }
  }

  /** reader.py's loop seeds with byte 0 and steps over bytes 1..10: this is
      the specification's routine, because Step(0, b) == b. */
  method Checksum(rec: seq<byte>) returns (chk: byte)
    requires |rec| >= 11
    ensures chk == StdChkSum(rec[..11])
  {
    chk := rec[0];
    assert Step(0, rec[0]) == rec[0];
    assert SumFrom(0, rec[..1]) == rec[0] by {
      assert rec[..1][1..] == [];
    }
    for i := 1 to 11
      invariant chk == SumFrom(0, rec[..i])
    {
      SumFromSnoc(0, rec[..i], rec[i]);
      assert rec[..i + 1] == rec[..i] + [rec[i]];
      chk := Step(chk, rec[i]);
    }
  }

  /** One step of the checksum is one-to-one in the running sum and in the
      byte added. */
  lemma StepInjective(s: byte, t: byte, b: byte, c: byte)
    requires Step(s, b) == Step(t, c)
    ensures s == t <==> b == c
  {
    var x, y := (s as int % 2) * 128 + s as int / 2, (t as int % 2) * 128 + t as int / 2;
    assert 0 <= x < 256 && 0 <= y < 256;
    if s == t {
      assert (x + b as int) % 256 == (x + c as int) % 256;
    }
    if b == c {
      assert (x + b as int) % 256 == (y + b as int) % 256;
      assert x == y;
      assert s as int % 2 == t as int % 2;
    }
  }

  lemma {:induction false} SumFromSeeds(s: byte, t: byte, bs: seq<byte>)
    requires SumFrom(s, bs) == SumFrom(t, bs)
    ensures s == t
    decreases |bs|
  {
    if bs != [] {
      SumFromSeeds(Step(s, bs[0]), Step(t, bs[0]), bs[1..]);
      StepInjective(s, t, bs[0], bs[0]);
    }
  }

  lemma {:induction false} SumFromAppend(seed: byte, xs: seq<byte>, ys: seq<byte>)
    ensures SumFrom(seed, xs + ys) == SumFrom(SumFrom(seed, xs), ys)
    decreases |xs|
  {
    if xs == [] {
      assert xs + ys == ys;
    } else {
      assert (xs + ys)[1..] == xs[1..] + ys;
      SumFromAppend(Step(seed, xs[0]), xs[1..], ys);
    }
  }

  /** The checksum tells apart two short names that differ in one byte, so
      an LFN run stays tied to the short record it was written with. */
  lemma ChecksumSeesOneByte(name11: seq<byte>, i: nat, v: byte)
    requires |name11| == 11 && i < 11 && name11[i] != v
    ensures StdChkSum(name11[i := v]) != StdChkSum(name11)
  {
    var other := name11[i := v];
    var pre := name11[..i];
    assert name11 == pre + [name11[i]] + name11[i + 1..];
    assert other == pre + [v] + other[i + 1..];
    assert other[i + 1..] == name11[i + 1..];
    SumFromAppend(0, pre + [name11[i]], name11[i + 1..]);
    SumFromAppend(0, pre + [v], name11[i + 1..]);
    SumFromSnoc(0, pre, name11[i]);
    SumFromSnoc(0, pre, v);
    if StdChkSum(other) == StdChkSum(name11) {
      SumFromSeeds(Step(SumFrom(0, pre), v), Step(SumFrom(0, pre), name11[i]), name11[i + 1..]);
      StepInjective(SumFrom(0, pre), SumFrom(0, pre), v, name11[i]);
    }
  }

  // ---------------------------------------------------------------------
  // Long-name records (make_lfn_records, parse_record)

  /** The terminator and 0xFF fill make_lfn_records appends to a name that
      does not fill its last 26-byte chunk. */
  function PadName(fn: seq<byte>): (r: seq<byte>)
  {
    var k := |fn| / 26;
    if k * 26 < |fn| then
      var fill := (k + 1) * 26 - |fn| - 2;
      fn + [0, 0] + seq(if fill < 0 then 0 else fill, _ => 0xff)
    else fn
  }

  /** One record: sequence byte, 10 name bytes, 0x0F 0x00, checksum, 12 name
      bytes, 0x00 0x00, 4 name bytes. */
  function LfnRecord(seqByte: byte, chunk: seq<byte>, chk: byte): seq<byte> {
    [seqByte] + Take(chunk, 10) + [0x0f, 0x00] + [chk] + Slice(chunk, 10, 22) + [0x00, 0x00] + Slice(chunk, 22, 26)
  }

  /** The records for the chunks of fn, numbered from k, last chunk first;
      bytes([k]) fails past 255, and so does the 0x40 flag added to the
      number of the last chunk. */
  function LfnFrom(fn: seq<byte>, k: nat, chk: byte): (r: Result<seq<byte>>)
    decreases |fn|
  {
    if fn == [] then Ok([])
    else
      var rest := Drop(fn, 26);
      if rest == [] then
        if k + 0x40 > 255 then Fail(ValueError) else Ok(LfnRecord((k + 0x40) as byte, fn, chk))
      else if k > 255 then Fail(ValueError)
      else
        var tail :- LfnFrom(rest, k + 1, chk);
        Ok(tail + LfnRecord(k as byte, fn, chk))
  }

  function MakeLfnRecords(fn: seq<byte>, chk: byte): Result<seq<byte>> {
    LfnFrom(PadName(fn), 1, chk)
  }

  /** r with the records already built appended after it. */
  function Followed(r: Result<seq<byte>>, built: seq<byte>): Result<seq<byte>> {
    if r.Ok? then Ok(r.value + built) else r
  }

  /** The sequence number record k of fn carries: 0x40 is added on the last chunk. */
  function SeqNo(fn: seq<byte>, k: nat): nat {
    if Drop(fn, 26) == [] then k + 0x40 else k
  }

  /** One step of LfnFrom, with the records of the rest put in front. */
  lemma LfnFromStep(fn: seq<byte>, k: nat, chk: byte, built: seq<byte>)
    requires fn != []
    ensures SeqNo(fn, k) > 255 ==> LfnFrom(fn, k, chk) == Fail(ValueError)
    ensures SeqNo(fn, k) <= 255 ==>
              Followed(LfnFrom(fn, k, chk), built)
              == Followed(LfnFrom(Drop(fn, 26), k + 1, chk), LfnRecord(SeqNo(fn, k) as byte, fn, chk) + built)
  {
    var rest := Drop(fn, 26);
    if SeqNo(fn, k) <= 255 {
      var rec := LfnRecord(SeqNo(fn, k) as byte, fn, chk);
      var step := LfnFrom(rest, k + 1, chk);
      if rest == [] {
        assert [] + (rec + built) == rec + built;
      } else if step.Ok? {
        assert (step.value + rec) + built == step.value + (rec + built);
      }
    }
  }

  /** The loop of make_lfn_records. */
  method BuildLfnRecords(fn0: seq<byte>, chk: byte) returns (r: Result<seq<byte>>)
    ensures r == MakeLfnRecords(fn0, chk)
  {
    var fn := PadName(fn0);
    var result: seq<byte> := [];
    var k := 0;
    assert LfnFrom(fn, k + 1, chk).Ok? ==> LfnFrom(fn, k + 1, chk).value + [] == LfnFrom(fn, k + 1, chk).value;
    while fn != []
      invariant MakeLfnRecords(fn0, chk) == Followed(LfnFrom(fn, k + 1, chk), result)
      decreases |fn|
    {
      k := k + 1;
      var rest := Drop(fn, 26);
      var seqNo := if rest == [] then k + 0x40 else k;
      LfnFromStep(fn, k, chk, result);
      if seqNo > 255 {
        return Fail(ValueError);
      }
      var rec := LfnRecord(seqNo as byte, fn, chk);
      fn := rest;
      result := rec + result;
    }
    r := Ok(result);
    assert [] + result == result;
  }

  /** The 26 name bytes of a record, cut at the first aligned 0x0000 unit. */
  function LfnBytes(rec: seq<byte>): seq<byte> {
    Slice(rec, 1, 11) + Slice(rec, 14, 26) + Drop(rec, 28)
  }

  function CutAtZero(name: seq<byte>, i: nat): (r: seq<byte>)
    requires 2 * i <= |name|
    ensures r <= name
    decreases |name| - 2 * i
  {
    if i >= |name| / 2 then name
    else if name[2 * i] == 0 && name[2 * i + 1] == 0 then name[..2 * i]
    else CutAtZero(name, i + 1)
  }

  function ParseRecord(rec: seq<byte>): seq<byte> {
    CutAtZero(LfnBytes(rec), 0)
  }

  /** The loop of parse_record. */
  method ParseRecordLoop(record: seq<byte>) returns (r: seq<byte>)
    ensures r == ParseRecord(record)
  {
    var name := LfnBytes(record);
    for i := 0 to |name| / 2
      invariant CutAtZero(name, 0) == CutAtZero(name, i)
    {
      if name[i * 2] == 0 && name[i * 2 + 1] == 0 {
        return name[..i * 2];
      }
    }
    r := name;
  }

  /** No aligned 0x0000 unit in s. */
  predicate NoZeroUnit(s: seq<byte>) {
    forall i :: 0 <= i < |s| / 2 ==> !(s[2 * i] == 0 && s[2 * i + 1] == 0)
  }

  lemma {:induction false} CutNoZero(name: seq<byte>, i: nat)
    requires 2 * i <= |name|
    requires forall j :: i <= j < |name| / 2 ==> !(name[2 * j] == 0 && name[2 * j + 1] == 0)
    ensures CutAtZero(name, i) == name
    decreases |name| - 2 * i
  {
    if i < |name| / 2 {
      CutNoZero(name, i + 1);
    }
  }

  lemma {:induction false} CutAtTerminator(name: seq<byte>, i: nat, t: nat)
    requires 2 * i <= 2 * t && 2 * t + 1 < |name|
    requires name[2 * t] == 0 && name[2 * t + 1] == 0
    requires forall j :: i <= j < t ==> !(name[2 * j] == 0 && name[2 * j + 1] == 0)
    ensures CutAtZero(name, i) == name[..2 * t]
    decreases t - i
  {
    if i < t {
      CutAtTerminator(name, i + 1, t);
    }
  }

  /** The name bytes of the records of a directory entry, gathered the way
      `cd` does: each record's bytes are put in front of what came before. */
  function Gather(recs: seq<byte>): seq<byte>
    decreases |recs|
  {
    if |recs| < 32 then [] else ParseRecord(recs[|recs| - 32..]) + Gather(recs[..|recs| - 32])
  }

  lemma {:induction false} GatherAppend(a: seq<byte>, rec: seq<byte>)
    requires |rec| == 32
    ensures Gather(a + rec) == ParseRecord(rec) + Gather(a)
  {
    assert (a + rec)[|a + rec| - 32..] == rec;
    assert (a + rec)[..|a + rec| - 32] == a;
  }

  lemma LfnRecordParts(seqByte: byte, chunk: seq<byte>, chk: byte)
    requires |chunk| == 26
    ensures var r := LfnRecord(seqByte, chunk, chk);
            |r| == 32 && r[0] == seqByte && r[11] == 0x0f && r[12] == 0 && r[13] == chk
            && r[26] == 0 && r[27] == 0 && LfnBytes(r) == chunk
  {
    var r := LfnRecord(seqByte, chunk, chk);
    assert r[1..11] == chunk[..10];
    assert r[14..26] == chunk[10..22];
    assert r[28..] == chunk[22..26];
    assert chunk == chunk[..10] + chunk[10..22] + chunk[22..26];
  }

  /** The fixed bytes of one long-name record with sequence byte num. */
  predicate Header(rec: seq<byte>, num: int, chk: byte)
    requires |rec| == 32
  {
    rec[0] as int == num && rec[11] == 0x0f && rec[12] == 0 && rec[13] == chk && rec[26] == 0 && rec[27] == 0
  }

  /** The shape of the n records numbered from k: record j (in directory
      order) carries sequence number k + n - 1 - j, plus 0x40 on the first. */
  predicate RecordShape(r: seq<byte>, k: nat, n: nat, chk: byte)
    requires |r| == 32 * n
  {
    forall j :: 0 <= j < n ==> Header(r[32 * j..32 * j + 32], k + n - 1 - j + (if j == 0 then 0x40 else 0), chk)
  }

  lemma ShapeAppend(tail: seq<byte>, rec: seq<byte>, k: nat, n: nat, chk: byte)
    requires n >= 2 && |tail| == 32 * (n - 1) && |rec| == 32
    requires RecordShape(tail, k + 1, n - 1, chk) && Header(rec, k, chk)
    ensures RecordShape(tail + rec, k, n, chk)
  {
    var r := tail + rec;
    forall j | 0 <= j < n
      ensures Header(r[32 * j..32 * j + 32], k + n - 1 - j + (if j == 0 then 0x40 else 0), chk)
    {
      if j < n - 1 {
        assert r[32 * j..32 * j + 32] == tail[32 * j..32 * j + 32];
      } else {
        assert r[32 * j..32 * j + 32] == rec;
      }
    }
  }

  /** A record of 26 name bytes parses back to those bytes cut at the first
      aligned 0x0000 unit. */
  lemma ParseLfnRecord(sb: byte, p: seq<byte>, chk: byte)
    requires |p| >= 26
    ensures |LfnRecord(sb, p, chk)| == 32
    ensures Header(LfnRecord(sb, p, chk), sb as int, chk)
    ensures ParseRecord(LfnRecord(sb, p, chk)) == CutAtZero(p[..26], 0)
  {
    assert LfnRecord(sb, p[..26], chk) == LfnRecord(sb, p, chk) by {
      assert Take(p[..26], 10) == Take(p, 10);
      assert Slice(p[..26], 10, 22) == Slice(p, 10, 22);
      assert Slice(p[..26], 22, 26) == Slice(p, 22, 26);
    }
    LfnRecordParts(sb, p[..26], chk);
  }

  /** One step of LfnFrom on a name padded to n whole chunks. */
  lemma LfnFromChunk(p: seq<byte>, k: nat, n: nat, chk: byte)
    requires |p| == 26 * n && n >= 1 && k >= 1 && k + n - 1 + 0x40 <= 255
    ensures n == 1 ==> LfnFrom(p, k, chk) == Ok(LfnRecord((k + 0x40) as byte, p, chk))
    ensures n > 1 ==>
              |Drop(p, 26)| == 26 * (n - 1)
              && LfnFrom(p, k, chk) == Followed(LfnFrom(Drop(p, 26), k + 1, chk), LfnRecord(k as byte, p, chk))
  {
  }

  lemma {:induction false} LfnFromShape(p: seq<byte>, k: nat, n: nat, chk: byte)
    requires |p| == 26 * n && n >= 1 && k >= 1 && k + n - 1 + 0x40 <= 255
    ensures LfnFrom(p, k, chk).Ok?
    ensures |LfnFrom(p, k, chk).value| == 32 * n
    ensures RecordShape(LfnFrom(p, k, chk).value, k, n, chk)
    decreases n
  {
    LfnFromChunk(p, k, n, chk);
    if n == 1 {
      ParseLfnRecord((k + 0x40) as byte, p, chk);
      var r := LfnFrom(p, k, chk).value;
      assert r[0..32] == r;
    } else {
      var rest := Drop(p, 26);
      LfnFromShape(rest, k + 1, n - 1, chk);
      ParseLfnRecord(k as byte, p, chk);
      ShapeAppend(LfnFrom(rest, k + 1, chk).value, LfnRecord(k as byte, p, chk), k, n, chk);
    }
  }

  /** The number of 26-byte chunks a name of len bytes fills, the last one
      possibly partly. */
  function Chunks(len: nat): nat { (len + 25) / 26 }

  lemma Div26(len: nat)
    ensures 26 * (len / 26) <= len < 26 * (len / 26) + 26
    ensures len >= 26 ==> (len - 26) / 26 == len / 26 - 1
  {
  }

  /** What make_lfn_records's padding does, in terms of the chunk count:
      the padded name fills its chunks exactly, keeps the name in front,
      adds the 0x0000 terminator when the name does not fill its last
      chunk, and drops its first chunk the way the name does. */
  lemma PadNameFacts(fn: seq<byte>)
    requires |fn| % 2 == 0 && |fn| > 0
    ensures |PadName(fn)| == 26 * Chunks(|fn|) && PadName(fn)[..|fn|] == fn
    ensures |fn| <= 26 <==> Chunks(|fn|) == 1
    ensures |fn| > 26 ==> Chunks(|fn| - 26) == Chunks(|fn|) - 1 && (|fn| - 26) % 2 == 0
    ensures |fn| < 26 * Chunks(|fn|) ==> PadName(fn)[|fn|] == 0 && PadName(fn)[|fn| + 1] == 0
    ensures |fn| == 26 * Chunks(|fn|) ==> PadName(fn) == fn
    ensures |fn| > 26 ==> Drop(PadName(fn), 26) == PadName(fn[26..])
  {
    var L := |fn|;
    var c := Chunks(L);
    var k := L / 26;
    Div26(L);
    assert k * 26 < L ==> c == k + 1;
    assert k * 26 == L ==> c == k;
    if L > 26 {
      PadDrop(fn);
    }
  }

  /** Dropping the first chunk of the padded name pads the rest of the name. */
  lemma PadDrop(fn: seq<byte>)
    requires |fn| > 26
    ensures Drop(PadName(fn), 26) == PadName(fn[26..])
  {
    var L := |fn|;
    var k := L / 26;
    Div26(L);
    var t := fn[26..];
    assert |t| / 26 == k - 1;
    if k * 26 < L {
      var fill := (k + 1) * 26 - L - 2;
      assert (k - 1 + 1) * 26 - |t| - 2 == fill;
      var pad := [0, 0] + seq(if fill < 0 then 0 else fill, _ => 0xff);
      assert PadName(fn) == fn + pad;
      assert PadName(t) == t + pad;
      assert (fn + pad)[26..] == t + pad;
    }
  }

  /** The last chunk of a name of at most 26 bytes parses back to the name. */
  lemma LastChunk(fn: seq<byte>)
    requires |fn| % 2 == 0 && 0 < |fn| <= 26 && NoZeroUnit(fn)
    ensures CutAtZero(PadName(fn)[..26], 0) == fn
  {
    PadNameFacts(fn);
    var p := PadName(fn);
    assert p[..26] == p;
    if |fn| == 26 {
      CutNoZero(p, 0);
    } else {
      forall j | 0 <= j < |fn| / 2
        ensures !(p[2 * j] == 0 && p[2 * j + 1] == 0)
      {
        assert p[2 * j] == fn[2 * j] && p[2 * j + 1] == fn[2 * j + 1];
      }
      CutAtTerminator(p, 0, |fn| / 2);
    }
  }

  /** A full first chunk parses back to itself, and the rest keeps NoZeroUnit. */
  lemma FullChunk(fn: seq<byte>)
    requires |fn| % 2 == 0 && |fn| > 26 && NoZeroUnit(fn)
    ensures CutAtZero(PadName(fn)[..26], 0) == fn[..26]
    ensures NoZeroUnit(fn[26..])
  {
    PadNameFacts(fn);
    assert PadName(fn)[..26] == fn[..26];
    forall j | 0 <= j < |fn[26..]| / 2
      ensures !(fn[26..][2 * j] == 0 && fn[26..][2 * j + 1] == 0)
    {
      assert fn[26..][2 * j] == fn[2 * (j + 13)];
      assert fn[26..][2 * j + 1] == fn[2 * (j + 13) + 1];
    }
    forall j | 0 <= j < 13
      ensures !(fn[..26][2 * j] == 0 && fn[..26][2 * j + 1] == 0)
    {
      assert fn[..26][2 * j] == fn[2 * j];
    }
    CutNoZero(fn[..26], 0);
  }

  /** Gathering, in `cd`'s order, the records make_lfn_records builds from an
      even-length name with no aligned 0x0000 unit gives back the name. */
  lemma {:induction false} LfnGather(fn: seq<byte>, k: nat, chk: byte)
    requires |fn| % 2 == 0 && |fn| > 0 && NoZeroUnit(fn)
    requires k >= 1 && k + Chunks(|fn|) - 1 + 0x40 <= 255
    ensures LfnFrom(PadName(fn), k, chk).Ok?
    ensures Gather(LfnFrom(PadName(fn), k, chk).value) == fn
    decreases |fn|
  {
    if |fn| <= 26 {
      LfnGatherLast(fn, k, chk);
    } else {
      ChunksRest(|fn|);
      FullChunk(fn);
      LfnGather(fn[26..], k + 1, chk);
      LfnGatherStep(fn, k, chk);
    }
  }

  lemma ChunksRest(len: nat)
    requires len > 26
    ensures Chunks(len - 26) == Chunks(len) - 1
  {
  }

  /** The base case of LfnGather: a name that fits one record. */
  lemma LfnGatherLast(fn: seq<byte>, k: nat, chk: byte)
    requires |fn| % 2 == 0 && 0 < |fn| <= 26 && NoZeroUnit(fn)
    requires k >= 1 && k + 0x40 <= 255
    ensures LfnFrom(PadName(fn), k, chk).Ok?
    ensures Gather(LfnFrom(PadName(fn), k, chk).value) == fn
  {
    PadNameFacts(fn);
    var p := PadName(fn);
    LfnFromChunk(p, k, 1, chk);
    var rec := LfnRecord((k + 0x40) as byte, p, chk);
    ParseLfnRecord((k + 0x40) as byte, p, chk);
    LastChunk(fn);
    GatherAppend([], rec);
    assert [] + rec == rec;
    assert fn + [] == fn;
  }

  /** The step of LfnGather: the first full chunk is gathered last, in front
      of the rest of the name. */
  lemma LfnGatherStep(fn: seq<byte>, k: nat, chk: byte)
    requires |fn| % 2 == 0 && |fn| > 26 && NoZeroUnit(fn)
    requires k >= 1 && k + Chunks(|fn|) - 1 + 0x40 <= 255
    requires LfnFrom(PadName(fn[26..]), k + 1, chk).Ok?
    requires Gather(LfnFrom(PadName(fn[26..]), k + 1, chk).value) == fn[26..]
    ensures LfnFrom(PadName(fn), k, chk).Ok?
    ensures Gather(LfnFrom(PadName(fn), k, chk).value) == fn
  {
    PadNameFacts(fn);
    var p := PadName(fn);
    LfnFromChunk(p, k, Chunks(|fn|), chk);
    var rec := LfnRecord(k as byte, p, chk);
    ParseLfnRecord(k as byte, p, chk);
    FullChunk(fn);
    var tail := LfnFrom(Drop(p, 26), k + 1, chk).value;
    assert LfnFrom(p, k, chk).value == tail + rec;
    GatherAppend(tail, rec);
    assert fn == fn[..26] + fn[26..];
  }

  /** make_lfn_records for an even-length name with no aligned 0x0000 unit:
      32 bytes per 13 units, descending sequence numbers with 0x40 on the
      first record only, the fixed bytes at 11, 12, 13, 26 and 27, and the
      name back when the records are gathered as `cd` does. */
  lemma LfnRoundTrip(fn: seq<byte>, chk: byte)
    requires |fn| % 2 == 0 && |fn| > 0 && NoZeroUnit(fn) && Chunks(|fn|) <= 191
    ensures MakeLfnRecords(fn, chk).Ok?
    ensures |MakeLfnRecords(fn, chk).value| == 32 * Chunks(|fn|)
    ensures RecordShape(MakeLfnRecords(fn, chk).value, 1, Chunks(|fn|), chk)
    ensures Gather(MakeLfnRecords(fn, chk).value) == fn
  {
    PadNameFacts(fn);
    LfnFromShape(PadName(fn), 1, Chunks(|fn|), chk);
    LfnGather(fn, 1, chk);
  }

  /** A name too long for 191 records fails with ValueError. */
  lemma LfnTooLong(fn: seq<byte>, chk: byte)
    requires |fn| % 2 == 0 && Chunks(|fn|) > 191
    ensures MakeLfnRecords(fn, chk) == Fail(ValueError)
  {
    PadNameFacts(fn);
    LfnFromFails(PadName(fn), 1, Chunks(|fn|), chk);
  }

  lemma {:induction false} LfnFromFails(p: seq<byte>, k: nat, n: nat, chk: byte)
    requires |p| == 26 * n && n >= 1 && k >= 1 && k + n - 1 + 0x40 > 255
    ensures LfnFrom(p, k, chk) == Fail(ValueError)
    decreases n
  {
    if n > 1 && k <= 255 {
      assert |Drop(p, 26)| == 26 * (n - 1);
      LfnFromFails(Drop(p, 26), k + 1, n - 1, chk);
    }
  }

  // ---------------------------------------------------------------------
  // UTF-16 names: dn.encode('utf-16')[2:] and name.decode('utf-16')

  predicate High(u: Unit) { 0xD800 <= u < 0xDC00 }
  predicate Low(u: Unit) { 0xDC00 <= u < 0xE000 }

  /** Every high surrogate is followed by a low one, and every low one
      follows a high one: the unit sequences Python's codec accepts. */
  predicate Paired(n: Name)
    decreases |n|
  {
    if |n| == 0 then true
    else if High(n[0]) then |n| >= 2 && Low(n[1]) && Paired(n[2..])
    else !Low(n[0]) && Paired(n[1..])
  }

  /** The units of n, least significant byte first. */
  function LittleEndian(n: Name): (r: seq<byte>)
    ensures |r| == 2 * |n|
    ensures forall i :: 0 <= i < |n| ==> r[2 * i] as int == n[i] as int % 256 && r[2 * i + 1] as int == n[i] as int / 256
  {
    if |n| == 0 then []
    else [(n[0] as int % 256) as byte, (n[0] as int / 256) as byte] + LittleEndian(n[1..])
  }

  /** The units of an even number of bytes, in either byte order. */
  function UnitsOf(b: seq<byte>, bigEndian: bool): (r: Name)
    requires |b| % 2 == 0
    ensures |r| == |b| / 2
    decreases |b|
  {
    if |b| == 0 then []
    else
      var u := if bigEndian then b[0] as int * 256 + b[1] as int else b[1] as int * 256 + b[0] as int;
      [u as Unit] + UnitsOf(b[2..], bigEndian)
  }

  /** encode('utf-16') with its byte-order mark cut off. */
  function Encode16(n: Name): (r: Result<seq<byte>>)
    ensures r.Ok? <==> Paired(n)
    ensures r.Ok? ==> r.value == LittleEndian(n)
  {
    if Paired(n) then Ok(LittleEndian(n)) else Fail(EncodeError)
  }

  /** decode('utf-16'): a leading FF FE is a byte-order mark and is dropped,
      a leading FE FF switches to big-endian, anything else is read
      little-endian; an odd length or an unpaired surrogate fails. */
  function Decode16(b: seq<byte>): (r: Result<Name>)
    ensures r.Ok? ==> |b| % 2 == 0 && Paired(r.value)
    ensures |b| % 2 == 1 ==> r == Fail(DecodeError)
  {
    if |b| % 2 == 1 then Fail(DecodeError)
    else
      var units :=
        if |b| >= 2 && b[0] == 0xFF && b[1] == 0xFE then UnitsOf(b[2..], false)
        else if |b| >= 2 && b[0] == 0xFE && b[1] == 0xFF then UnitsOf(b[2..], true)
        else UnitsOf(b, false);
      if Paired(units) then Ok(units) else Fail(DecodeError)
  }

  lemma {:induction false} UnitsOfLittleEndian(n: Name)
    ensures UnitsOf(LittleEndian(n), false) == n
    decreases |n|
  {
    if n != [] {
      assert LittleEndian(n)[2..] == LittleEndian(n[1..]);
      UnitsOfLittleEndian(n[1..]);
    }
  }

  /** A name read back from its stored bytes is the name, unless its first
      unit is one the decoder takes for a byte-order mark. */
  lemma NameRoundTrip(n: Name)
    requires Paired(n) && (n == [] || (n[0] != 0xFEFF && n[0] != 0xFFFE))
    ensures Decode16(Encode16(n).value) == Ok(n)
  {
    UnitsOfLittleEndian(n);
    var b := LittleEndian(n);
    if |b| >= 2 {
      assert b[0] as int == n[0] as int % 256 && b[1] as int == n[0] as int / 256;
    }
  }

  /** A leading U+FEFF is taken for a byte-order mark and lost. */
  lemma MarkLost(n: Name)
    requires Paired(n) && n != [] && n[0] == 0xFEFF
    ensures Decode16(Encode16(n).value) == Ok(n[1..])
  {
    var b := LittleEndian(n);
    UnitsOfLittleEndian(n[1..]);
    assert b[2..] == LittleEndian(n[1..]);
    assert b[0] == 0xFF && b[1] == 0xFE;
    assert Paired(n[1..]);
    assert Decode16(b) == Ok(UnitsOf(b[2..], false));
  }
}
