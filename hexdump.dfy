/** hexdump.py: the hex-dump formatter behind the tool's `dump` command.
    A block of bytes is cut into rows of len_row bytes; each row becomes one
    line: the row's offset (plus a starting offset) as eight hex digits,
    one three-character hex cell per byte, and an ASCII column. */
module HexDump {
  import opened Common

  // ---------------------------------------------------------------------
  // Python's integer division and hex()

  /** Python's a // b (floor division), b != 0. */
  function FloorDiv(a: int, b: int): int
    requires b != 0
  {
    if b > 0 then a / b else (-a) / (-b)
  }

  /** Python's a % b, which takes the sign of b. */
  function FloorMod(a: int, b: int): int
    requires b != 0
  {
    a - b * FloorDiv(a, b)
  }

  /** One lowercase hex digit. */
  function HexDigit(d: nat): (c: char)
    requires d < 16
  {
    if d < 10 then ('0' as int + d) as char else ('a' as int + d - 10) as char
  }

  /** v // 16, by repeated subtraction: its characterisation stays linear. */
  function Quot16(v: nat): (q: nat)
    ensures 16 * q <= v < 16 * q + 16
  {
    if v < 16 then 0 else Quot16(v - 16) + 1
  }

  /** v % 16. */
  function Rem16(v: nat): (d: nat)
    ensures d < 16
  {
    v - 16 * Quot16(v)
  }

  lemma QuotRem16(v: nat)
    ensures Quot16(v) == v / 16 && Rem16(v) == v % 16
  {
    DivUnique(v, 16, Quot16(v), Rem16(v));
  }

  /** hex(v)[2:] for v >= 0: the digits without leading zeros ("0" for 0). */
  function HexDigits(v: nat): (r: string)
    ensures |r| >= 1
    decreases v
  {
    if v < 16 then [HexDigit(v)] else HexDigits(Quot16(v)) + [HexDigit(Rem16(v))]
  }

  /** hex(v)[2:]: for a negative v Python writes "-0x…", so the slice keeps "x…". */
  function HexText(v: int): string {
    if v >= 0 then HexDigits(v) else ['x'] + HexDigits(-v)
  }

  /** Python's s[-m:] for m > 0: the last m characters, or all of s when
      it is shorter. */
  function Last(s: string, m: nat): (r: string)
    requires m > 0
    ensures |r| == if |s| <= m then |s| else m
    decreases |s|
  {
    if |s| <= m then s else Last(s[1..], m)
  }

  lemma {:induction false} LastIsSuffix(s: string, m: nat)
    requires m > 0
    ensures Last(s, m) == if |s| <= m then s else s[|s| - m..]
    decreases |s|
  {
    if |s| > m {
      LastIsSuffix(s[1..], m);
      assert s[1..][|s[1..]| - m..] == s[|s| - m..];
    }
  }

  // ---------------------------------------------------------------------
  // One line (get_begin, get_line, get_end)

  /** get_begin(n): " " + the last eight of "00000000" + hex(n + k)[2:] + " | ". */
  function Begin(k: int, n: int): (r: string)
    ensures |r| == 12
  {
    " " + Last("00000000" + HexText(n + k), 8) + " | "
  }

  /** The cell of byte i in get_line: "0" + hex(b)[2:] cut to its last two
      characters, or three spaces cut to two past the end, then a space. */
  function Cell(block: seq<byte>, i: int): (r: string)
    ensures |r| == 3
  {
    if 0 <= i < |block| then Last("0" + HexDigits(block[i] as nat), 2) + " " else Last("   ", 2) + " "
  }

  /** The cells of bytes n .. n + m - 1. */
  function Cells(block: seq<byte>, n: int, m: int): (r: string)
    ensures |r| == if m > 0 then 3 * m else 0
    decreases m
  {
    if m <= 0 then [] else Cells(block, n, m - 1) + Cell(block, n + m - 1)
  }

  /** get_end's character for a byte: itself when printable (32 to 126), "." otherwise. */
  function Shown(b: byte): char {
    if 32 <= b < 127 then (b as int) as char else '.'
  }

  /** get_end's character for position i: " " past the end of the block. */
  function Glyph(block: seq<byte>, i: int): char {
    if 0 <= i < |block| then Shown(block[i]) else ' '
  }

  /** The characters of positions n .. n + m - 1. */
  function Glyphs(block: seq<byte>, n: int, m: int): (r: string)
    ensures |r| == if m > 0 then m else 0
    decreases m
  {
    if m <= 0 then [] else Glyphs(block, n, m - 1) + [Glyph(block, n + m - 1)]
  }

  /** get_end(n): "| " and the ASCII column of the row at n. */
  function End(block: seq<byte>, lr: int, n: int): string {
    "| " + Glyphs(block, n, lr)
  }

  /** get_line(n): 14 + 4·len_row characters, 12 for the offset, 3 per
      cell, 2 for "| " and one per ASCII character. */
  function Line(block: seq<byte>, lr: int, k: int, n: int): (r: string)
    ensures |r| == 14 + 4 * (if lr > 0 then lr else 0)
  {
    Begin(k, n) + Cells(block, n, lr) + End(block, lr, n)
  }

  // ---------------------------------------------------------------------
  // The whole dump (build)

  /** The `rows` of build: len // lr + min(len % lr, 1). */
  function Rows(len: nat, lr: int): int
    requires lr != 0
  {
    FloorDiv(len, lr) + Min(FloorMod(len, lr), 1)
  }

  /** r * lr, written as repeated addition so that offsets stay linear. */
  function Times(r: nat, lr: int): int {
    if r == 0 then 0 else Times(r - 1, lr) + lr
  }

  /** The lines of a HexDump(block, lr, k) for lr != 0: line r is get_line
      of row offset r * lr, for each of the `rows` rows (none when rows <= 0). */
  function Lines(block: seq<byte>, lr: int, k: int): (r: seq<string>)
    requires lr != 0
  {
    var rows := Rows(|block|, lr);
    seq(if rows > 0 then rows else 0, r requires r >= 0 => Line(block, lr, k, Times(r, lr)))
  }

  /** One more element of a sequence built from its index function. */
  lemma AppendOne<T>(f: int --> T, s: seq<T>, r: nat, x: T)
    requires forall i :: 0 <= i <= r ==> f.requires(i)
    requires s == seq(r, f) && x == f(r)
    ensures s + [x] == seq(r + 1, f)
  {
  }

  // ---------------------------------------------------------------------
  // The object

  class HexDump {
    const block: seq<byte>
    const k: int
    const lr: int
    var lines: seq<string>

    /** The attribute assignments of __init__; `New` runs build after them. */
    constructor Fields(block: seq<byte>, lenRow: int, start: int)
      ensures this.block == block && k == start && lr == lenRow && lines == []
    {
      this.block := block;
      k := start;
      lr := lenRow;
      lines := [];
    }

    /** build: lines is reset, then one line per row is appended; a row
        length of 0 raises ZeroDivisionError once lines is reset. */
    method Build() returns (o: Outcome)
      modifies this
      ensures lr == 0 <==> o.Failed?
      ensures o.Failed? ==> o.error == ZeroDivisionError && lines == []
      ensures lr != 0 ==> lines == Lines(block, lr, k)
    {
      lines := [];
      if lr == 0 {
        return Failed(ZeroDivisionError);
      }
      var rows := Rows(|block|, lr);
      RowsSign(|block|, lr);
      lines := GetLines(if rows > 0 then rows else 0);
      return Done;
    }

    /** The loop of build: get_line of row offset r * lr for each r < count
        (the offset is accumulated as Times(r, lr), which is r * lr). */
    method GetLines(count: nat) returns (built: seq<string>)
      requires lr > 0 || count == 0
      ensures built == seq(count, r requires r >= 0 => Line(block, lr, k, Times(r, lr)))
    {
      built := [];
      ghost var row := (q: int) requires q >= 0 => Line(block, lr, k, Times(q, lr));
      var r := 0;
      while r < count
        invariant 0 <= r <= count
        invariant built == seq(r, row)
      {
        var n := Times(r, lr);
        TimesNonNeg(r, lr);
        var line := GetLine(n);
        AppendOne(row, built, r, line);
        built := built + [line];
        r := r + 1;
      }
    }

    /** get_line(n) for a row offset n >= 0: the offset field, the cells,
        then get_end(n), joined. */
    method GetLine(n: int) returns (line: string)
      requires n >= 0
      ensures line == Line(block, lr, k, n)
    {
      var cells := GetCells(n);
      var end := GetEnd(n);
      line := Begin(k, n) + cells + end;
    }

    /** The loop of get_line over i in range(n, n + lr), counted by j = i - n:
        the hex cell of each byte, or blanks past the end of the block
        (where block[i] raises IndexError). */
    method GetCells(n: int) returns (cells: string)
      requires n >= 0
      ensures cells == Cells(block, n, lr)
    {
      cells := "";
      var count := if lr > 0 then lr else 0;
      var j := 0;
      while j < count
        invariant 0 <= j <= count
        invariant cells == Cells(block, n, j)
      {
        var shown := GetCell(n + j);
        CellsStep(block, n, j);
        cells := cells + shown;
        j := j + 1;
      }
      NoneAfter(block, n, lr, j);
    }

    /** One pass of that loop, for i >= 0: "0" + hex(block[i])[2:], or three
        spaces when block[i] raises IndexError, cut to its last two
        characters and followed by a space. */
    method GetCell(i: int) returns (shown: string)
      requires i >= 0
      ensures shown == Cell(block, i)
    {
      var hexed: string;
      if i < |block| {
        hexed := "0" + HexDigits(block[i] as nat);
      } else {
        hexed := "   ";
      }
      shown := Last(hexed, 2) + " ";
      CellOf(block, i, hexed);
    }

    /** get_end(n) for a row offset n >= 0. */
    method GetEnd(n: int) returns (r: string)
      requires n >= 0
      ensures r == End(block, lr, n)
    {
      r := "| ";
      var count := if lr > 0 then lr else 0;
      var j := 0;
      while j < count
        invariant 0 <= j <= count
        invariant r == "| " + Glyphs(block, n, j)
      {
        var i := n + j;
        if i < |block| {
          if 32 <= block[i] < 127 {
            r := r + [(block[i] as int) as char];
          } else {
            r := r + ".";
          }
        } else {
          r := r + " ";
        }
        GlyphsStep(block, n, j);
        j := j + 1;
      }
      NoneAfter(block, n, lr, j);
    }
  }

  /** HexDump(block, len_row, start): the object with its lines built, or
      the ZeroDivisionError build raises for a row length of 0. */
  method New(block: seq<byte>, lenRow: int, start: int) returns (r: Result<HexDump>)
    ensures r.Fail? <==> lenRow == 0
    ensures r.Fail? ==> r.error == ZeroDivisionError
    ensures r.Ok? ==> fresh(r.value) && r.value.block == block && r.value.k == start && r.value.lr == lenRow
    ensures r.Ok? ==> r.value.lines == Lines(block, lenRow, start)
  {
    var h := new HexDump.Fields(block, lenRow, start);
    var o := h.Build();
    if o.Failed? {
      return Fail(o.error);
    }
    return Ok(h);
  }

  // ---------------------------------------------------------------------
  // Reference definitions

  /** The w low-order hex digits of v, most significant first. */
  function Fixed(v: nat, w: nat): (r: string)
    ensures |r| == w
  {
    if w == 0 then [] else Fixed(Quot16(v), w - 1) + [HexDigit(Rem16(v))]
  }

  function Pow16(w: nat): (r: nat)
    ensures r >= 1
  {
    if w == 0 then 1 else 16 * Pow16(w - 1)
  }

  /** The value of a lowercase hex digit, as int(c, 16) reads it. */
  function DigitValue(c: char): nat {
    if '0' <= c <= '9' then c as int - '0' as int
    else if 'a' <= c <= 'f' then c as int - 'a' as int + 10
    else 0
  }

  /** int(s, 16) for a string of lowercase hex digits. */
  function HexValue(s: string): nat {
    if |s| == 0 then 0 else 16 * HexValue(s[..|s| - 1]) + DigitValue(s[|s| - 1])
  }

  // ---------------------------------------------------------------------
  // Properties

  /** For a positive row length, build makes ceil(len / len_row) lines:
      the last row starts before the end of the block and the rows
      together cover it. */
  lemma RowsCover(len: nat, lr: int)
    requires lr > 0
    ensures Rows(len, lr) >= 0
    ensures (Rows(len, lr) - 1) * lr < len <= Rows(len, lr) * lr
    ensures Rows(len, lr) == (len + lr - 1) / lr
  {
    var q, m := len / lr, len % lr;
    assert len == q * lr + m;
    assert FloorMod(len, lr) == m;
    if m == 0 {
      assert Rows(len, lr) == q;
      assert (q - 1) * lr == q * lr - lr;
      DivUnique(len + lr - 1, lr, q, lr - 1);
    } else {
      assert Rows(len, lr) == q + 1;
      assert (q + 1) * lr == q * lr + lr;
      DivUnique(len + lr - 1, lr, q + 1, m - 1);
    }
  }

  /** A negative row length gives no rows, so build makes no lines. */
  lemma RowsSign(len: nat, lr: int)
    requires lr != 0
    ensures lr < 0 ==> Rows(len, lr) <= 0
  {
    if lr < 0 {
      var q: int := (-(len as int)) / (-lr);
      var m: int := (-(len as int)) % (-lr);
      assert -(len as int) == (-lr) * q + m && 0 <= m;
      assert q <= 0;
      assert FloorMod(len, lr) == len - lr * q == -m;
    }
  }

  lemma NoLinesForNegativeRow(block: seq<byte>, lr: int, k: int)
    requires lr < 0
    ensures Lines(block, lr, k) == []
  {
    RowsSign(|block|, lr);
  }

  lemma {:induction false} TimesIsProduct(r: nat, lr: int)
    ensures Times(r, lr) == r * lr
    ensures lr >= 0 ==> Times(r, lr) >= 0
  {
    if r > 0 {
      TimesIsProduct(r - 1, lr);
    }
  }

  lemma {:induction false} TimesNonNeg(r: nat, lr: int)
    requires lr >= 0
    ensures Times(r, lr) >= 0
  {
    if r > 0 {
      TimesNonNeg(r - 1, lr);
    }
  }

  /** The cell get_line builds for position i. */
  lemma CellOf(block: seq<byte>, i: int, cell: string)
    requires cell == if 0 <= i < |block| then "0" + HexDigits(block[i] as nat) else "   "
    ensures Last(cell, 2) + " " == Cell(block, i)
  {
  }

  lemma CellsStep(block: seq<byte>, n: int, m: nat)
    ensures Cells(block, n, m + 1) == Cells(block, n, m) + Cell(block, n + m)
  {
  }

  lemma GlyphsStep(block: seq<byte>, n: int, m: nat)
    ensures Glyphs(block, n, m + 1) == Glyphs(block, n, m) + [Glyph(block, n + m)]
  {
  }

  /** A loop over the row's positions that stops at j has covered them all. */
  lemma NoneAfter(block: seq<byte>, n: int, lr: int, j: nat)
    requires j == if lr > 0 then lr else 0
    ensures Cells(block, n, j) == Cells(block, n, lr) && Glyphs(block, n, j) == Glyphs(block, n, lr)
  {
  }

  /** A slice of a + b inside a. */
  lemma SliceLeft<T>(a: seq<T>, b: seq<T>, lo: int, hi: int)
    requires 0 <= lo <= hi <= |a|
    ensures (a + b)[lo..hi] == a[lo..hi]
  {
  }

  /** A slice of a + b inside b. */
  lemma SliceRight<T>(a: seq<T>, b: seq<T>, lo: int, hi: int)
    requires 0 <= lo <= hi <= |b|
    ensures (a + b)[|a| + lo..|a| + hi] == b[lo..hi]
  {
  }

  /** A cell is two lowercase hex digits of the byte and a space, or three
      spaces past the end of the block. */
  lemma CellShape(block: seq<byte>, i: int)
    ensures 0 <= i < |block| ==>
              Cell(block, i) == [HexDigit(Quot16(block[i] as nat)), HexDigit(Rem16(block[i] as nat)), ' ']
    ensures !(0 <= i < |block|) ==> Cell(block, i) == "   "
  {
    if 0 <= i < |block| {
      var b := block[i] as nat;
      LastIsSuffix("0" + HexDigits(b), 2);
      if b >= 16 {
        assert HexDigits(b) == HexDigits(Quot16(b)) + [HexDigit(Rem16(b))];
        assert HexDigits(Quot16(b)) == [HexDigit(Quot16(b))];
      }
    } else {
      LastIsSuffix("   ", 2);
    }
  }

  /** Cell j of the row at n is the cell of byte n + j. */
  lemma {:induction false} CellsAt(block: seq<byte>, n: int, m: int, j: int)
    requires 0 <= j < m
    ensures Cells(block, n, m)[3 * j..3 * j + 3] == Cell(block, n + j)
    decreases m
  {
    var prev, c := Cells(block, n, m - 1), Cell(block, n + m - 1);
    assert Cells(block, n, m) == prev + c;
    if j < m - 1 {
      CellsAt(block, n, m - 1, j);
      SliceLeft(prev, c, 3 * j, 3 * j + 3);
    } else {
      SliceRight(prev, c, 0, 3);
      assert c[0..3] == c;
    }
  }

  /** Character j of the ASCII column of the row at n is byte n + j's. */
  lemma {:induction false} GlyphsAt(block: seq<byte>, n: int, m: int, j: int)
    requires 0 <= j < m
    ensures Glyphs(block, n, m)[j] == Glyph(block, n + j)
    decreases m
  {
    if j < m - 1 {
      GlyphsAt(block, n, m - 1, j);
    }
  }

  /** The layout of a line of a positive row length lr at row offset n:
      the offset field, then cell j at 12 + 3j, then "| " at 12 + 3·lr,
      then ASCII character j at 14 + 3·lr + j. */
  lemma LineAt(block: seq<byte>, lr: int, k: int, n: int, j: int)
    requires 0 <= j < lr
    ensures var line := Line(block, lr, k, n);
            |line| == 14 + 4 * lr
            && line[..12] == Begin(k, n)
            && line[12 + 3 * j..15 + 3 * j] == Cell(block, n + j)
            && line[12 + 3 * lr..14 + 3 * lr] == "| "
            && line[14 + 3 * lr + j] == Glyph(block, n + j)
  {
    CellsAt(block, n, lr, j);
    GlyphsAt(block, n, lr, j);
    Layout(Begin(k, n), Cells(block, n, lr), Glyphs(block, n, lr), lr, j);
  }

  /** Where the pieces of a line sit, for any offset field b, cells c and
      ASCII column g of a row of m bytes. */
  lemma Layout(b: string, c: string, g: string, m: nat, j: nat)
    requires |b| == 12 && |c| == 3 * m && |g| == m && j < m
    ensures var line := b + c + ("| " + g);
            line[..12] == b
            && line[12 + 3 * j..15 + 3 * j] == c[3 * j..3 * j + 3]
            && line[12 + 3 * m..14 + 3 * m] == "| "
            && line[14 + 3 * m + j] == g[j]
  {
    var e := "| " + g;
    SliceLeft(b + c, e, 0, 12);
    SliceLeft(b, c, 0, 12);
    SliceLeft(b + c, e, 12 + 3 * j, 15 + 3 * j);
    SliceRight(b, c, 3 * j, 3 * j + 3);
    SliceRight(b + c, e, 0, 2);
    assert b[0..12] == b && e[0..2] == "| ";
  }

  /** Zero-padding hex(v)[2:] and keeping the last w characters gives the
      w low-order digits of v. */
  lemma {:induction false} PaddedDigits(v: nat, w: nat, pad: string)
    requires w > 0 && |pad| >= w && forall i :: 0 <= i < |pad| ==> pad[i] == '0'
    ensures Last(pad + HexDigits(v), w) == Fixed(v, w)
    decreases w
  {
    LastIsSuffix(pad + HexDigits(v), w);
    if v < 16 {
      FixedOfSmall(Quot16(v), w - 1);
      assert Fixed(Quot16(v), w - 1) == pad[|pad| - (w - 1)..];
      assert pad + HexDigits(v) == pad + [HexDigit(Rem16(v))];
    } else {
      var s := pad + HexDigits(Quot16(v));
      assert pad + HexDigits(v) == s + [HexDigit(Rem16(v))];
      if w == 1 {
        assert Last(s + [HexDigit(Rem16(v))], 1) == [HexDigit(Rem16(v))];
      } else {
        PaddedDigits(Quot16(v), w - 1, pad);
        LastIsSuffix(s, w - 1);
        assert Last(s + [HexDigit(Rem16(v))], w) == Last(s, w - 1) + [HexDigit(Rem16(v))];
      }
    }
  }

  /** The digits of 0 are all "0". */
  lemma {:induction false} FixedOfSmall(v: nat, w: nat)
    requires v == 0
    ensures forall i :: 0 <= i < w ==> Fixed(v, w)[i] == '0'
    decreases w
  {
    if w > 0 {
      FixedOfSmall(v, w - 1);
    }
  }

  /** The offset field of a line at a non-negative offset n + k is the eight
      low-order lowercase hex digits of n + k. */
  lemma BeginDigits(k: int, n: int)
    requires n + k >= 0
    ensures Begin(k, n) == " " + Fixed(n + k, 8) + " | "
  {
    PaddedDigits(n + k, 8, "00000000");
  }

  /** Reading the w low-order digits of v back gives v modulo 16^w. */
  lemma {:induction false} FixedValue(v: nat, w: nat)
    ensures HexValue(Fixed(v, w)) == v % Pow16(w)
    decreases w
  {
    if w == 0 {
      DivUnique(v, 1, v, 0);
    } else {
      var f := Fixed(v, w);
      assert f[..w - 1] == Fixed(Quot16(v), w - 1);
      FixedValue(Quot16(v), w - 1);
      DigitRoundTrip(Rem16(v));
      ModShift(v, Pow16(w - 1), Quot16(v), Rem16(v));
    }
  }

  /** With v = 16q + d for a digit d, v modulo 16p is 16 (q mod p) + d. */
  lemma ModShift(v: nat, p: nat, q: nat, d: nat)
    requires p >= 1 && d < 16 && v == 16 * q + d
    ensures v % (16 * p) == 16 * (q % p) + d
  {
    var a, b := q / p, q % p;
    assert q == p * a + b;
    assert v == (16 * p) * a + (16 * b + d);
    DivUnique(v, 16 * p, a, 16 * b + d);
  }

  lemma DigitRoundTrip(d: nat)
    requires d < 16
    ensures DigitValue(HexDigit(d)) == d
  {
  }

  /** Reading the offset field back as hex gives the offset modulo 2^32. */
  lemma OffsetRoundTrip(k: int, n: int)
    requires n + k >= 0
    ensures HexValue(Begin(k, n)[1..9]) == (n + k) % 0x1_0000_0000
  {
    BeginDigits(k, n);
    assert Begin(k, n)[1..9] == Fixed(n + k, 8);
    FixedValue(n + k, 8);
    assert Pow16(8) == 0x1_0000_0000;
  }

  /** Reading a byte's cell back as hex gives the byte. */
  lemma CellRoundTrip(block: seq<byte>, i: int)
    requires 0 <= i < |block|
    ensures HexValue(Cell(block, i)[..2]) == block[i] as int
  {
    CellShape(block, i);
    var b := block[i] as nat;
    DigitRoundTrip(Quot16(b));
    DigitRoundTrip(Rem16(b));
    var two := Cell(block, i)[..2];
    assert two[..1] == [HexDigit(Quot16(b))];
    assert HexValue(two[..1]) == Quot16(b);
  }

  /** Byte b is cell j of a line of a row length lr: as hex at 12 + 3j and as
      its ASCII character at 14 + 3·lr + j. */
  predicate ShowsByte(line: string, lr: int, j: int, b: byte) {
    0 <= j < lr && |line| == 14 + 4 * lr
    && HexValue(line[12 + 3 * j..14 + 3 * j]) == b as int
    && line[14 + 3 * lr + j] == Shown(b)
  }

  /** The line of the row at n shows byte n + j in cell j, for j < len_row. */
  lemma ByteInLine(block: seq<byte>, lr: int, k: int, n: int, j: int)
    requires 0 <= j < lr && 0 <= n + j < |block|
    ensures ShowsByte(Line(block, lr, k, n), lr, j, block[n + j])
  {
    var line := Line(block, lr, k, n);
    LineAt(block, lr, k, n, j);
    CellRoundTrip(block, n + j);
    assert line[12 + 3 * j..14 + 3 * j] == line[12 + 3 * j..15 + 3 * j][..2];
  }

  /** Position i of the block lies in row i / len_row, one of the rows build makes. */
  lemma RowOfByte(len: nat, lr: int, i: int)
    requires lr > 0 && 0 <= i < len
    ensures i / lr < Rows(len, lr)
  {
    var r, rows := i / lr, Rows(len, lr);
    RowsCover(len, lr);
    assert r * lr <= i;
    FactorBelow(r, rows, lr);
  }

  /** Row i / lr starts at offset (i / lr) * lr, i % lr before i. */
  lemma RowStart(i: nat, lr: int)
    requires lr > 0
    ensures Times(i / lr, lr) + i % lr == i && 0 <= i % lr < lr
  {
    TimesIsProduct(i / lr, lr);
  }

  lemma FactorBelow(a: int, b: int, c: int)
    requires c > 0 && a * c < b * c
    ensures a < b
  {
  }

  /** Every byte of the block appears in the dump: byte i is in line
      i / len_row, as hex in cell i % len_row and as its ASCII character. */
  lemma EveryByteShown(block: seq<byte>, lr: int, k: int, i: int)
    requires lr > 0 && 0 <= i < |block|
    ensures i / lr < |Lines(block, lr, k)|
    ensures ShowsByte(Lines(block, lr, k)[i / lr], lr, i % lr, block[i])
  {
    var r, j := i / lr, i % lr;
    RowOfByte(|block|, lr, i);
    RowStart(i, lr);
    var n := Times(r, lr);
    assert Lines(block, lr, k)[r] == Line(block, lr, k, n);
    ByteInLine(block, lr, k, n, j);
  }
}
