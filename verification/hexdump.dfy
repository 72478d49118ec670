/**
 * The hex dumper: `hexdump` in helpers.py.
 *
 * The data is cut into rows of `width` bytes. Each row is shown as
 * `offset|hex|ascii`: the offset zero-padded to as many digits as the total
 * length has, the bytes as two-digit upper-case hex separated by single
 * spaces, three spaces per byte missing from a short final row, and the
 * row's bytes through `asciify`. The model returns the lines that the source
 * prints, without their newlines.
 */
module Hexdump {
  import opened Common
  import opened Format
  import opened Ascii

  /** What `range(0, length, width)` raises for a zero step. */
  datatype Error = ZeroStep

  /**
   * `len(str(len(data)))`: the width of the offset column, just wide enough
   * for every offset up to the length.
   */
  function OffsetWidth(length: nat): (w: nat)
    ensures 1 <= w
    ensures forall i: nat | i <= length :: |Decimal(i)| <= w
    ensures |Decimal(length)| == w
  {
    DecimalFits(length);
    |Decimal(length)|
  }

  /**
   * `" ".join(f"{b:02X}" for b in chunk)`: token `k` sits at columns 3k and
   * 3k+1, with a single space after every token but the last.
   */
  function HexTokens(chunk: seq<Byte>): (s: string)
    ensures |s| == if chunk == [] then 0 else 3 * |chunk| - 1
    ensures forall k | 0 <= k < |chunk| :: s[3 * k .. 3 * k + 2] == Hex2(chunk[k])
    ensures forall k | 0 <= k < |chunk| - 1 :: s[3 * k + 2] == ' '
  {
    if chunk == [] then []
    else if |chunk| == 1 then Hex2(chunk[0])
    else
      var rest := HexTokens(chunk[1..]);
      TokensCons(chunk, rest);
      Hex2(chunk[0]) + " " + rest
  }

  /** Putting a token and a blank in front shifts every later token by three columns. */
  lemma TokensCons(chunk: seq<Byte>, rest: string)
    requires |chunk| >= 2
    requires |rest| == 3 * (|chunk| - 1) - 1
    requires forall k | 0 <= k < |chunk| - 1 :: rest[3 * k .. 3 * k + 2] == Hex2(chunk[1..][k])
    requires forall k | 0 <= k < |chunk| - 2 :: rest[3 * k + 2] == ' '
    ensures var s := Hex2(chunk[0]) + " " + rest;
      && (forall k | 0 <= k < |chunk| :: s[3 * k .. 3 * k + 2] == Hex2(chunk[k]))
      && (forall k | 0 <= k < |chunk| - 1 :: s[3 * k + 2] == ' ')
  {
    var s := Hex2(chunk[0]) + " " + rest;
    forall k | 1 <= k < |chunk| ensures s[3 * k .. 3 * k + 2] == Hex2(chunk[k]) {
      var j := k - 1;
      assert rest[3 * j .. 3 * j + 2] == Hex2(chunk[1..][j]);
      assert s[3 * k .. 3 * k + 2] == rest[3 * j .. 3 * j + 2];
    }
    forall k | 1 <= k < |chunk| - 1 ensures s[3 * k + 2] == ' ' {
      var j := k - 1;
      assert rest[3 * j + 2] == ' ';
      assert s[3 * k + 2] == rest[3 * j + 2];
    }
    assert s[..2] == Hex2(chunk[0]);
    assert s[2] == ' ';
  }

  /** `"   " * missing`: three blanks per missing byte, nothing for a non-positive count. */
  function Padding(missing: int): (s: string)
    ensures |s| == if missing > 0 then 3 * missing else 0
    ensures forall j | 0 <= j < |s| :: s[j] == ' '
  {
    if missing > 0 then Repeat(' ', 3 * missing) else []
  }

  /**
   * The middle column: the tokens, then the padding for a short row, so
   * `3 * width - 1` characters whatever the chunk's length, with blanks from
   * the end of the last token on.
   */
  function HexColumn(chunk: seq<Byte>, width: int): (s: string)
    ensures chunk != [] ==> |s| == Max(3 * width - 1, 3 * |chunk| - 1)
    ensures forall k | 0 <= k < |chunk| :: s[3 * k .. 3 * k + 2] == Hex2(chunk[k])
    ensures forall k | 0 <= k < |chunk| - 1 :: s[3 * k + 2] == ' '
    ensures forall j | 3 * |chunk| - 1 <= j < |s| && 0 <= j :: s[j] == ' '
  {
    var tokens := HexTokens(chunk);
    var s := tokens + Padding(width - |chunk|);
    assert forall k | 0 <= k < |chunk| :: s[3 * k .. 3 * k + 2] == tokens[3 * k .. 3 * k + 2];
    s
  }

  /** One printed row, `print(offset, hex + pad, ascii, sep="|")`, without its newline. */
  function Row(w: nat, offset: nat, chunk: seq<Byte>, width: int): string {
    ZeroPad(offset, w) + "|" + HexColumn(chunk, width) + "|" + Asciify(chunk)
  }

  /** `data[i:i + width]`: Python clamps the end of the slice to the data. */
  function Chunk(data: seq<Byte>, i: nat, width: nat): (c: seq<Byte>)
    requires i <= |data|
    ensures |c| == Min(width, |data| - i)
  {
    data[i .. Min(i + width, |data|)]
  }

  /** A row before it is formatted: where it starts and the bytes it shows. */
  datatype Slot = Slot(offset: nat, chunk: seq<Byte>)

  /**
   * The rows of `range(i, len(data), width)`, each with its slice of the
   * data: the fewest rows of `width` bytes that hold `data[i..]`.
   */
  function Slots(data: seq<Byte>, width: nat, i: nat): (slots: seq<Slot>)
    requires width > 0
    ensures i >= |data| ==> slots == []
    ensures i < |data| ==> (|slots| - 1) * width < |data| - i <= |slots| * width
    decreases |data| - i
  {
    if i >= |data| then []
    else
      var rest := Slots(data, width, i + width);
      assert (|rest| + 1) * width == |rest| * width + width;
      assert (|rest| - 1) * width == |rest| * width - width;
      [Slot(i, Chunk(data, i, width))] + rest
  }

  /**
   * Formats each slot as the row `print` shows for it, one line per slot;
   * `RenderShape` states what each line holds.
   */
  function Render(w: nat, width: int, slots: seq<Slot>): (lines: seq<string>)
    ensures |lines| == |slots|
  {
    seq(|slots|, k requires 0 <= k < |slots| => Row(w, slots[k].offset, slots[k].chunk, width))
  }


  /**
   * Every line of rendered slots has the row shape of its slot, for each slot
   * of 1 to `width` bytes whose offset fits in `w` digits.
   */
  lemma RenderShape(w: nat, width: int, slots: seq<Slot>)
    ensures forall k | 0 <= k < |slots| && 0 < |slots[k].chunk| <= width && |Decimal(slots[k].offset)| <= w ::
      RowShape(Render(w, width, slots)[k], w, slots[k].offset, slots[k].chunk, width)
  {
    forall k | 0 <= k < |slots| && 0 < |slots[k].chunk| <= width && |Decimal(slots[k].offset)| <= w
      ensures RowShape(Render(w, width, slots)[k], w, slots[k].offset, slots[k].chunk, width)
    {
      RowColumns(w, slots[k].offset, slots[k].chunk, width);
    }
  }

  /**
   * `hexdump(data, width)`: the rows printed for a positive width, the error
   * `range` raises for a zero width, and no rows for a negative width,
   * which makes the range empty.
   */
  function Hexdump(data: seq<Byte>, width: int := 8): (r: Result<seq<string>, Error>)
    ensures r.Failure? <==> width == 0
    ensures width < 0 ==> r == Success([])
  {
    if width == 0 then Failure(ZeroStep)
    else if width < 0 then Success([])
    else Success(Render(OffsetWidth(|data|), width, Slots(data, width, 0)))
  }

  /**
   * One row per `width` bytes, the last one possibly short: the fewest rows
   * of `width` bytes that hold the data (ceil(|data| / width)), and none for
   * empty data.
   */
  lemma HexdumpRowCount(data: seq<Byte>, width: int)
    requires width > 0
    ensures Hexdump(data, width).Success?
    ensures data == [] ==> Hexdump(data, width).value == []
    ensures data != [] ==> var n := |Hexdump(data, width).value|;
      (n - 1) * width < |data| <= n * width
  {
  }

  /**
   * Every row of a dump starts inside the data: row `k` exists exactly for
   * the `k` whose offset `k * width` is below the length.
   */
  lemma RowIndexOffset(data: seq<Byte>, width: int, k: nat)
    requires width > 0
    ensures Hexdump(data, width).Success?
    ensures k < |Hexdump(data, width).value| <==> 0 <= k * width < |data|
  {
    HexdumpRowCount(data, width);
    var n := |Hexdump(data, width).value|;
    MulNonNegative(k, width);
    if k < n {
      MulMonotone(k, n - 1, width);
    } else if data != [] {
      MulMonotone(n, k, width);
    }
  }

  lemma MulNonNegative(a: nat, c: nat)
    ensures 0 <= a * c
  {
  }

  lemma MulMonotone(a: int, b: int, c: nat)
    requires a <= b
    ensures a * c <= b * c
  {
    assert b * c - a * c == (b - a) * c;
  }

  /** The offset of row `k` when the rows start at `i`: `k` steps of `width`. */
  function RowOffset(i: nat, k: nat, width: nat): (o: nat)
    ensures o == i + k * width
    decreases k
  {
    if k == 0 then i
    else
      MulPredecessor(k, width);
      RowOffset(i + width, k - 1, width)
  }

  lemma MulPredecessor(k: int, width: int)
    ensures (k - 1) * width == k * width - width
  {
  }

  /** Row `k` of the rows from offset `i` starts at `i + k * width` and holds the slice from there. */
  lemma {:induction false} SlotsAt(data: seq<Byte>, width: nat, i: nat, k: nat)
    requires width > 0
    requires RowOffset(i, k, width) < |data|
    ensures k < |Slots(data, width, i)|
    ensures var o := RowOffset(i, k, width);
      Slots(data, width, i)[k] == Slot(o, Chunk(data, o, width))
    decreases k
  {
    var slots := Slots(data, width, i);
    if k == 0 {
      SlotsCons(data, width, i);
    } else {
      var o := RowOffset(i + width, k - 1, width);
      assert RowOffset(i, k, width) == o;
      SlotsAt(data, width, i + width, k - 1);
      SlotsCons(data, width, i);
      var rest := Slots(data, width, i + width);
      assert slots[k] == rest[k - 1] == Slot(o, Chunk(data, o, width));
    }
  }

  /** A row at offset `i` is followed by the rows from `i + width`. */
  lemma SlotsCons(data: seq<Byte>, width: nat, i: nat)
    requires width > 0
    requires i < |data|
    ensures Slots(data, width, i) == [Slot(i, Chunk(data, i, width))] + Slots(data, width, i + width)
  {
  }

  /** The bytes the slots show, one after another. */
  function Flatten(slots: seq<Slot>): seq<Byte> {
    if slots == [] then [] else slots[0].chunk + Flatten(slots[1..])
  }

  /**
   * Slots that can be read back: each starts where the previous one ended,
   * holds between 1 and `width` bytes, and has an offset of at most `w` digits.
   */
  ghost predicate Contiguous(slots: seq<Slot>, w: nat, width: nat, offset: nat) {
    slots == [] ||
    (&& slots[0].offset == offset
     && 0 < |slots[0].chunk| <= width
     && |Decimal(offset)| <= w
     && Contiguous(slots[1..], w, width, offset + |slots[0].chunk|))
  }

  /**
   * The rows of a dump cover the data: their chunks, concatenated in order,
   * are the data exactly, and each chunk starts where the previous ended.
   */
  lemma SlotsCover(data: seq<Byte>, width: nat, i: nat)
    requires width > 0
    requires i <= |data|
    ensures Flatten(Slots(data, width, i)) == data[i..]
    ensures Contiguous(Slots(data, width, i), OffsetWidth(|data|), width, i)
  {
    SlotsFlatten(data, width, i);
    SlotsContiguous(data, width, i);
  }

  /** The step shared by both halves of `SlotsCover`: the rows after the first start where it ends. */
  lemma SlotsNext(data: seq<Byte>, width: nat, i: nat)
    requires width > 0
    requires i < |data|
    ensures var chunk := Chunk(data, i, width);
      var slots := Slots(data, width, i);
      && i + |chunk| <= |data|
      && slots[0] == Slot(i, chunk)
      && slots[1..] == Slots(data, width, i + |chunk|)
  {
    SlotsCons(data, width, i);
    if i + width >= |data| {
      assert Slots(data, width, i + width) == [];
    }
  }

  lemma SliceSplit<T>(s: seq<T>, i: nat, j: nat)
    requires i <= j <= |s|
    ensures s[i..] == s[i..j] + s[j..]
  {
  }

  lemma {:induction false} SlotsFlatten(data: seq<Byte>, width: nat, i: nat)
    requires width > 0
    requires i <= |data|
    ensures Flatten(Slots(data, width, i)) == data[i..]
    decreases |data| - i
  {
    var slots := Slots(data, width, i);
    if i < |data| {
      var chunk := Chunk(data, i, width);
      var next := i + |chunk|;
      SlotsNext(data, width, i);
      SlotsFlatten(data, width, next);
      assert Flatten(slots) == chunk + Flatten(slots[1..]);
      SliceSplit(data, i, next);
    } else {
      assert data[i..] == [];
    }
  }

  lemma {:induction false} SlotsContiguous(data: seq<Byte>, width: nat, i: nat)
    requires width > 0
    requires i <= |data|
    ensures Contiguous(Slots(data, width, i), OffsetWidth(|data|), width, i)
    decreases |data| - i
  {
    if i < |data| {
      var chunk := Chunk(data, i, width);
      SlotsNext(data, width, i);
      SlotsContiguous(data, width, i + |chunk|);
      assert |Decimal(i)| <= OffsetWidth(|data|);
    }
  }

  /** Where the fields of `off|hex|asc` sit. */
  lemma Fields(off: string, hex: string, asc: string)
    ensures var line := off + "|" + hex + "|" + asc;
      var bar := |off| + 1 + |hex|;
      && |line| == bar + 1 + |asc|
      && line[..|off|] == off
      && line[|off|] == '|'
      && line[|off| + 1 .. bar] == hex
      && line[bar] == '|'
      && line[bar + 1 ..] == asc
  {
    var line := off + "|" + hex + "|" + asc;
    assert line == off + ("|" + hex + "|" + asc);
    assert line == (off + "|" + hex) + ("|" + asc);
  }

  /**
   * The fields of one row: an offset field of exactly `w` digits, a bar, a
   * hex field of exactly `3 * width - 1` characters, a bar, and the
   * `asciify` of the chunk, one character per byte.
   */
  lemma RowLayout(w: nat, offset: nat, chunk: seq<Byte>, width: int)
    requires 0 < |chunk| <= width
    requires |Decimal(offset)| <= w
    ensures var line := Row(w, offset, chunk, width);
      && |line| == w + 3 * width + 1 + |chunk|
      && line[..w] == ZeroPad(offset, w)
      && line[w] == '|'
      && line[w + 1 .. w + 3 * width] == HexColumn(chunk, width)
      && line[w + 3 * width] == '|'
      && line[w + 3 * width + 1 ..] == Asciify(chunk)
  {
    var off := ZeroPad(offset, w);
    var hex := HexColumn(chunk, width);
    var asc := Asciify(chunk);
    assert |off| == w;
    assert |hex| == 3 * width - 1;
    assert |asc| == |chunk|;
    Fields(off, hex, asc);
  }

  /**
   * The shape of a row: `w` digits reading `offset`, a bar, a hex field with
   * byte `j` of the chunk as its two-digit token at column `3 * j` and
   * blanks after the last token, a second bar at the same column whatever
   * the chunk's length, then the chunk's `asciify`.
   */
  ghost predicate RowShape(line: string, w: nat, offset: nat, chunk: seq<Byte>, width: int) {
    && 0 < |chunk| <= width
    && |line| == w + 3 * width + 1 + |chunk|
    && AllDigits(line[..w]) && DecimalValue(line[..w]) == offset
    && line[w] == '|'
    && line[w + 3 * width] == '|'
    && var field := line[w + 1 .. w + 3 * width];
      && (forall j | 0 <= j < |chunk| :: field[3 * j .. 3 * j + 2] == Hex2(chunk[j]))
      && (forall j | 0 <= j < |chunk| - 1 :: field[3 * j + 2] == ' ')
      && (forall j | 3 * |chunk| - 1 <= j < |field| :: field[j] == ' ')
      && line[w + 3 * width + 1 ..] == Asciify(chunk)
  }

  /** Every formatted row has the shape of its offset and chunk. */
  lemma RowColumns(w: nat, offset: nat, chunk: seq<Byte>, width: int)
    requires 0 < |chunk| <= width
    requires |Decimal(offset)| <= w
    ensures RowShape(Row(w, offset, chunk, width), w, offset, chunk, width)
  {
    RowLayout(w, offset, chunk, width);
  }

  /**
   * Row `k` of a dump is the row for offset `k * width` and the slice of up
   * to `width` bytes from there, with an offset field exactly
   * `len(str(len(data)))` digits wide.
   */
  lemma HexdumpRowAt(data: seq<Byte>, width: int, k: nat)
    requires width > 0
    requires 0 <= k * width < |data|
    ensures Hexdump(data, width).Success?
    ensures var rows := Hexdump(data, width).value;
      var chunk := Chunk(data, k * width, width);
      && k < |rows|
      && rows[k] == Row(OffsetWidth(|data|), k * width, chunk, width)
      && 0 < |chunk| <= width
      && |Decimal(k * width)| <= OffsetWidth(|data|)
  {
    SlotsAt(data, width, 0, k);
    DecimalLengthMonotone(k * width, |data|);
  }

  /**
   * Every row of a dump has the shape of offset `k * width` and the slice
   * of up to `width` bytes from there, with an offset field exactly
   * `len(str(len(data)))` digits wide: the bars sit at the same columns in
   * every row.
   */
  lemma HexdumpLayout(data: seq<Byte>, width: int, k: nat)
    requires width > 0
    requires 0 <= k * width < |data|
    ensures Hexdump(data, width).Success?
    ensures k < |Hexdump(data, width).value|
    ensures RowShape(Hexdump(data, width).value[k], OffsetWidth(|data|), k * width, Chunk(data, k * width, width), width)
  {
    HexdumpRowAt(data, width, k);
    RowColumns(OffsetWidth(|data|), k * width, Chunk(data, k * width, width), width);
  }

  predicate AllSpaces(s: string) {
    forall j | 0 <= j < |s| :: s[j] == ' '
  }

  /** Reads a hex column back: tokens separated by single blanks, then blanks only. */
  function ParseHexColumn(s: string): Option<seq<Byte>>
    decreases |s|
  {
    if |s| >= 2 && ParseHex2(s[..2]).Some? then
      var b := ParseHex2(s[..2]).value;
      if |s| == 2 then Some([b])
      else if s[2] != ' ' then None
      else match ParseHexColumn(s[3..])
        case Some(rest) => Some([b] + rest)
        case None => None
    else if AllSpaces(s) then Some([])
    else None
  }

  /** A row read back: its offset and its bytes. */
  datatype Entry = Entry(offset: nat, bytes: seq<Byte>)

  /**
   * Reads one row of a dump with offset width `w` and row width `width`,
   * checking that its ASCII field agrees with its bytes.
   */
  function ParseRow(line: string, w: nat, width: nat): Option<Entry> {
    var bar := w + 3 * width;
    if width == 0 || |line| <= bar then None
    else if !AllDigits(line[..w]) || line[w] != '|' || line[bar] != '|' then None
    else match ParseHexColumn(line[w + 1 .. bar])
      case None => None
      case Some(bytes) =>
        if line[bar + 1 ..] == Asciify(bytes) then Some(Entry(DecimalValue(line[..w]), bytes))
        else None
  }

  /**
   * Reads a dump back into the bytes it shows, checking that each row is
   * non-empty and starts where the previous one ended.
   */
  function Undump(lines: seq<string>, w: nat, width: nat, offset: nat): Option<seq<Byte>> {
    if lines == [] then Some([])
    else match ParseRow(lines[0], w, width)
      case None => None
      case Some(e) =>
        if e.offset != offset || e.bytes == [] then None
        else match Undump(lines[1..], w, width, offset + |e.bytes|)
          case None => None
          case Some(rest) => Some(e.bytes + rest)
  }

  /** Blanks alone read as no bytes. */
  lemma BlanksParseEmpty(s: string)
    requires AllSpaces(s)
    ensures ParseHexColumn(s) == Some([])
  {
    if |s| >= 2 {
      assert !IsHexDigit(s[..2][0]);
    }
  }

  /** The tokens of a chunk followed by any blanks read back as the chunk. */
  lemma {:induction false} HexColumnRoundTrip(chunk: seq<Byte>, pad: string)
    requires AllSpaces(pad)
    ensures ParseHexColumn(HexTokens(chunk) + pad) == Some(chunk)
  {
    var s := HexTokens(chunk) + pad;
    if chunk == [] {
      assert s == pad;
      BlanksParseEmpty(pad);
    } else {
      var b := chunk[0];
      Hex2RoundTrip(b);
      assert s[..2] == Hex2(b);
      if |chunk| == 1 {
        assert s == Hex2(b) + pad;
        assert [b] == chunk;
        if pad != [] {
          assert s[2] == pad[0] == ' ';
          assert s[3..] == pad[1..];
          BlanksParseEmpty(pad[1..]);
          assert ParseHexColumn(s[3..]) == Some([]);
          assert [b] + [] == [b];
        }
      } else {
        HexColumnRoundTrip(chunk[1..], pad);
        assert HexTokens(chunk) == Hex2(b) + " " + HexTokens(chunk[1..]);
        assert s[2] == ' ';
        assert s[3..] == HexTokens(chunk[1..]) + pad;
        assert [b] + chunk[1..] == chunk;
      }
    }
  }

  /** Reading a row back gives its offset and its chunk. */
  lemma RowRoundTrip(w: nat, offset: nat, chunk: seq<Byte>, width: nat)
    requires 0 < |chunk| <= width
    requires |Decimal(offset)| <= w
    ensures ParseRow(Row(w, offset, chunk, width), w, width) == Some(Entry(offset, chunk))
  {
    var line := Row(w, offset, chunk, width);
    RowLayout(w, offset, chunk, width);
    HexColumnRoundTrip(chunk, Padding(width - |chunk|));
    ParseRowFields(line, w, width, offset, chunk);
  }

  lemma ParseRowFields(line: string, w: nat, width: nat, offset: nat, chunk: seq<Byte>)
    requires width > 0 && |line| > w + 3 * width
    requires AllDigits(line[..w]) && DecimalValue(line[..w]) == offset
    requires line[w] == '|' && line[w + 3 * width] == '|'
    requires ParseHexColumn(line[w + 1 .. w + 3 * width]) == Some(chunk)
    requires line[w + 3 * width + 1 ..] == Asciify(chunk)
    ensures ParseRow(line, w, width) == Some(Entry(offset, chunk))
  {
  }

  /** A first row that reads back at the expected offset, followed by rows that read back, reads back as their concatenation. */
  lemma UndumpCons(lines: seq<string>, w: nat, width: nat, offset: nat, bytes: seq<Byte>, rest: seq<Byte>)
    requires lines != [] && bytes != []
    requires ParseRow(lines[0], w, width) == Some(Entry(offset, bytes))
    requires Undump(lines[1..], w, width, offset + |bytes|) == Some(rest)
    ensures Undump(lines, w, width, offset) == Some(bytes + rest)
  {
  }

  /** Every slot of a contiguous list holds 1 to `width` bytes and has an offset that fits `w` digits. */
  lemma {:induction false} ContiguousAt(slots: seq<Slot>, w: nat, width: nat, offset: nat, k: nat)
    requires Contiguous(slots, w, width, offset)
    requires k < |slots|
    ensures 0 < |slots[k].chunk| <= width && |Decimal(slots[k].offset)| <= w
  {
    if k > 0 {
      ContiguousAt(slots[1..], w, width, offset + |slots[0].chunk|, k - 1);
      assert slots[1..][k - 1] == slots[k];
    }
  }

  /**
   * Lines that each read back as the entry of the matching contiguous slot
   * read back, together, as the bytes those slots show.
   */
  lemma {:induction false} UndumpEntries(lines: seq<string>, slots: seq<Slot>, w: nat, width: nat, offset: nat)
    requires |lines| == |slots|
    requires Contiguous(slots, w, width, offset)
    requires forall k | 0 <= k < |lines| :: ParseRow(lines[k], w, width) == Some(Entry(slots[k].offset, slots[k].chunk))
    ensures Undump(lines, w, width, offset) == Some(Flatten(slots))
  {
    if lines != [] {
      var chunk := slots[0].chunk;
      var next := offset + |chunk|;
      forall k | 0 <= k < |lines| - 1
        ensures ParseRow(lines[1..][k], w, width) == Some(Entry(slots[1..][k].offset, slots[1..][k].chunk))
      {
        assert lines[1..][k] == lines[k + 1] && slots[1..][k] == slots[k + 1];
      }
      UndumpEntries(lines[1..], slots[1..], w, width, next);
      UndumpCons(lines, w, width, offset, chunk, Flatten(slots[1..]));
    }
  }

  /** Contiguous slots, formatted and read back, give the bytes they show. */
  lemma RenderRoundTrip(slots: seq<Slot>, w: nat, width: nat, offset: nat)
    requires Contiguous(slots, w, width, offset)
    ensures Undump(Render(w, width, slots), w, width, offset) == Some(Flatten(slots))
  {
    var lines := Render(w, width, slots);
    forall k | 0 <= k < |lines|
      ensures ParseRow(lines[k], w, width) == Some(Entry(slots[k].offset, slots[k].chunk))
    {
      ContiguousAt(slots, w, width, offset, k);
      RowRoundTrip(w, slots[k].offset, slots[k].chunk, width);
    }
    UndumpEntries(lines, slots, w, width, offset);
  }

  /**
   * Reading the rows of a dump back, each at the offset it shows and each
   * starting where the previous one ended, reproduces the data exactly.
   */
  lemma HexdumpRoundTrip(data: seq<Byte>, width: int)
    requires width > 0
    ensures Hexdump(data, width).Success?
    ensures Undump(Hexdump(data, width).value, OffsetWidth(|data|), width, 0) == Some(data)
  {
    SlotsCover(data, width, 0);
    RenderRoundTrip(Slots(data, width, 0), OffsetWidth(|data|), width, 0);
  }
}
