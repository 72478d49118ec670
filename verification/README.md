# mech3re notebook helpers, modelled in Dafny

This project models the byte-inspection helpers of `helpers.py` in the
mech3re reverse-engineering notebooks and proves what they promise:

- `SANE_ASCII`: the table of "sane" characters. These are the ASCII letters,
  the digits and the punctuation, each keyed by its code point.
- `find_iter` / `find_all`: every start index of a sub-sequence, with
  overlapping occurrences included.
- `asciify`: shows bytes as characters. A sane byte is shown as its own
  character. The zero byte is shown as the `zero` placeholder. Every other
  byte is shown as the `nonascii` placeholder. This includes blanks, control
  characters and non-ASCII bytes.
- `hexdump`: prints rows of `width` bytes as `offset|hex|ascii`.

Modules, one per concern:

| file | module | contents |
|---|---|---|
| `common.dfy` | `Common` | bytes, `Option`, `Result`, `Min`/`Max`, `Repeat` |
| `search.dfy` | `Search` | Python's `find`, `find_iter` as a function and as a loop, `find_all`, and a reference enumeration of all occurrences |
| `ascii.dfy` | `Ascii` | `string.ascii_letters`/`digits`/`punctuation`, `SANE_ASCII`, the translation table, `asciify` |
| `format.dfy` | `Format` | `str(n)`, the `{:0w}` offset format and the `{:02X}` byte format, each with a reader that inverts it |
| `hexdump.dfy` | `Hexdump` | the row layout, `hexdump`, and a reader that turns the printed rows back into bytes |

The model follows Python's semantics:

- `Search.Find` is `value.find(sub, start)` for a non-negative start.
- `Hexdump.Hexdump` returns the lines that the source prints, without their
  newlines. A zero `width` gives the error that `range` raises. A negative
  `width` gives no rows, because the range is then empty.
- Python's default arguments appear as Dafny default parameters:
  `zero := "."`, `nonascii := "."` and `width := 8`.

Every operation has a partner:

- `find_all` and its loop form are related to `OccurrencesBelow`. That
  definition checks every position in turn and does not use `find`. `find`
  itself and the generator from any start are characterised directly by
  where `sub` occurs.
- `asciify` is related to a per-byte reference, `DisplayChar`.
- Each format is related to its reader (`DecimalValue`, `ParseHex2`).
- The dump is related to `Undump`, which reads the printed rows back into
  the data.

Two inputs that `helpers.py` does not discuss are modelled as Python runs
them:

- **Empty `sub`.** `helpers.py` does not say what an empty `sub` means. The
  code passes it to `find`, which reports an empty `sub` at every index from
  0 to `len(value)`. The model keeps that behaviour
  (`Search.FindAllEmptySub`) and has no precondition on `sub`.
- **Zero or negative `width`.** `range(0, length, width)` raises for a zero
  step and is empty for a negative one. The model returns a `ZeroStep`
  failure for the first case and no rows for the second.

## Model

| member | source | states |
|---|---|---|
| `Search.Find` | helpers.py:12-15 | `value.find(sub, start)`: -1, or an index at or after `start` where `sub` occurs; no occurrence lies between `start` and the result (none at all after `start` when the result is -1) |
| `Search.FindIterFrom` | helpers.py:11-15 | the indices the generator yields from a given start are strictly increasing, each one an occurrence at or after the start, and every occurrence at or after the start is among them, overlapping ones included |
| `Search.FindAll` | helpers.py:18-19 | `find_all` is strictly increasing, contains an index exactly when `sub` occurs there, and is empty exactly when `sub` occurs nowhere (so always for an empty `value` and non-empty `sub`) |
| `Search.FindIter` | helpers.py:11-19 | the `while index > -1` loop, collecting what it yields, produces an increasing list of exactly the occurrences, equal to `find_all` |
| `Search.OccurrencesBelowCorrect` | helpers.py:18-19 | the reference enumeration of positions below `n` is increasing and holds exactly the occurrences below `n` |
| `Search.FindAllIsOccurrences` | helpers.py:18-19 | `find_all` equals the reference list obtained by checking every position from 0 to `len(value)` in turn |
| `Search.FindAllOverlapping` | helpers.py:13-15 | in a run of `n` equal elements, a run of `m <= n` of them is found at every index 0 to `n - m`, since each search restarts one past the last hit ("aa" in "aaaa" gives 0, 1, 2) |
| `Search.FindAllEmptySub` | helpers.py:12-15 | an empty `sub` is found at every index 0 to `len(value)` |
| `Ascii.CodePointTable` | helpers.py:8 | the dictionary comprehension `{ord(ch): ch ...}` has exactly the code points of the characters as keys, each mapped to the character with that code point |
| `Ascii.SaneAsciiIsVisibleRange` | helpers.py:5-8 | `SANE_ASCII`, built from letters, digits and punctuation, has exactly the keys 33 to 126, and each maps to its own character |
| `Ascii.Translation` | helpers.py:36 | `{**SANE_ASCII, 0: zero}` has exactly the keys 0 and 33 to 126; key 0 maps to `zero` and every other key to its own character |
| `Ascii.LookupTranslation` | helpers.py:36-37 | `translation.get(byte, nonascii)`, for any placeholder strings, is the byte's own character for 33 to 126, `zero` for 0 and `nonascii` for every other byte |
| `Ascii.JoinLookups` | helpers.py:37 | `"".join(...)` of the lookups: when every table entry and the default are single characters, one character per byte, the one looked up for it |
| `Ascii.Asciify` | helpers.py:30-37 | with one-character placeholders, `asciify` has one character per byte: the byte itself when 33 to 126, `zero` for 0, `nonascii` for every other byte |
| `Ascii.AsciifyAppend` | helpers.py:37 | for any placeholders, `asciify(a + b) == asciify(a) + asciify(b)` |
| `Ascii.AsciifyExample` | helpers.py:30-37 | bytes 00 41 20 FF are shown as ".A..": the zero byte and the blank both become placeholders |
| `Format.Decimal` | helpers.py:42 | `str(n)` is a non-empty run of decimal digits with no leading zero, and `str(0)` is exactly "0" |
| `Format.DecimalRoundTrip` | helpers.py:42 | reading `str(n)` back as a decimal gives `n` |
| `Format.DecimalLengthMonotone` | helpers.py:42-44 | a smaller number never has more digits, so every offset below `len(data)` fits in `len(str(len(data)))` digits |
| `Format.ZeroPad` | helpers.py:43 | `format(n, "0w")` has `max(w, len(str(n)))` characters, all digits, and reads back as `n` |
| `Format.Hex2` | helpers.py:47 | `f"{b:02X}"` is two upper-case hex digits, high nibble first, that denote `b` |
| `Format.Hex2RoundTrip` | helpers.py:47 | every byte's token parses back to that byte, so distinct bytes have distinct tokens |
| `Hexdump.OffsetWidth` | helpers.py:41-42 | `len(str(len(data)))` is at least 1, every offset up to the length fits in that many digits, and the length itself needs all of them |
| `Hexdump.HexTokens` | helpers.py:47 | `" ".join(...)` of the chunk: `3 * len(chunk) - 1` characters (none for an empty chunk), byte `k`'s token at columns `3k` and `3k+1`, a blank after every token but the last |
| `Hexdump.Padding` | helpers.py:46 | `"   " * missing`: three blanks per missing byte, none when nothing is missing |
| `Hexdump.HexColumn` | helpers.py:46-47 | tokens plus padding of a non-empty chunk of at most `width` bytes take `3 * width - 1` columns, with the tokens in place and blanks after the last token |
| `Hexdump.Chunk` | helpers.py:45 | `data[i:i + width]` holds `min(width, len(data) - i)` bytes |
| `Hexdump.Slots` | helpers.py:44-45 | `range(i, len(data), width)` gives no rows once `i` reaches the end, and otherwise the fewest rows of `width` bytes that hold the rest of the data |
| `Hexdump.RenderShape` | helpers.py:44-47 | the contract of `Render`, the lines the loop prints: one line per slot (`Render`'s own ensures), and every line has the row shape of its slot's offset and chunk: the padded offset, both bars at fixed columns, each byte's token in its column, and the ASCII field |
| `Hexdump.Hexdump` | helpers.py:40-47 | `hexdump` fails exactly when `width` is 0, and prints nothing for a negative `width` |
| `Hexdump.HexdumpRowCount` | helpers.py:44 | for a positive `width` there are ceil(len(data) / width) rows, and none for empty data |
| `Hexdump.RowIndexOffset` | helpers.py:44 | for a positive `width`, row `k` exists exactly when its offset `k * width` lies inside the data |
| `Hexdump.SlotsAt` | helpers.py:44-45 | row `k` of the rows from `i` starts at offset `i + k * width` and holds the slice from there |
| `Hexdump.SlotsCover` | helpers.py:44-45 | the rows' chunks, concatenated in order, are exactly the data; each starts where the previous one ended, is 1 to `width` bytes long and has an offset that fits the offset column |
| `Hexdump.RowLayout` | helpers.py:47 | the contract of `Row`, the line `print` writes with a bar as separator: a row is the padded offset (exactly `w` characters), a bar, the hex column (exactly `3 * width - 1` characters), a bar, and `asciify(chunk)` (one character per byte) |
| `Hexdump.RowColumns` | helpers.py:46-47 | every row has its offset's digits, both bars at fixed columns, each byte's token at its column, blanks between and after the tokens, and `asciify(chunk)` at the end |
| `Hexdump.HexdumpRowAt` | helpers.py:41-47 | row `k` of the dump is the row for offset `k * width` and the slice of 1 to `width` bytes from there, and the offset fits in `len(str(len(data)))` digits |
| `Hexdump.HexdumpLayout` | helpers.py:41-47 | the row at every offset `k * width` inside the data (which, by `RowIndexOffset`, is every row) has that shape, so the bars sit at the same columns in every row, short last row included |
| `Hexdump.HexColumnRoundTrip` | helpers.py:46-47 | the tokens of a chunk followed by any blanks read back as the chunk |
| `Hexdump.RowRoundTrip` | helpers.py:47 | reading a row back gives its offset and its chunk, and its ASCII field agrees with the chunk |
| `Hexdump.RenderRoundTrip` | helpers.py:44-47 | contiguous rows, formatted and read back, give the bytes they show, in order |
| `Hexdump.HexdumpRoundTrip` | helpers.py:40-47 | reading back the rows of `hexdump(data, width)` for a positive `width` gives `data` exactly: no byte is lost, duplicated or reordered |

## Left out

- `display_image` (helpers.py:22-27): it is PNG encoding through PIL, an in-memory buffer and the IPython display surface. All of these are foreign libraries and I/O.
- The `print` side effect of `hexdump`: the model returns the lines, without the newline `print` adds. The `sep="|"` joining is modelled.
- Generator laziness of `find_iter`: the model is the finite list the generator yields, as `find_all` realises it. `Search.FindIterFrom` gives it as a recursive function and `Search.FindIter` as a loop.
- A negative `start` for `find`: `find_iter` never passes one, so `Search.Find` takes a `nat`.
- `asciify` on a `str` rather than `bytes`: iterating a `str` yields characters, which are never keys of the integer-keyed table. The model takes bytes, which is how `hexdump` calls it.
- Ascii.Asciify: the length and per-character statement is made only for one-character placeholders. Python accepts any strings as `zero` and `nonascii`, and then the output length depends on them. `Ascii.LookupTranslation` gives each byte's string and `Ascii.AsciifyAppend` holds for any placeholders.
- Ascii.JoinLookups: the length and per-character statement is made only when every table entry and the default are single characters; otherwise the result is the concatenation its definition spells out.
- `ParseHex2`, `ParseHexColumn`, `ParseRow` and `Undump` have no counterpart in `helpers.py`. They exist only to state that a dump loses no information.
