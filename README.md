# libcx3 core in Dafny

This project models the core of libcx3, a small C++ support library. The model is mainly its LZMA1 decoder
(`lzma.cpp`): the five-byte property header, the 32-bit range decoder with its adaptive probabilities and bit trees,
the circular output window, and the 12-state packet loop with its four-entry cache of repeated distances.

Beside the decoder it models the library's value code:
- path components (`file.cpp`);
- fixed-point time intervals and dates (`time.cpp`);
- byte strings and decimal printing with thousands separators (`text.cpp`);
- `seq_t` grow/shrink, `max`, `clamp`, the counting range and the opaque file descriptor (`prelude.hpp`,
  `prelude.cpp`, `raw.cpp`);
- the `bag_t` multiset of reusable cells (`bag.hpp`);
- platform version parsing and printing (`platform.cpp`).

Each source file becomes a module:

| module | file | what it holds |
|---|---|---|
| `Prelude` | prelude.dfy | fixed-width integers, `max`, `clamp`, `create_range`, opaque fd, `copy_mem`, `is_mem_eq` |
| `Seqs` | seqs.dfy | `seq_t` as a class over an array, `grow`, `shrink`, `create_seq` |
| `Text` | text.dfy | `get_len`, `concat` and `+`, `==`/`!=`, `quote`, `clone`, `as_strz`, `as_text` of integers |
| `Time` | time.dfy | `inter_t` and `date_t` as datatypes, with their arithmetic, comparisons and unit conversions |
| `Paths` | paths.dfy | `path_t`: `create_path`'s two passes, `as_text`, `get_dir`, `+`, `get_ext`, `set_ext` |
| `Bags` | bags.dfy | `bag_t` as a class over a `seq_t`, insert, remove, and the iterator that skips null cells |
| `Platform` | platform.dfy | `plat_t`, `get_plat` from numbers and from text, `as_text` |
| `LzmaProps` | lzma_props.dfy | `dec_lzma_props`, `lzma_dec_buf_len` |
| `LzmaRange` | lzma_range.dfy | `range_dec_t` as a class, `init_probs`, `dec_bit`, `dec_direct_bits`, the bit trees |
| `LzmaWindow` | lzma_window.dfy | `out_wnd_t` as a class over the window and destination arrays |
| `LzmaDec` | lzma_dec.dfy | `lzma_dec_t`, `dec_lit`, `dec_dist`, the length decoder, `dec`, both `lzma_dec` |

The imperative parts of the source are imperative in the model too:
- The decoder's state objects are classes whose methods update fields and arrays in place.
- Every loop of the source is a `while`/`for` loop with invariants.

Each method is proved against a specification function or predicate. Lemmas then state the source's promises about
that function:
- **Range decoder.** Every step is specified by a function over a `Coder` value (`DecBitSpec`, `DirectBits`,
  `InitSpec`, `Normalized`), and the methods are proved equal to it.
- **Window.** It is specified by the ghost sequence `history` of every byte put. The circular buffer is proved to hold
  the last `buf_len` bytes of the stream behind the window's initial contents, and `dst` is proved to hold a prefix of
  `history`.
- **Decoding loop.** `dec` is specified as an LZ77 expansion. The ghost sequence of `Packet`s (literal bytes and
  copies of `len` bytes from `dist` back) unpacks, over the window's initial contents, to exactly the bytes written.
  Every copy reaches back at most `dict_sz` bytes.
- **Packets from the stream.** Which packets a stream yields is fixed by ghost functions over values of the decoder
  (`DecSt`: coder, model cells, state, the four cached distances, bytes still to come, packets so far): `BitValue`,
  `TreeValue` and `ReverseValue` for the bits, `LitSpec`, `LenSpec` and `DistSpec` for the sub-decoders, `Step` for one
  pass of the loop, `Run` and `Decode` for the whole stream. Each decoder method is proved equal to its function, and
  `dec` returns ok exactly when `Decode` gives a packet sequence, the one it then expanded.

The `nat4_t` and `nat8_t` arithmetic of the source is written out where it wraps or is checked for wrapping:
- the `code -= range` and `code >> 31` sign trick of `dec_direct_bits`;
- the overflow tests of `divide`;
- the `static_cast<int>` of the opaque fd.

## Model

| member | source | states |
|---|---|---|
| `Prelude.MaxOf` | src/lib/prelude.hpp:33-38 | `max<T>()` of a size-byte type is 2^(8·size) − 1, or half of 2^(8·size) minus one when the type is signed |
| `Prelude.MaxOfStaticAsserts` | src/lib/prelude.cpp:11-12 | `max<signed char>()` is 0x7F and `max<unsigned short>()` is 0xFFFF |
| `Prelude.Clamp` | src/lib/prelude.cpp:14-18 | given lo ≤ hi, the result lies in [lo, hi]; it equals val when val is inside; otherwise it is the nearer bound |
| `Prelude.ClampIdempotent` | src/lib/prelude.cpp:14-18 | clamping twice is clamping once |
| `Prelude.CreateRange` | src/lib/prelude.cpp:39-44 | the range whose end iterator holds n; `RangeValues` proves what a loop over it visits |
| `Prelude.Begin` | src/lib/prelude.cpp:35 | the first iterator of any range holds 0 |
| `Prelude.End` | src/lib/prelude.cpp:36 | the end iterator is the one the range holds |
| `Prelude.Deref` | src/lib/prelude.cpp:32 | `*it` is the value the iterator holds |
| `Prelude.Incr` | src/lib/prelude.cpp:33 | `++it` adds one to the value, wrapping at 2^64 like `nat8_t` |
| `Prelude.Ne` | src/lib/prelude.cpp:37 | two iterators differ exactly when their values do |
| `Prelude.RangeValues` | src/lib/prelude.cpp:32-44 | a range-based for over `create_range(n)` visits exactly 0, 1, …, n − 1 in order |
| `Prelude.ToI32` | src/lib/prelude.cpp:49 | `static_cast<int>` of a `nat8_t` is congruent to it modulo 2^32 |
| `Prelude.IsTruthy` | src/lib/prelude.cpp:46 | a handle is truthy when its value is not 0; `CreateOpaqueFd` proves this is exactly fd ≠ −1 |
| `Prelude.CreateOpaqueFd` | src/lib/prelude.cpp:50-55 | the opaque handle is truthy exactly when the descriptor is not −1 |
| `Prelude.GetFd` | src/lib/prelude.cpp:49 | a non-truthy (zero) handle gives descriptor −1 |
| `Prelude.OpaqueFdRoundTrip` | src/lib/prelude.cpp:46-55 | `get_fd(create_opaque_fd(fd)) == fd` for every fd that does not overflow `fd + 1` |
| `Prelude.CopyMem` | src/lib/raw.cpp:32-40 | `copy_mem` replaces exactly the cells [at, at + \|src\|) of dst with src |
| `Prelude.IsMemEq` | src/lib/raw.cpp:42-46 | true iff the lengths are equal and every byte is equal |
| `Seqs.Inserted` | src/lib/prelude.hpp:152-171 | length grows by k; the prefix before `at` is kept, then k zeros, then the old suffix moved up by k |
| `Seqs.Removed` | src/lib/prelude.hpp:173-192 | length shrinks by k; the prefix before `at` is kept and the suffix moves down by k |
| `Seqs.RemovedInserted` | src/lib/prelude.hpp:152-192 | `shrink(grow(s, at, k), at, k)` restores s |
| `Seqs.MoveRange` | src/lib/prelude.hpp:165-170 | the element-moving loop: count elements of src land at dst_at, and dst is not changed elsewhere |
| `Seqs.Buffer.IsTruthy` | src/lib/prelude.hpp:133-137 | a `seq_t` is truthy iff it is not empty |
| `Seqs.Buffer.At` | src/lib/prelude.hpp:121-131 | `operator []` inside the sequence reads element i |
| `Seqs.Buffer.constructor` | src/lib/prelude.hpp:85-90 | `seq_t()` is empty, with a null `ptr` |
| `Seqs.Buffer.Grow` | src/lib/prelude.hpp:152-171 | the new contents are `Inserted(old, at, k, 0)`; with k = 0 the buffer is untouched, otherwise it is freshly allocated |
| `Seqs.Buffer.Shrink` | src/lib/prelude.hpp:173-192 | the new contents are `Removed(old, at, k)`; with k = 0 the buffer is untouched, otherwise a non-empty result is freshly allocated |
| `Seqs.CreateSeq` | src/lib/prelude.hpp:194-199 | `create_seq(len)` is len zero elements |
| `Seqs.CreateSeqFrom` | src/lib/prelude.hpp:201-209 | `create_seq(ptr, len)` is a copy of the first len elements |
| `Text.StrLen` | src/lib/text.cpp:12-15 | strlen is the index of the first NUL |
| `Text.GetLen` | src/lib/text.cpp:12-15 | a null `char*` has length 0; otherwise the length is the index of its first NUL |
| `Text.CBytes` | src/lib/text.cpp:221-224 | `create_str(const char*)` gives the GetLen bytes before the NUL, none of them 0 |
| `Text.Concat` | src/lib/text.cpp:34-40 | length \|l\| + \|r\|, with l followed by r |
| `Text.Plus` | src/lib/text.cpp:50 | `str + str` is the concatenation |
| `Text.PlusCStr` | src/lib/text.cpp:51 | `str + char*` appends the C string's bytes (none for null) |
| `Text.CStrPlus` | src/lib/text.cpp:52 | `char* + str` prepends the C string's bytes (none for null) |
| `Text.Eq` | src/lib/text.cpp:42 | `==` holds iff the two byte strings are equal |
| `Text.EqCStr` | src/lib/text.cpp:43 | equal to a C string iff the lengths agree and every byte agrees (null counts as length 0) |
| `Text.CStrEq` | src/lib/text.cpp:44 | the mirror image of `EqCStr` |
| `Text.Ne` | src/lib/text.cpp:46 | `!=` is the negation of `==` |
| `Text.NeCStr` | src/lib/text.cpp:47 | `!=` against a C string is inequality with its bytes |
| `Text.CStrNe` | src/lib/text.cpp:48 | the mirror image of `NeCStr` |
| `Text.Quote` | src/lib/text.cpp:54-57 | the UTF-8 bytes of U+201C, then the text, then U+201D |
| `Text.Clone` | src/lib/text.cpp:27-32 | a byte-identical copy |
| `Text.AsStrz` | src/lib/text.cpp:226-231 | length \|s\| + 1, prefix s, final byte 0 |
| `Text.DigitsShape` | src/lib/text.cpp:59-77 | the decimal digits of n are all digit characters, with no leading zero |
| `Text.DigitsValue` | src/lib/text.cpp:59-77 | the digits read back as decimal give n |
| `Text.DigitsOfU64` | src/lib/text.cpp:61 | a `nat8_t` has at most 20 digits, so the 48-byte buffer suffices |
| `Text.GroupCommas` | src/lib/text.cpp:66-72 | grouping d adds (\|d\| − 1) / 3 commas, exactly at the positions a multiple of 4 from the right end |
| `Text.UncommaGroup` | src/lib/text.cpp:66-72 | removing the commas from grouped digits gives the digits back |
| `Text.GroupedCommas` | src/lib/text.cpp:59-77 | for n > 0, a ',' before every group of three digits counted from the right, never first or last |
| `Text.GroupedUncomma` | src/lib/text.cpp:59-77 | for n > 0, removing the commas gives the plain decimal of n |
| `Text.GroupedZero` | src/lib/text.cpp:73-75 | `as_text(0)` is "0" |
| `Text.GroupedExample` | src/lib/text.cpp:59-77 | `as_text(1234567)` is "1,234,567" |
| `Text.CommaSlot` | src/lib/text.cpp:67-70 | the `i % 4 == 0` test of the loop fires exactly after each third digit written, and i stays in the buffer |
| `Text.CStringOfBuffer` | src/lib/text.cpp:76 | returning `&buf[i]` as a C string gives exactly the bytes written before the NUL |
| `Text.WrittenGroup` | src/lib/text.cpp:66-72 | grouping the digits of n in front of an already grouped tail r gives what the loop writes for n, followed by the grouping of r |
| `Text.WrittenHasNoNul` | src/lib/text.cpp:66-72 | the loop writes no NUL, so the C string ends at `buf[47]` |
| `Text.WrittenIsGrouped` | src/lib/text.cpp:59-77 | the loop's complete output is the grouped decimal |
| `Text.WriteGrouped` | src/lib/text.cpp:61-72 | the buffer-filling loop leaves `Written(n, 0)` in buf[i..47], with 21 ≤ i ≤ 47 and the NUL at buf[47] kept |
| `Text.AsText` | src/lib/text.cpp:59-77 | `as_text(nat8_t)` is "0" for 0 and otherwise the comma-grouped decimal |
| `Text.AsTextU32` | src/lib/text.cpp:166-169 | the `nat4_t` overload prints the widened value |
| `Text.AsTextU16` | src/lib/text.cpp:171-174 | the `nat2_t` overload prints the widened value |
| `Text.AsTextU8` | src/lib/text.cpp:176-179 | the `nat1_t` overload prints the widened value |
| `Time.Saturate` | src/lib/time.cpp:40-44 | a result above the `nat8_t` range becomes `max<nat8_t>()` |
| `Time.RoundHalfDownNearest` | src/lib/time.cpp:41 | adding `divisor/2 − 1` before dividing rounds to nearest, with an exact half rounding down |
| `Time.RoundHalfDownExact` | src/lib/time.cpp:41 | a multiple of the divisor is divided exactly |
| `Time.ProductOverflow` | src/lib/time.cpp:39-40 | the divide-back test on the wrapped product fails exactly when days·(day_mult/divisor) overflows |
| `Time.RoundingNoWrap` | src/lib/time.cpp:41 | for a valid interval the rounding addend does not wrap |
| `Time.Divide` | src/lib/time.cpp:35-45 | for a divisor from 2 on (every caller passes one): the day part plus the rounded sub-day part, saturated at 2^64 − 1 when the product or the sum overflows; for a divisor of 1, where `divisor / 2 - 1` wraps, the largest `nat8_t` when picos is 0 and otherwise the picosecond count minus one, saturated |
| `Time.DivideFacts` | src/lib/time.cpp:39-44 | each branch of `divide` computes the value `Divide` states |
| `Time.DivideDay` | src/lib/time.cpp:47-52 | the picoseconds modulo `modulor`, rounded to nearest in units of divisor |
| `Time.CreateInterOfMult` | src/lib/time.cpp:54-60 | a valid interval whose picoseconds are a multiple of mult, holding exactly val units |
| `Time.UnitRoundTrip` | src/lib/time.cpp:35-60 | for any multiplier from 2 up to a day, `divide(create_inter_of_mult(v, m), m) == v` |
| `Time.GetRelation` | src/lib/time.cpp:62-69 | 0, 1 or 2; 1 iff equal; for valid intervals 2/0 iff strictly longer/shorter in picoseconds |
| `Time.Eq` | src/lib/time.cpp:71 | equality of intervals |
| `Time.Ne` | src/lib/time.cpp:72 | inequality of intervals |
| `Time.Gt` | src/lib/time.cpp:73 | strictly longer |
| `Time.Lt` | src/lib/time.cpp:74 | strictly shorter |
| `Time.Ge` | src/lib/time.cpp:75 | at least as long |
| `Time.Le` | src/lib/time.cpp:76 | at most as long |
| `Time.Trichotomy` | src/lib/time.cpp:62-76 | exactly one of <, ==, > holds; `>=` and `<=` are the negations of `<` and `>`; `>` is `<` flipped |
| `Time.Add` | src/lib/time.cpp:78-91 | the sum of valid intervals is valid, and is the exact sum in picoseconds while the days do not overflow |
| `Time.Sub` | src/lib/time.cpp:93-109 | for a ≥ b the difference is valid and is the exact difference in picoseconds |
| `Time.PicosInjective` | src/lib/time.cpp:29-32 | two valid intervals of the same length are equal |
| `Time.SubSelf` | src/lib/time.cpp:93-109 | `a − a` is {0, 0} |
| `Time.SubAdd` | src/lib/time.cpp:78-109 | `(a − b) + b == a` |
| `Time.GetSecs` | src/lib/time.cpp:111 | whole seconds, rounded and saturated |
| `Time.GetMillisecs` | src/lib/time.cpp:112 | whole milliseconds, rounded and saturated |
| `Time.GetClunks` | src/lib/time.cpp:113 | whole 100 ns units, rounded and saturated |
| `Time.GetNanosecs` | src/lib/time.cpp:114 | whole nanoseconds, rounded and saturated |
| `Time.GetSecMillisecs` | src/lib/time.cpp:116 | the milliseconds within the current second, at most 1000 |
| `Time.GetSecNanosecs` | src/lib/time.cpp:117 | the nanoseconds within the current second, at most 10^9 |
| `Time.CreateInterOfSecs` | src/lib/time.cpp:119 | a valid interval of exactly secs seconds |
| `Time.CreateInterOfMillisecs` | src/lib/time.cpp:120 | a valid interval of exactly that many milliseconds |
| `Time.CreateInterOfClunks` | src/lib/time.cpp:121 | a valid interval of exactly that many 100 ns units |
| `Time.CreateInterOfNanosecs` | src/lib/time.cpp:122 | a valid interval of exactly that many nanoseconds |
| `Time.UnitRoundTrips` | src/lib/time.cpp:111-122 | `get_X(create_inter_of_X(v)) == v` for seconds, milliseconds, clunks and nanoseconds |
| `Time.DateEq` | src/lib/time.cpp:124 | dates are equal iff their intervals are |
| `Time.DateNe` | src/lib/time.cpp:125 | negation of `DateEq` |
| `Time.DateGt` | src/lib/time.cpp:126 | later date |
| `Time.DateLt` | src/lib/time.cpp:127 | earlier date |
| `Time.DateGe` | src/lib/time.cpp:128 | not earlier |
| `Time.DateLe` | src/lib/time.cpp:129 | not later |
| `Time.DateAdd` | src/lib/time.cpp:131-136 | the date moved on by the interval |
| `Time.DateSubInter` | src/lib/time.cpp:138-143 | the date moved back by the interval |
| `Time.DateSub` | src/lib/time.cpp:145-148 | the interval between two dates |
| `Time.CreateDateOfUnixTime` | src/lib/time.cpp:155-158 | the Unix epoch plus unix seconds |
| `Time.AsUnixTime` | src/lib/time.cpp:160-166 | 0 before the epoch; 0 when the seconds since the epoch exceed `max<time_t>()`; otherwise exactly those whole seconds |
| `Time.UnixTimeRoundTrip` | src/lib/time.cpp:150-166 | `as_unix_time(create_date_of_unix_time(s)) == s` for s ≤ `max<time_t>()` |
| `Paths.Pieces` | src/lib/file.cpp:41-70 | cutting a text at its active separators gives at least one piece |
| `Paths.NonEmptyShape` | src/lib/file.cpp:46 | dropping the empty pieces keeps only non-empty pieces, each taken from the input, and never more of them |
| `Paths.PiecesNoSep` | src/lib/file.cpp:45 | no piece holds an active separator |
| `Paths.PiecesFirst` | src/lib/file.cpp:46 | the first piece is empty only when the text starts with a separator |
| `Paths.PiecesLast` | src/lib/file.cpp:65-68 | the last piece is a suffix of the text |
| `Paths.PiecesSplit` | src/lib/file.cpp:45 | cutting at one separator splits the pieces there |
| `Paths.FinalStep` | src/lib/file.cpp:41-52 | reading one more byte never lowers the component count, and what is written so far never exceeds it |
| `Paths.FinalIsComponents` | src/lib/file.cpp:41-70 | the pieces of the text with its own `parse_back`, less the dropped empty ones, are exactly `create_path`'s component list |
| `Paths.FinalGrows` | src/lib/file.cpp:41-52 | the count of components never drops as more of the text is read |
| `Paths.ParseSep` | src/lib/file.cpp:57-63 | a separator ends the current piece; it is written unless it is empty and something was already written, and a new empty piece begins |
| `Paths.ParseOther` | src/lib/file.cpp:56-64 | any other byte extends the current piece |
| `Paths.ParseBound` | src/lib/file.cpp:54-64 | neither pass writes more components than the parse has, so `cos[seg_i]` is in bounds |
| `Paths.ParseEnd` | src/lib/file.cpp:65-68 | after the last byte, the trailing piece (if any) completes the components |
| `Paths.ScanParseBack` | src/lib/file.cpp:34-39 | `parse_back` is true iff the text contains no '/' |
| `Paths.CountComponents` | src/lib/file.cpp:41-52 | the counting pass computes exactly the number of components |
| `Paths.FillComponents` | src/lib/file.cpp:54-70 | the filling pass writes exactly the components, filling the preallocated sequence (so `seg_i == cos.len`) |
| `Paths.IsTruthy` | src/lib/file.cpp:25-28 | a path is truthy when it has a component; `CreatedPathTruthy` is its partner |
| `Paths.CreatePath` | src/lib/file.cpp:30-72 | `create_path(text)` is the component list of text |
| `Paths.ComponentsOfEmptyAndRoot` | src/lib/file.cpp:469-477 | "" gives no components and "/" gives one empty component |
| `Paths.ComponentsShape` | src/lib/file.cpp:41-70 | only the first component can be empty, and only when the text starts with a separator |
| `Paths.CreatedPathTruthy` | src/lib/file.cpp:25-72 | a path made by `create_path` is truthy exactly when its text is not empty |
| `Paths.ComponentsNoSep` | src/lib/file.cpp:45 | no component contains an active separator |
| `Paths.SameSlashes` | src/lib/file.cpp:34-39 | doubling a byte does not change whether '\\' separates |
| `Paths.PiecesRepeated` | src/lib/file.cpp:45-48 | a doubled separator cuts an extra empty piece between the pieces a single one gives |
| `Paths.EmptyPieceDropped` | src/lib/file.cpp:46 | an empty piece after the first is dropped, so it does not change the components |
| `Paths.RepeatedSeparator` | src/lib/file.cpp:41-70 | a doubled separator gives the same components as a single one |
| `Paths.TrailingSeparator` | src/lib/file.cpp:65 | a trailing separator adds no component |
| `Paths.JoinLength` | src/lib/file.cpp:108-115 | the joined text has length Σ\|cᵢ\| + (n − 1)·\|delim\|, as the length pass computes |
| `Paths.JoinStep` | src/lib/file.cpp:117-127 | each round of the fill loop appends the delimiter (after the first) and the component |
| `Paths.AsText` | src/lib/file.cpp:104-130 | `as_text(path, delim)` is delim for a single empty component, otherwise the delim-joined components |
| `Paths.JoinPieces` | src/lib/file.cpp:104-130 | the pieces cut at '/' joined with "/" give back the text |
| `Paths.PiecesNonEmpty` | src/lib/file.cpp:46 | with no doubled '/', every inner piece is non-empty and the last is empty exactly after a final '/' |
| `Paths.RoundTrip` | src/lib/file.cpp:478-510 | a text with a '/', no doubled '/' and no trailing '/' survives `create_path` then `as_text(p, "/")` |
| `Paths.ClonePath` | src/lib/file.cpp:74-82 | `clone(path)` equals path |
| `Paths.Append` | src/lib/file.cpp:84-92 | `path + s` appends s as a last component iff s is not empty, and otherwise equals path |
| `Paths.GetDir` | src/lib/file.cpp:207-217 | all components but the last, or none for at most one component |
| `Paths.DotEnd` | src/lib/file.cpp:224-229 | the index one past the last '.', or 0 when there is none |
| `Paths.Ext` | src/lib/file.cpp:219-231 | the extension holds no '.' |
| `Paths.GetExt` | src/lib/file.cpp:219-231 | the reverse scan returns the bytes after the leaf's last '.', "" without a dot or without a leaf |
| `Paths.SetExt` | src/lib/file.cpp:233-256 | the reverse scan and rebuild give the path `WithExt` describes |
| `Paths.DotEndAfterDot` | src/lib/file.cpp:238-241 | after appending '.' and a dot-free extension, the last '.' is the new one |
| `Paths.SetExtThenGetExt` | src/lib/file.cpp:233-256 | after `set_ext` with a non-empty dot-free ext, `get_ext` is ext, the component count is the same and the components before the leaf are unchanged |
| `Paths.SetExtIdempotent` | src/lib/file.cpp:233-256 | setting the same non-empty extension twice is setting it once |
| `Paths.SetExtEmpty` | src/lib/file.cpp:243-249 | an empty ext strips ".ext" from the leaf, drops the leaf when its last '.' is its first byte, and changes nothing without a dot |
| `Bags.FirstNull` | src/lib/bag.hpp:25-30 | the index of the first null cell, or the length when none is null |
| `Bags.InsertShape` | src/lib/bag.hpp:23-34 | insert fills the lowest null cell when there is one; otherwise the cells grow to max(2·len, 1), keeping the old cells, storing at the old length and leaving the rest null |
| `Bags.InsertAddsElement` | src/lib/bag.hpp:23-34 | as multisets, inserting a non-null element adds exactly that element |
| `Bags.RemoveTakesElement` | src/lib/bag.hpp:36-43 | nulling a cell removes exactly its element from the multiset |
| `Bags.OccupiedShape` | src/lib/bag.hpp:70-79 | the occupied indices from `at` on are exactly the non-null cells, in increasing order |
| `Bags.OccupiedSkip` | src/lib/bag.hpp:70-79 | skipping null cells skips nothing that iteration would visit |
| `Bags.NoNullIsEmpty` | src/lib/bag.hpp:12-20 | some cell is non-null iff the multiset is not empty |
| `Bags.NullsAreEmpty` | src/lib/bag.hpp:31-33 | cells that are all null hold the empty multiset |
| `Bags.FirstNullIs` | src/lib/bag.hpp:25-30 | the scan's stopping index is `FirstNull` |
| `Bags.Bag.constructor` | src/lib/bag.hpp:10 | `bag_t{}` has no cells |
| `Bags.Bag.IsTruthy` | src/lib/bag.hpp:12-20 | a bag is truthy iff some cell is non-null, that is iff its multiset is not empty |
| `Bags.Bag.Insert` | src/lib/bag.hpp:23-34 | the new cells are `InsertInto(old cells, null, el)` |
| `Bags.Bag.Remove` | src/lib/bag.hpp:36-43 | exactly cell i becomes null; the cells never shrink |
| `Bags.BagIter.constructor` | src/lib/bag.hpp:81-88 | an iterator over the cells at index `at` |
| `Bags.BagIter.SkipUnoccupied` | src/lib/bag.hpp:70-79 | `at` moves to the next non-null cell or to `end`, passing only null cells |
| `Bags.BagIter.Deref` | src/lib/bag.hpp:50-56 | `operator *` is the current cell |
| `Bags.BagIter.Incr` | src/lib/bag.hpp:58-67 | `operator ++` steps at least one past a cell before `end`, then skips null cells |
| `Bags.Begin` | src/lib/bag.hpp:97-100 | `begin(bag)` stands on the first non-null cell, skipping no occupied cell |
| `Bags.End` | src/lib/bag.hpp:102-105 | `end(bag)` stands at the end of the cells |
| `Bags.Ne` | src/lib/bag.hpp:117-122 | iterators over the same cells differ iff their positions do |
| `Bags.NullAtCells` | src/lib/bag.hpp:36-43 | after removing at a list of cells, exactly those cells are null |
| `Bags.VisitAdvance` | src/lib/bag.hpp:58-79 | one `++` from an occupied cell reaches the next occupied cell of the original cells, even after the current one was removed |
| `Bags.VisitRemoving` | src/lib/bag.cpp:13-20 | a for loop over the bag that removes the first `limit` elements it meets visits exactly the non-null cells in index order, and nulls exactly the first `limit` of them |
| `Platform.Plat.IsTruthy` | src/lib/platform.cpp:20-23 | a plat is truthy when its kernel is known; `GetPlat` states it for every plat it builds |
| `Platform.GetPlat` | src/lib/platform.cpp:25-38 | the version fields are stored verbatim; the result is truthy iff the build's kernel is known |
| `Platform.Component` | src/lib/platform.cpp:46 | each decoded number is clamped into [0, 65535] |
| `Platform.ParseVer` | src/lib/platform.cpp:40-56 | at most k components are read, and at least one when k > 0 |
| `Platform.Padded` | src/lib/platform.cpp:42 | components never reached stay 0 |
| `Platform.GetPlatOfText` | src/lib/platform.cpp:40-56 | the parsing loop computes `PlatOfText` |
| `Platform.ReadComponent` | src/lib/platform.cpp:45-53 | one round of the loop: when parsing stops, n holds the components read so far padded with zeros; otherwise the loop invariant holds for the next component, and after the third n holds all three |
| `Platform.ParseStep` | src/lib/platform.cpp:44-54 | one round of `ParseVer`: the clamped component, then the rest after the '.' if parsing goes on |
| `Platform.SetComponent` | src/lib/platform.cpp:46 | `n[i] = c` extends the prefix read so far, leaving the rest zero |
| `Platform.ParsedFirst` | src/lib/platform.cpp:46 | the major version is always the first clamped number, and the kernel is the build's |
| `Platform.ParsedStops` | src/lib/platform.cpp:47-52 | after a first component that made no progress, ended the text or was not followed by '.', minor and rev are 0 (and likewise rev after the second) |
| `Platform.KernelText` | src/lib/platform.cpp:90-98 | the names "Unknown", "Linux" and "Windows" are non-empty and hold no space or '.' |
| `Platform.KernelTextInjective` | src/lib/platform.cpp:90-98 | distinct kernels have distinct names |
| `Platform.GroupedHasNoSeparator` | src/lib/platform.cpp:104 | a number's text holds no space and no '.' |
| `Platform.PlatTextParts` | src/lib/platform.cpp:100-113 | the text starts with the kernel name; it has a space iff some version field is non-zero; it has two dots if rev ≠ 0, one if only minor ≠ 0, else none |
| `Platform.VersionParts` | src/lib/platform.cpp:103-111 | the version suffix has a space iff some field is non-zero, and two dots if rev ≠ 0, one if only minor ≠ 0, none otherwise |
| `Platform.MinorParts` | src/lib/platform.cpp:105-110 | the minor suffix has no space, and two dots if rev ≠ 0, one if only minor ≠ 0, none otherwise |
| `Platform.PlatTextNoVersion` | src/lib/platform.cpp:102-103 | an all-zero version prints as the bare kernel name |
| `Platform.PlatTextExamples` | src/lib/platform.cpp:100-113 | Linux 5.0.0 prints "Linux 5" and Windows 6.1.0 prints "Windows 6.1" |
| `LzmaProps.LittleEndian` | src/lib/lzma.cpp:270-273 | the value of k bytes, least significant first, is below 2^(8k) |
| `LzmaProps.LittleEndianSnoc` | src/lib/lzma.cpp:271-272 | or-ing in byte i shifted by 8i adds it at the next byte position |
| `LzmaProps.LitProbs` | src/lib/lzma.cpp:277-278 | `0x300 << (lc + lp)` cells, between 0x300 and 0x300·2^12 |
| `LzmaProps.PropsByteRoundTrip` | src/lib/lzma.cpp:265-268 | the byte (pb·5 + lp)·9 + lc decodes back to lc, lp, pb |
| `LzmaProps.PropsOfValid` | src/lib/lzma.cpp:255-280 | an accepted header gives lc < 9, lp < 5, pb < 5, the byte back from them, dict_sz = max(LE32(bytes 1..4), 4096), and buf_sz = dict_sz + 2·(0x300 << (lc + lp)) |
| `LzmaProps.PropsOfInvalid` | src/lib/lzma.cpp:257-263 | buf_sz is 0 iff the header is shorter than 5 bytes or its first byte is ≥ 225 |
| `LzmaProps.DecLzmaProps` | src/lib/lzma.cpp:255-280 | `dec_lzma_props`, including the or-loop over the four dictionary bytes, computes `PropsOf` |
| `LzmaProps.LzmaDecBufLen` | src/lib/lzma.cpp:490-493 | the scratch length is the header's buf_sz: 0 iff the header is rejected, otherwise at least 4096 + 2·0x300 |
| `LzmaRange.ReadByte` | src/lib/lzma.cpp:85-94 | `read` changes only src_i, which stays at most one past the end |
| `LzmaRange.ShiftIn` | src/lib/lzma.cpp:123 | `(code << 8) \| b` in 32 bits keeps the low three bytes of code and puts b at the bottom |
| `LzmaRange.NormalizeKeeps` | src/lib/lzma.cpp:118-125 | from range ≥ 2^16 and code < range (unless corrupt), `normalize` re-establishes the coder invariant (range ≥ 2^24, code < range unless corrupt) and leaves the corrupt flag as it was |
| `LzmaRange.Bound` | src/lib/lzma.cpp:152 | `(range >> 11)·v` lies within range, and for a normalised range both parts are ≥ 2^16 |
| `LzmaRange.MulBounds` | src/lib/lzma.cpp:152 | for a probability v in [31, 2017], `(range >> 11)·v` is at most range and leaves at least `(range >> 11)·31` above it |
| `LzmaRange.DecBitKeeps` | src/lib/lzma.cpp:146-167 | `dec_bit` keeps the coder invariant and the probability in [31, 2017]; the bit is 0 iff code < bound; a 0 moves the probability up and a 1 moves it down |
| `LzmaRange.ProbInitOk` | src/lib/lzma.cpp:8-13 | the initial 1024 lies in [31, 2017] |
| `LzmaRange.ProbEnds` | src/lib/lzma.cpp:155-159 | the adaptation maps 2017 and 31 to themselves, so [31, 2017] is closed under it and never reaches 0 or 2048 |
| `LzmaRange.DirectStepKeeps` | src/lib/lzma.cpp:131-141 | a round of `dec_direct_bits`, with its wrapping subtraction and sign mask, keeps the coder invariant and yields one bit |
| `LzmaRange.MaskStep` | src/lib/lzma.cpp:133-135 | the mask `0 − (code >> 31)` is 0 or all ones, and the round subtracts range exactly when it fits |
| `LzmaRange.DirectBitsNext` | src/lib/lzma.cpp:127-144 | one more direct bit is one more step, with its bit shifted in at the bottom |
| `LzmaRange.ShiftBit` | src/lib/lzma.cpp:140-141 | `res <<= 1; res += bit` on a result below p gives 2·res + bit, below 2p |
| `LzmaRange.DirectBitsKeeps` | src/lib/lzma.cpp:127-144 | n rounds keep the coder invariant, and the result is below 2^n |
| `LzmaRange.ReadCodeValue` | src/lib/lzma.cpp:103-106 | four `(code << 8) \| read()` steps give the next four bytes big-endian (zeros past the end) |
| `LzmaRange.BigEndianBound` | src/lib/lzma.cpp:103-106 | fewer than four bytes read into code stay below 2^(8k), so the next `code << 8` does not wrap |
| `LzmaRange.InitKeeps` | src/lib/lzma.cpp:96-111 | `init` succeeds iff the first byte is 0, sets range to 0xFFFFFFFF and code to the next four bytes, is corrupt iff that fails or code == range, and establishes the coder invariant |
| `LzmaRange.BigEndianPast` | src/lib/lzma.cpp:87-89 | past the end of the input, every read returns 0 |
| `LzmaRange.RangeDecoder.constructor` | src/lib/lzma.cpp:505-507 | the coder reads src from index src_i (5 in `lzma_dec`) |
| `LzmaRange.RangeDecoder.Read` | src/lib/lzma.cpp:85-94 | the new coder and the byte are `ReadByte` of the old coder: only src_i changes, and it stays at most one past the end |
| `LzmaRange.RangeDecoder.Init` | src/lib/lzma.cpp:96-111 | the new coder and the result are `InitSpec`, so `InitKeeps` applies |
| `LzmaRange.RangeDecoder.IsFinishedOk` | src/lib/lzma.cpp:113-116 | the coder ended cleanly exactly when code is 0; `Dec` ensures it on success |
| `LzmaRange.RangeDecoder.Normalize` | src/lib/lzma.cpp:118-125 | the new coder is `Normalized` of the old |
| `LzmaRange.RangeDecoder.DecDirectBits` | src/lib/lzma.cpp:127-144 | the loop computes `DirectBits`: the coder stays valid and the result is below 2^n |
| `LzmaRange.RangeDecoder.DirectRound` | src/lib/lzma.cpp:132-141 | one round of the loop computes `DirectStep` |
| `LzmaRange.RangeDecoder.DecBit` | src/lib/lzma.cpp:146-167 | the new coder, bit and probability are `DecBitSpec`; only cell i changes, stays in [31, 2017], and the bit is 0 or 1 |
| `LzmaRange.InitProbs` | src/lib/lzma.cpp:8-14 | every cell becomes 1024 |
| `LzmaRange.MsbValue` | src/lib/lzma.cpp:193-202 | the number the bits of a walk spell read most significant first, below 2^n |
| `LzmaRange.LsbValue` | src/lib/lzma.cpp:169-180 | the number the bits spell read least significant first, below 2^n |
| `LzmaRange.Append` | src/lib/lzma.cpp:176-177 | a new bit doubles the most-significant-first value and adds bit·2^n to the least-significant-first one |
| `LzmaRange.ReverseStep` | src/lib/lzma.cpp:177 | `sym \|= bit << i` on sym = LsbValue(bits) is LsbValue(bits + [bit]), still inside 32 bits |
| `LzmaRange.ReversedBits` | src/lib/lzma.cpp:169-180 | the same bits in the opposite order: same length, position k taken from position n − 1 − k |
| `LzmaRange.MsbCons` | src/lib/lzma.cpp:193-202 | a leading bit b in front of n more is worth b·2^n |
| `LzmaRange.LsbIsReversedMsb` | src/lib/lzma.cpp:169-180 | the reverse tree's symbol is the forward reading of its bits reversed |
| `LzmaRange.CellsOfProbs` | src/lib/lzma.cpp:146-167 | every cell of an array is in [31, 2017] iff every element of its contents is |
| `LzmaRange.BitAt` | src/lib/lzma.cpp:146-167 | `dec_bit` with cell i of the cells p gives a bit 0 or 1 (it is `DecBitSpec` for a cell in [31, 2017]) |
| `LzmaRange.TreeFrom` | src/lib/lzma.cpp:193-202 | a walk of n levels down a bit tree keeps the number of cells |
| `LzmaRange.TreeShape` | src/lib/lzma.cpp:193-202 | a walk from the root that stays inside the cells decodes n bits and reaches node 2^n plus their most-significant-first value |
| `LzmaRange.TreeBits` | src/lib/lzma.cpp:193-202 | no walk decodes more bits than it has levels |
| `LzmaRange.TreeKeeps` | src/lib/lzma.cpp:146-167 | a walk keeps the coder invariant and every cell in [31, 2017] |
| `LzmaRange.TreeValueKeeps` | src/lib/lzma.cpp:169-202 | the coder invariant survives a whole forward or reverse tree decode |
| `LzmaRange.Plus` | src/lib/lzma.cpp:241-243 | adding k to a decoded value (the `8 +` and `16 +` of the length decoder) keeps its coder and cells |
| `LzmaRange.BitValue` | src/lib/lzma.cpp:146-167 | `dec_bit` on cell i of the cells: a bit 0 or 1, and the cells as many as before |
| `LzmaRange.TreeValue` | src/lib/lzma.cpp:193-202 | `dec<n>`: the walk's bits most significant first, below 2^n, with as many cells as before |
| `LzmaRange.ReverseValue` | src/lib/lzma.cpp:169-180 | `bit_tree_reverse_dec`: the same walk's bits least significant first, below 2^n |
| `LzmaRange.TreeStep` | src/lib/lzma.cpp:197-199 | one more level after i bits appends the bit of node m's cell and moves to child 2m + bit in [2^(i+1), 2^(i+2)) |
| `LzmaRange.TreeLeaf` | src/lib/lzma.cpp:201 | the leaf of a walk of n levels lies in [2^n, 2^(n+1)), so `m − (1 << n)` is below 2^n |
| `LzmaRange.TreeNode` | src/lib/lzma.cpp:197-199 | one round of the tree loop: rc and the cells advance one level of `TreeFrom`, only node m's cell changes |
| `LzmaRange.BitTreeDec` | src/lib/lzma.cpp:193-202 | `dec<n>` leaves the coder and the cells where the walk `TreeOf` leaves them and returns MsbValue of its n bits; only cells base+1 … base+2^n−1 change |
| `LzmaRange.BitTreeReverseDec` | src/lib/lzma.cpp:169-180 | `bit_tree_reverse_dec` leaves the coder and the cells where the same walk leaves them and returns LsbValue of its n bits; only cells base+1 … base+2^n−1 change |
| `LzmaWindow.SlotStep` | src/lib/lzma.cpp:34-38 | moving buf_i on one (wrapping at buf_len) moves every byte one distance further back |
| `LzmaWindow.ModSucc` | src/lib/lzma.cpp:36-37 | moving buf_i on by one and wrapping at buf_len is adding one modulo buf_len |
| `LzmaWindow.HoldsStep` | src/lib/lzma.cpp:34-38 | writing at buf_i and moving on keeps the circular buffer holding the last buf_len bytes of the stream |
| `LzmaWindow.MirrorsStep` | src/lib/lzma.cpp:40-45 | a put writes dst at the stream position while dst has room, and leaves dst alone once it is full, so dst keeps holding a prefix of the bytes put |
| `LzmaWindow.Copied` | src/lib/lzma.cpp:54-60 | what `cp_match` appends has length len |
| `LzmaWindow.CopiedBytes` | src/lib/lzma.cpp:54-60 | each copied byte is the one dist before it, so overlapping copies repeat the copied bytes |
| `LzmaWindow.CopiedOne` | src/lib/lzma.cpp:434 | a copy of one byte from dist back is that byte |
| `LzmaWindow.CopiedSlice` | src/lib/lzma.cpp:54-60 | a copy no longer than its distance is a slice of the stream |
| `LzmaWindow.CopiedConcat` | src/lib/lzma.cpp:56-59 | copying n bytes and then m more is copying n + m |
| `LzmaWindow.OutWindow.constructor` | src/lib/lzma.cpp:508-511 | the window over the first buf_len cells of buf, with nothing put yet |
| `LzmaWindow.OutWindow.Put` | src/lib/lzma.cpp:31-46 | `put` appends b to the history, keeps the circular buffer and dst in step with it, and leaves the cells of dst beyond the history untouched |
| `LzmaWindow.OutWindow.PutBuf` | src/lib/lzma.cpp:33-38 | the buffer half of `put`: the history grows by b and the circular buffer still holds its last buf_len bytes |
| `LzmaWindow.OutWindow.PutDst` | src/lib/lzma.cpp:40-45 | the destination half of `put`: dst still mirrors the history with b appended, and no cell beyond it is written |
| `LzmaWindow.OutWindow.Byte` | src/lib/lzma.cpp:48-52 | for 1 ≤ dist ≤ buf_len, the read is in bounds and gives the byte dist back in the stream |
| `LzmaWindow.OutWindow.CpMatch` | src/lib/lzma.cpp:54-60 | the history grows by `Copied(stream, dist, len)`, byte by byte, overlaps included |
| `LzmaWindow.OutWindow.CopyOne` | src/lib/lzma.cpp:57-58 | one round of `cp_match` appends the next copied byte |
| `LzmaWindow.OutWindow.PutBack` | src/lib/lzma.cpp:434 | `put(byte(dist))` appends a copy of one byte from dist back |
| `LzmaWindow.OutWindow.CheckDist` | src/lib/lzma.cpp:62-65 | true iff dist is at most the bytes put, or the window has wrapped |
| `LzmaWindow.OutWindow.IsEmpty` | src/lib/lzma.cpp:67-70 | true iff nothing has been put |
| `LzmaWindow.CheckDistAdmitsOneBeyond` | src/lib/lzma.cpp:472-481 | check_dist, applied to rep0 before the copy reads rep0 + 1, admits one distance past the bytes written; that byte comes from the window's initial contents |
| `LzmaDec.AfterLiteral` | src/lib/lzma.cpp:411-417 | after a literal the state is below 7 and never above the old state; it is 0 exactly from the states below 4 |
| `LzmaDec.AfterMatch` | src/lib/lzma.cpp:461 | a match gives a state from 7 to 11, and 7 exactly after a literal state |
| `LzmaDec.AfterRep` | src/lib/lzma.cpp:455 | a rep match gives a state from 7 to 11, and 8 exactly after a literal state |
| `LzmaDec.AfterShortRep` | src/lib/lzma.cpp:433 | a short rep gives a state from 7 to 11, and 9 exactly after a literal state |
| `LzmaDec.MoveToFront` | src/lib/lzma.cpp:439-453 | rep[k] moves to the front, the entries before it move back one and the ones after it stay: element by element for each k |
| `LzmaDec.MoveToFrontPermutes` | src/lib/lzma.cpp:439-453 | the reordered cache has the same four distances: a permutation |
| `LzmaDec.PushDist` | src/lib/lzma.cpp:457-462 | a new match shifts rep[0..2] into rep[1..3] and puts the new distance in front |
| `LzmaDec.ShiftIsPush` | src/lib/lzma.cpp:457-462 | the three register moves then `rep[0] = dist` are `PushDist` |
| `LzmaDec.TopBits` | src/lib/lzma.cpp:347 | `prev_byte >> (8 − lc)` is below 2^lc |
| `LzmaDec.MatchBitIs` | src/lib/lzma.cpp:353-354 | the bit read from the shifted match byte is its next top bit |
| `LzmaDec.MatchedStep` | src/lib/lzma.cpp:355-359 | a decoded bit that differs from the match bit ends the first loop; an agreeing one extends sym by the match byte's bit |
| `LzmaDec.MatchedAll` | src/lib/lzma.cpp:352 | eight agreeing bits end the first loop with the whole match byte |
| `LzmaDec.MatchedEnd` | src/lib/lzma.cpp:352-360 | the first loop reaches sym ≥ 0x100 without a differing bit only after all eight bits agreed |
| `LzmaDec.LowByte` | src/lib/lzma.cpp:365 | `sym & 0xFF` of the final symbol is sym − 0x100 |
| `LzmaDec.ShiftInBit` | src/lib/lzma.cpp:363 | shifting in a bit keeps the bits already decoded on top |
| `LzmaDec.PlainFrom` | src/lib/lzma.cpp:362-364 | the second loop from sym, specified bit by bit: it ends in [0x100, 0x200) |
| `LzmaDec.MatchedFrom` | src/lib/lzma.cpp:350-361 | the first loop from sym with the shifted match byte, bit by bit: bit 7 picks the upper or lower 0x100 cells, and it stops on a differing bit |
| `LzmaDec.LitSpec` | src/lib/lzma.cpp:345-364 | `dec_lit`'s symbol, 0x100 above the byte: the match loop first from state 7 on, then the plain loop; it lies in [0x100, 0x200) |
| `LzmaDec.PlainWalk` | src/lib/lzma.cpp:362-364 | the plain loop from 1 is where i levels of the 8-bit tree walk leave it |
| `LzmaDec.PlainLevel` | src/lib/lzma.cpp:363 | one level of that walk is one round of the plain loop |
| `LzmaDec.TreeLevel` | src/lib/lzma.cpp:197-199 | level i of a walk down the 8-bit tree decodes with the cell of the node reached and moves to 2m + bit |
| `LzmaDec.LevelBounds` | src/lib/lzma.cpp:362-364 | the nodes at levels i − 1 and i of the 8-bit tree lie in [1, 0x100) and [1, 0x200) |
| `LzmaDec.PlainStep` | src/lib/lzma.cpp:363 | one round of the plain loop moves `PlainFrom` on one bit |
| `LzmaDec.MatchedRound` | src/lib/lzma.cpp:353-359 | one round of the match loop: a differing bit ends it with the new sym, an agreeing one continues from it |
| `LzmaDec.PlainIsTree` | src/lib/lzma.cpp:362-364 | the plain loop from 1 is the 8-bit tree decoder `dec<8>` with 0x100 added |
| `LzmaDec.LitContext` | src/lib/lzma.cpp:346-347 | `lit_state` is below 2^(lc+lp), with the low lp bits of total_i above the top lc bits of the previous byte |
| `LzmaDec.LitCellsFit` | src/lib/lzma.cpp:348 | the 0x300 cells of a literal state lie inside the `0x300 << (lc + lp)` literal probabilities |
| `LzmaDec.LitBase` | src/lib/lzma.cpp:346-348 | `&lit_probs[0x300·lit_state]`: a multiple of 0x300 whose 0x300 cells fit, for the literal state `LitContext` describes |
| `LzmaDec.Unpack` | src/lib/lzma.cpp:400-487 | unpacking packets only appends to what was there |
| `LzmaDec.UnpackLiteral` | src/lib/lzma.cpp:365 | a literal packet appends its byte |
| `LzmaDec.UnpackCopy` | src/lib/lzma.cpp:481 | a copy packet appends what `cp_match` copies |
| `LzmaDec.UnpackAppend` | src/lib/lzma.cpp:400-483 | unpacking streams: the packets after ps continue from where ps ends |
| `LzmaDec.CopyIsBackReference` | src/lib/lzma.cpp:481 | a copy of len from dist back adds len bytes, each equal to the byte dist before it |
| `LzmaDec.CopiesInSnoc` | src/lib/lzma.cpp:472 | a packet whose copy stays inside the dictionary keeps every copy inside |
| `LzmaDec.BetweenRegs` | src/lib/lzma.cpp:400-487 | the loop invariant keeps the state below 12 and every cached distance inside the dictionary, and bytes put plus bytes left to unpack is dst_len |
| `LzmaDec.BetweenLiteral` | src/lib/lzma.cpp:405-419 | a literal keeps the loop's invariant, with one more Literal packet and one less to unpack |
| `LzmaDec.BetweenCopy` | src/lib/lzma.cpp:476-482 | a copy from rep0 + 1 back keeps the loop's invariant, with one more Copy packet |
| `LzmaDec.BetweenMoveToFront` | src/lib/lzma.cpp:439-453 | moving a cached distance to the front keeps the loop invariant |
| `LzmaDec.RegsMoveToFront` | src/lib/lzma.cpp:439-453 | reordering the cache keeps every distance inside the dictionary and admissible |
| `LzmaDec.RegsPush` | src/lib/lzma.cpp:457-474 | a new distance that is below dict_sz and passed `check_dist` keeps the cache admissible |
| `LzmaDec.DistBase` | src/lib/lzma.cpp:378-379 | `(2 \| (slot & 1)) << (slot/2 − 1)`, with room below 2^32 for the lower bits |
| `LzmaDec.LenState` | src/lib/lzma.cpp:370-372 | `len_state` is len capped at 3 |
| `LzmaDec.LenRanges` | src/lib/lzma.cpp:235-244 | the length decoder's value is below 272, below 8 exactly when the first choice bit is 0, and 16 or more exactly when both choice bits are 1 |
| `LzmaDec.DistRanges` | src/lib/lzma.cpp:368-389 | `dec_dist` over the cells: the 6-bit slot is below 64; below 4 it is the distance; from 4 on the distance is in [DistBase(s), DistBase(s) + 2^(s/2 − 1)) |
| `LzmaDec.SlotRange` | src/lib/lzma.cpp:378-387 | the same range for any slot from 4 on, whatever coder the slot tree left |
| `LzmaDec.RestOfPosDecs` | src/lib/lzma.cpp:380-382 | below slot 14 the low bits are the reverse tree of n_direct_bits bits at `pos_decs[dist − pos_slot]` |
| `LzmaDec.RestOfDirect` | src/lib/lzma.cpp:384-386 | from slot 14 on the low bits are the direct bits shifted by 4 plus the 4-bit reverse align tree |
| `LzmaDec.RestRange` | src/lib/lzma.cpp:380-387 | the low bits of slot s fill at most s/2 − 1 bits |
| `LzmaDec.SlotTop` | src/lib/lzma.cpp:378-379 | for slots 4..63 the distance has slot/2 − 1 low bits and fits in 32 bits |
| `LzmaDec.DistBaseFits` | src/lib/lzma.cpp:380-382 | for slots 4..13 the reverse tree at `&pos_decs[dist − pos_slot]` lies inside the 115 pos_decs cells |
| `LzmaDec.DirectFits` | src/lib/lzma.cpp:384-386 | direct bits shifted by 4 plus the align bits fill exactly the low bits |
| `LzmaDec.Zeros` | src/lib/lzma.cpp:520-522 | `create_str(n)` is n zero bytes |
| `LzmaDec.CopyStep` | src/lib/lzma.cpp:476-482 | the copy tail: a failure when fewer than n bytes are still to come; otherwise n less to come, the new state, the cache kept |
| `LzmaDec.CopyStepIs` | src/lib/lzma.cpp:481-482 | with n bytes to come the copy goes on: `cp_match`'s bytes put and one Copy packet added, nothing else changed |
| `LzmaDec.LitStep` | src/lib/lzma.cpp:405-419 | one literal keeps the decoder's values consistent and leaves less to unpack |
| `LzmaDec.LitPut` | src/lib/lzma.cpp:409-418 | the literal put: a state below 7, the cache kept, one byte less to come |
| `LzmaDec.LitStepIs` | src/lib/lzma.cpp:405-419 | a literal with `LitSpec`'s symbol is `LitStep`: the byte put, the literal cells updated, `AfterLiteral`, one Literal packet |
| `LzmaDec.LitContextOf` | src/lib/lzma.cpp:340-351 | what `dec_lit` reads from the window is the stream's: total_i is the count of bytes put modulo 2^32, the previous byte (0 before any), the literal cells and the byte rep0 + 1 back |
| `LzmaDec.PickSpec` | src/lib/lzma.cpp:439-450 | the g1 and g2 bits pick k = 1, 2 or 3 |
| `LzmaDec.RepMatch` | src/lib/lzma.cpp:439-455 | a rep match moves rep[k] to the front and copies len + 2 bytes; it keeps the values consistent and leaves less to unpack |
| `LzmaDec.RepStep` | src/lib/lzma.cpp:431-455 | a rep packet never is the end marker, and on success keeps the values consistent and leaves less to unpack |
| `LzmaDec.RepZero` | src/lib/lzma.cpp:431-437 | after is_rep_g0 = 0: a short rep or a rep match of rep[0], with the same guarantees |
| `LzmaDec.RepStepZero` | src/lib/lzma.cpp:431 | is_rep_g0 = 0 leads to `RepZero` on the values that bit leaves |
| `LzmaDec.RepStepPick` | src/lib/lzma.cpp:438-454 | is_rep_g0 = 1 leads to `RepMatch` of the k the g1 and g2 bits pick, with the rep length decoder's length |
| `LzmaDec.RepZeroShort` | src/lib/lzma.cpp:432-436 | is_rep_0long = 0 is the one-byte copy with state `AfterShortRep` |
| `LzmaDec.RepZeroLong` | src/lib/lzma.cpp:432-455 | is_rep_0long = 1 is a rep match of rep[0] with the rep length decoder's length |
| `LzmaDec.RepMatchIs` | src/lib/lzma.cpp:454-482 | a rep match is the copy tail with rep[k] at the front, `AfterRep` and length len + 2 |
| `LzmaDec.MatchStep` | src/lib/lzma.cpp:456-482 | a match: the end marker leaves everything but the coder and cells as it was; success keeps the values consistent and leaves less to unpack |
| `LzmaDec.MatchFrom` | src/lib/lzma.cpp:462-482 | after the distance: the end marker exactly when dist is 0xFFFFFFFF; success pushes dist and copies |
| `LzmaDec.MatchStepIs` | src/lib/lzma.cpp:460-462 | a match is the length, then `dec_dist` with that length, then `MatchFrom` |
| `LzmaDec.TookIs` | src/lib/lzma.cpp:405-475 | `dec_bit` and tree calls change only the coder and the cells of the decoder's values |
| `LzmaDec.MatchFromIs` | src/lib/lzma.cpp:469-482 | a distance below dict_sz that `check_dist` admits, with bytes still to come, is the copy from dist + 1 back |
| `LzmaDec.Step` | src/lib/lzma.cpp:400-483 | one pass of the loop: the end marker leaves everything but the coder and cells; success keeps the values consistent and leaves strictly less to unpack |
| `LzmaDec.LitOrFail` | src/lib/lzma.cpp:405-419 | after is_match = 0: a failure with nothing still to come, otherwise a literal |
| `LzmaDec.RepOrMatch` | src/lib/lzma.cpp:422-475 | after is_match = 1: the is_rep bit picks a rep packet or a match, with the same guarantees |
| `LzmaDec.StepIs` | src/lib/lzma.cpp:402-405 | the pass after its is_match bit: a literal on 0 (a failure with nothing to come), `RepOrMatch` on 1 |
| `LzmaDec.StepLit` | src/lib/lzma.cpp:405-409 | is_match = 0 leads to `LitOrFail` |
| `LzmaDec.StepCopy` | src/lib/lzma.cpp:405-424 | is_match = 1 leads to `RepOrMatch` |
| `LzmaDec.RepOrMatchIs` | src/lib/lzma.cpp:424-456 | is_rep = 1: the checks of lines 425-430 fail with nothing to come or nothing put, else `RepStep`; is_rep = 0: `MatchStep` |
| `LzmaDec.Halves` | src/lib/lzma.cpp:8-14 | `init_probs` leaves n cells of 1024 |
| `LzmaDec.Decoder.constructor` | src/lib/lzma.cpp:501-513 | a decoder over the given coder, window, header and probability arrays |
| `LzmaDec.Decoder.Init` | src/lib/lzma.cpp:308-336 | `init(dec)` is the coder's `init`; on success every probability is 1024 and the decoder is valid |
| `LzmaDec.Decoder.Bit` | src/lib/lzma.cpp:146-167 | one adaptive bit from model cell i: the new coder, cells and bit are `BitValue` of the old ones |
| `LzmaDec.Decoder.LitBit` | src/lib/lzma.cpp:146-167 | one adaptive bit from literal cell i: the new coder, literal cells and bit are `BitValue` of the old ones |
| `LzmaDec.Decoder.Tree` | src/lib/lzma.cpp:193-202 | a bit tree of n bits in the model array: coder, cells and value are `TreeValue` of the old ones |
| `LzmaDec.Decoder.ReverseTree` | src/lib/lzma.cpp:169-208 | a reverse bit tree of n bits in the model array: coder, cells and value are `ReverseValue` of the old ones |
| `LzmaDec.Decoder.DecLen` | src/lib/lzma.cpp:235-244 | the length decoder: coder, cells and length are `LenSpec` of the old ones, and the length is below 272 |
| `LzmaDec.Decoder.LenFrom8` | src/lib/lzma.cpp:240-243 | after a first choice bit of 1: the mid or high tree, a length from 8 to 271 equal to `LenAbove` |
| `LzmaDec.Decoder.DecLit` | src/lib/lzma.cpp:338-366 | `dec_lit` puts exactly one byte b, with `0x100 + b` the `LitSpec` symbol over the given literal cells and match byte |
| `LzmaDec.Decoder.LitByte` | src/lib/lzma.cpp:340-364 | the byte decoded is `LitSpec` over the literal cells of total_i and the previous byte, following byte rep0 + 1 back from state 7 on |
| `LzmaDec.Decoder.LitSym` | src/lib/lzma.cpp:350-364 | the two loops leave coder, literal cells and sym as `LitSpec`, with sym in [0x100, 0x200) |
| `LzmaDec.Decoder.MatchedLit` | src/lib/lzma.cpp:350-361 | the first loop decodes k ≤ 8 bits into sym ∈ [2^k, 2^(k+1)), all but the last the match byte's top bits and the last differing unless all eight agree; coder, cells and sym are `MatchedFrom` from 1 |
| `LzmaDec.Decoder.MatchedBit` | src/lib/lzma.cpp:353-359 | one round: match_bit is the next top bit of the match byte, sym' = 2·sym + bit, and `MatchedFrom` is the same before and after (or ends here on a differing bit) |
| `LzmaDec.Decoder.PlainLit` | src/lib/lzma.cpp:362-364 | the second loop stops with 0x100 ≤ sym < 0x200, the bits already decoded on top, nothing done from sym ≥ 0x100; coder, cells and sym are `PlainFrom` |
| `LzmaDec.Decoder.PlainBit` | src/lib/lzma.cpp:363 | one round of the second loop keeps `PlainFrom` the same and shifts one bit in |
| `LzmaDec.Decoder.DecDist` | src/lib/lzma.cpp:368-389 | `dec_dist`: coder, cells and distance are `DistSpec`, the slot is the 6-bit tree of the length's state; slots below 4 are the distance, slot s from 4 on gives a distance in [(2 + s%2)·2^(s/2−1), (3 + s%2)·2^(s/2−1)) |
| `LzmaDec.Decoder.DecSlot` | src/lib/lzma.cpp:370-374 | the slot is the 6-bit tree picked by `LenState(len)` |
| `LzmaDec.Decoder.DistRest` | src/lib/lzma.cpp:380-387 | the low bits are `RestSpec` of the slot and below 2^(slot/2 − 1) |
| `LzmaDec.Decoder.PosDecsRest` | src/lib/lzma.cpp:380-382 | below slot 14: `RestSpec` through the reverse tree of pos_decs |
| `LzmaDec.Decoder.DirectRest` | src/lib/lzma.cpp:383-387 | from slot 14 on: `RestSpec` through direct bits and the align tree |
| `LzmaDec.Decoder.LitPacket` | src/lib/lzma.cpp:405-419 | a literal packet: the new values are `LitStep` of the old; state `AfterLiteral`, one byte less to unpack, one Literal packet more, the loop invariant kept |
| `LzmaDec.Decoder.LitInto` | src/lib/lzma.cpp:409 | `dec_lit(dec, state, rep[0])` in the loop: one byte b put, with `0x100 + b` the `LitSpec` symbol of the current values |
| `LzmaDec.Decoder.LitTail` | src/lib/lzma.cpp:411-419 | the literal state change with one byte less to come keeps the loop invariant and adds Literal(b) |
| `LzmaDec.Decoder.ShortRep` | src/lib/lzma.cpp:431-437 | a short rep is `CopyStep` of one byte with `AfterShortRep`: one byte less, one Copy packet of one byte from rep0 + 1 back, the loop invariant kept |
| `LzmaDec.Decoder.PutShort` | src/lib/lzma.cpp:434-435 | `put(byte(rep[0] + 1))` appends the byte rep0 + 1 back, changes no coder or cell, and keeps the loop invariant |
| `LzmaDec.Decoder.CopyTail` | src/lib/lzma.cpp:476-482 | it fails exactly when fewer than len + 2 bytes remain; otherwise it copies len + 2 bytes from rep0 + 1 back; either way it is `CopyStep` |
| `LzmaDec.Decoder.CopyMatch` | src/lib/lzma.cpp:481-482 | `cp_match(rep0 + 1, n)` as one Copy packet, with n fewer bytes to unpack |
| `LzmaDec.Decoder.RepPick` | src/lib/lzma.cpp:439-453 | the g1/g2 branches move rep[k] to the front for k from 1 to 3, with k, coder and cells as `PickSpec` gives them |
| `LzmaDec.Decoder.RepPacket` | src/lib/lzma.cpp:424-455 | a rep packet is `RepStep`: failure exactly when it fails; otherwise the new values are its result, with one cache entry moved to the front and a rep or short-rep state |
| `LzmaDec.Decoder.RepZeroPacket` | src/lib/lzma.cpp:431-455 | after is_rep_g0 = 0: `RepZero`, with rep[0] kept in front |
| `LzmaDec.Decoder.RepCopy` | src/lib/lzma.cpp:454-482 | once rep[k] is in front: `RepMatch` with the rep length decoder's length, state `AfterRep` |
| `LzmaDec.Decoder.MatchPacket` | src/lib/lzma.cpp:456-482 | a match is `MatchStep`: the end marker leaves the loop invariant as it was; otherwise the values are its result, state `AfterMatch`, rep[0..2] moved to rep[1..3] with the new distance in front, one Copy packet from rep'[0] + 1 back |
| `LzmaDec.Decoder.MatchTail` | src/lib/lzma.cpp:463-482 | after the distance: `MatchFrom`; the end marker, nothing to come, a distance outside dict_sz or one `check_dist` refuses stop before any copy |
| `LzmaDec.Decoder.DecPacket` | src/lib/lzma.cpp:400-483 | one round of the loop is `Step` of the current values: the same outcome, and on success the new values are its result, one packet more and strictly less left to unpack |
| `LzmaDec.Decoder.CopyPacket` | src/lib/lzma.cpp:422-482 | after is_match = 1: `RepOrMatch` of the current values |
| `LzmaDec.Decoder.Dec` | src/lib/lzma.cpp:391-488 | ok exactly when `Decode` gives packets, which are then the ghost packets; on success no corruption, the whole source read, dst filled exactly with the bytes put, which are the expansion of the packets, each copy inside the dictionary |
| `LzmaDec.Decoder.DecLoop` | src/lib/lzma.cpp:397-487 | the loop from state 0 and four zero distances is `Run`; ok exactly when it ends with no corruption, the source read and dst_len bytes put |
| `LzmaDec.Decoder.Filled` | src/lib/lzma.cpp:487 | a destination filled exactly holds the bytes put, the expansion of the packets |
| `LzmaDec.LzmaDecInto` | src/lib/lzma.cpp:495-516 | ok exactly when `DecodeInto` of the scratch, dst_len and src gives packets; an empty scratch fails; on success the header was accepted, the scratch is its buf_sz long, every copy stays inside dict_sz, and dst is the expansion of the packets over the scratch's first dict_sz bytes |
| `LzmaDec.LzmaDecStr` | src/lib/lzma.cpp:518-526 | the result is dst_len bytes when `DecodeInto` over a zeroed scratch gives packets, otherwise empty; empty for a rejected header; otherwise the expansion of the packets over a zeroed window |

## Left out

- File system, working directory, temporary paths, `file_t` and the other OS calls of `file.cpp` are not modelled.
  They are system calls.
- `get_plat()` with no arguments is not modelled: it reads `uname` or the Windows version API.
- The build's kernel, which `get_plat` takes from the preprocessor, is the parameter `target`.
- `decode_nat` (libc's `strtoul`) is the function parameter `decode` of `Platform.GetPlatOfText`. Any function of its
  type stands for it, so no property depends on its workings.
- Threads, queues, pipes, logging, error text, the debug and unit-test support code, `box.hpp`, `raster.cpp`,
  `library.cpp` and `program.cpp` are not part of this model.
- Floating-point `as_text`, the float `clamp`s, `decode_rat` and the UTF-16 conversions are left out: they are libc
  and Win32 formatting.
- Clock reads, `as_text(date_t)`, the metronome and the `timespec`/`FILETIME` converters are left out: they are clock
  and platform structures.
- `create_opaque_handle`/`get_ptr` are not modelled: they are pointer reinterpretation.
- Memory allocation failure (the `abort` in `alloc_mem`) is not modelled: every allocation succeeds.
- Element destructors and move semantics of `seq_t` are not modelled. Its elements are values.
- `bag_t`'s null element is every type's zero value. The model takes it as the `zero` of the cells.
- `Bags.Bag.Remove` takes the index of the cell rather than a reference into it. The source's pointer-range
  assertion becomes `i < len`.
- `Paths.SetExt` returns the new path instead of updating its in-out parameter.
- The LZMA scratch buffer is not modelled as one allocation, which leaves out:
  - **Two arrays.** The source keeps the window and the literal probabilities in one allocation, reinterpreting its
    tail as `prob_t`. The model keeps the window in `buf` and the literal probabilities in their own array of
    `0x300 << (lc + lp)` cells. Together they are the header's `buf_sz` bytes.
  - **Flat model array.** The other probability fields of `lzma_dec_t` are one flat array at fixed offsets.
  - **Padding** fields are dropped.
- The literal probabilities start at 1024 in the model. The source leaves that part of the scratch as it was until
  `init` sets it to 1024, and nothing reads it before.
- `&`, `|` and `<<` are written as `%`, `+` and `*` by powers of two where the bits are disjoint, and `nat4_t`
  wrap-around is written out where it occurs.
- `total_i` is the count of bytes put modulo 2^32, wrapping like the source's `nat4_t`: the window's invariant states
  `total_i == |history| % 2^32`, and the literal context is taken from that wrapped value.
- Arrays and sources are bounded by 2^64 through the requires of `LzmaDec.LzmaDecInto`, standing for `nat8_t` lengths.
- The 27-byte fixture that decodes to "Hello world\n" is not evaluated: `Decode` fixes the packets of every input,
  but no lemma computes them for that one.
- `LzmaDec.LzmaDecInto` requires `buf` and `dst` to be different arrays. Its only caller, `lzma_dec(str, dst_len)`,
  allocates both freshly, so they never alias there.
- `LzmaRange.RangeDecoder.DecBit` requires the cell's probability to lie in [31, 2017]. Every probability starts at
  1024 and `DecBitKeeps` proves the bound is kept, so every call in the decoder meets it.
- `LzmaWindow.OutWindow.CheckDist`: admits the distance one past what was written, because `check_dist` is applied
  to `rep[0]` while the copy uses `rep[0] + 1`. The model keeps this as the source has it. The LZMA SDK's reference
  decoder does the same, and `CheckDistAdmitsOneBeyond` states what that byte then is.
