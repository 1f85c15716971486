# tinypgm in Dafny

tinypgm is a small C library that reads and writes binary grayscale PGM
("P5") images. This project models its whole library file,
`src/lib/tinypgm.c`, and proves properties of the model. The model covers
four parts:

- **The header tokenizer.** `load_next_ascii_token_from_file` reads one
  byte at a time into a 50-byte buffer, skips `#` comments through the
  end of their line, and ends a token at one white-space byte.
- **The header parser.** `load_info_from_file` reads four tokens: the
  magic string "P5", the width, the height and the maximum value. It
  converts the three numbers with `sscanf("%d")` and stores each into the
  caller's `tpgm_info_t` as soon as it is read. Then it checks the bounds
  and computes `data_size = width * height`.
- **The loaders.** `tpgm_load_info` reads the header. `tpgm_load_data` also
  checks that `data_size` fits the caller's capacity, then `fread`s exactly
  that many payload bytes.
- **The writer.** `tpgm_save` turns a stride of zero or less into the
  width and checks the geometry. It writes the header
  `"P5\n# Created by tinypgm\n%d %d\n%d\n"` with maximum value 255, then
  `height` rows of `width` bytes, each row `stride` bytes after the one
  before.

Modules, one per file:

- `LibC` (`libc.dfy`) models the C library pieces tinypgm relies on:
  - bytes, `fgetc`'s EOF and `isspace` in the "C" locale;
  - NUL-terminated strings (`CString`);
  - the `%d` conversion of `sscanf` (`ScanInt`) and of `fprintf`
    (`FormatInt`);
  - `FILE*` streams (class `Stream`, with a position that `GetC` and
    `Read` advance);
  - a file system (class `FileSystem`: a map from paths to contents, and
    the set of paths that can be opened for writing).
- `Types` (`types.dfy`) models `tpgm_status_t` and `tpgm_info_t`, and the
  caller's `tpgm_info_t*` as class `InfoRef`, whose record the parser
  overwrites field by field.
- `Tokenizer` (`tokenizer.dfy`) has the following parts:
  - `Scan` and `NextToken` are a specification of the tokenizer that
    follows the two nested do-while loops byte by byte;
  - the method `LoadNextAsciiToken` runs those loops over a `Stream` and a
    50-byte `array`, and is proved against that specification;
  - lemmas state what a token is.
- `Header` (`header.dfy`):
  - `ReadHeader` specifies `load_info_from_file`, including the fields it
    leaves written when it fails;
  - the method `LoadInfoFromFile` stores into an `InfoRef`;
  - `HeaderAcceptedIff` characterises acceptance through the reference
    reading `Tokens`.
- `TinyPgm` (`codec.dfy`) holds the three public functions.
  - The two load functions are proved against `ReadHeader` and the
    `PayloadLoaded` relation.
  - `tpgm_save` is proved against `PgmFile`/`Rows`, which state exactly
    what is written.
- `Comments` (`comments.dfy`) proves that a comment line inserted where a
  token read starts changes nothing the header parser decides:
  - `Reads` is the reference reading of successive tokens, and `Decide` the
    decision `load_info_from_file` takes on them (`ReadHeaderDecides`);
  - `CommentTransparent` compares a header with such a comment line and the
    same header without it.
- `RoundTrip` (`roundtrip.dfy`) proves that what `tpgm_save` writes loads
  back: the same width and height, maximum value 255, and the saved rows
  packed together.
- `Scenarios` (`scenarios.dfy`) works through particular headers:
  - a commented 3 by 2 header;
  - the refused headers "P2", width 0 and maximum value 256;
  - a maximum value of 100;
  - a doubled delimiter;
  - a comment glued to the end of a token;
  - a saved file cut off inside its banner comment.

Some stretches of the C functions are written here as separate methods.
Each one is the inline code it replaces, with its own contract:

- `LoadNumber` is one field of `load_info_from_file`.
- `LoadDataFromFile` and `LoadPayload` are the part of `tpgm_load_data`
  after `fopen`.
- `WriteRows` is the row loop of `tpgm_save`.

The model follows the code wherever a plain description of the format says
otherwise:

- The tokenizer does not skip leading white space. A white-space byte read
  first ends the token, so the token is empty. `Tokenizer.TokenPlain` covers
  the empty token, and `Scenarios.DoubleDelimiterRejected` shows that a
  blank line, or a CRLF line end, after "P5" makes the header fail.
- A comment line is ignored only where a token read starts, that is, at
  the start of a line or after a delimiter (`Comments.CommentTransparent`).
  A `#` glued to the end of a token throws that token away together with
  the comment. `Scenarios.GluedCommentDropsToken` shows that
  "P5\n3#c\n2 4\n255\n" is read as a 2 by 4 image. `Scenarios.GluedCommentRejected`
  shows that "P5\n3#c\n 2\n255\n" is refused, although the same header
  without its comment is accepted.
- A comment runs to its `\n` and nothing else closes it. A file that ends
  inside a comment has no next token, even when the comment holds spaces
  (`Tokenizer.UnclosedComment`, `Tokenizer.UnclosedCommentFails`).
  `Scenarios.TruncatedBannerRejected` shows that a saved file cut off
  inside its banner is refused.
- A failed header read can leave fields of the caller's record written.
  `ReadHeader` states exactly which ones.

## Model

| member | source | states |
|---|---|---|
| Tokenizer.LoadNextAsciiToken | src/lib/tinypgm.c:41-67 | the stream ends where `NextToken` says; the status is Ok exactly when `NextToken` succeeds; on success the buffer holds the token followed by a NUL terminator |
| Tokenizer.Scan | src/lib/tinypgm.c:43-64 | a read never moves backwards or past the end, and a successful read consumes at least one byte |
| Tokenizer.Collect | src/lib/tinypgm.c:53-59 | up to 49 token bytes in a row are appended in order |
| Tokenizer.TokenPlain | src/lib/tinypgm.c:53-63 | a token of at most 49 token bytes followed by white space is returned as is, and exactly one delimiter byte is consumed; the token is empty when the first byte is white space |
| Tokenizer.TokenTooLong | src/lib/tinypgm.c:53-58 | the 50th token byte in a row makes the read fail, just after that byte |
| Tokenizer.CommentThrough | src/lib/tinypgm.c:50-60 | inside a comment, every byte through the first `\n` is skipped, and collection restarts empty |
| Tokenizer.CommentSkip | src/lib/tinypgm.c:50-64 | a `#` discards the bytes already collected and the comment through its `\n`; the read then goes on as if it had started after the comment, so comment bytes never count towards the length cap |
| Tokenizer.NoDelimiterFails | src/lib/tinypgm.c:47-49 | reaching end of file before any white-space byte always fails, so a token that runs to end of file is never returned |
| Tokenizer.UnclosedComment | src/lib/tinypgm.c:47-60 | inside a comment, reaching end of file before a `\n` always fails, whatever spaces, tabs or carriage returns the comment holds |
| Tokenizer.UnclosedCommentFails | src/lib/tinypgm.c:47-60 | a read that meets a `#` after fewer than 50 token bytes, with no `\n` after it up to end of file, fails |
| Tokenizer.ScanShape | src/lib/tinypgm.c:43-64 | from any state of the loops, a successful read returns token bytes that stand just before the delimiter it consumed |
| Tokenizer.ScanShifted | src/lib/tinypgm.c:43-64 | a read depends only on the bytes from where it starts: the same bytes later in another file give the same outcome and token, that many bytes further on |
| Tokenizer.ScanBefore | src/lib/tinypgm.c:43-64 | a successful read looks at no byte past the delimiter it consumed: a file that agrees up to there reads the same token and stops at the same place |
| Tokenizer.TokenShape | src/lib/tinypgm.c:41-67 | a successful read returns exactly the at most 49 non-white-space, non-`#` bytes just before the single white-space delimiter it consumed, starting where the read started or right after a `\n`; which token that is, `Tokenizer.TokenPlain` and `Tokenizer.CommentSkip` pin down |
| Header.ReadInt | src/lib/tinypgm.c:81-86 | reading a numeric field stays within the file and never moves backwards |
| Header.ReadHeader | src/lib/tinypgm.c:69-114 | an accepted header has width and height at least 1, a maximum value in 1..255, and `dataSize == width * height` |
| Header.LoadInfoFromFile | src/lib/tinypgm.c:69-114 | the status, the record's contents (partial writes on failure included) and the stream position are exactly those of `ReadHeader` |
| Header.LoadNumber | src/lib/tinypgm.c:81-86 | one numeric field is the next token converted by `%d`; a failed read or conversion is `None`; the stream is left where the token read left it |
| Header.TokenInBuffer | src/lib/tinypgm.c:63-76 | after a successful read, `strcmp` and `sscanf` see exactly the token, whatever the buffer held beyond the terminator |
| Header.Tokens | src/lib/tinypgm.c:72-101 | the reference reading of the first `n` tokens yields `n` of them, ending within the file |
| Header.HeaderAcceptedIff | src/lib/tinypgm.c:72-111 | a header is accepted exactly when its first four tokens can be read, the first is "P5" as a C string, and the other three convert with `%d` to values in range; it then describes exactly those values, with `dataSize == width * height` whatever the maximum value, and leaves the stream just after the fourth token's delimiter |
| Header.WellFormedFields | src/lib/tinypgm.c:76-108 | four tokens whose values are in range are acceptable, and describe those values |
| Header.HeaderFromTokens | src/lib/tinypgm.c:72-111 | four acceptable tokens give an accepted header that describes them, whatever the record held before |
| Header.HeaderFromFields | src/lib/tinypgm.c:72-111 | known tokens with values in range give an accepted header with those values, `dataSize == width * height`, ending after the fourth token |
| Header.HeaderRejectsFields | src/lib/tinypgm.c:104-108 | known tokens with a width or height below 1, or a maximum value outside 1..255, make the header fail |
| Header.HeaderFieldsIff | src/lib/tinypgm.c:80-111 | once the tokens and their values are known, the header is accepted exactly when the values are in range, and then holds those values |
| Header.TokensEndAtDelimiter | src/lib/tinypgm.c:60-63 | reading one or more tokens ends just after a white-space byte, so an accepted header leaves the stream on the first payload byte |
| Comments.Reads | src/lib/tinypgm.c:72-101 | the reference reading of `n` successive tokens, each starting where the one before stopped: `n` results, each stopping within the file and not before the start |
| Comments.Decide | src/lib/tinypgm.c:72-111 | the decision `load_info_from_file` takes on the results of its four reads: it always stops after one of them; when it accepts, it stops after the fourth, and the width, height and maximum value are what `%d` reads from reads two to four, within bounds |
| Comments.ReadHeaderDecides | src/lib/tinypgm.c:69-114 | `ReadHeader` is `Decide` applied to its four reads: the same status and record, and it stops where the read `Decide` names stopped |
| Comments.DecideByTokens | src/lib/tinypgm.c:72-108 | reads that succeed and fail at the same steps with the same tokens lead to the same decision, wherever they stop |
| Comments.ReadsShifted | src/lib/tinypgm.c:41-67 | successive reads over the same bytes placed `d` bytes later give the same tokens and stop `d` bytes later |
| Comments.ReadsBefore | src/lib/tinypgm.c:41-67 | the first `k` reads, when they all succeed by position `e`, are the same in any file that agrees up to `e` |
| Comments.TokensBefore | src/lib/tinypgm.c:41-67 | `k` tokens that end by `e` are read the same way in any file that agrees up to `e` |
| Comments.ReadsAfterTokens | src/lib/tinypgm.c:72-101 | after `k` successful reads that stop at `e`, the remaining reads are the reads from `e` |
| Comments.CommentLineSkipped | src/lib/tinypgm.c:50-64 | a read that starts on the `#` of a comment line gives what the read after the line gives |
| Comments.InsertedReads | src/lib/tinypgm.c:41-101 | with bytes inserted after the first `k` tokens that a read skips, the reads give the same tokens; reads before the insertion stop at the same places, the others that many bytes later |
| Comments.CommentTransparent | src/lib/tinypgm.c:41-114 | a comment line inserted where the read after the first `k` tokens (`k` below 4) starts leaves the status and the record exactly as without it; an accepted header then ends `|c|` bytes later; a failure before the comment stops where it did, one after it `|c|` bytes later |
| TinyPgm.LoadInfo | src/lib/tinypgm.c:120-142 | a null path or record fails; a missing file fails with the record unchanged; otherwise the status and record are exactly `ReadHeader` of the file |
| TinyPgm.LoadData | src/lib/tinypgm.c:144-191 | a null path or buffer, or a missing file, fails with record and buffer unchanged; otherwise the header is read into the caller's record (or a scratch one when it is null) and the buffer changes exactly as `PayloadLoaded` says |
| TinyPgm.LoadDataFromFile | src/lib/tinypgm.c:168-185 | the record holds `ReadHeader` of the stream, and the buffer and status satisfy `PayloadLoaded` |
| TinyPgm.LoadPayload | src/lib/tinypgm.c:174-185 | a size above the capacity fails before any read, leaving the buffer untouched; otherwise the bytes the file holds (at most the size) are copied to the front of the buffer, the rest is untouched, and the status is Ok exactly when all the bytes were there |
| TinyPgm.Copied | src/lib/tinypgm.c:181 | `fread` copies the whole requested size, or everything up to the end of the file when that is less |
| TinyPgm.Save | src/lib/tinypgm.c:193-242 | a stride of zero or less becomes the width; a null path or data, a width or height below 1, a stride below the width or a path that cannot be opened fails without touching any file; otherwise the file becomes exactly the text header followed by the rows |
| TinyPgm.WriteRows | src/lib/tinypgm.c:227-236 | the loop writes exactly `Rows`: `height` rows of `width` bytes, row `k` starting at `k * stride` |
| TinyPgm.RowsStep | src/lib/tinypgm.c:229-236 | one iteration appends the next row and leaves the remaining rows to write |
| TinyPgm.RowsWithinSpan | src/include/tinypgm.h:88-89 | the rows fit the data exactly when the last one does, at `(height - 1) * stride + width` |
| TinyPgm.RowsLength | src/lib/tinypgm.c:229-236 | the rows written total exactly `width * height` bytes |
| TinyPgm.RowsAt | src/lib/tinypgm.c:228-236 | byte `j` of row `k` in the output is byte `k * stride + j` of the data, so padding bytes are never written |
| TinyPgm.RowsDrop | src/lib/tinypgm.c:229-236 | the output after its first `k` rows is the output of the rows that start `k` strides further on |
| TinyPgm.RowsPacked | src/include/tinypgm.h:92-94 | with stride equal to width the rows are the data itself |
| TinyPgm.StrideIrrelevant | src/lib/tinypgm.c:203-236 | saving padded rows gives the same file as saving the row-extracted pixels tightly packed |
| TinyPgm.PaddingDropped | src/lib/tinypgm.c:229-236 | a 2 by 2 image at stride 4 writes only its four pixels |
| LibC.CString | src/lib/tinypgm.c:76 | the C string of a buffer is a prefix of it without NULs, stopped by a NUL when shorter than the buffer |
| LibC.CStringUpTo | src/lib/tinypgm.c:63 | bytes after a terminator are invisible to a C string |
| LibC.CStringNoNul | src/lib/tinypgm.c:76 | a buffer without NULs is its own C string |
| LibC.DigitPrefix | src/lib/tinypgm.c:84 | the longest run of leading decimal digits, stopped by the first non-digit |
| LibC.ScanInt | src/lib/tinypgm.c:84 | `%d` succeeds exactly when an optional sign is followed by a digit |
| LibC.ScanIntIgnoresSuffix | src/lib/tinypgm.c:92 | characters after an optional `+` or `-` and a run of digits never change what `%d` reads: the digits' value, negated after `-` |
| LibC.DigitPrefixOf | src/lib/tinypgm.c:100 | a run of digits followed by a non-digit is the digit prefix |
| LibC.FormatInt | src/lib/tinypgm.c:225 | `%d` of a natural number writes a nonempty run of decimal digits, with a leading `0` only for zero itself |
| LibC.FormatIntValue | src/lib/tinypgm.c:225 | the digits `%d` writes have the value written |
| LibC.ScanFormatInt | src/lib/tinypgm.c:225 | `sscanf("%d")` reads back what `fprintf("%d")` wrote |
| LibC.FormatIntLength | src/lib/tinypgm.c:225 | a number below 10^k takes at most k digits |
| LibC.Stream.GetC | src/lib/tinypgm.c:47-49 | `fgetc` returns the next byte and moves on by one, or EOF without moving at end of file |
| LibC.Stream.Read | src/lib/tinypgm.c:181 | `fread` copies the bytes the file still holds, up to the count asked, to the front of the buffer, returns how many, moves on by that many, and leaves the rest of the buffer alone |
| LibC.FileSystem.OpenRead | src/lib/tinypgm.c:163-166 | `fopen` for reading fails exactly when the file is absent, and otherwise gives a fresh stream at position 0 on its contents |
| Types.InfoRef.constructor | src/lib/tinypgm.c:149 | the scratch record starts blank |
| RoundTrip.TokenThen | src/lib/tinypgm.c:53-63 | a fitting token written just before a white-space byte is read as is, whatever surrounds it |
| RoundTrip.NumberFits | src/lib/tinypgm.c:39 | the decimal text of an `int` fits the token buffer and is all token bytes |
| RoundTrip.NumberReadsBack | src/lib/tinypgm.c:84 | the decimal text of a number, as a C string in the token buffer, converts back to that number |
| RoundTrip.BannerTokens | src/lib/tinypgm.c:225 | the saved banner reads as "P5", and then its comment line is skipped |
| RoundTrip.NumberTokens | src/lib/tinypgm.c:225 | the three numbers of `"%d %d\n%d\n"` are read as three tokens, each ending at its white-space byte |
| RoundTrip.FourTokens | src/lib/tinypgm.c:72-100 | four successive reads, with a comment skipped after the first, give the four header tokens |
| RoundTrip.LayoutTokens | src/lib/tinypgm.c:225 | a header laid out as `tpgm_save` writes it tokenizes into "P5" and the three decimal texts, ending where the pixels begin |
| RoundTrip.SavedTokens | src/lib/tinypgm.c:225 | the saved header's four tokens are "P5", the width, the height and 255, ending at the first pixel |
| RoundTrip.SavedHeaderAccepted | src/lib/tinypgm.c:69-114 | the header `tpgm_save` writes is accepted with the saved width and height, maximum value 255 and `dataSize == width * height`, whatever the record held, and leaves the stream on the first pixel |
| RoundTrip.SavedPayloadLoads | src/lib/tinypgm.c:175-185 | loading a saved file into a buffer of at least `width * height` bytes succeeds, yields exactly the saved pixels and leaves the rest of the buffer alone |
| RoundTrip.SaveThenLoad | src/lib/tinypgm.c:144-242 | `tpgm_save` then `tpgm_load_data` on the same path both succeed; the record gets the saved geometry with maximum value 255; the buffer gets the saved rows packed together, padding dropped, and nothing past them changes |
| Scenarios.CommentedPrefix | src/lib/tinypgm.c:50-64 | in "P5\n# comment\n…" the magic is read first and the comment line is skipped |
| Scenarios.CommentedHeaderTokens | src/lib/tinypgm.c:41-67 | "P5\n# comment\n3 2\n255\n" tokenizes into "P5", "3", "2", "255", ending at byte 21 |
| Scenarios.CommentedHeaderAccepted | src/lib/tinypgm.c:69-114 | that header describes a 3 by 2 image of 6 bytes with maximum value 255 and leaves the stream on byte 21 |
| Scenarios.CommentedFileLoads | src/lib/tinypgm.c:174-185 | for that file, a capacity below 6 fails with the buffer untouched; six pixel bytes load in full; fewer fail after copying those there |
| Scenarios.PlainHeaderTokens | src/lib/tinypgm.c:41-67 | a header laid out as "%s\n%s %s\n%s\n" tokenizes into those four strings |
| Scenarios.AsciiMagicRejected | src/lib/tinypgm.c:76-78 | a "P2" header is refused |
| Scenarios.PlainHeaderValues | src/lib/tinypgm.c:80-102 | the three numbers of "P5\n%d %d\n%d\n" are read back as written |
| Scenarios.PlainHeaderRead | src/lib/tinypgm.c:104-111 | "P5\n%d %d\n%d\n" is accepted exactly when width and height are at least 1 and the maximum value is in 1..255, so width 0 and maximum value 256 are refused; the data size stays width times height for any maximum value |
| Scenarios.GluedPrefix | src/lib/tinypgm.c:50-64 | in "P5\n3#c\n…" the "3" glued to the `#` is discarded with the comment: the read after "P5" gives what the read after the comment gives |
| Scenarios.GluedHeaderTokens | src/lib/tinypgm.c:41-67 | "P5\n3#c\n2 4\n255\n" tokenizes into "P5", "2", "4", "255", ending at byte 15 |
| Scenarios.GluedCommentDropsToken | src/lib/tinypgm.c:69-114 | that header is accepted as a 2 by 4 image of 8 bytes with maximum value 255, not as 3 by 2 |
| Scenarios.GluedCommentRejected | src/lib/tinypgm.c:50-86 | "P5\n3#c\n 2\n255\n" fails: the width is thrown away with its comment and the space after the comment ends an empty token, which `%d` refuses |
| Scenarios.DoubleDelimiterRejected | src/lib/tinypgm.c:53-60 | a second white-space byte right after "P5" is read as an empty width token, and the header fails |
| Scenarios.TruncatedBannerRejected | src/lib/tinypgm.c:47-86 | a saved file cut off inside its banner comment ("P5\n# Created by") fails at the width read, with the record as it was |

## Left out

- Opening and closing files, and closing on every path, are left out. A file is its contents in `FileSystem.files`. A failed `fopen` for reading is a missing path, and one for writing is a path outside `writable`.
- Short `fwrite` results are left out, because they depend on the operating system. The model's `Save` always writes every row. A file therefore changes only when the whole save succeeds.
- The test program (`test/test.c`) and the ASCII-art viewer (`test/showpgm.c`) are not part of this model; they only call the library. `src/include/tinypgm.h` holds declarations only. Its types are `Types.Status` and `Types.Info`.
- `LibC.ScanInt`: does not model `int` overflow in `sscanf("%d")`, which is undefined behaviour in C. Values are unbounded integers.
- `Types.Info`: `data_size` is an unbounded natural number, which assumes a `size_t` of 64 bits, where the product of two positive `int`s cannot wrap. The wrap-around of a 32-bit `size_t` at `src/lib/tinypgm.c:111` is not modelled. For example, width = height = 65536 gives `data_size` 0 there, so `tpgm_load_data` passes its capacity check, reads no bytes and succeeds. The model's `dataSize` is 2^32 instead, and it fails on the same file for any smaller capacity.
- `LibC.IsSpace`: fixed to `isspace` in the "C" locale. Other locales are not modelled.
- `TinyPgm.Save`: requires the rows to lie within the data array when the geometry is valid. The C code cannot check this; its header (`src/include/tinypgm.h:88-89`) puts it on the caller. A Dafny `array` does not model reading past the caller's buffer.
- `Types.InfoRef.constructor`: the scratch record of `tpgm_load_data` starts as `Blank`, not with indeterminate contents. Nothing outside the function can see the record.
- Embedded NUL bytes are kept in the token buffer as the C code keeps them. `strcmp` and `sscanf` stop at the first NUL, and `LibC.CString` models that.
- `Tokenizer.Scan`: the stream is read to end of file as a fixed byte sequence. A file that changes while it is being read is not modelled.
