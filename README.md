# A verified model of `Tar::Archive`, `Tar::File` and `Tar::Header`

This project models the reader in `tar.rb`, a small Ruby library that reads
ustar archives (section "pax — ustar Interchange Format" of POSIX.1,
IEEE Std 1003.1). The library:

- walks an archive's byte source one 512-byte block at a time;
- decodes each header block through fixed byte ranges. Text fields end at
  their first NUL. Numeric fields are octal ASCII, read with `String#oct`;
- keeps each header whose name is not empty, then skips its content, rounded
  up to whole blocks;
- stops at the end of the source or at a pair of empty-name blocks;
- raises "Malformed header" when an empty-name block is followed by a named
  one;
- wraps every kept header in a `Tar::File`, which seeks the shared stream and
  reads the entry's content back.

The model has five modules:

- `Wrappers`: `Option` and `Result`.
- `TarFields` (`fields.dfy`): the two primitives. `null_terminated`, written
  `nt` in the source, and Ruby's `String#oct`, with their round-trip lemmas.
- `TarHeader` (`header.dfy`): the `Header` value, which holds `pos` and a
  512-byte block. Every accessor is a `Text` or `Number` field, chosen by an
  enumeration of the source's fields with their offsets and widths.
- `Tar` (`archive.dfy`): four parts.
  - The byte source, a `Stream` class with a mutable position and Ruby's
    `IO#read` semantics.
  - `Scan`, the function that specifies `read_headers`.
  - The `Archive` class. Its `ReadHeaders` loop is proved to compute `Scan`,
    and its `Open` builds the `files` list.
  - The `File` class, whose `Read` is proved to return `Content`.
- `TarEncode` (`encode.dfy`): a reference writer used as the reader's
  partner.
  - It lays out members as a header block, the content, NUL padding, and a
    final pair of zero blocks.
  - Lemmas prove that `Scan` recovers every member in order, with its name
    and its content. `ExtractAll` proves the same through `Archive.Open`,
    `File#name` and `File#read`.

The source crashes in some places. These are modelled as `Error` values:

- `nt` on a field with no NUL (`value[0, nil]`) gives `UnterminatedName`.
- A second `io.read(512)` that returns nil (`Header.new(..., nil).name`)
  gives `MissingTerminator`.
- "Malformed header at position: `io.pos - 1024`" gives `MalformedHeader`.
  The position is the offset of the first of the two blocks.
- A first block shorter than 512 bytes gives `ShortBlock`. What the source
  does with such a block is described case by case under "Left out".
- A short second block is read only for its name, as in the source:
  - an empty name ends the scan;
  - a named one is reported at `io.pos - 1024`, which then lies before the
    first block and may be negative.

`Archive.new` either raises or returns an archive. The model therefore writes
it as the static method `Archive.Open`, which returns a `Result`.

Where the behaviour is open to question, the model follows the code:

- `File#read` of a truncated entry returns the bytes that remain. It is not
  an error.
- `String#oct` is permissive. Leading whitespace is skipped, then the longest
  run of octal digits is read, and no digits reads as 0. A field with
  garbage in it therefore decodes to a number rather than failing.
- `nt` of a field without a NUL is the crash above. It does not return the
  whole field.

## Model

| member | source | states |
|---|---|---|
| TarFields.FirstNul | tar.rb:134 | `String#index("\x00")`: `None` exactly when there is no NUL; otherwise the index of a NUL with none before it |
| TarFields.NullTerminated | tar.rb:133-134 | `Some` exactly when the field holds a NUL; the result is the prefix before the first NUL; it is empty exactly when the field starts with NUL |
| TarFields.NullTerminatedText | tar.rb:133-134 | text without NUL, followed by NUL and anything, decodes to exactly that text |
| TarFields.Oct | tar.rb:96 | the model's `String#oct` (whitespace, then octal digits) of a field of `k` bytes is below `8^k` |
| TarFields.OctOfBlank | tar.rb:96 | a field starting with NUL reads as 0 |
| TarFields.OctRoundTrip | tar.rb:96 | whitespace, then `n` written as `k` zero-padded octal digits, then a non-digit or the end, reads back as `n` |
| TarFields.ReadOctalBound | tar.rb:96 | every digit read multiplies the bound on the value by 8 |
| TarFields.ReadOctalAppend | tar.rb:96 | reading a run of digits and then what follows is the same as reading what follows from the run's value |
| TarFields.ReadOctalDigits | tar.rb:96 | the digits of `n` read back as `n` |
| TarFields.SkipSpaceOf | tar.rb:96 | skipping whitespace drops exactly the leading whitespace |
| TarHeader.FieldsInBlock | tar.rb:83-130 | every field range lies inside the first 500 bytes of the block |
| TarHeader.Text | tar.rb:83-85 | `name`, `linkname`, `magic`, `uname`, `gname`: `Some` exactly when the field's own range holds a NUL; the result is the prefix before it, holds no NUL, and is empty exactly when the range starts with NUL |
| TarHeader.Number | tar.rb:95-97 | `mode` through `prefix`: a field whose first byte is NUL, such as a zero block's, reads as 0 |
| TarHeader.NumberBound | tar.rb:86-130 | in the model, a numeric field is below 8 to the power of its width |
| TarHeader.TextLocality | tar.rb:83-121 | a text field depends only on the bytes of its own range |
| TarHeader.NumberLocality | tar.rb:86-130 | a numeric field depends only on the bytes of its own range |
| TarHeader.NumberRoundTrip | tar.rb:86-130 | a field holding whitespace, then `n` as zero-padded octal, then NUL, whitespace or nothing, decodes to `n` |
| Tar.ReadAt | tar.rb:34 | Ruby's `IO#read(n)`: `n == 0` gives the empty string even at the end; nil exactly when `n > 0` and nothing remains; otherwise the next `min(n, rest)` bytes |
| Tar.Stream.Read | tar.rb:34 | the read returns `ReadAt` at the old position and moves the position past the bytes returned |
| Tar.Blocks | tar.rb:45 | `(size / 512.0).ceil` is the least number of blocks holding `size` bytes |
| Tar.Padded | tar.rb:45 | the skip is block-aligned, at least `size` and less than `size + 512`, and zero exactly when `size` is zero |
| Tar.Next | tar.rb:44-46 | the next block is read past `pos`; for a size-0 entry it is read at `pos` itself |
| Tar.LeadingName | tar.rb:38-39 | `.name` of a block that may be short is `nt` of its first 100 bytes; for a whole block that is the name field |
| Tar.Terminator | tar.rb:37-40 | the second-block check succeeds only with no headers |
| Tar.Scan | tar.rb:32-48 | the headers one forward pass from `at` keeps, or the error it raises; stated by the `Scan*` lemmas below |
| Tar.ScanCases | tar.rb:34-40 | at the end of the source the scan is empty; a short first block ends it with `ShortBlock`; for a whole block, an unterminated name and an empty name each end the scan as the source does |
| Tar.ScanKeeps | tar.rb:36-46 | a full block with a non-empty name is kept with `pos` one block past its start, and the scan goes on at `Next` of it, strictly closer to the end |
| Tar.KeepStep | tar.rb:42-46 | keeping a header after those already kept does not change the final result of the scan |
| Tar.ScanBlocks | tar.rb:36-42 | every kept header is the whole block just before its `pos`, and its name is terminated and not empty |
| Tar.ScanChain | tar.rb:34-46 | the first header's `pos` is one block past the start; each next header block starts where the previous entry's padded content ends |
| Tar.ScanAfter | tar.rb:34-36 | every header's `pos` lies past the block where the scan started |
| Tar.ScanIncreasing | tar.rb:42-46 | header offsets strictly increase, in physical order |
| Tar.AlignedNext | tar.rb:44-46 | from an aligned block, both `pos` and the next read position are block-aligned |
| Tar.ScanAligned | tar.rb:44-46 | for a scan started on a block boundary, every header's `pos` is block-aligned |
| Tar.ScanAtEnd | tar.rb:34-35 | at or past the end of the source the scan gives no headers and no error; an empty source has none |
| Tar.ScanStopsAtTerminator | tar.rb:37-39 | two empty-name blocks end the scan without error, also when the second is a short final block |
| Tar.ScanRejectsShortNamedBlock | tar.rb:38-40 | an empty-name block followed by a short final block with a name raises "Malformed header" at `io.pos - 1024`, the source length minus 1024 |
| Tar.ScanRejectsLoneEmptyBlock | tar.rb:40 | an empty-name block followed by a named block raises "Malformed header" at the first block's offset |
| Tar.ScanRejectsTrailingEmptyBlock | tar.rb:38-39 | an empty-name block that ends the source makes `.name` on the nil read raise |
| Tar.Content | tar.rb:58-62 | `File#read` gives the source bytes from `pos`, `min(size, rest)` of them; a size-0 entry gives the empty string, and nil comes only from a positive size at or past the end |
| Tar.ContentIs | tar.rb:58-62 | when the source holds `c` at `pos` and the size field reads `|c|`, `File#read` gives `c` |
| Tar.Archive.constructor | tar.rb:9-11 | the first step of `Archive.new`: a fresh stream over the source at position 0, with no headers and no files yet |
| Tar.Archive.Open | tar.rb:9-15 | `Archive.new` raises exactly the scan's error; otherwise `headers` is the scan of the whole source, and `files` wraps them one for one, in order |
| Tar.Archive.ReadHeaders | tar.rb:32-48 | the loop leaves `headers` equal to the scan's result from the starting position, or returns the scan's error |
| Tar.Archive.ReadEntry | tar.rb:34-46 | one pass of the loop body: it stops only where the scan would give no more headers, fails with the scan's error, or keeps a header and moves forward without changing the final result |
| Tar.Archive.ReadTerminator | tar.rb:38-40 | the second read, computing the error positions from `io.pos` as the source does, agrees with `Terminator`: success exactly when it succeeds, and the same error otherwise |
| Tar.Archive.WrapHeaders | tar.rb:14 | `files` has one fresh `File` per header, in order, each pointing to this archive and to `headers[i]` |
| Tar.File.constructor | tar.rb:53-56 | a file holds its archive and its header |
| Tar.File.Name | tar.rb:68-70 | `File#name` is the header's name |
| Tar.File.Read | tar.rb:58-62 | `File#read` returns `Content` of the header, so repeated calls agree; only the shared position changes, and it ends past the bytes read |
| Tar.FilesOfArchive | tar.rb:14 | each file of an opened archive has a non-empty name, and its header is the block just before its content |
| TarEncode.SameBlock | tar.rb:36 | the name and size of a header depend on its block, not on where it was read |
| TarEncode.ScanKeepsSized | tar.rb:36-46 | a kept block of size `size` sends the scan to `pos + Padded(size)` |
| TarEncode.ScanMember | tar.rb:34-62 | a member whose block has a non-empty name and a size field equal to its content's length is kept, its content reads back, and the scan goes on after its padding |
| TarEncode.ScanLayout | tar.rb:32-48 | scanning a laid-out archive succeeds, with one header per member, in order, carrying the member's block, and `File#read` on each gives its content |
| TarEncode.HeaderBlockName | tar.rb:83-85 | the block written for an entry decodes to the entry's name |
| TarEncode.HeaderBlockSize | tar.rb:95-97 | the block written for an entry decodes to the size of its content |
| TarEncode.WrittenSound | tar.rb:37-46 | a written entry is a member the scan keeps |
| TarEncode.WrittenNames | tar.rb:68-70 | headers that carry the written blocks carry the entries' names |
| TarEncode.WrittenContents | tar.rb:58-62 | headers that carry the written members' contents carry the entries' contents |
| TarEncode.WrittenAllSound | tar.rb:37-46 | every written entry is kept |
| TarEncode.EncodeRoundTrip | tar.rb:32-48 | reading an encoded archive gives one header per entry, in order, with the entry's name and content |
| TarEncode.ReadAll | tar.rb:58-70 | reading every file in `files` order gives each header's name and `Content` |
| TarEncode.ExtractAll | tar.rb:9-15 | opening an encoded archive and reading every file gives back exactly the entries' names and contents, in order |

## Left out

- Source selection in `io` (tar.rb:22-30) is not modelled; the model takes the bytes directly. The source has a quirk here: a data string of 1024 bytes or fewer is opened as a file path.
- `p h.name` (tar.rb:43) is console output.
- The `inspect` methods (tar.rb:17-19, 64-66) only format object hashes.
- Blocks: the float `(size / 512.0).ceil` is modelled as integer ceiling division. The two agree for any size a double represents exactly.
- Oct: the extras of `String#oct` are not modelled. These are a sign, the `0x`/`0b`/`0o` prefixes after a leading `0`, and underscores. With them, Ruby reads `"0x1F"` as 31, where the model reads 0. A 12-byte field holding `0xFFFFFFFFFF` reads as 2^40 - 1, which is above 8^12. A leading `-` gives a negative size. The source then skips no content (tar.rb:44), and `io.read` of a negative length raises in `File#read` (tar.rb:61). So the bounds in `Oct` and `NumberBound` hold of the model only, not of Ruby. Headers whose numeric fields are plain octal digits never use these extras.
- Scan: a short first block of `d` bytes (0 < d < 512) always ends the model's scan with `ShortBlock`. The source reads only `nt(data[0, 100])` at first.
  - If the name has no NUL, `nt` raises, as for `UnterminatedName`.
  - If the name is empty, the second read is nil and `.name` on it raises, as for `MissingTerminator`.
  - If the name is non-empty, the header is appended (tar.rb:42). Then `h.size` is `data[124, 12].oct`. When `d < 124` that slice is nil and `.oct` raises. When `d >= 124` the header is kept with a partial block and the scan ends at the next read, without error.

  A `Header` holds a whole block, so the model does not keep that partial header.
- File.Read: the `instance_eval` reach into the archive's `@io` (tar.rb:59) becomes a field of the archive that the file reads.
- Concurrency, meaning interleaved reads through the one shared position, is not modelled.
- Number: the contract only holds the zero-field case, and the bound is the separate lemma `NumberBound`. This keeps the frequently unfolded function cheap.
