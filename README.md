# ppm: a verified model of the P3 image writer

The repository is a small Rust program (`src/main.rs`) that writes a raster
image buffer to a Netpbm "portable pixmap" file. Its one real function,
`save_as_ppm`, takes a buffer of packed 24-bit colours
(`0xRRGGBB`, one `usize` per pixel), a width and a height. It writes the
plain-text **P3** variant of the format:

- the header `P3\n<width> <height> 255\n`
- then one line `r g b\n` per pixel, with each channel in decimal and
  extracted by `(p >> 16) & 0xFF`, `(p >> 8) & 0xFF` and `p & 0xFF`.

`main` fills a 32 x 32 buffer with `0xFF00FF` and writes it out.

This project models that writer in Dafny and proves what it produces.

- `decimal.dfy` (module `Decimal`): `Format`, the decimal rendering that
  `format!("{}")` gives an unsigned integer. It comes with the reader that
  inverts it.
- `color.dfy` (module `Color`): channel extraction (`Red`, `Green`, `Blue`,
  `Unpack`) and its inverse `Pack`.
- `ppm.dfy` (module `Ppm`): the writer itself.
  - `SaveAsPpm` is an imperative method with the source's two nested loops.
    It appends each record to the output text.
  - That method is proved equal to the pure function `Expected`. `Expected`
    is the header followed by the records of the pixels, taken in the order
    the loops read them (`VisitOrder`).
  - The same file holds `main`'s scenario and the corrected writer
    described under Findings.
- `ppm_reader.dfy` (module `PpmReader`): a parser for exactly the text the
  writer produces. The round-trip lemmas prove that the written text parses
  back to the written width, height, maxval 255 and pixel channels.
- `wrappers.dfy`: the `Option` type.

The buffer is a Dafny `array<nat>` that `SaveAsPpm` only reads. The method
has no `modifies` clause, so the verifier guarantees that serialization never
changes the buffer (`pixels: &[usize]` in the source). The open file is
replaced by the returned string. `File::create` starts from an empty file,
so that string is the whole file content.

## Model

| member | source | states |
|---|---|---|
| `Decimal.Format` | src/main.rs:9 | a number is rendered as a non-empty string of decimal digits, with no leading zero unless the number is 0 |
| `Decimal.ValueOfFormat` | src/main.rs:9 | reading back the digits that `Format` writes gives the original number |
| `Decimal.FormatOfValue` | src/main.rs:12-15 | every canonical digit string (no leading zero) is the rendering of the number it denotes, so rendering is onto canonical digit strings |
| `Decimal.FormatInjective` | src/main.rs:12-15 | distinct numbers are rendered as distinct texts |
| `Decimal.ReadFieldOfFormat` | src/main.rs:9 | a rendered number followed by a separator that is not a digit reads back as that number and the remaining text |
| `Color.Red` | src/main.rs:13 | the red channel `(p >> 16) & 0xFF` is at most 255 |
| `Color.Green` | src/main.rs:14 | the green channel `(p >> 8) & 0xFF` is at most 255 |
| `Color.Blue` | src/main.rs:15 | the blue channel `p & 0xFF` is at most 255 |
| `Color.Unpack` | src/main.rs:13-15 | all three extracted channels lie in 0..255 |
| `Color.UnpackPack` | src/main.rs:13-15 | extracting the channels of `r*65536 + g*256 + b` gives back r, g and b when each is at most 255 |
| `Color.PackUnpack` | src/main.rs:13-15 | `r*65536 + g*256 + b` of the extracted channels is the pixel modulo 2^24, and it is the pixel itself for every value below 2^24 |
| `Ppm.SaveAsPpm` | src/main.rs:7-21 | the nested loops write exactly `Expected`: the header, then for y in 0..width and x in 0..height the record of `pixels[y*width + x]`; the buffer is only read |
| `Ppm.InnerStep` | src/main.rs:11-16 | one inner-loop step reads an index within the buffer and appends exactly that pixel's record to what has been written |
| `Ppm.BodyAppend` | src/main.rs:12-16 | writing one more pixel appends exactly its record to the text |
| `Ppm.VisitRowsAt` | src/main.rs:10-15 | after m outer passes the loops have read m*height indices, and the k-th of them is (k / height)*width + k % height |
| `Ppm.VisitOrderAt` | src/main.rs:10-15 | the whole read order has width*height entries, and its k-th entry is (k / height)*width + k % height |
| `Ppm.VisitStep` | src/main.rs:10-15 | the read at loop step (y, x) is entry y*height + x of the order and reads index y*width + x |
| `Ppm.IndexInBounds` | src/main.rs:13-15 | under the bounds condition the index read at every step (y, x) is inside the buffer |
| `Ppm.InBoundsReadsBelow` | src/main.rs:13-15 | under the bounds condition every entry of the read order is below the buffer length |
| `Ppm.OutOfBoundsLastRead` | src/main.rs:13-15 | without the bounds condition the last index read, (width-1)*width + (height-1), is outside the buffer, so the slice index panics |
| `Ppm.InBoundsIff` | src/main.rs:10-15 | the bounds precondition holds if and only if every index the loops read is below the buffer length |
| `Ppm.SquareVisitOrder` | src/main.rs:10-15 | when width == height the loops read every index 0 .. width*width-1 exactly once, in increasing order |
| `Ppm.OneWideVisitOrder` | src/main.rs:10-15 | a one-column buffer is read top to bottom, every index 0 .. height-1 once |
| `Ppm.RowMajorExactlyWhen` | src/main.rs:10-15 | the loops read every index 0 .. width*height-1 exactly once in increasing order if and only if width == height, width <= 1 or height == 0 |
| `Ppm.SquareExpected` | src/main.rs:9-16 | a square buffer of width*width pixels satisfies the bounds condition and is written as its header followed by every pixel's record in buffer order |
| `Ppm.BodyOfConstant` | src/main.rs:12-16 | a buffer holding one colour everywhere is written as that colour's record repeated once per pixel |
| `Ppm.ForegroundRecord` | src/main.rs:27 | the colour 0xFF00FF is written as the line `255 0 255\n` |
| `Ppm.MainHeader` | src/main.rs:9 | for the 32 x 32 buffer the header is `P3\n32 32 255\n` |
| `Ppm.MainScenario` | src/main.rs:24-29 | the 32 x 32 buffer of 0xFF00FF is written as `P3\n32 32 255\n` followed by 1024 lines `255 0 255\n` |
| `Ppm.WriteMainImage` | src/main.rs:23-30 | `main` builds the buffer, calls the writer and obtains exactly that text |
| `Ppm.SaveAsPpmRowMajor` | src/main.rs:10-16 | corrected loops (rows over height, columns over width) write the header and every pixel's record in row-major order, for every buffer of width*height pixels |
| `Ppm.RowMajorStep` | src/main.rs:11-16 | one step of the corrected inner loop reads the next pixel in row-major order and appends its record |
| `Ppm.NonSquareRepeatsAndSkips` | src/main.rs:10-15 | as written, a 2-wide, 3-high buffer has index 2 read twice and index 5 never read |
| `Ppm.NonSquarePanics` | src/main.rs:10-15 | as written, a 3-wide, 2-high buffer of the right length 6 has its first four reads inside the buffer, then reads index 6 at step 5 (and 7 last), so the slice index panics there |
| `PpmReader.ParsePpm` | src/main.rs:9-16 | the reader accepts a text only when it has exactly width*height records and no channel above maxval |
| `PpmReader.ReadRecordStep` | src/main.rs:12-15 | one record followed by more text reads as that pixel's three channels, then whatever the rest reads as |
| `PpmReader.ReadRecordsOfBody` | src/main.rs:10-16 | the written records read back as the channels of the pixels, one record per pixel and in the same order |
| `PpmReader.ParseFields` | src/main.rs:9 | a header of rendered numbers followed by valid records parses to that width, height, maxval and those samples |
| `PpmReader.ParseHeaderBody` | src/main.rs:9-16 | a header followed by width*height records parses to that width and height, maxval 255 and the pixels' channels |
| `PpmReader.SaveAsPpmRoundTrip` | src/main.rs:9-16 | the text written parses back to the written width and height, maxval 255 and exactly width*height pixel channels, taken from the indices the loops read |
| `PpmReader.RowMajorRoundTrip` | src/main.rs:9-16 | the corrected text parses back to the size, maxval 255 and every pixel's channels in row-major order |
| `PpmReader.RowMajorDeterminesColours` | src/main.rs:13-15 | two buffers with the same corrected text agree on every pixel's low 24 bits, so no colour information below 2^24 is lost |
| `PpmReader.NonSquareDiffers` | src/main.rs:10-15 | as written, the 2-wide, 3-high buffer 0..5 produces a text that differs from its row-major dump |

## Findings

| source | as written | input that shows it | evidently intended | confidence | as-written member | corrected member |
|---|---|---|---|---|---|---|
| src/main.rs:10-11 | the outer loop runs `y` over `0..width` and the inner loop runs `x` over `0..height`, while the index is `y * width + x` | width 2, height 3, buffer `[0,1,2,3,4,5]`: index 2 is written twice and index 5 never; width 3, height 2: the fifth read is index 6 of a 6-pixel buffer, and the program panics | `y` over `0..height` (rows) and `x` over `0..width` (columns), so that every pixel is written once in row-major order | not executed; high (the output is row-major exactly when width == height, width <= 1 or height == 0, as `Ppm.RowMajorExactlyWhen` proves, and `main` only uses a square image) | `Ppm.NonSquareRepeatsAndSkips`, `Ppm.NonSquarePanics`, `PpmReader.NonSquareDiffers` | `Ppm.SaveAsPpmRowMajor`, `PpmReader.RowMajorRoundTrip` |

`Ppm.SaveAsPpm` models the loops as written. The precondition `InBounds` is
exactly the condition under which they do not panic (`Ppm.InBoundsIff`).
`Ppm.SquareExpected` proves that the written and corrected texts are the same
for square buffers. So `main`'s 32 x 32 scenario is unaffected, and
`Ppm.WriteMainImage` uses the writer as written.

The program's design describes a binary **P6** file with raw RGB bytes. The
code writes the ASCII **P3** format, and a TODO at src/main.rs:5 only plans
P6. The model follows the code.

## Left out

- `File::create`, `file.write` and the `?` error propagation are not
  modelled. This is operating-system I/O. The written text is returned as a
  string, and I/O failures and partial writes are not represented. The source
  also ignores the byte count that `write` returns.
- The file name argument and the `println!("Created {}", file_path)`
  diagnostic are left out. They are side effects only.
- The `io::Result` that `main` ignores is not modelled.
- The panic on an out-of-range slice index is a precondition (`InBounds`), not
  an outcome. So the partial file written before such a panic is not modelled.
- Pixels are unbounded naturals, not 64-bit `usize`. Shift-and-mask is written
  as division and remainder, which gives the same channel for every unsigned
  value. `y * width + x` cannot overflow when it is inside the buffer.
- The binary P6 format and buffered writing exist only as TODOs
  (src/main.rs:5-6), so they are not modelled. The pattern generators
  (checkerboard, stripes, discs, circle outline) do not exist in the code at
  all.
- `BACKGROUND_COLOR` is declared in `main` but never used. It is kept as a
  constant only.
- `PpmReader.ParsePpm` reads exactly the layout the writer produces, with
  single separators and no comments. It is the writer's inverse, not a general
  P3 parser.
