# Android boot image unpacker, modelled in Dafny

This project models the boot image unpacker in `scripts/unpack_boot.py`. It
reads an Android boot image: a header in the v0/v1/v2 layout of AOSP's
`bootimg.h`, followed by the kernel, the ramdisk and an optional second-stage
blob (often a DTB). The unpacker checks the `ANDROID!` magic and decodes ten
little-endian 32-bit header words. It splits the packed OS version word into
version and patch level, and takes the command line from its 512-byte window.
It then places the three payloads on page boundaries after the header page,
and reads each payload whose size is not zero. It writes each payload to its
own file, plus a `boot_params.txt` summary.

The image is an immutable `seq<byte>`. A seek followed by a read becomes a
slice clamped to the image, as Python's file reads and slices are.

- `wrappers.dfy`: `Option` and `Result`.
- `bytes.dfy` (module `Bytes`): bytes, 32-bit words, little-endian decoding
  and its inverse, Python slice semantics.
- `bootimage.dfy` (module `BootImage`): the header record, the magic check,
  word decoding, the OS version and patch level fields, the command line, and
  a reference encoder for the header used in round-trip lemmas.
- `layout.dfy` (module `Layout`): `align` and the payload offsets.
- `summary.dfy` (module `Summary`): the lines of `boot_params.txt`, with
  decimal, two-digit and `0x%08x` formatting.
- `extract.dfy` (module `Extract`): the whole run. `ExtractImage` is the
  specification function. `UnpackBootImage` is the straight-line procedure
  with early error returns. It produces the payload files as a map from file
  to contents, plus the summary lines.

Three failure points are explicit `UnpackError`s, checked in the source's
order:
- `BadMagic`: the first 8 bytes are not `ANDROID!`, which includes files
  shorter than 8 bytes. The source returns False here.
- `TruncatedHeader`: the magic is right but the file ends before byte 48.
  The source's `struct.unpack` raises here.
- `ZeroPageSize`: the page size is 0. The source's `align` divides by zero
  here.

The model follows the code where a reader might expect otherwise:
- A header shorter than 1648 bytes is not an error by itself. Only the 48
  bytes of words are needed, and the command line window is cut short by a
  shorter file.
- A payload that runs past the end of the file yields the bytes that exist,
  not an error.

## Model

| member | source | states |
|---|---|---|
| `Bytes.LittleEndian` | scripts/unpack_boot.py:27-38 | a little-endian byte string denotes a value below 256^n for n bytes |
| `Bytes.U32At` | scripts/unpack_boot.py:27-38 | the word at offset `at` is b0 + 256·b1 + 65536·b2 + 16777216·b3 of the four bytes there, so it lies in [0, 2^32) |
| `Bytes.DecodeEncode` | scripts/unpack_boot.py:27-38 | reading back the four little-endian bytes of a word gives the word |
| `Bytes.EncodeDecode` | scripts/unpack_boot.py:27-38 | any four bytes are the little-endian encoding of the word they decode to |
| `Bytes.Slice` | scripts/unpack_boot.py:69-70 | a read of `size` bytes after a seek to `lo` yields min(lo+size, len) − lo bytes (none at or past the end), each the image byte at its position |
| `Bytes.SliceInBounds` | scripts/unpack_boot.py:69-70 | inside the image, the read is exactly `image[lo..hi]` |
| `BootImage.ReadHeader` | scripts/unpack_boot.py:18 | the header is a prefix of the image, 1648 bytes long or the whole of a shorter image |
| `BootImage.DecodeHeader` | scripts/unpack_boot.py:20-44 | fails with `BadMagic` (carrying the bytes found) exactly when the first 8 bytes are not `ANDROID!`, with `TruncatedHeader` exactly when the magic is right but there are fewer than 48 bytes, and otherwise succeeds with each field equal to the word at its fixed offset 8, 12, …, 44 and the command line of the image |
| `BootImage.DecodeHeaderPrefix` | scripts/unpack_boot.py:18-44 | two images that agree on their first 1648 bytes decode to the same header |
| `BootImage.UntilZero` | scripts/unpack_boot.py:44 | the result is a prefix of the input with no zero byte, followed in the input by a zero byte unless it is the whole input |
| `BootImage.UntilZeroUnique` | scripts/unpack_boot.py:44 | that prefix is unique: any zero-free prefix that ends at a zero byte or at the end is the result |
| `BootImage.Cmdline` | scripts/unpack_boot.py:44 | the command line is a prefix of the window at 64..576, contains no zero byte, is at most 512 bytes, and stops only at a zero byte or at the end of the window |
| `BootImage.CmdlineWholeWindow` | scripts/unpack_boot.py:44 | a window without a zero byte is taken whole |
| `BootImage.CmdlineOfPrefix` | scripts/unpack_boot.py:44 | reading only the 1648-byte header does not change the command line |
| `BootImage.OsVersionAsWritten` | scripts/unpack_boot.py:39 | the source's `(v >> 11) & 0x7F` lies in 0..127 |
| `BootImage.Header.OsVersion` | scripts/unpack_boot.py:39 | the OS version the unpacker reports is the source's bits 11 to 17 reading of the packed word, in 0..127 |
| `BootImage.MajorVersion` | scripts/unpack_boot.py:39 | the corrected OS version `(v >> 25) & 0x7F` lies in 0..127 |
| `BootImage.PatchYearOf` | scripts/unpack_boot.py:40 | `((v >> 4) & 0x7F) + 2000` lies in 2000..2127 |
| `BootImage.PatchMonthOf` | scripts/unpack_boot.py:41 | `v & 0x0F` lies in 0..15; it is not checked against 1..12 |
| `BootImage.UnpackPackOsVersion` | scripts/unpack_boot.py:38-41 | for the word `bootimg.h` packs from version a.b.c and patch level year-month, the decoders give back a, year and month, and the source's expression gives c |
| `BootImage.MisreadsVersion` | scripts/unpack_boot.py:39 | Android 11.0.0 with patch level 2021-05 packs to 369099093, which the source reports as OS version 0 where the major version is 11 |
| `BootImage.DecodeOsVersionExample` | scripts/unpack_boot.py:38-41 | the word 0x12345678 gives major version 9 (the source: 10), patch year 2103 and month 8 |
| `BootImage.EncodeHeader` | scripts/unpack_boot.py:17-18 | the reference layout of a header is 1648 bytes long |
| `BootImage.DecodeEncodeHeader` | scripts/unpack_boot.py:21-44 | decoding an encoded header whose command line fits its window without a zero byte gives back the header |
| `Layout.Align` | scripts/unpack_boot.py:57-58 | for a page size p > 0, `align(n, p)` is a multiple of p, at least n and less than n + p |
| `Layout.AlignZero` | scripts/unpack_boot.py:57-58 | `align(0, p) == 0` |
| `Layout.AlignIsLeast` | scripts/unpack_boot.py:57-58 | `align(n, p)` is the least multiple of p that is at least n |
| `Layout.AlignIdempotent` | scripts/unpack_boot.py:57-58 | `align(align(n, p), p) == align(n, p)` |
| `Layout.Locate` | scripts/unpack_boot.py:60-62 | the kernel starts at `page_size`; all three offsets are multiples of the page size; each region starts at or after the end of the previous one, with less than a page of padding between them |
| `Layout.LocateOrdered` | scripts/unpack_boot.py:60-62 | `page_size == kernel_offset <= ramdisk_offset <= second_offset` |
| `Layout.LocateIsCumulativeAlign` | scripts/unpack_boot.py:60-62 | `ramdisk_offset == page_size + align(kernel_size)` and `second_offset == ramdisk_offset + align(ramdisk_size)` |
| `Layout.LocateExample` | scripts/unpack_boot.py:60-62 | page size 2048, kernel 5000 bytes and ramdisk 100 bytes give offsets 2048, 8192 and 10240 |
| `Summary.Digits` | scripts/unpack_boot.py:97-100 | a number is written as at least one decimal (or hex) digit, without a leading zero, that reads back as the number |
| `Summary.DigitsLength` | scripts/unpack_boot.py:101-104 | a number below base^k takes at most k digits |
| `Summary.ZeroFill` | scripts/unpack_boot.py:99-104 | zero fill pads on the left with '0' up to the width and keeps the digits |
| `Summary.ValueZeroFill` | scripts/unpack_boot.py:99-104 | zero fill does not change the value the digits denote |
| `Summary.TwoDigits` | scripts/unpack_boot.py:99 | `{month:02d}` is exactly two decimal digits that read back as the month |
| `Summary.PatchLevel` | scripts/unpack_boot.py:99 | the patch level is 7 characters: four decimal digits that read back as the year, `-`, and two decimal digits that read back as the month |
| `Summary.Address` | scripts/unpack_boot.py:101-104 | `0x{v:08x}` is `0x` followed by exactly 8 lower-case hex digits that read back as the 32-bit value |
| `Summary.Line` | scripts/unpack_boot.py:97-105 | a `Label: value` line gives back its value for its label |
| `Summary.ParamsLines` | scripts/unpack_boot.py:96-105 | nine lines; header version, OS version (as the source reads it) and page size in decimal without leading zeros; the patch level; the four addresses in `0x%08x` form; and the decoded command line, each after its label |
| `Summary.SummaryMisreadsVersion` | scripts/unpack_boot.py:98 | for Android 11.0.0 with patch level 2021-05 the "OS Version" line shows 0, not the major version 11 |
| `Extract.FileNamesDistinct` | scripts/unpack_boot.py:71-95 | `kernel`, `ramdisk.cpio.gz`, `dtb` and `boot_params.txt` are four different files, so no write overwrites another |
| `Extract.ReadRegion` | scripts/unpack_boot.py:67-92 | a region is read exactly when its size is > 0; it yields `image[offset..offset+size]` inside the image, the rest of the image when it runs past the end, and nothing when it starts past the end |
| `Extract.ExtractImage` | scripts/unpack_boot.py:16-92 | fails exactly when the header does not decode or the page size is 0, with that error; otherwise the regions are those of `Locate` for the header's page size and sizes: the kernel starts at the page size, the regions are page aligned, in order and non-overlapping, and each payload is the read of its region |
| `Extract.PayloadFiles` | scripts/unpack_boot.py:67-92 | a payload file exists exactly for each present payload and holds its bytes |
| `Extract.WritePayloads` | scripts/unpack_boot.py:67-92 | the three extraction steps write each file whose region is present, with its read bytes |
| `Extract.UnpackBootImage` | scripts/unpack_boot.py:10-108 | the run fails exactly when the extraction does, with the same error and no output; otherwise its files are the payload files of the extraction and its summary is the lines of `boot_params.txt` for the decoded header |
| `Extract.PadToPage` | scripts/unpack_boot.py:57-62 | a payload padded to whole pages is `align(size)` bytes long |
| `Extract.ExtractAssembled` | scripts/unpack_boot.py:16-92 | unpacking an image laid out as `bootimg.h` describes returns its header and exactly the kernel, ramdisk and second payloads put in, each absent when empty |
| `Extract.UnpackExample` | scripts/unpack_boot.py:60-92 | with page size 2048, a 5000-byte kernel, a 100-byte ramdisk and no second payload, the kernel is read at 2048, the ramdisk at 8192, and no `dtb` is produced |
| `Extract.BadMagicProducesNothing` | scripts/unpack_boot.py:20-24 | an image without the magic, including one shorter than 8 bytes, yields `BadMagic` with the bytes found and nothing else |

## Findings

| source | as written | input that shows it | evidently intended | confidence | as-written member | corrected member |
|---|---|---|---|---|---|---|
| scripts/unpack_boot.py:39 | "OS Version" is `(v >> 11) & 0x7F`, which is bits 11–17. `bootimg.h` packs version A.B.C as A·2^25 + B·2^18 + C·2^11 plus the patch level, so those bits hold C, the last component | Android 11.0.0 with patch level 2021-05 packs to 0x16000155; the source reports OS version 0 | the major version A in bits 25–31, `(v >> 25) & 0x7F`, which reads 11 | medium, not executed | `BootImage.MisreadsVersion` (on `BootImage.OsVersionAsWritten`) | `BootImage.UnpackPackOsVersion` (on `BootImage.MajorVersion`) |

The header's `OsVersion()` and the "OS Version" summary line keep the
source's expression, `OsVersionAsWritten`, so the modelled run writes what the
code writes; `SummaryMisreadsVersion` shows the line that results.
`MajorVersion` is the corrected reading, and `UnpackPackOsVersion` proves it
recovers the major version of every packed word.

## Left out

- Opening the image, creating the output directory, writing the output files
  and printing the diagnostics to standard output are not modelled. The model
  gives the contents of each file instead: the payload map and the summary
  lines. Each summary line is written followed by a newline.
- The command-line arguments, the check that the input file exists and the
  process exit status are process plumbing and are not modelled.
- The permissive UTF-8 decoding of the command line is not modelled. The
  header keeps the command line as bytes. `UnpackBootImage` takes the
  decoding as a parameter `decodeText`.
- I/O failures while reading or writing are not modelled. The image is a
  value that is already in memory.
- The source returns False on a bad magic but raises an exception for a
  short header or a zero page size. The model reports all three as
  `UnpackError` values. It does not model that the summary was already
  printed before the division by zero.
- Header fields the unpacker never reads are not decoded: the name at byte
  48, the extra command line, and the v1/v2 fields after byte 576.
  `EncodeHeader` writes them as zeros.
- Repacking an image and validating payload contents are not part of the
  source. `EncodeHeader` and `Assemble` are ghost reference layouts, used
  only to state round trips.
- Python integers are unbounded, so offsets are `nat` without wrap-around,
  as in the source.
