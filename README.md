# FileSearch in Dafny

`FileSearch` (library/FileSearch.php) is an on-disk lookup table for text
files whose lines have the form `<integer key>\t<payload>\n` and are sorted by
key. It has two parts:

- **The normaliser (`formatFile`).** It copies the source file into a cache
  file in which every line occupies a fixed-width record of `maxLength` bytes.
  Each record is the line cut to `maxLength` bytes and right-padded with NUL
  bytes.
- **The lookup (`search`).** It is a binary search over the record numbers
  of the cache. Each probe reads the record at byte offset
  `middle * maxLength` and splits it at its first tab. The part before the tab
  is compared with the query as a number. On a match, the lookup returns the
  text after the tab.

The constructor runs the normaliser when it is told to (`forceReForm`) or
when the cache file does not exist yet.

The model is organised as follows:

| file | module | what it holds |
|---|---|---|
| wrappers.dfy | `Wrappers` | `Option` |
| records.dfy | `Records` | Bytes, `pack("a<w>")` (`Pack`), `explode("\t", s, 2)` (`SplitTab`), the cache laid out record after record (`Format`), and the record read at `i * width` (`RecordAt`) |
| keys.dfy | `Keys` | How a key field compares with the integer query (`KeyOf`) |
| source_lines.dfy | `SourceLines` | What the `while (!feof) fgets` loop reads from the source file (`Reads`) |
| searcher.dfy | `Searcher` | The binary search loop (`BinarySearch`) with its loop invariant and the soundness and completeness proofs |
| index.dfy | `Index` | The disk as a `FileSystem` object holding a map from paths to bytes. The `FileSearch` class with its fields, constructor, `FormatFile` and `Search`. The normalising loop `Normalise` |
| example.dfy | `Example` | A three-line example file (keys 1, 5 and 9; 16-byte records), indexed and searched the way the usage comment at library/FileSearch.php:6-7 does; and an empty source file |

How the library behaves, followed here:

- **One record per newline, plus one.**
  - The end-of-file flag of a PHP stream is set only by a read that runs into
    the end of the file.
  - After a last line that ends with a newline, and at once for an empty file,
    the loop therefore runs once more.
  - That last `fgets` returns `false`, which `pack` writes as an all-NUL record.
  - A file of three newline-terminated lines gives four records. The fourth has
    key 0, which is out of order after larger keys.
  - The lookup still finds every key of the first three records (`Search`'s
    third postcondition). The last record is probed only once every other
    record has been ruled out.
- **The payload keeps everything after the tab.** `unpack("a*")` strips
  nothing, so a hit on `5\tbeta\n` with 16-byte records returns `beta\n`
  followed by nine NUL bytes.
- **The round trip.** Take a source whose lines each fit in a record, hold a
  tab and strictly ascend in key. Index it with `forceReForm` set, and search
  for the key of any of its lines. The lookup returns that line's text after
  the tab, followed by the record's NUL padding (`BuildAndLookup`). The
  source must not sit at the temporary path, which the rebuild empties
  before reading.
- **A key that no line has.** Searching the index of such a source for a key
  that none of its lines has returns `false` (`NotFound`), with one exception
  (`LookupAbsent`). When the source is empty or ends with a newline, the
  padding record after the last line is all NUL bytes. PHP 7 compares such a
  record's key with 0 as equal, so a search for 0 can hit that record and
  return `null` (`Found(None)`). For an empty source it does
  (`EmptySourceLookups`).
- **A record without a tab.** A matching record with no tab has no second
  part, and the library returns `null`. The model returns `Found(None)`.
- **A missing cache file.** `filesize` of a missing cache file is `false`,
  which divides to zero records, so the lookup returns `false` (`NotFound`).
- **A failed rebuild leaves a file behind.** The temporary file is opened (and
  so created or emptied) before the library checks whether the source could be
  opened. A failed rebuild therefore leaves an empty `<cache>_tmp` behind, and
  the old cache stays as it was.
- **The record count is rounded down.** PHP's `/` gives a float when the cache
  size is not a multiple of `maxLength`. `intval` of the midpoint then probes
  the same records as with the rounded-down record count. The model uses
  `|cache| / width`, so a partial trailing record is never read.

## Model

| member | source | states |
|---|---|---|
| Records.Nuls | library/FileSearch.php:54 | The padding is `count` bytes, all NUL |
| Records.Pack | library/FileSearch.php:54 | A record is exactly `width` bytes. Its first `min(|line|, width)` bytes are the line's, and the rest are NUL |
| Records.PackKeepsFittingLine | library/FileSearch.php:54 | A line that fits is kept whole, followed by `width - |line|` NULs |
| Records.SplitTab | library/FileSearch.php:77 | The key holds no tab. There is a second part iff the input has a tab. Without one the key is the whole input; with one, `key + TAB + rest` is the input |
| Records.SplitTabOfJoin | library/FileSearch.php:77 | Splitting `key + TAB + payload` with a tab-free key gives back exactly `key` and `payload` |
| Records.PackJoined | library/FileSearch.php:54 | Padding a joined line keeps its key, and the payload gains the NUL padding |
| Records.PackedFields | library/FileSearch.php:76-77 | A stored line with a tab splits into the line's own key and its payload plus the record's NUL padding |
| Records.Format | library/FileSearch.php:52-55 | The cache written for `n` chunks is `n * width` bytes long |
| Records.RecordInBounds | library/FileSearch.php:71-76 | Every record number below `size / width` is read entirely inside the cache |
| Records.RecordAt | library/FileSearch.php:75-76 | The `fseek`/`fread` at `i * width` stays inside the cache and yields `width` bytes |
| Records.RecordBytes | library/FileSearch.php:75-76 | Byte `k` of record `i` is cache byte `i * width + k` |
| Records.FormatAt | library/FileSearch.php:52-55 | Cache byte `i * width + k` is byte `k` of the record built from chunk `i` |
| Records.FormatRecord | library/FileSearch.php:52-55 | The cache holds one record per chunk, and record `i` read back is the record built from chunk `i` |
| Keys.LeadingDigits | library/FileSearch.php:78-80 | The longest all-digit prefix, equal to the whole field when the field is all digits |
| Keys.DecimalValue | library/FileSearch.php:78-80 | The value of a numeral of `n` digits is below `10^n` |
| Keys.KeyOf | library/FileSearch.php:78-80 | An all-digit field compares as its decimal value. A field starting with `-` compares as a number at most 0. An empty field, or one that starts with neither a sign nor a digit, compares as 0 |
| Keys.LeadingDigitsOf | library/FileSearch.php:78-80 | The digit run of a field is exactly the digits before its first non-digit |
| Keys.KeyOfNumeral | library/FileSearch.php:78-80 | A field made of digits followed by a non-digit tail compares as the digits' value ("12\n" as 12). With a leading `-` it compares as minus that value, and with a leading `+` as that value |
| Keys.NumericOrder | library/FileSearch.php:78-80 | Keys compare as numbers, not text: a shorter numeral without a leading zero is smaller ("9" before "10") |
| SourceLines.LineEnd | library/FileSearch.php:53 | `fgets` reads at least one byte and no newline but its last byte. It stops after a newline unless it reaches the end of the file |
| SourceLines.LineEndAtNewline | library/FileSearch.php:53 | A read from `pos` ends exactly after the first newline at or after `pos` |
| SourceLines.ReadsFrom | library/FileSearch.php:52-53 | From `pos` on, the loop reads at least one chunk and at most one more than the bytes left. Its first chunk is empty iff it starts at the end of the file |
| SourceLines.Reads | library/FileSearch.php:52-53 | The loop reads at least one chunk from the whole source, and at most one more than its size. The first chunk is empty iff the file is empty |
| SourceLines.ReadsFromConcat | library/FileSearch.php:52-53 | The chunks read from `pos` on, joined, are exactly the rest of the file |
| SourceLines.ReadsFromCount | library/FileSearch.php:52-53 | From `pos` on, the loop reads one chunk per remaining newline, plus one |
| SourceLines.ReadsFromShape | library/FileSearch.php:52-53 | Each chunk is one line, and all but the last end with a newline. The last is empty iff the rest is empty or the file ends with a newline |
| SourceLines.RecordCount | library/FileSearch.php:52-55 | A source file yields one record per newline, plus one |
| SourceLines.ReadsCoverSource | library/FileSearch.php:52-53 | The whole file is read, in order, with nothing lost or repeated. The all-NUL extra record appears iff the file is empty or ends with a newline |
| Searcher.BracketBelow | library/FileSearch.php:78-79 | When the probe's key is above the query, no matching record among the sorted ones lies at or above the probe |
| Searcher.BracketAbove | library/FileSearch.php:80-81 | When the probe's key is below the query, no matching record among the sorted ones lies at or below the probe. This also holds when the probe is the one unsorted last record |
| Searcher.NarrowRight | library/FileSearch.php:78-79 | `right := middle - 1` keeps the loop invariant |
| Searcher.NarrowLeft | library/FileSearch.php:80-81 | `left := middle + 1` keeps the loop invariant |
| Searcher.Exhausted | library/FileSearch.php:73-86 | Once `left > right`, no record covered by the invariant has the query key |
| Searcher.Count | library/FileSearch.php:71 | The record count is the number of whole records in the cache: `Count * width <= |cache| < (Count + 1) * width` |
| Searcher.KeyAt | library/FileSearch.php:76-78 | The key of record `i` is read from the whole record when it has no tab. Otherwise it is read from the bytes before the record's first tab |
| Searcher.ProbeFields | library/FileSearch.php:75-77 | The probe of record `i` reads cache bytes `i * width` to `i * width + width`. If they hold no tab, the whole record is the key and there is no payload. Otherwise, at the first tab `t` in that range, the key is read from the bytes before `t` and the payload is the bytes after `t` up to the record's end |
| Searcher.ProbeAmongSorted | library/FileSearch.php:73-85 | While the query key is among the sorted records, every probe lies among them, so a hit's payload comes from a sorted record |
| Searcher.BinarySearch | library/FileSearch.php:70-86 | Soundness: a returned payload is the after-tab part of a record whose key equals the query. Completeness: when the records are in key order and hold the query key, the search returns a value. When all but the last are in order and one of them holds the key, the search returns the payload of one of those. Every probe lies in `0 .. count-1`, and the loop terminates because `right - left` decreases |
| Index.TempPath | library/FileSearch.php:47 | The temporary file differs from the cache file |
| Index.Rebuilt | library/FileSearch.php:46-59 | The temporary file remains (emptied) iff the source is missing. With a source, the cache path holds the formatted source. Every other path, and the cache too when the source is missing, is unchanged |
| Index.CacheLayout | library/FileSearch.php:52-55 | The cache built from a source holds one record per newline plus one, and record `i` is the packed chunk `i` |
| Index.StoredLine | library/FileSearch.php:76-83 | The record of a stored line with a tab is stored under the line's own key, and its after-tab part is the line's payload followed by the NUL padding |
| Index.SortedLinesSortedRecords | library/FileSearch.php:73-85 | Lines in key order give records in key order, which is what the binary search needs |
| Index.RebuildIdempotent | library/FileSearch.php:40-60 | Rebuilding twice from an unchanged source leaves the same disk as rebuilding once |
| Index.Normalise | library/FileSearch.php:52-55 | The loop writes exactly `Format(Reads(src), width)`: one packed record per chunk read, in order |
| Index.FileSearch.constructor | library/FileSearch.php:25-35 | Stores the fields. It rebuilds the cache iff `forceReForm` is set or the cache file is absent; otherwise the disk is unchanged |
| Index.FileSearch.FormatFile | library/FileSearch.php:40-60 | Returns false iff the source is missing, leaving only the emptied temporary file. Otherwise the cache becomes the formatted source and the temporary file is gone |
| Index.FileSearch.CacheBytes | library/FileSearch.php:68 | The bytes of the cache file, and none when it is missing |
| Index.FileSearch.Search | library/FileSearch.php:66-87 | A missing cache, or one shorter than a record, finds nothing. Same soundness and both completeness forms as the binary search, over the cache file's bytes with the numeric key comparison |
| Index.LineCount | library/FileSearch.php:52-53 | The chunks holding lines: all of them but a trailing empty one, which exists iff the last chunk is empty |
| Index.LookupTarget | library/FileSearch.php:52-85 | In the cache of a source whose lines fit in a record, have a tab and strictly ascend in key, the line records are in key order. Line `i`'s record has line `i`'s key, and any line record with that key has line `i`'s payload plus the NUL padding after its tab |
| Index.PaddingRecord | library/FileSearch.php:52-55 | The record of a trailing empty chunk has no tab, and its key compares as 0 |
| Index.AbsentKey | library/FileSearch.php:76-80 | In the cache of an indexable source, a key that no line has is the key of a record iff it is 0 and the record is the padding record after the last line |
| Index.LookupAbsent | library/FileSearch.php:25-87 | Building the index of such a source and searching for a key no line has returns `NotFound`, unless the key is 0 and the source ends with a padding record, in which case the answer is `NotFound` or `Found(None)` |
| Index.BuildAndLookup | library/FileSearch.php:25-87 | Round trip: building the index of such a source and searching for the key of its line `i` returns `Found` with line `i`'s payload followed by `width - |line|` NULs |
| Example.ReadsLine | library/FileSearch.php:52-53 | A line that ends at its first newline is the next chunk the loop reads, and reading goes on right after it |
| Example.ExampleReads | library/FileSearch.php:52-53 | The three-line example file is read as its three lines and one empty chunk |
| Example.SingleDigitKey | library/FileSearch.php:78-80 | A one-digit key field compares as its digit's value |
| Example.DigitKeyedRecord | library/FileSearch.php:76-83 | A line "d\tpayload" is stored under key `d`, with its payload plus padding after the tab |
| Example.EmptyLastRecord | library/FileSearch.php:52-55 | The extra record has no tab and key 0 |
| Example.ExampleCache | library/FileSearch.php:52-55 | The example cache holds four records with keys 1, 5, 9 and 0. Record 1's payload is "beta\n" and nine NULs |
| Example.ExampleKeys | library/FileSearch.php:73-85 | Keys 1, 5, 9, 0: the first three are in order, 5 is only at record 1, and 7 is nowhere |
| Example.ExampleLookups | library/FileSearch.php:6-7 | Building the index of the example file and searching finds 5 (payload "beta\n" plus NULs) and 9, but not 7 |
| Example.EmptySourceLookups | library/FileSearch.php:52-83 | Indexing an empty source with 4-byte records gives one all-NUL record. A search for 0 returns `Found(None)`, the library's `null`, and a search for 1 returns `NotFound` |

## Left out

- The cache path. The library derives it from `dirname(__FILE__)` and the `md5` of the source name. It is given here as a constructor parameter.
- The progress messages the normaliser `echo`es.
- The sort of an unsorted source (`sorted == 0`). It is an empty branch in the library. `sorted` is stored, and sortedness is a hypothesis of the completeness postconditions.
- A failure to open the temporary file for writing. In the model that open always succeeds; only a missing source makes the normaliser fail.
- Reading and writing are modelled on whole byte sequences held in a map. The source's bytes are taken once both files are open. `fclose`, partial writes, I/O errors, concurrent writers and the atomicity of `rename` are not modelled.
- SourceLines.LineEnd: does not model the 8192-byte buffer of `fgets`. A line longer than 8191 bytes is read as one chunk here, but the library reads it as several chunks, each giving its own record.
- Keys.KeyOf: reads a field as its leading, optionally signed, decimal digits, as an unbounded integer. A digit run beyond PHP_INT_MAX, which PHP turns into a float and compares approximately, is not modelled; nor are leading whitespace, fractions, exponents and PHP 8's string comparison of non-numeric fields with an integer.
- The query is an integer. A string query, which PHP would compare as text with non-numeric fields, is not modelled.
- A `maxLength` of 0. In the library it divides by zero at line 71. Here the constructor requires a positive width.
