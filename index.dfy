/**
 * The `FileSearch` object: construction (which rebuilds the cache file
 * when asked to or when it is missing), the normaliser `formatFile` that
 * writes the cache through a temporary file, and `search`.
 */
module Index {
  import opened Wrappers
  import opened Records
  import opened Keys
  import opened SourceLines
  import opened Searcher

  type Path = string

  /** The temporary file the normaliser writes before renaming it into place. */
  function TempPath(cache: Path): (tmp: Path)
    ensures tmp != cache
  {
    cache + "_tmp"
  }

  /** The files on disk, by path. */
  class FileSystem {
    var files: map<Path, seq<byte>>

    constructor (initial: map<Path, seq<byte>>)
      ensures files == initial
    {
      files := initial;
    }
  }

  /**
   * The disk after the normaliser has run for `source` into `cache`:
   * opening the temporary file for writing creates or empties it even when
   * the source cannot be opened; if the source exists, its records are
   * written and the temporary file is renamed onto `cache`. This is the
   * specification `FileSearch.FormatFile` is proved against.
   */
  function Rebuilt(files: map<Path, seq<byte>>, source: Path, width: nat, cache: Path): (r: map<Path, seq<byte>>)
    ensures TempPath(cache) in r <==> source !in files
    ensures source !in files ==> r[TempPath(cache)] == []
    ensures source in files && source != TempPath(cache) ==> cache in r && r[cache] == Format(Reads(files[source]), width)
    ensures forall p :: p != TempPath(cache) && (p != cache || source !in files) ==>
      (p in r <==> p in files) && (p in files ==> r[p] == files[p])
  {
    var tmp := TempPath(cache);
    var afterOpen := files[tmp := []];
    if source !in files then afterOpen
    else afterOpen[cache := Format(Reads(afterOpen[source]), width)] - {tmp}
  }

  /**
   * A rebuild from an existing source puts the formatted source at the cache
   * path, removes the temporary file and leaves every other file alone.
   */
  lemma RebuiltFiles(files: map<Path, seq<byte>>, source: Path, width: nat, cache: Path)
    requires source in files && source != TempPath(cache)
    ensures Rebuilt(files, source, width, cache) == files[cache := Format(Reads(files[source]), width)] - {TempPath(cache)}
  {
  }

  /**
   * The cache built from a source: one record per chunk the reading loop
   * got, in order, record `i` at offset `i * width`; there are as many
   * records as newlines in the source, plus one.
   */
  lemma CacheLayout(src: seq<byte>, width: nat)
    requires width > 0
    ensures |Reads(src)| == CountLF(src) + 1
    ensures Count(Format(Reads(src), width), width) == |Reads(src)|
    ensures forall i :: 0 <= i < |Reads(src)| && i < Count(Format(Reads(src), width), width) ==>
      RecordAt(Format(Reads(src), width), width, i) == Pack(Reads(src)[i], width)
  {
    var lines := Reads(src);
    RecordCount(src);
    FormatRecord(lines, width, 0);
    forall i | 0 <= i < |lines|
      ensures RecordAt(Format(lines, width), width, i) == Pack(lines[i], width)
    {
      FormatRecord(lines, width, i);
    }
  }

  /**
   * A line that fits in a record and has a tab is stored so that its
   * record's key is the line's key and its payload is the line's payload
   * followed by the record's NUL padding: what a lookup of that key returns.
   */
  lemma StoredLine(lines: seq<seq<byte>>, width: nat, keyOf: seq<byte> -> int, i: nat)
    requires width > 0 && i < |lines| && |lines[i]| <= width && TAB in lines[i]
    ensures |Format(lines, width)| / width == |lines|
    ensures KeyAt(Format(lines, width), width, keyOf, i) == keyOf(SplitTab(lines[i]).key)
    ensures SplitTab(RecordAt(Format(lines, width), width, i)).rest
         == Some(SplitTab(lines[i]).rest.value + Nuls(width - |lines[i]|))
  {
    FormatRecord(lines, width, i);
    PackedFields(lines[i], width);
  }

  /**
   * Lines that fit in a record, each with a tab, in ascending key order give
   * records in ascending key order: the order binary search relies on.
   */
  lemma SortedLinesSortedRecords(lines: seq<seq<byte>>, width: nat, keyOf: seq<byte> -> int, m: nat)
    requires width > 0 && m <= |lines|
    requires forall i :: 0 <= i < m ==> |lines[i]| <= width && TAB in lines[i]
    requires forall i, j :: 0 <= i < j < m ==> keyOf(SplitTab(lines[i]).key) <= keyOf(SplitTab(lines[j]).key)
    ensures SortedBelow(Format(lines, width), width, keyOf, m)
  {
    var cache := Format(lines, width);
    forall i, j | 0 <= i < j < m && j < Count(cache, width)
      ensures KeyAt(cache, width, keyOf, i) <= KeyAt(cache, width, keyOf, j)
    {
      StoredLine(lines, width, keyOf, i);
      StoredLine(lines, width, keyOf, j);
    }
  }

  /** One pass of the reading loop: the first chunk's record, then the records of what follows it. */
  lemma FormatReadsStep(src: seq<byte>, pos: nat, width: nat)
    requires pos < |src|
    ensures var e := LineEnd(src, pos);
      Format(ReadsFrom(src, pos), width) ==
        Pack(src[pos..e], width) + if e == |src| && src[e - 1] != LF then [] else Format(ReadsFrom(src, e), width)
  {
    ReadsFromStep(src, pos);
    var e := LineEnd(src, pos);
    FormatCons(src[pos..e], if e == |src| && src[e - 1] != LF then [] else ReadsFrom(src, e), width);
  }

  /** The last pass of the reading loop, at the end of the file, stores one all-NUL record. */
  lemma FormatReadsEnd(src: seq<byte>, width: nat)
    ensures Format(ReadsFrom(src, |src|), width) == Pack([], width)
  {
    ReadsFromStep(src, |src|);
    FormatCons([], [], width);
  }

  /**
   * Rebuilding twice from an unchanged source leaves the same disk as
   * rebuilding once: the cache is byte-for-byte the same.
   */
  lemma RebuildIdempotent(files: map<Path, seq<byte>>, source: Path, width: nat, cache: Path)
    requires source != cache && source != TempPath(cache)
    ensures Rebuilt(Rebuilt(files, source, width, cache), source, width, cache) == Rebuilt(files, source, width, cache)
  {
    var once := Rebuilt(files, source, width, cache);
    assert source in once <==> source in files;
    if source in files {
      assert once[source] == files[source];
    }
  }

  lemma AppendAssoc(a: seq<byte>, b: seq<byte>, c: seq<byte>)
    ensures (a + b) + c == a + (b + c)
  {
  }

  /**
   * The reading loop of the normaliser: read chunk after chunk until the end-of-file
   * flag is set, and append each chunk packed to `width` bytes.
   */
  method Normalise(src: seq<byte>, width: nat) returns (out: seq<byte>)
    ensures out == Format(Reads(src), width)
  {
    ghost var all := Format(Reads(src), width);
    // What is written to the temporary file, in order.
    out := [];
    var pos, eof := 0, false;
    while !eof
      invariant pos <= |src|
      invariant !eof ==> out + Format(ReadsFrom(src, pos), width) == all
      invariant eof ==> out == all
      decreases |src| - pos + (if eof then 0 else 1)
    {
      var chunk: Option<seq<byte>>;
      // The records still to come after this pass.
      ghost var tail: seq<byte>;
      if pos == |src| {
        // Nothing is left: fgets returns false and the end-of-file flag is set.
        FormatReadsEnd(src, width);
        chunk, eof := None, true;
        tail := [];
      } else {
        var e := LineEnd(src, pos);
        FormatReadsStep(src, pos, width);
        chunk := Some(src[pos..e]);
        // The flag is set only when the read ran into the end of the file.
        eof := e == |src| && src[e - 1] != LF;
        pos := e;
        tail := if eof then [] else Format(ReadsFrom(src, pos), width);
      }
      var line := if chunk.Some? then chunk.value else [];
      AppendAssoc(out, Pack(line, width), tail);
      out := out + Pack(line, width);
    }
  }

  class FileSearch {
    const disk: FileSystem
    var filename: Path
    var maxLength: nat
    var sorted: int
    var formatFile: Path

    ghost predicate Valid()
      reads this
    {
      maxLength > 0
    }

    /** The cache file's bytes as `search` sees them: a missing file has size 0. */
    function CacheBytes(): (bytes: seq<byte>)
      reads this, disk
      ensures formatFile in disk.files ==> bytes == disk.files[formatFile]
      ensures formatFile !in disk.files ==> bytes == []
    {
      if formatFile in disk.files then disk.files[formatFile] else []
    }

    /**
     * `new FileSearch(filename, maxLength, sorted, forceReForm)`. The cache
     * path, which the library derives from a hash of `filename`, is given
     * as `formatFile`. The normaliser runs exactly when `forceReForm` is set
     * or the cache file does not exist; otherwise the disk is left as it was.
     */
    constructor (disk: FileSystem, filename: Path, maxLength: nat, sorted: int, formatFile: Path, forceReForm: bool)
      requires maxLength > 0
      modifies disk
      ensures Valid()
      ensures this.disk == disk && this.filename == filename && this.maxLength == maxLength
      ensures this.sorted == sorted && this.formatFile == formatFile
      ensures disk.files ==
        if forceReForm || formatFile !in old(disk.files)
        then Rebuilt(old(disk.files), filename, maxLength, formatFile)
        else old(disk.files)
    {
      this.disk := disk;
      this.filename := filename;
      this.maxLength := maxLength;
      this.sorted := sorted;
      this.formatFile := formatFile;
      new;
      if forceReForm || formatFile !in disk.files {
        var _ := FormatFile();
      }
    }

    /**
     * `formatFile()`: copy the source into the cache, one `maxLength`-byte
     * record per chunk read, through the temporary file. Returns false when
     * the source cannot be opened; the emptied temporary file stays behind.
     */
    method FormatFile() returns (ok: bool)
      requires Valid()
      modifies disk
      ensures ok == (filename in old(disk.files))
      ensures disk.files == Rebuilt(old(disk.files), filename, maxLength, formatFile)
    {
      // The sort of an unsorted source (sorted == 0) is an empty branch in the library.
      var tmp := TempPath(formatFile);
      var readable := filename in disk.files;
      disk.files := disk.files[tmp := []];
      if !readable {
        return false;
      }
      var out := Normalise(disk.files[filename], maxLength);
      // fclose, then rename the temporary file onto the cache path.
      disk.files := disk.files[formatFile := out] - {tmp};
      return true;
    }

    /**
     * `search($key)`: binary search of the cache file. A payload returned
     * belongs to a record whose key equals `key`; a record with that key is
     * found whenever the records are in key order (or all but the last
     * are, and the key is among them, which is then where the payload comes
     * from); a missing cache file, or one shorter than a record, finds nothing.
     */
    method Search(key: int) returns (r: Answer)
      requires Valid()
      ensures formatFile !in disk.files ==> r == NotFound
      ensures |CacheBytes()| < maxLength ==> r == NotFound
      ensures var cache, n := CacheBytes(), Count(CacheBytes(), maxLength);
        && (r.Found? ==>
              exists i :: 0 <= i < n && KeyAt(cache, maxLength, KeyOf, i) == key &&
                r.payload == SplitTab(RecordAt(cache, maxLength, i)).rest)
        && ((SortedBelow(cache, maxLength, KeyOf, n) &&
             exists i :: 0 <= i < n && KeyAt(cache, maxLength, KeyOf, i) == key)
            ==> r.Found?)
        && ((SortedBelow(cache, maxLength, KeyOf, n - 1) &&
             exists i :: 0 <= i < n - 1 && KeyAt(cache, maxLength, KeyOf, i) == key)
            ==> r.Found? &&
                exists j :: 0 <= j < n - 1 && KeyAt(cache, maxLength, KeyOf, j) == key &&
                  r.payload == SplitTab(RecordAt(cache, maxLength, j)).rest)
    {
      // filesize() of a missing file is false, which divides to 0 records.
      var cache := CacheBytes();
      r := BinarySearch(cache, maxLength, KeyOf, key);
      if |cache| < maxLength {
        NoRecords(|cache|, maxLength);
        assert !r.Found?;
      }
    }
  }

  /** The chunks that hold lines of the source: all but a trailing empty chunk. */
  function LineCount(lines: seq<seq<byte>>): (m: nat)
    ensures m <= |lines|
    ensures m < |lines| <==> |lines| > 0 && lines[|lines| - 1] == []
  {
    if |lines| > 0 && lines[|lines| - 1] == [] then |lines| - 1 else |lines|
  }

  /**
   * A source whose lines the index serves: every line fits in a record and
   * has a tab, and the keys strictly ascend from line to line. The record
   * after the last line, when the source is empty or ends with a newline,
   * is not a line; `LookupAbsent` says what it answers.
   */
  ghost predicate Indexable(lines: seq<seq<byte>>, width: nat) {
    && (forall i :: 0 <= i < LineCount(lines) ==> |lines[i]| <= width && TAB in lines[i])
    && (forall i, j :: 0 <= i < j < LineCount(lines) ==>
          KeyOf(SplitTab(lines[i]).key) < KeyOf(SplitTab(lines[j]).key))
  }

  /**
   * In the cache built from such a source, the records holding lines are in
   * key order, line `i`'s record has line `i`'s key, and it is the only one
   * among them that has it, so any hit for that key returns line `i`'s
   * payload and its padding.
   */
  lemma LookupTarget(lines: seq<seq<byte>>, width: nat, i: nat)
    requires width > 0 && Indexable(lines, width) && i < LineCount(lines)
    ensures Count(Format(lines, width), width) == |lines|
    ensures SortedBelow(Format(lines, width), width, KeyOf, LineCount(lines))
    ensures KeyAt(Format(lines, width), width, KeyOf, i) == KeyOf(SplitTab(lines[i]).key)
    ensures forall j :: 0 <= j < LineCount(lines) && KeyAt(Format(lines, width), width, KeyOf, j) == KeyOf(SplitTab(lines[i]).key) ==>
      SplitTab(RecordAt(Format(lines, width), width, j)).rest == Some(SplitTab(lines[i]).rest.value + Nuls(width - |lines[i]|))
  {
    var cache, m := Format(lines, width), LineCount(lines);
    StoredLine(lines, width, KeyOf, i);
    SortedLinesSortedRecords(lines, width, KeyOf, m);
    forall j | 0 <= j < m && KeyAt(cache, width, KeyOf, j) == KeyOf(SplitTab(lines[i]).key)
      ensures SplitTab(RecordAt(cache, width, j)).rest == Some(SplitTab(lines[i]).rest.value + Nuls(width - |lines[i]|))
    {
      StoredLine(lines, width, KeyOf, j);
      assert j == i;
    }
  }

  /**
   * The round trip the library exists for: index a source whose lines are
   * in strictly ascending key order and fit in a record, then look up the
   * key of any of its lines. The lookup returns that line's text after the
   * tab, followed by the record's NUL padding.
   */
  method BuildAndLookup(files: map<Path, seq<byte>>, filename: Path, width: nat, formatFile: Path, i: nat)
    returns (r: Answer)
    requires width > 0 && filename in files && filename != TempPath(formatFile)
    requires Indexable(Reads(files[filename]), width) && i < LineCount(Reads(files[filename]))
    ensures r == Found(Some(SplitTab(Reads(files[filename])[i]).rest.value + Nuls(width - |Reads(files[filename])[i]|)))
  {
    var disk := new FileSystem(files);
    var index := new FileSearch(disk, filename, width, 1, formatFile, true);
    var lines := Reads(files[filename]);
    assert index.CacheBytes() == Format(lines, width);
    LookupTarget(lines, width, i);
    r := index.Search(KeyOf(SplitTab(lines[i]).key));
  }

  /**
   * The record written for a trailing empty chunk (the read that returns
   * `false`) is all NUL bytes: it has no tab, and its key compares as 0.
   */
  lemma PaddingRecord(lines: seq<seq<byte>>, width: nat)
    requires width > 0 && |lines| > 0 && lines[|lines| - 1] == []
    ensures Count(Format(lines, width), width) == |lines|
    ensures KeyAt(Format(lines, width), width, KeyOf, |lines| - 1) == 0
    ensures SplitTab(RecordAt(Format(lines, width), width, |lines| - 1)).rest == None
  {
    FormatRecord(lines, width, |lines| - 1);
    var last := Pack([], width);
    assert last[0] == NUL;
    assert TAB !in last;
  }

  /**
   * In the cache of an indexable source, a key that no line has is the key
   * of no record, except 0, which is the key of the padding record after
   * the last line when there is one.
   */
  lemma AbsentKey(lines: seq<seq<byte>>, width: nat, key: int)
    requires width > 0 && Indexable(lines, width)
    requires forall i :: 0 <= i < LineCount(lines) ==> KeyOf(SplitTab(lines[i]).key) != key
    ensures Count(Format(lines, width), width) == |lines|
    ensures forall j :: 0 <= j < |lines| ==>
      (KeyAt(Format(lines, width), width, KeyOf, j) == key <==> j == LineCount(lines) && key == 0)
  {
    var cache := Format(lines, width);
    if |lines| > 0 {
      FormatRecord(lines, width, 0);
    }
    forall j | 0 <= j < |lines|
      ensures KeyAt(cache, width, KeyOf, j) == key <==> j == LineCount(lines) && key == 0
    {
      if j < LineCount(lines) {
        StoredLine(lines, width, KeyOf, j);
      } else {
        PaddingRecord(lines, width);
      }
    }
  }

  /**
   * Searching the index of an indexable source for a key that none of its
   * lines has finds nothing, with one exception. Comparing "\0..." with 0
   * holds in PHP 7, so when the source is empty or ends with a newline, a
   * search for 0 may hit the padding record and return its missing second
   * part (`null`, here `Found(None)`).
   */
  method LookupAbsent(files: map<Path, seq<byte>>, filename: Path, width: nat, formatFile: Path, key: int)
    returns (r: Answer)
    requires width > 0 && filename in files && filename != TempPath(formatFile)
    requires Indexable(Reads(files[filename]), width)
    requires forall i :: 0 <= i < LineCount(Reads(files[filename])) ==>
      KeyOf(SplitTab(Reads(files[filename])[i]).key) != key
    ensures key != 0 || LineCount(Reads(files[filename])) == |Reads(files[filename])| ==> r == NotFound
    ensures r == NotFound || r == Found(None)
  {
    var disk := new FileSystem(files);
    var index := new FileSearch(disk, filename, width, 1, formatFile, true);
    var lines := Reads(files[filename]);
    ghost var cache := Format(lines, width);
    assert index.CacheBytes() == cache;
    AbsentKey(lines, width, key);
    r := index.Search(key);
    if r.Found? {
      ghost var i :| 0 <= i < Count(cache, width) && KeyAt(cache, width, KeyOf, i) == key &&
        r.payload == SplitTab(RecordAt(cache, width, i)).rest;
      assert i == LineCount(lines) && key == 0;
      PaddingRecord(lines, width);
    }
  }
}
