/**
 * A three-line example file, "1\talpha\n", "5\tbeta\n" and "9\tgamma\n"
 * (keys 1, 5 and 9), indexed with 16-byte records and searched the way the
 * usage comment at the head of library/FileSearch.php does; and an empty
 * source file, which shows what the padding record answers.
 */
module Example {
  import opened Wrappers
  import opened Records
  import opened Keys
  import opened SourceLines
  import opened Searcher
  import opened Index

  const AlphaText: seq<byte> := [97, 108, 112, 104, 97, 10]   // "alpha\n"
  const BetaText: seq<byte> := [98, 101, 116, 97, 10]          // "beta\n"
  const GammaText: seq<byte> := [103, 97, 109, 109, 97, 10]    // "gamma\n"

  const Alpha: seq<byte> := [49, TAB] + AlphaText   // "1\talpha\n"
  const Beta: seq<byte> := [53, TAB] + BetaText     // "5\tbeta\n"
  const Gamma: seq<byte> := [57, TAB] + GammaText   // "9\tgamma\n"

  const Width: nat := 16

  /** The three lines, end to end. */
  const Source: seq<byte> :=
    [49, 9, 97, 108, 112, 104, 97, 10, 53, 9, 98, 101, 116, 97, 10, 57, 9, 103, 97, 109, 109, 97, 10]

  /** The example file: its three lines, end to end. */
  ghost predicate ExampleSource(src: seq<byte>) {
    |src| == 23 && src[0..8] == Alpha && src[8..15] == Beta && src[15..23] == Gamma
  }

  lemma SourceIsExample()
    ensures ExampleSource(Source)
  {
    assert Source[0..8] == Alpha;
    assert Source[8..15] == Beta;
    assert Source[15..23] == Gamma;
  }

  /** A line that ends at its first newline is the next chunk the loop reads. */
  lemma ReadsLine(src: seq<byte>, pos: nat, line: seq<byte>)
    requires pos + |line| <= |src| && src[pos..pos + |line|] == line
    requires |line| > 0 && line[|line| - 1] == LF && LF !in line[..|line| - 1]
    ensures ReadsFrom(src, pos) == [line] + ReadsFrom(src, pos + |line|)
  {
    var e := pos + |line|;
    forall k | pos <= k < e - 1
      ensures src[k] != LF
    {
      assert src[k] == line[k - pos] == line[..|line| - 1][k - pos];
    }
    LineEndAtNewline(src, pos, e);
    ReadsFromStep(src, pos);
  }

  /**
   * The file ends with a newline, so the reading loop gets the three lines
   * and then the empty chunk: the cache holds four records, not three.
   */
  lemma ExampleReads(src: seq<byte>)
    requires ExampleSource(src)
    ensures Reads(src) == [Alpha, Beta, Gamma, []]
  {
    ReadsLine(src, 0, Alpha);
    ReadsLine(src, 8, Beta);
    ReadsLine(src, 15, Gamma);
    assert ReadsFrom(src, 23) == [[]];
  }

  /** A single decimal digit is read as its own value. */
  lemma SingleDigitKey(d: byte)
    requires IsDigit(d)
    ensures KeyOf([d]) == (d - ZERO) as int
  {
    assert LeadingDigits([d]) == [d];
    assert DecimalValue([d]) == DecimalValue([]) * 10 + (d - ZERO) as nat;
  }

  /** A line made of one digit, a tab and a payload is stored with that digit's value as key. */
  lemma DigitKeyedRecord(lines: seq<seq<byte>>, width: nat, i: nat, d: byte, payload: seq<byte>)
    requires i < |lines| && lines[i] == [d, TAB] + payload && IsDigit(d) && |payload| + 2 <= width
    ensures Count(Format(lines, width), width) == |lines|
    ensures KeyAt(Format(lines, width), width, KeyOf, i) == (d - ZERO) as int
    ensures SplitTab(RecordAt(Format(lines, width), width, i)).rest == Some(payload + Nuls(width - |lines[i]|))
  {
    assert lines[i] == [d] + [TAB] + payload;
    SplitTabOfJoin([d], payload);
    StoredLine(lines, width, KeyOf, i);
    SingleDigitKey(d);
  }

  /** The extra record is all NUL bytes: no tab, and a key read as 0. */
  lemma EmptyLastRecord(lines: seq<seq<byte>>)
    requires |lines| == 4 && lines[3] == []
    ensures KeyAt(Format(lines, Width), Width, KeyOf, 3) == 0
    ensures SplitTab(RecordAt(Format(lines, Width), Width, 3)).rest == None
  {
    FormatRecord(lines, Width, 3);
    var last := Pack([], Width);
    assert last[0] == NUL;
    assert TAB !in last;
    assert LeadingDigits(last) == [];
  }

  /**
   * The keys of the four records are 1, 5, 9 and 0 (the all-NUL record);
   * the second record's payload is "beta\n" and nine NUL bytes.
   */
  lemma ExampleCache(lines: seq<seq<byte>>)
    requires |lines| == 4 && lines[0] == Alpha && lines[1] == Beta && lines[2] == Gamma && lines[3] == []
    ensures Count(Format(lines, Width), Width) == 4
    ensures KeyAt(Format(lines, Width), Width, KeyOf, 0) == 1
    ensures KeyAt(Format(lines, Width), Width, KeyOf, 1) == 5
    ensures KeyAt(Format(lines, Width), Width, KeyOf, 2) == 9
    ensures KeyAt(Format(lines, Width), Width, KeyOf, 3) == 0
    ensures SplitTab(RecordAt(Format(lines, Width), Width, 1)).rest == Some(BetaText + Nuls(9))
  {
    DigitKeyedRecord(lines, Width, 0, 49, AlphaText);
    DigitKeyedRecord(lines, Width, 1, 53, BetaText);
    DigitKeyedRecord(lines, Width, 2, 57, GammaText);
    EmptyLastRecord(lines);
  }

  /**
   * What the lookups need, for any cache whose four records have the keys 1,
   * 5, 9 and 0: the records before the last are in key order, 5 is the key
   * of record 1 only, and no record has key 7.
   */
  lemma ExampleKeys(cache: seq<byte>, width: nat, keyOf: seq<byte> -> int)
    requires width > 0 && Count(cache, width) == 4
    requires KeyAt(cache, width, keyOf, 0) == 1 && KeyAt(cache, width, keyOf, 1) == 5
    requires KeyAt(cache, width, keyOf, 2) == 9 && KeyAt(cache, width, keyOf, 3) == 0
    ensures SortedBelow(cache, width, keyOf, 3)
    ensures forall i :: 0 <= i < 4 ==> (KeyAt(cache, width, keyOf, i) == 5 <==> i == 1)
    ensures forall i :: 0 <= i < 4 ==> KeyAt(cache, width, keyOf, i) != 7
  {
    var keys := [1, 5, 9, 0];
    forall i | 0 <= i < 4
      ensures KeyAt(cache, width, keyOf, i) == keys[i]
    {
      if i == 0 {
      } else if i == 1 {
      } else if i == 2 {
      }
    }
  }

  /**
   * Used as the library's usage comment shows: build the index of the
   * example file with the constructor, then call `search`, here for 5, 7
   * and 9. 5 and 9 are found, 5 with "beta\n" and its NUL padding as
   * payload; 7 is not found.
   */
  method ExampleLookups() returns (five: Answer, seven: Answer, nine: Answer)
    ensures five == Found(Some(BetaText + Nuls(9)))
    ensures seven == NotFound
    ensures nine.Found?
  {
    var disk := new FileSystem(map["test.log" := Source]);
    var index := new FileSearch(disk, "test.log", Width, 1, "filecache/test.log", false);
    RebuiltFiles(map["test.log" := Source], "test.log", Width, "filecache/test.log");
    SourceIsExample();
    ExampleReads(Source);
    ghost var lines := Reads(Source);
    assert index.CacheBytes() == Format(lines, Width);
    ExampleCache(lines);
    ExampleKeys(Format(lines, Width), Width, KeyOf);
    five := index.Search(5);
    seven := index.Search(7);
    nine := index.Search(9);
  }

  /**
   * An empty source file, indexed with 4-byte records. The reading loop
   * gets only the empty chunk, so the cache holds one all-NUL record. PHP 7
   * compares "\0\0\0\0" with 0 as equal, so a search for 0 hits that record
   * and returns its missing second part (`null`). A search for 1 finds
   * nothing.
   */
  method EmptySourceLookups() returns (zero: Answer, one: Answer)
    ensures zero == Found(None)
    ensures one == NotFound
  {
    var empty: seq<byte> := [];
    var disk := new FileSystem(map["empty.log" := empty]);
    var index := new FileSearch(disk, "empty.log", 4, 1, "filecache/empty.log", true);
    ghost var lines := Reads(empty);
    ReadsFromStep(empty, 0);
    assert lines == [[]];
    assert index.CacheBytes() == Format(lines, 4);
    PaddingRecord(lines, 4);
    zero := index.Search(0);
    one := index.Search(1);
  }
}
