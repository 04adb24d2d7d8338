/**
 * The lookup: a binary search over record indices of the cache, probing
 * the record at byte offset `middle * width`, splitting it at its first
 * tab and comparing the key part with the query.
 */
module Searcher {
  import opened Wrappers
  import opened Records

  /**
   * What a lookup returns: `false` (NotFound), or the text after the first
   * tab of the matching record, NUL padding included; `Found(None)` is the
   * `null` returned for a matching record with no tab.
   */
  datatype Answer = NotFound | Found(payload: Option<seq<byte>>)

  /** The number of whole records in the cache (`filesize / maxLength`). */
  function Count(cache: seq<byte>, width: nat): (n: nat)
    requires width > 0
    ensures n * width <= |cache| < n * width + width
  {
    |cache| / width
  }

  /** The key of record `i`, as the comparison sees it. */
  function KeyAt(cache: seq<byte>, width: nat, keyOf: seq<byte> -> int, i: nat): (k: int)
    requires width > 0 && i < Count(cache, width)
    ensures TAB !in RecordAt(cache, width, i) ==> k == keyOf(RecordAt(cache, width, i))
    ensures TAB in RecordAt(cache, width, i) ==>
      exists t :: 0 <= t < width && RecordAt(cache, width, i)[t] == TAB &&
        TAB !in RecordAt(cache, width, i)[..t] && k == keyOf(RecordAt(cache, width, i)[..t])
  {
    var rec := RecordAt(cache, width, i);
    var f := SplitTab(rec);
    assert f.rest.Some? ==> rec[..|f.key|] == f.key && rec[|f.key|] == TAB by {
      if f.rest.Some? {
        assert rec == f.key + [TAB] + f.rest.value;
      }
    }
    keyOf(f.key)
  }

  /** The first `m` records are in ascending key order. */
  ghost predicate SortedBelow(cache: seq<byte>, width: nat, keyOf: seq<byte> -> int, m: int)
    requires width > 0
  {
    forall i, j :: 0 <= i < j < m && j < Count(cache, width) ==>
      KeyAt(cache, width, keyOf, i) <= KeyAt(cache, width, keyOf, j)
  }

  /** Every record among the first `m` whose key is `key` lies between `left` and `right`. */
  ghost predicate Bracketed(cache: seq<byte>, width: nat, keyOf: seq<byte> -> int, key: int, m: int, left: int, right: int)
    requires width > 0
  {
    forall j :: 0 <= j < m && j < Count(cache, width) && KeyAt(cache, width, keyOf, j) == key ==> left <= j <= right
  }

  /** A probe whose key is above `key` moves the upper bound below the probe. */
  lemma BracketBelow(cache: seq<byte>, width: nat, keyOf: seq<byte> -> int, key: int, m: int, left: int, right: int, middle: nat)
    requires width > 0 && left <= middle <= right < Count(cache, width)
    requires KeyAt(cache, width, keyOf, middle) > key
    ensures SortedBelow(cache, width, keyOf, m) && Bracketed(cache, width, keyOf, key, m, left, right) ==>
      Bracketed(cache, width, keyOf, key, m, left, middle - 1)
  {
  }

  /**
   * A probe whose key is below `key` moves the lower bound above the probe.
   * When the probe is the one record past the sorted ones, the range was
   * already down to that record.
   */
  lemma BracketAbove(cache: seq<byte>, width: nat, keyOf: seq<byte> -> int, key: int, m: int, left: int, right: int, middle: nat)
    requires width > 0 && 0 <= left <= middle <= right < Count(cache, width) && 2 * middle <= left + right
    requires Count(cache, width) - 1 <= m <= Count(cache, width)
    requires KeyAt(cache, width, keyOf, middle) < key
    ensures SortedBelow(cache, width, keyOf, m) && Bracketed(cache, width, keyOf, key, m, left, right) ==>
      Bracketed(cache, width, keyOf, key, m, middle + 1, right)
  {
    if SortedBelow(cache, width, keyOf, m) && Bracketed(cache, width, keyOf, key, m, left, right) {
      forall j | 0 <= j < m && j < Count(cache, width) && KeyAt(cache, width, keyOf, j) == key
        ensures middle + 1 <= j <= right
      {
      }
    }
  }

  /**
   * The search's loop invariant: if all records, or all but the last, are in
   * key order, every record among them with key `key` lies in `left..right`.
   */
  ghost predicate Narrowed(cache: seq<byte>, width: nat, keyOf: seq<byte> -> int, key: int, left: int, right: int)
    requires width > 0
  {
    var n := Count(cache, width);
    && (SortedBelow(cache, width, keyOf, n) ==> Bracketed(cache, width, keyOf, key, n, left, right))
    && (SortedBelow(cache, width, keyOf, n - 1) ==> Bracketed(cache, width, keyOf, key, n - 1, left, right))
  }

  lemma NarrowRight(cache: seq<byte>, width: nat, keyOf: seq<byte> -> int, key: int, left: int, right: int, middle: nat)
    requires width > 0 && left <= middle <= right < Count(cache, width)
    requires KeyAt(cache, width, keyOf, middle) > key
    requires Narrowed(cache, width, keyOf, key, left, right)
    ensures Narrowed(cache, width, keyOf, key, left, middle - 1)
  {
    var n := Count(cache, width);
    BracketBelow(cache, width, keyOf, key, n, left, right, middle);
    BracketBelow(cache, width, keyOf, key, n - 1, left, right, middle);
  }

  lemma NarrowLeft(cache: seq<byte>, width: nat, keyOf: seq<byte> -> int, key: int, left: int, right: int, middle: nat)
    requires width > 0 && 0 <= left <= middle <= right < Count(cache, width) && 2 * middle <= left + right
    requires KeyAt(cache, width, keyOf, middle) < key
    requires Narrowed(cache, width, keyOf, key, left, right)
    ensures Narrowed(cache, width, keyOf, key, middle + 1, right)
  {
    var n := Count(cache, width);
    if SortedBelow(cache, width, keyOf, n) {
      BracketAbove(cache, width, keyOf, key, n, left, right, middle);
    }
    if SortedBelow(cache, width, keyOf, n - 1) {
      BracketAbove(cache, width, keyOf, key, n - 1, left, right, middle);
    }
  }

  /** Once the range is empty, no record among the first `m` has key `key`. */
  lemma Exhausted(cache: seq<byte>, width: nat, keyOf: seq<byte> -> int, key: int, m: int, left: int, right: int)
    requires width > 0 && right < left
    ensures Bracketed(cache, width, keyOf, key, m, left, right) ==>
      !exists i :: 0 <= i < m && i < Count(cache, width) && KeyAt(cache, width, keyOf, i) == key
  {
  }

  /**
   * What a probe sees of record `i`, in terms of the cache bytes at offsets
   * `i * width` to `i * width + width - 1`. Without a tab in them, the whole
   * record is the key and there is no payload. Otherwise the key is the bytes
   * before the record's first tab and the payload is every byte after it,
   * up to the end of the record.
   */
  lemma ProbeFields(cache: seq<byte>, width: nat, keyOf: seq<byte> -> int, i: nat)
    requires width > 0 && i < Count(cache, width)
    ensures i * width + width <= |cache|
    ensures var lo, hi := i * width, i * width + width;
      var f := SplitTab(RecordAt(cache, width, i));
      && (f.rest.None? <==> TAB !in cache[lo..hi])
      && (f.rest.None? ==> KeyAt(cache, width, keyOf, i) == keyOf(cache[lo..hi]))
      && (f.rest.Some? ==>
            exists t :: lo <= t < hi && cache[t] == TAB && TAB !in cache[lo..t] &&
              KeyAt(cache, width, keyOf, i) == keyOf(cache[lo..t]) && f.rest.value == cache[t + 1..hi])
  {
    var lo, hi := i * width, i * width + width;
    var rec := RecordAt(cache, width, i);
    assert rec == cache[lo..hi];
    var f := SplitTab(rec);
    assert KeyAt(cache, width, keyOf, i) == keyOf(f.key);
    if f.rest.Some? {
      var t := JoinInSlice(cache, lo, hi, f.key, f.rest.value);
      assert lo <= t < hi && cache[t] == TAB && TAB !in cache[lo..t] &&
        KeyAt(cache, width, keyOf, i) == keyOf(cache[lo..t]) && f.rest.value == cache[t + 1..hi];
    }
  }

  /** A key, a tab and a rest that make up the bytes `lo .. hi - 1`, as positions in the whole cache. */
  lemma JoinInSlice(cache: seq<byte>, lo: nat, hi: nat, key: seq<byte>, rest: seq<byte>) returns (t: nat)
    requires lo <= hi <= |cache| && key + [TAB] + rest == cache[lo..hi]
    ensures t == lo + |key| && t < hi && cache[t] == TAB
    ensures key == cache[lo..t] && rest == cache[t + 1..hi]
  {
    t := lo + |key|;
    var rec := key + [TAB] + rest;
    assert rec[|key|] == TAB;
    assert rec[..|key|] == key;
    assert rec[|key| + 1..] == rest;
  }

  /**
   * While all records but the last are in key order and one of them has key
   * `key`, the probe never reaches the last record: the range still holds
   * that record, so the midpoint stays below it.
   */
  lemma ProbeAmongSorted(cache: seq<byte>, width: nat, keyOf: seq<byte> -> int, key: int, left: int, right: int, middle: int)
    requires width > 0 && 0 <= left <= middle <= right < Count(cache, width) && 2 * middle <= left + right
    requires Narrowed(cache, width, keyOf, key, left, right)
    ensures (SortedBelow(cache, width, keyOf, Count(cache, width) - 1) &&
             exists i :: 0 <= i < Count(cache, width) - 1 && KeyAt(cache, width, keyOf, i) == key)
            ==> middle < Count(cache, width) - 1
  {
  }

  /**
   * Binary search for `key`. A found payload always belongs to a record
   * whose key equals `key`. If the records are in key order, a record with
   * that key is always found. The same holds when only the last record is
   * out of order and the key is among the others (the all-NUL record that
   * follows a source file ending with a newline); the payload then comes
   * from one of those others.
   */
  method BinarySearch(cache: seq<byte>, width: nat, keyOf: seq<byte> -> int, key: int) returns (r: Answer)
    requires width > 0
    ensures r.Found? ==>
      exists i :: 0 <= i < Count(cache, width) && KeyAt(cache, width, keyOf, i) == key &&
        r.payload == SplitTab(RecordAt(cache, width, i)).rest
    ensures (SortedBelow(cache, width, keyOf, Count(cache, width)) &&
             exists i :: 0 <= i < Count(cache, width) && KeyAt(cache, width, keyOf, i) == key)
            ==> r.Found?
    ensures (SortedBelow(cache, width, keyOf, Count(cache, width) - 1) &&
             exists i :: 0 <= i < Count(cache, width) - 1 && KeyAt(cache, width, keyOf, i) == key)
            ==> r.Found? &&
                exists j :: 0 <= j < Count(cache, width) - 1 && KeyAt(cache, width, keyOf, j) == key &&
                  r.payload == SplitTab(RecordAt(cache, width, j)).rest
  {
    var count: int := Count(cache, width);
    var left: int, right: int := 0, count - 1;
    while left <= right
      invariant 0 <= left <= right + 1 <= count
      invariant Narrowed(cache, width, keyOf, key, left, right)
      decreases right - left
    {
      var middle := (left + right) / 2;
      // fseek to `middle * width`, fread one record, split it at its first tab.
      var info := RecordAt(cache, width, middle);
      var fields := SplitTab(info);
      var k := keyOf(fields.key);
      if k > key {
        NarrowRight(cache, width, keyOf, key, left, right, middle);
        right := middle - 1;
      } else if k < key {
        NarrowLeft(cache, width, keyOf, key, left, right, middle);
        left := middle + 1;
      } else {
        ProbeAmongSorted(cache, width, keyOf, key, left, right, middle);
        return Found(fields.rest);
      }
    }
    Exhausted(cache, width, keyOf, key, count, left, right);
    Exhausted(cache, width, keyOf, key, count - 1, left, right);
    return NotFound;
  }
}
