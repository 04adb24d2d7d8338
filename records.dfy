/**
 * The fixed-width records of the cache file: building one from a line
 * (`pack("a" . $maxLength, $line)`), splitting one at its first tab
 * (`explode("\t", $info, 2)`), laying records end to end, and reading
 * record `i` back at byte offset `i * width`.
 */
module Records {
  import opened Wrappers

  newtype byte = b: int | 0 <= b < 256

  const NUL: byte := 0
  const TAB: byte := 9
  const LF: byte := 10

  /** `count` NUL bytes: the padding `pack` uses for the "a" format. */
  function Nuls(count: nat): (r: seq<byte>)
    ensures |r| == count
    ensures forall k :: 0 <= k < count ==> r[k] == NUL
  {
    seq(count, _ => NUL)
  }

  /**
   * The record written for one line: its first `width` bytes, right-padded
   * with NUL bytes up to `width`. A longer line is cut silently.
   */
  function Pack(line: seq<byte>, width: nat): (r: seq<byte>)
    ensures |r| == width
    ensures forall k :: 0 <= k < width && k < |line| ==> r[k] == line[k]
    ensures forall k :: |line| <= k < width ==> r[k] == NUL
  {
    if |line| >= width then line[..width] else line + Nuls(width - |line|)
  }

  /** A line that fits is kept whole at the front of its record. */
  lemma PackKeepsFittingLine(line: seq<byte>, width: nat)
    requires |line| <= width
    ensures Pack(line, width) == line + Nuls(width - |line|)
    ensures Pack(line, width)[..|line|] == line
  {
  }

  /** The two parts of `explode("\t", s, 2)`: the text before the first tab, and the text after it when there is a tab. */
  datatype Fields = Fields(key: seq<byte>, rest: Option<seq<byte>>)

  /**
   * Split at the first tab. Without a tab the whole input is the key and
   * there is no second part (PHP's missing index `1`, read as null).
   */
  function SplitTab(s: seq<byte>): (f: Fields)
    ensures TAB !in f.key
    ensures f.rest.None? <==> TAB !in s
    ensures f.rest.None? ==> f.key == s
    ensures f.rest.Some? ==> f.key + [TAB] + f.rest.value == s
  {
    if s == [] then Fields([], None)
    else if s[0] == TAB then Fields([], Some(s[1..]))
    else
      var f := SplitTab(s[1..]);
      assert s == [s[0]] + s[1..];
      Fields([s[0]] + f.key, f.rest)
  }

  /** Joining a tab-free key and a payload with a tab is undone by the split. */
  lemma SplitTabOfJoin(key: seq<byte>, payload: seq<byte>)
    requires TAB !in key
    ensures SplitTab(key + [TAB] + payload) == Fields(key, Some(payload))
  {
    var s := key + [TAB] + payload;
    var f := SplitTab(s);
    assert s[|key|] == TAB;
    assert f.rest.Some?;
    var n := |f.key|;
    assert s[n] == TAB by {
      assert (f.key + [TAB] + f.rest.value)[n] == TAB;
    }
    assert n == |key|;
    assert f.key == s[..n] by {
      assert (f.key + [TAB] + f.rest.value)[..n] == f.key;
    }
    assert key == s[..n];
    assert f.rest.value == s[n + 1..] by {
      assert (f.key + [TAB] + f.rest.value)[n + 1..] == f.rest.value;
    }
    assert payload == s[n + 1..];
  }

  /** Padding a joined line keeps its key and extends its payload. */
  lemma PackJoined(key: seq<byte>, payload: seq<byte>, width: nat)
    requires TAB !in key && |key| + 1 + |payload| <= width
    ensures SplitTab(Pack(key + [TAB] + payload, width))
         == Fields(key, Some(payload + Nuls(width - (|key| + 1 + |payload|))))
  {
    var line := key + [TAB] + payload;
    var pad := Nuls(width - |line|);
    assert Pack(line, width) == key + [TAB] + (payload + pad);
    SplitTabOfJoin(key, payload + pad);
  }

  /**
   * A record built from a line that fits and has a tab splits into the
   * line's key and the line's payload followed by the record's NUL padding.
   */
  lemma PackedFields(line: seq<byte>, width: nat)
    requires |line| <= width && TAB in line
    ensures SplitTab(Pack(line, width)).key == SplitTab(line).key
    ensures SplitTab(Pack(line, width)).rest == Some(SplitTab(line).rest.value + Nuls(width - |line|))
  {
    var f := SplitTab(line);
    PackJoined(f.key, f.rest.value, width);
  }

  /** The cache contents for a sequence of lines: their records, end to end, in order. */
  function Format(lines: seq<seq<byte>>, width: nat): (out: seq<byte>)
    ensures |out| == |lines| * width
  {
    if lines == [] then []
    else
      var out := Pack(lines[0], width) + Format(lines[1..], width);
      assert |lines| * width == width + (|lines| - 1) * width;
      out
  }

  /** Record `i` of a `width`-stride byte sequence lies inside it. */
  lemma RecordInBounds(size: nat, width: nat, i: nat)
    requires width > 0 && i < size / width
    ensures i * width + width <= size
  {
    var q := size / width;
    assert q * width <= size;
    assert i + 1 <= q;
    assert (i + 1) * width <= q * width;
  }

  /** A byte sequence shorter than one record holds no record. */
  lemma NoRecords(size: nat, width: nat)
    requires size < width
    ensures size / width == 0
  {
  }

  /** `fseek` to `i * width` and `fread` of `width` bytes: record `i` of the cache. */
  function RecordAt(cache: seq<byte>, width: nat, i: nat): (rec: seq<byte>)
    requires width > 0 && i < |cache| / width
    ensures i * width + width <= |cache|
    ensures |rec| == width
  {
    RecordInBounds(|cache|, width, i);
    cache[i * width .. i * width + width]
  }

  /** The bytes of record `i` are the cache bytes at offsets `i * width` to `i * width + width - 1`. */
  lemma RecordBytes(cache: seq<byte>, width: nat, i: nat)
    requires width > 0 && i < |cache| / width
    ensures forall k :: 0 <= k < width ==> RecordAt(cache, width, i)[k] == cache[i * width + k]
  {
  }

  lemma MulStep(i: nat, width: nat)
    requires i > 0
    ensures i * width == width + (i - 1) * width
    ensures (i - 1) * width >= 0
  {
  }

  lemma MulSign(d: int, width: nat)
    ensures d >= 1 ==> d * width >= width
    ensures d <= -1 ==> d * width <= -(width as int)
  {
  }

  lemma MulDiv(n: nat, width: nat)
    requires width > 0
    ensures n * width / width == n
  {
    var q, r := n * width / width, n * width % width;
    assert q * width + r == n * width && 0 <= r < width;
    assert (n - q) * width == r;
    MulSign(n - q, width);
  }

  /** Byte `k` of record `i` of the formatted cache is byte `k` of the record built from line `i`. */
  lemma {:induction false} FormatAt(lines: seq<seq<byte>>, width: nat, i: nat, k: nat)
    requires i < |lines| && k < width
    ensures i * width + k < |Format(lines, width)|
    ensures Format(lines, width)[i * width + k] == Pack(lines[i], width)[k]
  {
    MulStep(|lines|, width);
    if i > 0 {
      FormatAt(lines[1..], width, i - 1, k);
      MulStep(i, width);
    }
  }

  /** Record `i` read back from the formatted cache is the record built from line `i`. */
  lemma FormatRecord(lines: seq<seq<byte>>, width: nat, i: nat)
    requires width > 0 && i < |lines|
    ensures |Format(lines, width)| / width == |lines|
    ensures RecordAt(Format(lines, width), width, i) == Pack(lines[i], width)
  {
    var out := Format(lines, width);
    MulDiv(|lines|, width);
    var rec := RecordAt(out, width, i);
    RecordBytes(out, width, i);
    forall k | 0 <= k < width
      ensures rec[k] == Pack(lines[i], width)[k]
    {
      FormatAt(lines, width, i, k);
    }
  }

  /** The first record, then the rest. */
  lemma FormatCons(line: seq<byte>, rest: seq<seq<byte>>, width: nat)
    ensures Format([line] + rest, width) == Pack(line, width) + Format(rest, width)
  {
    assert ([line] + rest)[1..] == rest;
  }
}
