/**
 * What the normaliser's `while (!feof($readfd)) $line = fgets($readfd, 8192)`
 * loop reads from the source file. `fgets` returns the bytes up to and
 * including the next newline, or up to the end of the file. The end-of-file
 * flag is set only by a read that runs into the end of the file: after a
 * last line that ends with a newline (and at once for an empty file) the
 * loop goes round once more, and that `fgets` returns `false`, written
 * here as the empty chunk because `pack` reads `false` as "".
 */
module SourceLines {
  import opened Records

  /** Index just past the line that starts at `pos`: past its first newline, or the end of `src`. */
  function LineEnd(src: seq<byte>, pos: nat): (e: nat)
    requires pos < |src|
    ensures pos < e <= |src|
    ensures forall k :: pos <= k < e - 1 ==> src[k] != LF
    ensures e < |src| ==> src[e - 1] == LF
    decreases |src| - pos
  {
    if src[pos] == LF || pos + 1 == |src| then pos + 1 else LineEnd(src, pos + 1)
  }

  /** A line is read up to and including its first newline. */
  lemma {:induction false} LineEndAtNewline(src: seq<byte>, pos: nat, e: nat)
    requires pos < e <= |src| && src[e - 1] == LF
    requires forall k :: pos <= k < e - 1 ==> src[k] != LF
    ensures LineEnd(src, pos) == e
    decreases e - pos
  {
    if src[pos] != LF {
      LineEndAtNewline(src, pos + 1, e);
    }
  }

  /** The chunks the reading loop gets, starting at `pos` while the end-of-file flag is still clear. */
  function ReadsFrom(src: seq<byte>, pos: nat): (chunks: seq<seq<byte>>)
    requires pos <= |src|
    ensures 0 < |chunks| <= |src| - pos + 1
    ensures chunks[0] == [] <==> pos == |src|
    decreases |src| - pos
  {
    if pos == |src| then [[]]
    else
      var e := LineEnd(src, pos);
      if e == |src| && src[e - 1] != LF then [src[pos..e]]
      else [src[pos..e]] + ReadsFrom(src, e)
  }

  /** One turn of the reading loop: the chunk it reads now, then the chunks after it. */
  lemma ReadsFromStep(src: seq<byte>, pos: nat)
    requires pos <= |src|
    ensures pos == |src| ==> ReadsFrom(src, pos) == [[]]
    ensures pos < |src| ==>
      var e := LineEnd(src, pos);
      ReadsFrom(src, pos) ==
        [src[pos..e]] + if e == |src| && src[e - 1] != LF then [] else ReadsFrom(src, e)
  {
  }

  /** The chunks the reading loop gets from the whole source file, one per record. */
  function Reads(src: seq<byte>): (chunks: seq<seq<byte>>)
    ensures 0 < |chunks| <= |src| + 1
    ensures chunks[0] == [] <==> src == []
  {
    ReadsFrom(src, 0)
  }

  /** The chunks joined back together. */
  function Concat(chunks: seq<seq<byte>>): seq<byte> {
    if chunks == [] then [] else chunks[0] + Concat(chunks[1..])
  }

  /** The number of newline bytes in `s`. */
  function CountLF(s: seq<byte>): nat {
    if s == [] then 0 else (if s[0] == LF then 1 else 0) + CountLF(s[1..])
  }

  /** A chunk whose only newline, if any, is its last byte. */
  predicate OneLine(c: seq<byte>) {
    forall k :: 0 <= k < |c| - 1 ==> c[k] != LF
  }

  predicate EndsWithLF(c: seq<byte>) {
    |c| > 0 && c[|c| - 1] == LF
  }

  lemma {:induction false} CountLFAppend(a: seq<byte>, b: seq<byte>)
    ensures CountLF(a + b) == CountLF(a) + CountLF(b)
  {
    if a != [] {
      CountLFAppend(a[1..], b);
      assert (a + b)[1..] == a[1..] + b;
    } else {
      assert a + b == b;
    }
  }

  /** A chunk without newlines counts none; one with a single trailing newline counts one. */
  lemma {:induction false} CountLFOfLine(c: seq<byte>)
    requires OneLine(c)
    ensures CountLF(c) == if EndsWithLF(c) then 1 else 0
  {
    if |c| > 1 {
      CountLFOfLine(c[1..]);
      assert c[1..][|c| - 2] == c[|c| - 1];
    }
  }

  /** The chunks read from `pos` on are exactly the rest of the source: nothing is lost or repeated. */
  lemma {:induction false} ReadsFromConcat(src: seq<byte>, pos: nat)
    requires pos <= |src|
    ensures Concat(ReadsFrom(src, pos)) == src[pos..]
    decreases |src| - pos
  {
    if pos < |src| {
      var e := LineEnd(src, pos);
      if e == |src| && src[e - 1] != LF {
        assert Concat([src[pos..e]]) == src[pos..e] + Concat([]);
      } else {
        ReadsFromConcat(src, e);
        var rs := [src[pos..e]] + ReadsFrom(src, e);
        assert rs[1..] == ReadsFrom(src, e);
        assert Concat(rs) == src[pos..e] + Concat(ReadsFrom(src, e));
        assert src[pos..] == src[pos..e] + src[e..];
      }
    } else {
      assert Concat([[]]) == [] + Concat([]);
    }
  }

  /** One chunk per newline of the rest of the source, plus one. */
  lemma {:induction false} ReadsFromCount(src: seq<byte>, pos: nat)
    requires pos <= |src|
    ensures |ReadsFrom(src, pos)| == CountLF(src[pos..]) + 1
    decreases |src| - pos
  {
    if pos < |src| {
      var e := LineEnd(src, pos);
      var line := src[pos..e];
      assert OneLine(line);
      CountLFOfLine(line);
      assert src[pos..] == line + src[e..];
      CountLFAppend(line, src[e..]);
      if e == |src| && src[e - 1] != LF {
        assert src[e..] == [];
      } else {
        ReadsFromCount(src, e);
      }
    }
  }

  /**
   * The shape of the chunks read from `pos` on: each holds one line; every
   * chunk but the last ends with a newline; the last has no newline, and is
   * empty (the extra read that returns `false`) exactly when the rest of the
   * source is empty or the source ends with a newline.
   */
  lemma {:induction false} ReadsFromShape(src: seq<byte>, pos: nat)
    requires pos <= |src|
    ensures forall i :: 0 <= i < |ReadsFrom(src, pos)| ==> OneLine(ReadsFrom(src, pos)[i])
    ensures forall i :: 0 <= i < |ReadsFrom(src, pos)| - 1 ==> EndsWithLF(ReadsFrom(src, pos)[i])
    ensures LF !in ReadsFrom(src, pos)[|ReadsFrom(src, pos)| - 1]
    ensures ReadsFrom(src, pos)[|ReadsFrom(src, pos)| - 1] == [] <==> pos == |src| || src[|src| - 1] == LF
    decreases |src| - pos
  {
    if pos < |src| {
      var e := LineEnd(src, pos);
      var line := src[pos..e];
      assert OneLine(line);
      if e == |src| && src[e - 1] != LF {
        assert line[|line| - 1] == src[e - 1];
      } else {
        ReadsFromShape(src, e);
        assert EndsWithLF(line);
        var rest := ReadsFrom(src, e);
        assert ReadsFrom(src, pos) == [line] + rest;
        assert forall i :: 1 <= i < |rest| + 1 ==> ([line] + rest)[i] == rest[i - 1];
      }
    }
  }

  /** Every source file yields one record per newline, plus one. */
  lemma RecordCount(src: seq<byte>)
    ensures |Reads(src)| == CountLF(src) + 1
  {
    ReadsFromCount(src, 0);
    assert src[0..] == src;
  }

  /**
   * The source file is read whole and in order; the last chunk is empty (an
   * all-NUL record follows the real lines) exactly when the file is empty or
   * ends with a newline.
   */
  lemma ReadsCoverSource(src: seq<byte>)
    ensures Concat(Reads(src)) == src
    ensures forall i :: 0 <= i < |Reads(src)| ==> OneLine(Reads(src)[i])
    ensures forall i :: 0 <= i < |Reads(src)| - 1 ==> EndsWithLF(Reads(src)[i])
    ensures Reads(src)[|Reads(src)| - 1] == [] <==> src == [] || src[|src| - 1] == LF
  {
    ReadsFromConcat(src, 0);
    ReadsFromShape(src, 0);
    assert src[0..] == src;
  }
}
