/** Lines and columns of a byte offset: the table with binary search, and the scanning `line_col`. */
module LineIndex {
  import opened Options

  type byte = x: int | 0 <= x < 256

  const NEWLINE: byte := 10

  // -----------------------------------------------------------------------------------------------
  // What a line and a column are
  // -----------------------------------------------------------------------------------------------

  /** Newlines among the first n bytes. */
  function Newlines(text: seq<byte>, n: nat): nat
    requires n <= |text|
  {
    if n == 0 then 0 else Newlines(text, n - 1) + if text[n - 1] == NEWLINE then 1 else 0
  }

  /** One past the last newline among the first n bytes, or 0. */
  function LineStart(text: seq<byte>, n: nat): (s: nat)
    requires n <= |text|
    ensures s <= n
    ensures s > 0 ==> text[s - 1] == NEWLINE
    ensures forall i :: s <= i < n ==> text[i] != NEWLINE
  {
    if n == 0 then 0 else if text[n - 1] == NEWLINE then n else LineStart(text, n - 1)
  }

  /** Lines count from 1, columns from 0. */
  function LineCol(text: seq<byte>, offset: nat): (nat, nat)
    requires offset <= |text|
  {
    (Newlines(text, offset) + 1, offset - LineStart(text, offset))
  }

  /** The starts of the lines begun within the first n bytes. */
  function Starts(text: seq<byte>, n: nat): (r: seq<nat>)
    requires n <= |text|
    ensures |r| == Newlines(text, n) + 1
    ensures r[|r| - 1] == LineStart(text, n)
  {
    if n == 0 then [0] else Starts(text, n - 1) + if text[n - 1] == NEWLINE then [n] else []
  }

  predicate Increasing(s: seq<nat>) {
    forall i, j :: 0 <= i < j < |s| ==> s[i] < s[j]
  }

  lemma {:induction false} StartsIncreasing(text: seq<byte>, n: nat)
    requires n <= |text|
    ensures Increasing(Starts(text, n)) && forall i :: 0 <= i < |Starts(text, n)| ==> Starts(text, n)[i] <= n
  {
    if n > 0 {
      StartsIncreasing(text, n - 1);
    }
  }

  /** The later starts lie beyond n. */
  lemma {:induction false} StartsPrefix(text: seq<byte>, n: nat, m: nat)
    requires n <= m <= |text|
    ensures Starts(text, n) <= Starts(text, m)
    ensures forall i :: |Starts(text, n)| <= i < |Starts(text, m)| ==> Starts(text, m)[i] > n
  {
    if n < m {
      StartsPrefix(text, n, m - 1);
    }
  }

  /** Bytes without a newline add no line. */
  lemma {:induction false} NoNewlines(text: seq<byte>, n: nat, m: nat)
    requires n <= m <= |text| && forall i :: n <= i < m ==> text[i] != NEWLINE
    ensures Newlines(text, m) == Newlines(text, n) && Starts(text, m) == Starts(text, n)
    ensures LineStart(text, m) == LineStart(text, n)
  {
    if n < m {
      NoNewlines(text, n, m - 1);
    }
  }

  // -----------------------------------------------------------------------------------------------
  // The searches the code calls
  // -----------------------------------------------------------------------------------------------

  /** `memchr(&text[from..to], b'\n')`, relative to `from`. */
  method Memchr(text: seq<byte>, from: nat, to: nat) returns (pos: Option<nat>)
    requires from <= to <= |text|
    ensures pos.Some? ==> from + pos.value < to && text[from + pos.value] == NEWLINE
    ensures pos.Some? ==> forall i :: from <= i < from + pos.value ==> text[i] != NEWLINE
    ensures pos.None? ==> forall i :: from <= i < to ==> text[i] != NEWLINE
  {
    for i := from to to
      invariant forall k :: from <= k < i ==> text[k] != NEWLINE
    {
      if text[i] == NEWLINE {
        return Some(i - from);
      }
    }
    pos := None;
  }

  /** The result of `slice::binary_search`: a position of the value, or where it would have to be inserted. */
  datatype SearchResult = Found(index: nat) | Insert(index: nat)

  predicate IsSearchResult(s: seq<nat>, x: nat, r: SearchResult) {
    match r
    case Found(i) => i < |s| && s[i] == x
    case Insert(i) => i <= |s| && (forall k :: 0 <= k < i ==> s[k] < x) && forall k :: i <= k < |s| ==> s[k] > x
  }

  method BinarySearch(s: seq<nat>, x: nat) returns (r: SearchResult)
    requires Increasing(s)
    ensures IsSearchResult(s, x, r)
  {
    var lo, hi := 0, |s|;
    while lo < hi
      invariant 0 <= lo <= hi <= |s|
      invariant forall k :: 0 <= k < lo ==> s[k] < x
      invariant forall k :: hi <= k < |s| ==> s[k] > x
    {
      var mid := lo + (hi - lo) / 2;
      if s[mid] == x {
        return Found(mid);
      } else if s[mid] < x {
        lo := mid + 1;
      } else {
        hi := mid;
      }
    }
    r := Insert(lo);
  }

  // -----------------------------------------------------------------------------------------------
  // The two ways to a line and a column
  // -----------------------------------------------------------------------------------------------

  /** `compute_line_starts` */
  method ComputeLineStarts(src: seq<byte>) returns (starts: seq<nat>)
    ensures starts == Starts(src, |src|)
  {
    var offset := 0;
    starts := [0];
    while offset < |src|
      invariant 0 <= offset <= |src| && starts == Starts(src, offset)
    {
      var pos := Memchr(src, offset, |src|);
      if pos.None? {
        NoNewlines(src, offset, |src|);
        break;
      }
      NoNewlines(src, offset, offset + pos.value);
      offset := offset + pos.value + 1;
      starts := starts + [offset];
    }
  }

  /** Index of the line in the table: `Ok(i) => i`, `Err(i) => i.saturating_sub(1)`. */
  function LineIndexOf(r: SearchResult): nat {
    match r
    case Found(i) => i
    case Insert(i) => if i == 0 then 0 else i - 1
  }

  /** Any result the search may return leads to the offset's line. */
  lemma SearchFindsLine(text: seq<byte>, offset: nat, r: SearchResult)
    requires offset <= |text| && IsSearchResult(Starts(text, |text|), offset, r)
    ensures var starts, i := Starts(text, |text|), LineIndexOf(r);
            i < |starts| && i == Newlines(text, offset) && starts[i] == LineStart(text, offset)
  {
    var all, here := Starts(text, |text|), Starts(text, offset);
    StartsIncreasing(text, |text|);
    StartsIncreasing(text, offset);
    StartsPrefix(text, offset, |text|);
    var last := |here| - 1;
    assert all[last] == here[last] <= offset;
    assert last + 1 < |all| ==> all[last + 1] > offset;
    OnlyLine(all, offset, r, last);
  }

  /** In an increasing table the line's index is the last entry not beyond the offset. */
  lemma OnlyLine(s: seq<nat>, x: nat, r: SearchResult, last: nat)
    requires Increasing(s) && IsSearchResult(s, x, r)
    requires last < |s| && s[last] <= x && (last + 1 < |s| ==> s[last + 1] > x)
    ensures LineIndexOf(r) == last
  {
    assert forall k :: 0 <= k < last ==> s[k] < s[last];
    assert forall k :: last + 1 < k < |s| ==> s[last + 1] < s[k];
  }

  /** `start_line_col` of the lowering, with its table. */
  method StartLineCol(lineStarts: seq<nat>, text: seq<byte>, offset: nat) returns (r: (nat, nat))
    requires lineStarts == Starts(text, |text|) && offset <= |text|
    ensures r == LineCol(text, offset)
  {
    StartsIncreasing(text, |text|);
    var search := BinarySearch(lineStarts, offset);
    SearchFindsLine(text, offset, search);
    var idx := LineIndexOf(search);
    r := (idx + 1, offset - lineStarts[idx]);
  }

  /** `line_col` of a span. */
  method ScanLineCol(text: seq<byte>, offset: nat) returns (r: (nat, nat))
    requires offset <= |text|
    ensures r == LineCol(text, offset)
  {
    var sliceOffset: nat := 0;
    var line: nat := 1;
    while true
      invariant sliceOffset <= offset && line == Newlines(text, sliceOffset) + 1
      invariant LineStart(text, sliceOffset) == sliceOffset
      decreases offset - sliceOffset
    {
      var start := sliceOffset;
      var pos := Memchr(text, sliceOffset, offset);
      if pos.None? {
        NoNewlines(text, start, offset);
        return (line, offset - start);
      }
      NoNewlines(text, sliceOffset, sliceOffset + pos.value);
      sliceOffset := sliceOffset + pos.value + 1;
      line := line + 1;
    }
  }

  /** The table and the scan agree on every offset of every text. */
  method BothAgree(text: seq<byte>, offset: nat) returns (scanned: (nat, nat), looked: (nat, nat))
    requires offset <= |text|
    ensures scanned == looked == LineCol(text, offset)
  {
    var starts := ComputeLineStarts(text);
    scanned := ScanLineCol(text, offset);
    looked := StartLineCol(starts, text, offset);
  }

  /** Line and column determine the offset. */
  lemma LineColInjective(text: seq<byte>, a: nat, b: nat)
    requires a <= |text| && b <= |text| && LineCol(text, a) == LineCol(text, b)
    ensures a == b
  {
    var s, t := Starts(text, a), Starts(text, b);
    if a <= b {
      StartsPrefix(text, a, b);
    } else {
      StartsPrefix(text, b, a);
    }
    assert s[|s| - 1] == t[|t| - 1];
  }

  /** The positions of the byte 10 among the first n. */
  function LineFeeds(text: seq<byte>, n: nat): set<nat>
    requires n <= |text|
  {
    set i: nat | i < n && text[i] == 10
  }

  lemma {:induction false} NewlinesCounted(text: seq<byte>, n: nat)
    requires n <= |text|
    ensures Newlines(text, n) == |LineFeeds(text, n)|
  {
    if n > 0 {
      NewlinesCounted(text, n - 1);
      var before, all := LineFeeds(text, n - 1), LineFeeds(text, n);
      if text[n - 1] == 10 {
        assert all == before + {n - 1};
      } else {
        assert all == before;
      }
    }
  }

  /**
   * The line is one more than the bytes 10 before the offset; the column counts the bytes back to the last of them, or
   * to the start of the text.
   */
  lemma LineColMeans(text: seq<byte>, offset: nat)
    requires offset <= |text|
    ensures var (line, col) := LineCol(text, offset);
            && line == 1 + |LineFeeds(text, offset)|
            && col <= offset && (forall i :: offset - col <= i < offset ==> text[i] != 10)
            && (col < offset ==> text[offset - col - 1] == 10)
  {
    NewlinesCounted(text, offset);
  }
}
