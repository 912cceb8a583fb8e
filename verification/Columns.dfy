/**
 Fixed-column tables: a header row gives the offsets at which rows are sliced.
 Texts are ASCII, so that a character is a byte.
 */
module Columns {
  import opened Options
  import opened Text

  predicate IsBlank(c: char) {
    c == ' ' || c == '\t'
  }

  /** `line` is blank from `a` up to `b`. */
  predicate BlankBetween(line: string, a: nat, b: nat) {
    forall i :: a <= i < b && i < |line| ==> IsBlank(line[i])
  }

  predicate NoBlank(s: string) {
    forall i :: 0 <= i < |s| ==> !IsBlank(s[i])
  }

  // ------------------------------------------------------------ the header row

  /** `h` stands in `line` at `start`, is not empty and has no blank. */
  predicate StandsAt(line: string, h: string, start: nat) {
    && start + |h| <= |line| && line[start..start + |h|] == h
    && h != "" && NoBlank(h)
  }

  /** Field `k` begins behind a blank gap that reaches back to the field before it, or to the line's start. */
  predicate GapBefore(line: string, headers: seq<string>, starts: seq<nat>, k: nat)
    requires |headers| == |starts| && k < |starts|
  {
    if k == 0 then BlankBetween(line, 0, starts[0])
    else
      var end := starts[k - 1] + |headers[k - 1]|;
      end < starts[k] && BlankBetween(line, end, starts[k])
  }

  /** Where the last field ends, or the line's start. */
  function EndOfLast(headers: seq<string>, starts: seq<nat>): nat
    requires |headers| == |starts|
  {
    if starts == [] then 0 else starts[|starts| - 1] + |headers[|starts| - 1]|
  }

  /** The fields are the maximal blank-free runs of `line`, in order. */
  ghost predicate FieldsOf(line: string, headers: seq<string>, starts: seq<nat>) {
    && |headers| == |starts|
    && (forall k :: 0 <= k < |starts| ==> StandsAt(line, headers[k], starts[k]))
    && (forall k :: 0 <= k < |starts| ==> GapBefore(line, headers, starts, k))
  }

  lemma FieldAdded(line: string, headers: seq<string>, starts: seq<nat>, start: nat, end: nat)
    requires FieldsOf(line, headers, starts)
    requires start < end <= |line| && forall j :: start <= j < end ==> !IsBlank(line[j])
    requires EndOfLast(headers, starts) <= start && BlankBetween(line, EndOfLast(headers, starts), start)
    requires starts != [] ==> EndOfLast(headers, starts) < start
    ensures FieldsOf(line, headers + [line[start..end]], starts + [start])
  {
    var h := line[start..end];
    var headers', starts' := headers + [h], starts + [start];
    var n := |starts|;
    assert StandsAt(line, h, start);
    forall k | 0 <= k <= n
      ensures GapBefore(line, headers', starts', k)
    {
      if k < n {
        assert GapBefore(line, headers, starts, k);
      }
    }
  }

  method ParseHeaderRow(line: string) returns (headers: seq<string>, starts: seq<nat>)
    ensures FieldsOf(line, headers, starts)
    ensures BlankBetween(line, EndOfLast(headers, starts), |line|)
  {
    headers, starts := [], [];
    var i := 0;
    while i < |line|
      invariant i <= |line|
      invariant FieldsOf(line, headers, starts)
      invariant EndOfLast(headers, starts) == i
      invariant starts != [] && i < |line| ==> IsBlank(line[i])
    {
      while i < |line| && IsBlank(line[i])
        invariant i <= |line|
        invariant EndOfLast(headers, starts) <= i && BlankBetween(line, EndOfLast(headers, starts), i)
      {
        i := i + 1;
      }
      if i >= |line| {
        break;
      }
      var start := i;
      while i < |line| && !IsBlank(line[i])
        invariant start <= i <= |line|
        invariant forall j :: start <= j < i ==> !IsBlank(line[j])
        invariant i == start ==> i < |line| && !IsBlank(line[i])
      {
        i := i + 1;
      }
      FieldAdded(line, headers, starts, start, i);
      starts := starts + [start];
      headers := headers + [line[start..i]];
    }
  }

  // ------------------------------------------------------------ slicing a row

  predicate NeverDescending(starts: seq<nat>) {
    forall i, j :: 0 <= i < j < |starts| ==> starts[i] <= starts[j]
  }

  /** No column that begins within the row ends before it begins. */
  predicate Sliceable(line: string, starts: seq<nat>) {
    forall i :: 0 <= i < |starts| - 1 && starts[i] < |line| ==> starts[i] <= starts[i + 1]
  }

  function Clip(n: nat, len: nat): nat {
    if n <= len then n else len
  }

  /** The offset at which column `k` of `line` begins; the column after the last begins at the end. */
  function Edge(line: string, starts: seq<nat>, k: nat): (edge: nat)
    requires k <= |starts|
    ensures edge <= |line|
  {
    if k < |starts| then Clip(starts[k], |line|) else |line|
  }

  /** The cells are the stretches of `line` between neighbouring edges. */
  ghost predicate CellsOf(line: string, starts: seq<nat>, cells: seq<string>) {
    && |cells| == |starts|
    && forall k :: 0 <= k < |starts| ==> CellAt(line, starts, k, cells[k])
  }

  /** A column that begins at or behind the end of the row is empty. */
  predicate CellAt(line: string, starts: seq<nat>, k: nat, cell: string)
    requires k < |starts|
  {
    var a, b := Edge(line, starts, k), Edge(line, starts, k + 1);
    if a <= b then cell == line[a..b] else cell == ""
  }

  /** The cells of a row; none if slicing it fails. */
  method SliceAtColumns(line: string, starts: seq<nat>) returns (r: Option<seq<string>>)
    ensures r.Some? <==> Sliceable(line, starts)
    ensures r.Some? ==> CellsOf(line, starts, r.value)
  {
    var cells := [];
    var len := |line|;
    var i := 0;
    while i + 1 < |starts|
      invariant i <= |starts| && (starts != [] ==> i < |starts|)
      invariant |cells| == i
      invariant forall k :: 0 <= k < i ==> starts[k] < |line| ==> starts[k] <= starts[k + 1]
      invariant forall k :: 0 <= k < i ==> CellAt(line, starts, k, cells[k])
    {
      var s, e := starts[i], starts[i + 1];
      if s >= len {
        cells := cells + [""];
      } else {
        e := if e <= len then e else len;
        if s > e {
          return None;
        }
        cells := cells + [line[s..e]];
      }
      i := i + 1;
    }
    if starts != [] {
      var last := starts[|starts| - 1];
      if last <= len {
        cells := cells + [line[last..]];
      } else {
        cells := cells + [""];
      }
    }
    r := Some(cells);
  }

  function Concat(cells: seq<string>): string {
    if cells == [] then "" else Concat(cells[..|cells| - 1]) + cells[|cells| - 1]
  }

  /** Slicing loses nothing: the cells concatenate to the row from the first column on. */
  lemma CellsConcatenate(line: string, starts: seq<nat>, cells: seq<string>)
    requires NeverDescending(starts) && CellsOf(line, starts, cells) && starts != []
    ensures Concat(cells) == line[Edge(line, starts, 0)..]
  {
    CellsUpTo(line, starts, cells, |cells|);
    assert cells[..|cells|] == cells;
  }

  lemma {:induction false} CellsUpTo(line: string, starts: seq<nat>, cells: seq<string>, m: nat)
    requires NeverDescending(starts) && CellsOf(line, starts, cells) && 0 < m <= |cells|
    ensures Edge(line, starts, 0) <= Edge(line, starts, m) <= |line|
    ensures Concat(cells[..m]) == line[Edge(line, starts, 0)..Edge(line, starts, m)]
    decreases m
  {
    assert CellAt(line, starts, m - 1, cells[m - 1]);
    assert cells[..m][..m - 1] == cells[..m - 1];
    if m == 1 {
      assert cells[..0] == [];
      assert Concat(cells[..1]) == "" + cells[0];
    } else {
      CellsUpTo(line, starts, cells, m - 1);
    }
  }

  // ------------------------------------------------------------ reading values back

  /** `value` fills column `k` of `line` from its left edge, with blanks behind it. */
  predicate LaidOut(line: string, starts: seq<nat>, k: nat, value: string)
    requires k < |starts|
  {
    var a, b := Edge(line, starts, k), Edge(line, starts, k + 1);
    && a + |value| <= b <= |line|
    && line[a..a + |value|] == value
    && BlankBetween(line, a + |value|, b)
  }

  /** A value laid out under its header reads back exactly when it has no white space at its ends. */
  lemma LaidOutReadsBackExactlyWhen(
      line: string, starts: seq<nat>, cells: seq<string>, k: nat, value: string)
    requires CellsOf(line, starts, cells) && k < |starts| && LaidOut(line, starts, k, value)
    ensures Trim(cells[k]) == value <==> value == "" || (!IsWhite(value[0]) && !IsWhite(value[|value| - 1]))
  {
    var a, b := Edge(line, starts, k), Edge(line, starts, k + 1);
    assert CellAt(line, starts, k, cells[k]);
    var pad := line[a + |value|..b];
    assert cells[k] == value + pad;
    assert AllWhite(pad);
    TrimDropsTrailingWhite(value, pad);
    TrimKeepsExactlyWhen(value);
  }

  lemma {:induction false} EndsBefore(line: string, headers: seq<string>, starts: seq<nat>, j: nat, k: nat)
    requires FieldsOf(line, headers, starts) && j < k < |starts|
    ensures starts[j] < starts[k]
    decreases k
  {
    assert GapBefore(line, headers, starts, k);
    if j < k - 1 {
      EndsBefore(line, headers, starts, j, k - 1);
    }
  }

  /** A parsed header row gives ascending offsets, so every row can be sliced at them. */
  lemma StartsAscend(line: string, headers: seq<string>, starts: seq<nat>)
    requires FieldsOf(line, headers, starts)
    ensures forall j, k :: 0 <= j < k < |starts| ==> starts[j] < starts[k]
    ensures NeverDescending(starts) && forall row :: Sliceable(row, starts)
  {
    forall j, k | 0 <= j < k < |starts|
      ensures starts[j] < starts[k]
    {
      EndsBefore(line, headers, starts, j, k);
    }
  }

  /** Every header is laid out under itself. */
  lemma HeadersAreLaidOut(line: string, headers: seq<string>, starts: seq<nat>, k: nat)
    requires FieldsOf(line, headers, starts) && BlankBetween(line, EndOfLast(headers, starts), |line|)
    requires k < |starts|
    ensures LaidOut(line, starts, k, headers[k])
  {
    assert StandsAt(line, headers[k], starts[k]);
    if k + 1 < |starts| {
      assert GapBefore(line, headers, starts, k + 1);
      assert StandsAt(line, headers[k + 1], starts[k + 1]);
    }
  }

  /** Slicing the header row at its own offsets and trimming gives the headers back, when
      no header begins or ends in white space other than the blanks (as in printable ASCII). */
  lemma HeaderRowReadsBack(line: string, headers: seq<string>, starts: seq<nat>, cells: seq<string>)
    requires FieldsOf(line, headers, starts) && BlankBetween(line, EndOfLast(headers, starts), |line|)
    requires CellsOf(line, starts, cells)
    requires forall i :: 0 <= i < |line| ==> IsWhite(line[i]) ==> IsBlank(line[i])
    ensures |cells| == |headers|
    ensures forall k :: 0 <= k < |headers| ==> Trim(cells[k]) == headers[k]
  {
    forall k | 0 <= k < |headers|
      ensures Trim(cells[k]) == headers[k]
    {
      HeadersAreLaidOut(line, headers, starts, k);
      LaidOutReadsBackExactlyWhen(line, starts, cells, k, headers[k]);
      assert StandsAt(line, headers[k], starts[k]);
      var h, s := headers[k], starts[k];
      assert h[0] == line[s] && h[|h| - 1] == line[s + |h| - 1];
    }
  }

  // ------------------------------------------------------------ what cells and headers are

  /** A column that begins at or behind the end of the row is empty; another holds the row from
      its offset to the next one, or to the end. */
  lemma CellIs(line: string, starts: seq<nat>, cells: seq<string>, k: nat)
    requires Sliceable(line, starts) && CellsOf(line, starts, cells) && k < |starts|
    ensures starts[k] >= |line| ==> cells[k] == ""
    ensures starts[k] < |line| ==>
              cells[k] == if k + 1 < |starts| && starts[k + 1] < |line|
                          then line[starts[k]..starts[k + 1]] else line[starts[k]..]
  {
    assert CellAt(line, starts, k, cells[k]);
  }

  /** Headers hold no space and no tab, and between and around them there is nothing else. */
  lemma HeadersAndGaps(line: string, headers: seq<string>, starts: seq<nat>, i: nat)
    requires FieldsOf(line, headers, starts) && BlankBetween(line, EndOfLast(headers, starts), |line|) && i < |line|
    ensures line[i] == ' ' || line[i] == '\t'
       <==> forall k :: 0 <= k < |starts| ==> !(starts[k] <= i < starts[k] + |headers[k]|)
  {
    if k :| 0 <= k < |starts| && starts[k] <= i < starts[k] + |headers[k]| {
      assert StandsAt(line, headers[k], starts[k]);
      assert headers[k][i - starts[k]] == line[i];
    } else {
      OutsideIsBlank(line, headers, starts, i, |starts|);
    }
  }

  lemma {:induction false} OutsideIsBlank(line: string, headers: seq<string>, starts: seq<nat>, i: nat, m: nat)
    requires FieldsOf(line, headers, starts) && i < |line| && m <= |starts|
    requires forall k :: 0 <= k < |starts| ==> !(starts[k] <= i < starts[k] + |headers[k]|)
    requires var from := if m == 0 then 0 else starts[m - 1] + |headers[m - 1]|;
             BlankBetween(line, from, if m < |starts| then starts[m] else |line|)
    requires m < |starts| ==> i < starts[m]
    ensures IsBlank(line[i])
    decreases m
  {
    if m > 0 && i < starts[m - 1] + |headers[m - 1]| {
      assert GapBefore(line, headers, starts, m - 1);
      OutsideIsBlank(line, headers, starts, i, m - 1);
    }
  }
}
