/**
 Snapshots: rendered documents written as one multi-document stream, and the
 stream split back into documents.
 */
module Snapshot {
  import opened Options
  import opened Text

  const MARK := "---\n"
  const SEPARATOR := "\n---\n"

  // ------------------------------------------------------------ emit

  function Emitted(docs: seq<string>): string {
    if docs == [] then "" else MARK + docs[0] + Emitted(docs[1..])
  }

  method EmitMultiDoc(docs: seq<string>) returns (out: string)
    ensures out == Emitted(docs)
  {
    out := "";
    for i := 0 to |docs|
      invariant out + Emitted(docs[i..]) == Emitted(docs)
    {
      assert docs[i..][1..] == docs[i + 1..];
      assert out + (MARK + docs[i] + Emitted(docs[i + 1..])) == (out + MARK + docs[i]) + Emitted(docs[i + 1..]);
      out := out + MARK;
      out := out + docs[i];
    }
    assert docs[|docs|..] == [];
  }

  // ------------------------------------------------------------ split

  predicate SeparatorAt(s: string, i: nat) {
    i + 5 <= |s| && s[i..i + 5] == SEPARATOR
  }

  predicate ContainsSeparator(s: string) {
    exists i :: 0 <= i <= |s| && SeparatorAt(s, i)
  }

  /** The first separator at or after `i`. */
  function FindSeparator(s: string, i: nat): Option<nat>
    decreases |s| - i
  {
    if i + 5 > |s| then None
    else if SeparatorAt(s, i) then Some(i)
    else FindSeparator(s, i + 1)
  }

  lemma {:induction false} FindReturnsFirst(s: string, i: nat)
    ensures match FindSeparator(s, i)
            case None => forall j: nat :: j >= i ==> !SeparatorAt(s, j)
            case Some(k) => k >= i && SeparatorAt(s, k) && forall j: nat :: i <= j < k ==> !SeparatorAt(s, j)
    decreases |s| - i
  {
    if i + 5 <= |s| && !SeparatorAt(s, i) {
      FindReturnsFirst(s, i + 1);
    }
  }

  function FirstCut(s: string): (r: Option<nat>)
    ensures r.Some? ==> r.value + 5 <= |s|
  {
    FindReturnsFirst(s, 0);
    FindSeparator(s, 0)
  }

  /** The pieces between separators, found from the left without overlap. */
  function Pieces(s: string): seq<string>
    decreases |s|
  {
    match FirstCut(s)
    case None => [s]
    case Some(i) => [s[..i]] + Pieces(s[i + 5..])
  }

  /** Trim every piece and drop the empty ones. */
  function TrimmedNonEmpty(pieces: seq<string>): seq<string> {
    if pieces == [] then []
    else (if Trim(pieces[0]) == "" then [] else [Trim(pieces[0])]) + TrimmedNonEmpty(pieces[1..])
  }

  function SplitMultiDoc(body: string): seq<string> {
    TrimmedNonEmpty(Pieces(body))
  }

  // ------------------------------------------------------------ round trip

  /** What rendering a resource gives: a text that is not blank and ends in a newline. */
  predicate Rendered(doc: string) {
    doc != "" && doc[|doc| - 1] == '\n' && Trim(doc) != ""
  }

  predicate AllRendered(docs: seq<string>) {
    forall i :: 0 <= i < |docs| ==> Rendered(docs[i])
  }

  predicate NoneSeparated(docs: seq<string>) {
    forall i :: 0 <= i < |docs| ==> !ContainsSeparator(docs[i])
  }

  function TrimAll(docs: seq<string>): seq<string> {
    if docs == [] then [] else [Trim(docs[0])] + TrimAll(docs[1..])
  }

  /** A separator before the boundary lies within the text and its newline. */
  lemma NoStraddle(x: string, rest: string, j: nat)
    requires j < |x| && SeparatorAt(x + SEPARATOR + rest, j)
    ensures ContainsSeparator(x + "\n")
  {
    var s, d := x + SEPARATOR + rest, x + "\n";
    assert s[|x|] == '\n' && s[..|x| + 1] == d;
    assert s[j + 1] == s[j..j + 5][1] && s[j + 2] == s[j..j + 5][2] && s[j + 3] == s[j..j + 5][3];
    assert j + 4 <= |x|;
    assert d[j..j + 5] == s[j..j + 5];
    assert SeparatorAt(d, j);
  }

  /** The first separator after a text without one, ended by a newline, is the boundary. */
  lemma CutAtBoundary(x: string, rest: string)
    requires !ContainsSeparator(x + "\n")
    ensures FirstCut(x + SEPARATOR + rest) == Some(|x|)
  {
    var s := x + SEPARATOR + rest;
    FindReturnsFirst(s, 0);
    assert s[|x|..|x| + 5] == SEPARATOR;
    assert SeparatorAt(s, |x|);
    forall j: nat | SeparatorAt(s, j)
      ensures j >= |x|
    {
      if j < |x| {
        NoStraddle(x, rest, j);
        assert false;
      }
    }
  }

  lemma SplitOneOff(x: string, rest: string)
    requires !ContainsSeparator(x + "\n") && Trim(x) != ""
    ensures SplitMultiDoc(x + SEPARATOR + rest) == [Trim(x)] + SplitMultiDoc(rest)
  {
    var s := x + SEPARATOR + rest;
    CutAtBoundary(x, rest);
    assert s[..|x|] == x && s[|x| + 5..] == rest;
    assert Pieces(s) == [x] + Pieces(rest);
    assert ([x] + Pieces(rest))[1..] == Pieces(rest);
  }

  lemma Regroup(x: string, doc: string, tail: string)
    ensures x + "\n" + (MARK + doc + tail) == x + SEPARATOR + (doc + tail)
  {
    assert "\n" + MARK == SEPARATOR;
    assert x + "\n" + (MARK + doc + tail) == x + ("\n" + MARK) + (doc + tail);
  }

  lemma SplitAtBoundary(first: string, docs: seq<string>)
    requires Rendered(first) && !ContainsSeparator(first) && docs != []
    ensures SplitMultiDoc(first + Emitted(docs)) == [Trim(first)] + SplitMultiDoc(docs[0] + Emitted(docs[1..]))
  {
    var x := first[..|first| - 1];
    assert first == x + "\n";
    Regroup(x, docs[0], Emitted(docs[1..]));
    TrimDropsTrailingWhite(x, "\n");
    SplitOneOff(x, docs[0] + Emitted(docs[1..]));
  }

  /** A text followed by emitted documents splits into them all. */
  lemma {:induction false} SplitStream(first: string, docs: seq<string>)
    requires Rendered(first) && !ContainsSeparator(first)
    requires AllRendered(docs) && NoneSeparated(docs)
    ensures SplitMultiDoc(first + Emitted(docs)) == [Trim(first)] + TrimAll(docs)
    decreases |docs|
  {
    if docs == [] {
      assert first + Emitted(docs) == first;
      FindReturnsFirst(first, 0);
      assert Pieces(first) == [first];
      assert TrimmedNonEmpty([first]) == [Trim(first)];
    } else {
      SplitAtBoundary(first, docs);
      SplitStream(docs[0], docs[1..]);
    }
  }

  // ------------------------------------------------------------ what splitting loses

  /** The number of characters that are not white space. */
  function Solid(s: string): nat {
    if s == "" then 0 else (if IsWhite(s[0]) then 0 else 1) + Solid(s[1..])
  }

  function SolidAll(docs: seq<string>): nat {
    if docs == [] then 0 else Solid(docs[0]) + SolidAll(docs[1..])
  }

  lemma {:induction false} SolidConcat(a: string, b: string)
    ensures Solid(a + b) == Solid(a) + Solid(b)
  {
    if a == "" {
      assert a + b == b;
    } else {
      assert (a + b)[1..] == a[1..] + b;
      SolidConcat(a[1..], b);
    }
  }

  lemma {:induction false} SolidTrimLeft(s: string)
    ensures Solid(TrimLeft(s)) == Solid(s)
  {
    if s != "" && IsWhite(s[0]) {
      SolidTrimLeft(s[1..]);
    }
  }

  lemma {:induction false} SolidTrimRight(s: string)
    ensures Solid(TrimRight(s)) == Solid(s)
  {
    if s != "" && IsWhite(s[|s| - 1]) {
      var m := |s| - 1;
      assert s == s[..m] + [s[m]];
      SolidConcat(s[..m], [s[m]]);
      SolidTrimRight(s[..m]);
    }
  }

  lemma SolidTrim(s: string)
    ensures Solid(Trim(s)) == Solid(s)
  {
    SolidTrimLeft(s);
    SolidTrimRight(TrimLeft(s));
  }

  lemma SolidMarks()
    ensures Solid(MARK) == 3 && Solid(SEPARATOR) == 3
  {
    assert MARK[1..] == "--\n" && SEPARATOR[1..] == MARK;
    assert "--\n"[1..] == "-\n" && "-\n"[1..] == "\n";
    assert Solid("\n") == 0 && Solid("-\n") == 1 && Solid("--\n") == 2;
  }

  lemma {:induction false} SolidTrimAll(docs: seq<string>)
    ensures SolidAll(TrimAll(docs)) == SolidAll(docs) && |TrimAll(docs)| == |docs|
  {
    if docs != [] {
      SolidTrim(docs[0]);
      SolidTrimAll(docs[1..]);
    }
  }

  /** Trimming and dropping empty pieces loses no solid character. */
  lemma {:induction false} SolidTrimmed(pieces: seq<string>)
    ensures SolidAll(TrimmedNonEmpty(pieces)) == SolidAll(pieces)
    ensures |TrimmedNonEmpty(pieces)| <= |pieces|
  {
    if pieces != [] {
      var t, rest := Trim(pieces[0]), TrimmedNonEmpty(pieces[1..]);
      SolidTrim(pieces[0]);
      SolidTrimmed(pieces[1..]);
      assert ([t] + rest)[1..] == rest && [] + rest == rest;
    }
  }

  lemma {:induction false} SolidEmitted(docs: seq<string>)
    ensures Solid(Emitted(docs)) == SolidAll(docs) + 3 * |docs|
  {
    if docs != [] {
      SolidMarks();
      SolidConcat(MARK + docs[0], Emitted(docs[1..]));
      SolidConcat(MARK, docs[0]);
      SolidEmitted(docs[1..]);
    }
  }

  lemma SolidCut(s: string, k: nat)
    requires SeparatorAt(s, k)
    ensures Solid(s) == Solid(s[..k]) + 3 + Solid(s[k + 5..])
  {
    var head, rest := s[..k], s[k + 5..];
    assert s == head + (SEPARATOR + rest);
    SolidConcat(head, SEPARATOR + rest);
    SolidConcat(SEPARATOR, rest);
    SolidMarks();
  }

  /** Every cut loses exactly the three dashes of its separator. */
  lemma {:induction false} SolidPieces(s: string)
    ensures |Pieces(s)| >= 1
    ensures Solid(s) == SolidAll(Pieces(s)) + 3 * (|Pieces(s)| - 1)
    decreases |s|
  {
    FindReturnsFirst(s, 0);
    match FirstCut(s)
    case None =>
      assert [s][1..] == [];
    case Some(i) =>
      var rest := s[i + 5..];
      SolidCut(s, i);
      SolidPieces(rest);
      assert ([s[..i]] + Pieces(rest))[1..] == Pieces(rest);
  }

  /** If the documents come back, no piece was dropped and the first piece is the first document. */
  lemma FirstPieceIsFirst(first: string, docs: seq<string>)
    requires SplitMultiDoc(first + Emitted(docs)) == [Trim(first)] + TrimAll(docs)
    ensures Pieces(first + Emitted(docs)) != []
    ensures Solid(Pieces(first + Emitted(docs))[0]) == Solid(first)
  {
    var s := first + Emitted(docs);
    var pieces := Pieces(s);
    var back := [Trim(first)] + TrimAll(docs);
    assert back[1..] == TrimAll(docs);
    SolidConcat(first, Emitted(docs));
    SolidEmitted(docs);
    SolidTrim(first);
    SolidTrimAll(docs);
    SolidPieces(s);
    SolidTrimmed(pieces);
    SolidTrimmed(pieces[1..]);
    assert |pieces| == |docs| + 1;
    assert Trim(pieces[0]) != "";
    assert Trim(pieces[0]) == back[0];
    SolidTrim(pieces[0]);
  }

  lemma CutInsideLoses(first: string, tail: string)
    requires ContainsSeparator(first)
    ensures Pieces(first + tail) != [] && Solid(Pieces(first + tail)[0]) < Solid(first)
  {
    var s := first + tail;
    var q :| 0 <= q <= |first| && SeparatorAt(first, q);
    assert s[q..q + 5] == first[q..q + 5];
    assert SeparatorAt(s, q);
    FindReturnsFirst(s, 0);
    var k := FirstCut(s).value;
    assert s[k..k + 5] == first[k..k + 5];
    assert s[..k] == first[..k];
    SolidCut(first, k);
  }

  lemma {:induction false} SplitStreamNeeds(first: string, docs: seq<string>)
    requires Rendered(first) && AllRendered(docs)
    requires SplitMultiDoc(first + Emitted(docs)) == [Trim(first)] + TrimAll(docs)
    ensures !ContainsSeparator(first) && NoneSeparated(docs)
    decreases |docs|
  {
    FirstPieceIsFirst(first, docs);
    if ContainsSeparator(first) {
      CutInsideLoses(first, Emitted(docs));
      assert false;
    }
    if docs != [] {
      SplitAtBoundary(first, docs);
      var rest := SplitMultiDoc(docs[0] + Emitted(docs[1..]));
      assert rest == ([Trim(first)] + rest)[1..];
      assert ([Trim(first)] + TrimAll(docs))[1..] == TrimAll(docs);
      SplitStreamNeeds(docs[0], docs[1..]);
      assert docs == [docs[0]] + docs[1..];
    }
  }

  // ------------------------------------------------------------ the round trip

  /** What a snapshot should read back: the documents, trimmed, the first behind its marker. */
  function ReadBack(docs: seq<string>): seq<string> {
    if docs == [] then [] else [Trim(MARK + docs[0])] + TrimAll(docs[1..])
  }

  /** The marker and the separator as they stand in a stream. */
  lemma StreamOfTwo(a: string, b: string)
    ensures Emitted([a, b]) == "---\n" + a + "---\n" + b
    ensures forall s: string, i: nat :: SeparatorAt(s, i) <==> i + 5 <= |s| && s[i..i + 5] == "\n---\n"
  {
    assert [a, b][1..] == [b] && [b][1..] == [];
    assert Emitted([b]) == "---\n" + b + "";
  }

  /** Round trip: splitting the emitted stream gives the documents back in order exactly
      when none contains the separator and the first does not begin with the marker. */
  lemma RoundTripExactlyWhen(docs: seq<string>)
    requires AllRendered(docs)
    ensures SplitMultiDoc(Emitted(docs)) == ReadBack(docs)
       <==> NoneSeparated(docs) && (docs == [] || !(MARK <= docs[0]))
  {
    if docs == [] {
      assert Pieces("") == [""];
      assert Trim("") == "";
      assert TrimmedNonEmpty([""]) == [];
    } else {
      var first := MARK + docs[0];
      MarkIsSolid(docs[0]);
      assert Rendered(first);
      SeparatedBehindMark(docs[0]);
      assert Emitted(docs) == first + Emitted(docs[1..]);
      assert docs == [docs[0]] + docs[1..];
      assert NoneSeparated(docs) <==> !ContainsSeparator(docs[0]) && NoneSeparated(docs[1..]);
      if SplitMultiDoc(Emitted(docs)) == ReadBack(docs) {
        SplitStreamNeeds(first, docs[1..]);
      }
      if !ContainsSeparator(first) && NoneSeparated(docs[1..]) {
        SplitStream(first, docs[1..]);
      }
    }
  }

  lemma SeparatorBehindMark(doc: string, i: nat)
    requires SeparatorAt(MARK + doc, i)
    ensures MARK <= doc || ContainsSeparator(doc)
  {
    var first := MARK + doc;
    assert first[i..i + 5][0] == '\n';
    assert i >= 3;
    if i == 3 {
      assert first[4..8] == first[3..8][1..] == SEPARATOR[1..] == MARK;
      assert first[4..8] == doc[..4];
    } else {
      assert first[i..i + 5] == doc[i - 4..i + 1];
      assert SeparatorAt(doc, i - 4);
    }
  }

  lemma SeparatedBehindMark(doc: string)
    ensures ContainsSeparator(MARK + doc) <==> MARK <= doc || ContainsSeparator(doc)
  {
    var first := MARK + doc;
    if ContainsSeparator(first) {
      var i :| 0 <= i <= |first| && SeparatorAt(first, i);
      SeparatorBehindMark(doc, i);
    }
    if MARK <= doc {
      assert first[3..8] == "\n" + doc[..4];
      assert SeparatorAt(first, 3);
    }
    if ContainsSeparator(doc) {
      var i :| 0 <= i <= |doc| && SeparatorAt(doc, i);
      assert first[i + 4..i + 9] == doc[i..i + 5];
      assert SeparatorAt(first, i + 4);
    }
  }

  lemma MarkIsSolid(doc: string)
    ensures Trim(MARK + doc) != ""
  {
    TrimLeftOfSolid(MARK, doc);
    NotTrimmedAway(MARK + doc);
  }

  lemma {:induction false} NotTrimmedAway(s: string)
    requires s != [] && !IsWhite(s[0])
    ensures TrimRight(s) != []
  {
    if IsWhite(s[|s| - 1]) {
      NotTrimmedAway(s[..|s| - 1]);
    }
  }
}
