/** Trimming of white space at both ends of a string. */
module Text {

  /** The characters with the Unicode White_Space property. */
  predicate IsWhite(c: char) {
    var u := c as int;
    || 0x09 <= u <= 0x0D || u == 0x20 || u == 0x85 || u == 0xA0 || u == 0x1680
    || 0x2000 <= u <= 0x200A || u == 0x2028 || u == 0x2029 || u == 0x202F || u == 0x205F || u == 0x3000
  }

  /** Among the ASCII characters these are the space, the tab, the line feed, the vertical tab,
      the form feed and the carriage return. */
  lemma WhiteInAscii(c: char)
    requires c < 128 as char
    ensures IsWhite(c) <==> c in {' ', '\t', '\n', 11 as char, 12 as char, '\r'}
  {
  }

  predicate AllWhite(s: string) {
    forall i :: 0 <= i < |s| ==> IsWhite(s[i])
  }

  function TrimLeft(s: string): string {
    if s != [] && IsWhite(s[0]) then TrimLeft(s[1..]) else s
  }

  function TrimRight(s: string): string {
    if s != [] && IsWhite(s[|s| - 1]) then TrimRight(s[..|s| - 1]) else s
  }

  function Trim(s: string): string {
    TrimRight(TrimLeft(s))
  }

  lemma TrimLeftOfSolid(s: string, t: string)
    requires s != [] && !IsWhite(s[0])
    ensures TrimLeft(s + t) == s + t
  {
  }

  lemma {:induction false} TrimRightDropsWhite(s: string, w: string)
    requires AllWhite(w)
    ensures TrimRight(s + w) == TrimRight(s)
  {
    if w == [] {
      assert s + w == s;
    } else {
      var m := |w| - 1;
      assert (s + w)[..|s + w| - 1] == s + w[..m];
      TrimRightDropsWhite(s, w[..m]);
    }
  }

  lemma {:induction false} TrimLeftKeepsTail(s: string, w: string)
    requires !AllWhite(s)
    ensures TrimLeft(s + w) == TrimLeft(s) + w
  {
    if IsWhite(s[0]) {
      assert (s + w)[1..] == s[1..] + w;
      TrimLeftKeepsTail(s[1..], w);
    }
  }

  lemma {:induction false} TrimLeftOfWhite(w: string)
    requires AllWhite(w)
    ensures TrimLeft(w) == []
  {
    if w != [] {
      TrimLeftOfWhite(w[1..]);
    }
  }

  /** White space at the end does not change the trimmed text. */
  lemma TrimDropsTrailingWhite(s: string, w: string)
    requires AllWhite(w)
    ensures Trim(s + w) == Trim(s)
  {
    if AllWhite(s) {
      TrimLeftOfWhite(s);
      TrimLeftOfWhite(s + w);
    } else {
      TrimLeftKeepsTail(s, w);
      TrimRightDropsWhite(TrimLeft(s), w);
    }
  }

  lemma {:induction false} TrimNeverGrows(s: string)
    ensures |TrimLeft(s)| <= |s| && |TrimRight(s)| <= |s|
    ensures s != [] && IsWhite(s[0]) ==> |TrimLeft(s)| < |s|
    ensures s != [] && IsWhite(s[|s| - 1]) ==> |TrimRight(s)| < |s|
  {
    if s != [] {
      TrimNeverGrows(s[1..]);
      TrimNeverGrows(s[..|s| - 1]);
    }
  }

  /** Trimming changes a text exactly when white space stands at one of its ends. */
  lemma TrimKeepsExactlyWhen(s: string)
    ensures Trim(s) == s <==> s == [] || (!IsWhite(s[0]) && !IsWhite(s[|s| - 1]))
  {
    TrimNeverGrows(s);
    TrimNeverGrows(TrimLeft(s));
  }
}
