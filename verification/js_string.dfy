/** The JavaScript string operations the page functions rely on:
    `toLowerCase`, `includes`, `split(' ')` and `trim`. */
module JsString {

  /** ASCII lower-casing of one character; CSS keywords and colour
      notations are ASCII. */
  function LowerChar(c: char): char
  {
    if 'A' <= c <= 'Z' then (c as int + 32) as char else c
  }

  /** `String.prototype.toLowerCase`, on the ASCII letters. */
  function ToLower(s: string): (r: string)
    ensures |r| == |s|
    ensures forall i :: 0 <= i < |s| ==> r[i] == LowerChar(s[i])
  {
    seq(|s|, i requires 0 <= i < |s| => LowerChar(s[i]))
  }

  /** A string without upper-case ASCII letters is its own lower case. */
  lemma ToLowerOfLower(s: string)
    requires forall i :: 0 <= i < |s| ==> !('A' <= s[i] <= 'Z')
    ensures ToLower(s) == s
  {
  }

  /** `t` occurs in `s` starting at index `i`. */
  predicate OccursAt(s: string, t: string, i: nat)
  {
    i + |t| <= |s| && s[i..i + |t|] == t
  }

  /** `String.prototype.includes`. */
  predicate Contains(s: string, t: string)
  {
    exists i: nat | i <= |s| :: OccursAt(s, t, i)
  }

  /** `includes` read as a left-to-right scan: `t` is a prefix of `s`, or
      it is included in what follows the first character of `s`. */
  predicate IncludesScan(s: string, t: string)
    decreases |s|
  {
    if |t| <= |s| && s[..|t|] == t then true
    else if |s| == 0 then false
    else IncludesScan(s[1..], t)
  }

  /** `Contains` agrees with the scan in both directions, and a string is
      only ever included in one at least as long. */
  lemma {:induction false} ContainsIsScan(s: string, t: string)
    ensures Contains(s, t) <==> IncludesScan(s, t)
    ensures Contains(s, t) ==> |t| <= |s|
    decreases |s|
  {
    if |t| <= |s| && s[..|t|] == t {
      assert OccursAt(s, t, 0);
    } else if |s| == 0 {
      assert !Contains(s, t) by {
        forall i: nat | i <= |s| ensures !OccursAt(s, t, i) {
          assert i == 0;
        }
      }
    } else {
      ContainsIsScan(s[1..], t);
      if Contains(s, t) {
        var i: nat :| i <= |s| && OccursAt(s, t, i);
        assert i > 0;
        assert s[1..][i - 1..i - 1 + |t|] == s[i..i + |t|];
        assert OccursAt(s[1..], t, i - 1);
      }
      if Contains(s[1..], t) {
        var i: nat :| i <= |s[1..]| && OccursAt(s[1..], t, i);
        assert s[1..][i..i + |t|] == s[i + 1..i + 1 + |t|];
        assert OccursAt(s, t, i + 1);
      }
    }
  }

  /** The index of the first `c` in `s`, or `|s|` when there is none. */
  function IndexOf(s: string, c: char): (i: nat)
    ensures i <= |s|
    ensures i < |s| ==> s[i] == c
    ensures c !in s[..i]
    ensures i == |s| <==> c !in s
  {
    if |s| == 0 then 0
    else if s[0] == c then 0
    else
      var k := IndexOf(s[1..], c);
      assert s[..k + 1] == [s[0]] + s[1..][..k];
      k + 1
  }

  /** `String.prototype.split` with a one-character separator: the pieces
      between consecutive separators, empty pieces included. */
  function Split(s: string, sep: char): (parts: seq<string>)
    ensures |parts| >= 1
    ensures NoneContains(parts, sep)
    decreases |s|
  {
    var i := IndexOf(s, sep);
    if i == |s| then [s] else [s[..i]] + Split(s[i + 1..], sep)
  }

  /** No piece of `parts` contains `sep`. */
  predicate NoneContains(parts: seq<string>, sep: char)
  {
    forall k :: 0 <= k < |parts| ==> sep !in parts[k]
  }

  /** `Array.prototype.join` with a one-character separator. */
  function Join(parts: seq<string>, sep: char): string
    requires |parts| >= 1
  {
    if |parts| == 1 then parts[0] else parts[0] + [sep] + Join(parts[1..], sep)
  }

  /** Splitting loses nothing: joining the pieces back gives the input. */
  lemma {:induction false} JoinSplit(s: string, sep: char)
    ensures Join(Split(s, sep), sep) == s
    decreases |s|
  {
    var i := IndexOf(s, sep);
    if i < |s| {
      JoinSplit(s[i + 1..], sep);
      SplitAt(s, sep, i);
    }
  }

  /** `Split` at the first separator: the text before it, then the pieces
      of the text after it. */
  lemma SplitStep(s: string, sep: char, i: nat)
    requires i == IndexOf(s, sep) < |s|
    ensures Split(s, sep) == [s[..i]] + Split(s[i + 1..], sep)
  {
    var parts := Split(s, sep);
    assert parts == if i == |s| then [s] else [s[..i]] + Split(s[i + 1..], sep);
  }

  /** The step of `JoinSplit` at the first separator. */
  lemma SplitAt(s: string, sep: char, i: nat)
    requires i == IndexOf(s, sep) < |s|
    requires Join(Split(s[i + 1..], sep), sep) == s[i + 1..]
    ensures Join(Split(s, sep), sep) == s
  {
    var rest := Split(s[i + 1..], sep);
    SplitStep(s, sep, i);
    assert ([s[..i]] + rest)[1..] == rest;
    assert s == s[..i] + [sep] + s[i + 1..];
  }

  /** `w` stands in `s` between separators (or the ends of `s`) at index `i`. */
  predicate DelimitedAt(s: string, w: string, sep: char, i: nat)
  {
    && OccursAt(s, w, i)
    && (i == 0 || s[i - 1] == sep)
    && (i + |w| == |s| || s[i + |w|] == sep)
  }

  /** `w` is one of the separator-delimited words of `s`, stated without
      reference to `Split`. */
  predicate HasWord(s: string, w: string, sep: char)
  {
    exists i: nat | i <= |s| :: DelimitedAt(s, w, sep, i)
  }

  /** A delimited word of the text after a separator is a delimited word of
      the whole text, shifted past the separator. */
  lemma ShiftWord(s: string, w: string, sep: char, i: nat, j: nat)
    requires i < |s| && s[i] == sep
    requires DelimitedAt(s[i + 1..], w, sep, j)
    ensures DelimitedAt(s, w, sep, i + 1 + j)
  {
    assert s[i + 1 + j..i + 1 + j + |w|] == s[i + 1..][j..j + |w|];
  }

  /** Every piece `Split` returns stands between separators in the input. */
  lemma {:induction false} SplitPieceIsWord(s: string, w: string, sep: char)
    requires w in Split(s, sep)
    ensures HasWord(s, w, sep)
    decreases |s|
  {
    var i := IndexOf(s, sep);
    if i == |s| || w == s[..i] {
      assert DelimitedAt(s, w, sep, 0);
    } else {
      var tail := s[i + 1..];
      SplitStep(s, sep, i);
      SplitPieceIsWord(tail, w, sep);
      var j: nat :| j <= |tail| && DelimitedAt(tail, w, sep, j);
      ShiftWord(s, w, sep, i, j);
    }
  }

  /** A piece of the text after the first separator is a piece of the
      whole text. */
  lemma PieceOfTail(s: string, w: string, sep: char, i: nat)
    requires i == IndexOf(s, sep) < |s|
    requires w in Split(s[i + 1..], sep)
    ensures w in Split(s, sep)
  {
    var rest := Split(s[i + 1..], sep);
    var k :| 0 <= k < |rest| && rest[k] == w;
    SplitStep(s, sep, i);
    assert ([s[..i]] + rest)[k + 1] == w;
  }

  /** A separator-free word at the very start of `s` is the first piece. */
  lemma LeadingWordIsFirstPiece(s: string, w: string, sep: char)
    requires sep !in w
    requires DelimitedAt(s, w, sep, 0)
    ensures w == Split(s, sep)[0]
  {
    var i := IndexOf(s, sep);
    assert w == s[..i];
  }

  /** No separator comes before the first one. */
  lemma FirstSeparator(s: string, sep: char, p: nat)
    requires p < |s| && s[p] == sep
    ensures IndexOf(s, sep) <= p
  {
  }

  /** A delimited word after the first separator is a delimited word of the
      text that follows that separator. */
  lemma UnshiftWord(s: string, w: string, sep: char, i: nat, j: nat)
    requires i < |s| && i < j
    requires DelimitedAt(s, w, sep, j)
    requires i + 1 < j ==> s[j - 1] == sep
    ensures DelimitedAt(s[i + 1..], w, sep, j - (i + 1))
  {
    var tail := s[i + 1..];
    var k := j - (i + 1);
    assert tail[k..k + |w|] == s[j..j + |w|];
  }

  /** Every separator-free word standing between separators is a piece. */
  lemma {:induction false} WordIsSplitPiece(s: string, w: string, sep: char, j: nat)
    requires sep !in w
    requires DelimitedAt(s, w, sep, j)
    ensures w in Split(s, sep)
    decreases |s|
  {
    if j == 0 {
      LeadingWordIsFirstPiece(s, w, sep);
    } else {
      FirstSeparator(s, sep, j - 1);
      var i := IndexOf(s, sep);
      var tail := s[i + 1..];
      UnshiftWord(s, w, sep, i, j);
      WordIsSplitPiece(tail, w, sep, j - (i + 1));
      PieceOfTail(s, w, sep, i);
    }
  }

  /** A separator-free word is among the pieces `Split` returns exactly when
      it stands between separators in the input. */
  lemma SplitHasWord(s: string, w: string, sep: char)
    requires sep !in w
    ensures w in Split(s, sep) <==> HasWord(s, w, sep)
  {
    if w in Split(s, sep) {
      SplitPieceIsWord(s, w, sep);
    }
    if HasWord(s, w, sep) {
      var j: nat :| j <= |s| && DelimitedAt(s, w, sep, j);
      WordIsSplitPiece(s, w, sep, j);
    }
  }

  /** The characters ECMAScript's `trim` removes: WhiteSpace (including the
      Unicode space separators) and LineTerminator. */
  predicate IsJsWhitespace(c: char)
  {
    || c == '\t' || c == '\n' || c == '\U{000B}' || c == '\U{000C}' || c == '\r'
    || c == ' ' || c == '\U{00A0}' || c == '\U{1680}'
    || ('\U{2000}' <= c <= '\U{200A}')
    || c == '\U{2028}' || c == '\U{2029}' || c == '\U{202F}' || c == '\U{205F}'
    || c == '\U{3000}' || c == '\U{FEFF}'
  }

  /** Every character of `s` is whitespace. */
  predicate Blank(s: string)
  {
    forall i :: 0 <= i < |s| ==> IsJsWhitespace(s[i])
  }

  /** `s` without its leading whitespace. */
  function TrimStart(s: string): string
  {
    if |s| > 0 && IsJsWhitespace(s[0]) then TrimStart(s[1..]) else s
  }

  /** `TrimStart` cuts exactly the leading whitespace. */
  lemma {:induction false} TrimStartCuts(s: string)
    ensures var r := TrimStart(s);
      && |r| <= |s| && r == s[|s| - |r|..]
      && Blank(s[..|s| - |r|])
      && (|r| > 0 ==> !IsJsWhitespace(r[0]))
  {
    if |s| > 0 && IsJsWhitespace(s[0]) {
      TrimStartCuts(s[1..]);
      var r := TrimStart(s[1..]);
      var k := |s| - |r|;
      assert forall i :: 1 <= i < k ==> s[..k][i] == s[1..][..k - 1][i - 1];
    }
  }

  /** `s` without its trailing whitespace. */
  function TrimEnd(s: string): string
  {
    if |s| > 0 && IsJsWhitespace(s[|s| - 1]) then TrimEnd(s[..|s| - 1]) else s
  }

  /** `TrimEnd` cuts exactly the trailing whitespace. */
  lemma {:induction false} TrimEndCuts(s: string)
    ensures var r := TrimEnd(s);
      && |r| <= |s| && r == s[..|r|]
      && Blank(s[|r|..])
      && (|r| > 0 ==> !IsJsWhitespace(r[|r| - 1]))
  {
    if |s| > 0 && IsJsWhitespace(s[|s| - 1]) {
      TrimEndCuts(s[..|s| - 1]);
      var r := TrimEnd(s[..|s| - 1]);
      assert s[|r|..] == s[..|s| - 1][|r|..] + [s[|s| - 1]];
    }
  }

  /** `r` is `s` with only whitespace cut before index `a` and after `r`. */
  predicate StrippedAt(s: string, r: string, a: nat)
  {
    OccursAt(s, r, a) && Blank(s[..a]) && Blank(s[a + |r|..])
  }

  /** `String.prototype.trim`. */
  function Trim(s: string): string
  {
    TrimEnd(TrimStart(s))
  }

  /** `Trim` cuts only whitespace, from either side, and leaves a string
      that neither starts nor ends with whitespace; it leaves nothing exactly
      when `s` is all whitespace. */
  lemma TrimSpec(s: string)
    ensures var r := Trim(s);
      && (exists a: nat | a <= |s| :: StrippedAt(s, r, a))
      && (|r| > 0 ==> !IsJsWhitespace(r[0]) && !IsJsWhitespace(r[|r| - 1]))
      && (|r| == 0 <==> Blank(s))
  {
    var t := TrimStart(s);
    TrimStartCuts(s);
    TrimEndCuts(t);
    TrimCuts(s, t, TrimEnd(t));
    var a: nat := |s| - |t|;
    assert a <= |s| && StrippedAt(s, Trim(s), a);
  }

  /** Cutting leading whitespace and then trailing whitespace cuts only
      whitespace, and leaves nothing only when all of `s` is whitespace. */
  lemma TrimCuts(s: string, t: string, r: string)
    requires |t| <= |s| && t == s[|s| - |t|..] && Blank(s[..|s| - |t|])
    requires |t| > 0 ==> !IsJsWhitespace(t[0])
    requires |r| <= |t| && r == t[..|r|] && Blank(t[|r|..])
    ensures StrippedAt(s, r, |s| - |t|)
    ensures |r| == 0 <==> Blank(s)
  {
    var a := |s| - |t|;
    assert s[a..a + |r|] == r;
    assert s[a + |r|..] == t[|r|..];
    if |r| == 0 {
      assert s == s[..a] + t;
    }
  }
}
