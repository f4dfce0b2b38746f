/** The whitespace helpers of the utility library: tokenising on spaces,
    condensing runs of blanks, and padding listing columns. */
module TextUtils {
  import opened PyStr

  /** A token as split_on_spaces produces it: non-empty, free of blanks and
      tabs, with no whitespace at either end. */
  predicate IsToken(t: string) {
    t != [] && ' ' !in t && '\t' !in t && IsStripped(t)
  }

  /** The stripped non-empty pieces, in order (the list comprehension). */
  function StrippedPieces(parts: seq<string>): (r: seq<string>)
    ensures |r| <= |parts|
  {
    if parts == [] then []
    else
      var t := Strip(parts[0]);
      (if t != [] then [t] else []) + StrippedPieces(parts[1..])
  }

  /** split_on_spaces: tabs become blanks, the line is split at every blank,
      and the stripped non-empty pieces are kept in order. */
  function SplitOnSpaces(s: string): (r: seq<string>)
  {
    StrippedPieces(Split(Replace(s, '\t', ' '), ' '))
  }

  /** condense_spaces: the tokens joined by single blanks. */
  function CondenseSpaces(s: string): (r: string)
  {
    Join(" ", SplitOnSpaces(s))
  }

  /** pad_to_length: s followed by blanks up to exactly l characters; the
      source asserts that s is not already longer. */
  function PadToLength(s: string, l: nat): (r: string)
    requires l >= |s|
    ensures |r| == l && r[..|s|] == s
    ensures forall k :: |s| <= k < l ==> r[k] == ' '
  {
    s + RepeatChar(' ', l - |s|)
  }

  lemma {:induction false} StripKeepsOut(p: string, c: char)
    requires c !in p
    ensures c !in Strip(p)
  {
    var l := LStrip(p);
    assert l == p[|p| - |l|..];
    var r := RStrip(l);
    assert r == l[..|r|];
  }

  lemma {:induction false} TokenOfPiece(p: string)
    requires ' ' !in p && '\t' !in p
    ensures Strip(p) != [] ==> IsToken(Strip(p))
  {
    StripKeepsOut(p, ' ');
    StripKeepsOut(p, '\t');
    StripResult(p);
  }

  lemma {:induction false} StrippedPiecesAreTokens(parts: seq<string>)
    requires forall k :: 0 <= k < |parts| ==> ' ' !in parts[k] && '\t' !in parts[k]
    ensures forall k :: 0 <= k < |StrippedPieces(parts)| ==> IsToken(StrippedPieces(parts)[k])
  {
    if parts != [] {
      var t := Strip(parts[0]);
      TokenOfPiece(parts[0]);
      StrippedPiecesAreTokens(parts[1..]);
      var head: seq<string> := if t != [] then [t] else [];
      var tail := StrippedPieces(parts[1..]);
      assert StrippedPieces(parts) == head + tail;
      assert forall k :: 0 <= k < |head| ==> IsToken(head[k]);
    }
  }

  /** Every token is non-empty and holds no blank, no tab and no surrounding whitespace. */
  lemma {:induction false} SplitOnSpacesTokens(s: string)
    ensures forall k :: 0 <= k < |SplitOnSpaces(s)| ==> IsToken(SplitOnSpaces(s)[k])
  {
    var parts := Split(Replace(s, '\t', ' '), ' ');
    forall k | 0 <= k < |parts|
      ensures ' ' !in parts[k] && '\t' !in parts[k]
    {
      SplitPiecesWithout(Replace(s, '\t', ' '), '\t', k);
    }
    StrippedPiecesAreTokens(parts);
  }

  lemma {:induction false} SplitPiecesWithout(s: string, c: char, k: nat)
    requires c !in s && k < |Split(s, ' ')|
    ensures c !in Split(s, ' ')[k]
    decreases |s|
  {
    if ' ' in s && k > 0 {
      var i := FirstIndex(s, ' ');
      SplitPiecesWithout(s[i + 1..], c, k - 1);
    }
  }

  lemma {:induction false} StrippedPiecesOfTokens(toks: seq<string>)
    requires forall k :: 0 <= k < |toks| ==> IsToken(toks[k])
    ensures StrippedPieces(toks) == toks
  {
    if toks != [] {
      StripResult(toks[0]);
      StrippedPiecesOfTokens(toks[1..]);
    }
  }

  lemma {:induction false} JoinWithout(toks: seq<string>, c: char)
    requires c != ' '
    requires forall k :: 0 <= k < |toks| ==> c !in toks[k]
    ensures c !in Join(" ", toks)
  {
    if |toks| > 1 {
      JoinWithout(toks[1..], c);
    }
  }

  lemma {:induction false} ReplaceAbsent(s: string, a: char, b: char)
    requires a !in s
    ensures Replace(s, a, b) == s
  {
    var r := Replace(s, a, b);
    assert forall k :: 0 <= k < |s| ==> r[k] == s[k];
  }

  /** Tokenising the single-blank join of tokens gives the same tokens back. */
  lemma {:induction false} SplitOnSpacesOfJoin(toks: seq<string>)
    requires forall k :: 0 <= k < |toks| ==> IsToken(toks[k])
    ensures SplitOnSpaces(Join(" ", toks)) == toks
  {
    var s := Join(" ", toks);
    JoinWithout(toks, '\t');
    ReplaceAbsent(s, '\t', ' ');
    if toks == [] {
      assert Split(s, ' ') == [""];
      assert Strip("") == "";
    } else {
      SplitJoin(toks, ' ');
      StrippedPiecesOfTokens(toks);
    }
  }

  /** Condensing is idempotent. */
  lemma {:induction false} CondenseIdempotent(s: string)
    ensures CondenseSpaces(CondenseSpaces(s)) == CondenseSpaces(s)
  {
    SplitOnSpacesTokens(s);
    SplitOnSpacesOfJoin(SplitOnSpaces(s));
  }
}
