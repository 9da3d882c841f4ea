/** The two pieces of the Java standard library whose exact behaviour the
    Huffman tree builder depends on: `String.compareTo`, which breaks ties in
    the node ordering, and `trim().split("\\s+")`, which cuts the frequency
    table into tokens. */
module JavaText {

  /** `String.compareTo`: the difference of the first pair of characters that
      differ, or else the difference of the lengths. */
  function CompareStrings(a: string, b: string): int
    decreases |a|
  {
    if |a| == 0 || |b| == 0 then |a| - |b|
    else if a[0] != b[0] then a[0] as int - b[0] as int
    else CompareStrings(a[1..], b[1..])
  }

  /** Lexicographic order, stated independently of `CompareStrings`: `a` is a
      proper prefix of `b`, or `a` has the smaller character at the first
      position where the two differ. */
  ghost predicate LexLess(a: string, b: string) {
    a < b || exists k :: 0 <= k < |a| && k < |b| && a[..k] == b[..k] && a[k] < b[k]
  }

  lemma LexLessHeads(a: string, b: string)
    requires |a| > 0 && |b| > 0 && a[0] != b[0]
    ensures LexLess(a, b) <==> a[0] < b[0]
  {
    if a[0] < b[0] {
      assert a[..0] == b[..0];
    } else {
      forall k | 0 < k < |a| && k < |b|
        ensures a[..k] != b[..k]
      {
        assert a[..k][0] == a[0] && b[..k][0] == b[0];
      }
    }
  }

  /** A first difference of two strings with the same head is a first
      difference of their tails, one position earlier. */
  lemma LexWitnessDown(a: string, b: string, k: nat)
    requires |a| > 0 && |b| > 0 && a[0] == b[0]
    requires k < |a| && k < |b| && a[..k] == b[..k] && a[k] < b[k]
    ensures LexLess(a[1..], b[1..])
  {
    assert k > 0;
    assert a[1..][..k - 1] == a[1..k] == b[1..k] == b[1..][..k - 1];
    assert a[1..][k - 1] < b[1..][k - 1];
  }

  /** A first difference of the tails is one of the whole strings, one
      position later. */
  lemma LexWitnessUp(a: string, b: string, k: nat)
    requires |a| > 0 && |b| > 0 && a[0] == b[0]
    requires k < |a| - 1 && k < |b| - 1 && a[1..][..k] == b[1..][..k] && a[1..][k] < b[1..][k]
    ensures LexLess(a, b)
  {
    assert a[..k + 1] == [a[0]] + a[1..][..k];
    assert b[..k + 1] == [b[0]] + b[1..][..k];
    assert a[k + 1] < b[k + 1];
  }

  lemma LexLessTails(a: string, b: string)
    requires |a| > 0 && |b| > 0 && a[0] == b[0]
    ensures LexLess(a, b) <==> LexLess(a[1..], b[1..])
  {
    assert a < b <==> a[1..] < b[1..] by {
      assert a == [a[0]] + a[1..] && b == [a[0]] + b[1..];
    }
    if k: nat :| k < |a| && k < |b| && a[..k] == b[..k] && a[k] < b[k] {
      LexWitnessDown(a, b, k);
    }
    if k: nat :| k < |a| - 1 && k < |b| - 1 && a[1..][..k] == b[1..][..k] && a[1..][k] < b[1..][k] {
      LexWitnessUp(a, b, k);
    }
  }

  /** `String.compareTo` is zero exactly on equal strings, negative exactly on
      lexicographically smaller ones, and swapping its arguments negates it. */
  lemma {:induction false} CompareStringsMeaning(a: string, b: string)
    ensures CompareStrings(a, b) == 0 <==> a == b
    ensures CompareStrings(a, b) < 0 <==> LexLess(a, b)
    ensures CompareStrings(b, a) == -CompareStrings(a, b)
    decreases |a|
  {
    if |a| == 0 || |b| == 0 {
      if |b| == 0 {
        assert !(a < b);
      }
    } else if a[0] != b[0] {
      LexLessHeads(a, b);
    } else {
      assert a == b <==> a[1..] == b[1..] by {
        assert a == [a[0]] + a[1..] && b == [b[0]] + b[1..];
      }
      CompareStringsMeaning(a[1..], b[1..]);
      LexLessTails(a, b);
    }
  }

  /** The order `String.compareTo` induces is transitive. */
  lemma {:induction false} CompareStringsTransitive(a: string, b: string, c: string)
    requires CompareStrings(a, b) < 0 && CompareStrings(b, c) < 0
    ensures CompareStrings(a, c) < 0
    decreases |a|
  {
    if |a| > 0 && |b| > 0 && |c| > 0 && a[0] == b[0] && b[0] == c[0] {
      CompareStringsTransitive(a[1..], b[1..], c[1..]);
    }
  }

  /** The characters the regular expression class `\s` matches. */
  predicate IsWhitespace(c: char) {
    c == ' ' || c == '\t' || c == '\n' || c == '\r' || c as int == 0x0B || c as int == 0x0C
  }

  /** `String.trim` removes every character at or below U+0020 from both ends. */
  predicate Trimmable(c: char) {
    c as int <= 0x20
  }

  function TrimStart(s: string): string
    decreases |s|
  {
    if |s| > 0 && Trimmable(s[0]) then TrimStart(s[1..]) else s
  }

  function TrimEnd(s: string): string
    decreases |s|
  {
    if |s| > 0 && Trimmable(s[|s| - 1]) then TrimEnd(s[..|s| - 1]) else s
  }

  function Trim(s: string): string {
    TrimEnd(TrimStart(s))
  }

  /** The length of the run of non-whitespace characters that starts `s`. */
  function WordLength(s: string): (k: nat)
    ensures k <= |s|
    ensures forall i :: 0 <= i < k ==> !IsWhitespace(s[i])
    ensures k < |s| ==> IsWhitespace(s[k])
    decreases |s|
  {
    if |s| == 0 || IsWhitespace(s[0]) then 0 else 1 + WordLength(s[1..])
  }

  /** The maximal runs of non-whitespace characters of `s`, in order. */
  function Words(s: string): seq<string>
    decreases |s|
  {
    if |s| == 0 then []
    else if IsWhitespace(s[0]) then Words(s[1..])
    else
      var k := WordLength(s);
      [s[..k]] + Words(s[k..])
  }

  /** `s.trim().split("\\s+")`. Once trimmed, the string neither starts nor
      ends with whitespace, so the split yields exactly its words; a string
      that trims to nothing splits into the single empty token. */
  function Tokenize(s: string): seq<string> {
    var t := Trim(s);
    if |t| == 0 then [""] else Words(t)
  }

  /** A table written as `ws` with the separator `gaps[i]` between token i
      and token i+1. */
  function Join(ws: seq<string>, gaps: seq<string>): string
    requires |ws| > 0 && |gaps| + 1 == |ws|
    decreases |ws|
  {
    if |ws| == 1 then ws[0] else ws[0] + gaps[0] + Join(ws[1..], gaps[1..])
  }

  /** A token `split("\\s+")` keeps whole: non-empty, with no `\s` inside. */
  ghost predicate Token(w: string) {
    |w| > 0 && forall i :: 0 <= i < |w| ==> !IsWhitespace(w[i])
  }

  /** A separator `split("\\s+")` consumes whole: a non-empty run of `\s`. */
  ghost predicate Separator(g: string) {
    |g| > 0 && forall i :: 0 <= i < |g| ==> IsWhitespace(g[i])
  }

  /** Leading or trailing text `trim` removes whole. */
  ghost predicate Padding(p: string) {
    forall i :: 0 <= i < |p| ==> Trimmable(p[i])
  }

  /** Every word is a non-empty run of non-whitespace characters. */
  lemma {:induction false} WordsAreWords(s: string)
    ensures forall w :: w in Words(s) ==> |w| > 0 && forall i :: 0 <= i < |w| ==> !IsWhitespace(w[i])
    decreases |s|
  {
    if |s| > 0 {
      if IsWhitespace(s[0]) {
        WordsAreWords(s[1..]);
      } else {
        WordsAreWords(s[WordLength(s)..]);
      }
    }
  }

  /** Tokenizing never yields an empty token unless the whole input is blank,
      and no token contains whitespace. */
  lemma TokensAreWords(s: string)
    ensures |Trim(s)| == 0 <==> Tokenize(s) == [""]
    ensures forall w :: w in Tokenize(s) ==> forall i :: 0 <= i < |w| ==> !IsWhitespace(w[i])
    ensures |Trim(s)| > 0 ==> forall w :: w in Tokenize(s) ==> |w| > 0
  {
    WordsAreWords(Trim(s));
  }

  /** `trim` leaves a string that is blank or starts and ends with a
      character above U+0020. */
  lemma {:induction false} TrimEnds(s: string)
    ensures |Trim(s)| > 0 ==> !Trimmable(Trim(s)[0]) && !Trimmable(Trim(s)[|Trim(s)| - 1])
  {
    TrimStartFirst(s);
    TrimEndKeepsFirst(TrimStart(s));
  }

  lemma {:induction false} TrimStartFirst(s: string)
    ensures |TrimStart(s)| > 0 ==> !Trimmable(TrimStart(s)[0])
    decreases |s|
  {
    if |s| > 0 && Trimmable(s[0]) {
      TrimStartFirst(s[1..]);
    }
  }

  /** `TrimEnd` keeps a prefix of its input, and what it keeps does not end
      in a trimmable character. */
  lemma {:induction false} TrimEndKeepsFirst(s: string)
    ensures |TrimEnd(s)| <= |s| && TrimEnd(s) == s[..|TrimEnd(s)|]
    ensures |TrimEnd(s)| > 0 ==> !Trimmable(TrimEnd(s)[|TrimEnd(s)| - 1])
    decreases |s|
  {
    if |s| > 0 && Trimmable(s[|s| - 1]) {
      TrimEndKeepsFirst(s[..|s| - 1]);
    }
  }

  /** A string that trims to something yields at least one token. */
  lemma TokenizeNonEmpty(s: string)
    ensures |Tokenize(s)| > 0
  {
    var t := Trim(s);
    if |t| > 0 {
      TrimEnds(s);
      assert !IsWhitespace(t[0]);
    }
  }

  lemma WordOfToken(w: string, rest: string)
    requires Token(w)
    requires |rest| == 0 || IsWhitespace(rest[0])
    ensures WordLength(w + rest) == |w|
    ensures Words(w + rest) == [w] + Words(rest)
  {
    var s := w + rest;
    var k := WordLength(s);
    assert forall i :: 0 <= i < |w| ==> s[i] == w[i];
    if |rest| > 0 {
      assert s[|w|] == rest[0];
    }
    assert k == |w|;
    assert s[..k] == w && s[k..] == rest;
  }

  /** A joined table starts with the first character of its first token and
      ends with the last character of its last token. */
  lemma {:induction false} JoinEnds(ws: seq<string>, gaps: seq<string>)
    requires |ws| > 0 && |gaps| + 1 == |ws|
    requires forall i :: 0 <= i < |ws| ==> Token(ws[i])
    ensures var j, first, last := Join(ws, gaps), ws[0], ws[|ws| - 1];
      |j| > 0 && |first| > 0 && |last| > 0 && j[0] == first[0] && j[|j| - 1] == last[|last| - 1]
    decreases |ws|
  {
    assert Token(ws[0]);
    if |ws| > 1 {
      JoinEnds(ws[1..], gaps[1..]);
      assert ws[1..][|ws| - 2] == ws[|ws| - 1];
    }
  }

  lemma {:induction false} TrimStartPadding(pre: string, s: string)
    requires Padding(pre) && |s| > 0 && !Trimmable(s[0])
    ensures TrimStart(pre + s) == s
    decreases |pre|
  {
    if |pre| == 0 {
      assert pre + s == s;
    } else {
      assert (pre + s)[0] == pre[0];
      assert (pre + s)[1..] == pre[1..] + s;
      TrimStartPadding(pre[1..], s);
    }
  }

  lemma {:induction false} TrimEndPadding(s: string, post: string)
    requires Padding(post) && |s| > 0 && !Trimmable(s[|s| - 1])
    ensures TrimEnd(s + post) == s
    decreases |post|
  {
    if |post| == 0 {
      assert s + post == s;
    } else {
      var n := |post| - 1;
      assert (s + post)[|s + post| - 1] == post[n];
      assert (s + post)[..|s + post| - 1] == s + post[..n];
      TrimEndPadding(s, post[..n]);
    }
  }

  /** A run of `\s` in front of the text splits away. */
  lemma {:induction false} WordsSkipSeparator(g: string, rest: string)
    requires forall i :: 0 <= i < |g| ==> IsWhitespace(g[i])
    ensures Words(g + rest) == Words(rest)
    decreases |g|
  {
    if |g| == 0 {
      assert g + rest == rest;
    } else {
      assert (g + rest)[0] == g[0];
      assert (g + rest)[1..] == g[1..] + rest;
      WordsSkipSeparator(g[1..], rest);
    }
  }

  /** The words of a joined table are its tokens. */
  lemma {:induction false} WordsOfJoin(ws: seq<string>, gaps: seq<string>)
    requires |ws| > 0 && |gaps| + 1 == |ws|
    requires forall i :: 0 <= i < |ws| ==> Token(ws[i])
    requires forall i :: 0 <= i < |gaps| ==> Separator(gaps[i])
    ensures Words(Join(ws, gaps)) == ws
    decreases |ws|
  {
    if |ws| == 1 {
      WordOfToken(ws[0], "");
      assert ws[0] + "" == ws[0];
    } else {
      var rest := Join(ws[1..], gaps[1..]);
      var g := gaps[0];
      assert Separator(g);
      assert Words(Join(ws, gaps)) == [ws[0]] + Words(g + rest) by {
        WordOfToken(ws[0], g + rest);
        assert ws[0] + g + rest == ws[0] + (g + rest);
      }
      WordsSkipSeparator(g, rest);
      WordsOfJoin(ws[1..], gaps[1..]);
      assert ws == [ws[0]] + ws[1..];
    }
  }

  /** `trim().split("\\s+")` gives back the tokens of any table whose tokens
      hold no `\s`, whatever runs of `\s` separate them and whatever
      characters up to U+0020 pad it at either end, as long as `trim` does not
      eat into the table itself: its first and last characters are above
      U+0020. */
  lemma TokenizeJoin(ws: seq<string>, gaps: seq<string>, pre: string, post: string)
    requires |ws| > 0 && |gaps| + 1 == |ws|
    requires forall i :: 0 <= i < |ws| ==> Token(ws[i])
    requires var first, last := ws[0], ws[|ws| - 1];
      |first| > 0 && |last| > 0 && !Trimmable(first[0]) && !Trimmable(last[|last| - 1])
    requires forall i :: 0 <= i < |gaps| ==> Separator(gaps[i])
    requires Padding(pre) && Padding(post)
    ensures Tokenize(pre + Join(ws, gaps) + post) == ws
  {
    var j := Join(ws, gaps);
    JoinEnds(ws, gaps);
    assert Trim(pre + j + post) == j by {
      assert pre + j + post == pre + (j + post);
      assert (j + post)[0] == j[0];
      TrimStartPadding(pre, j + post);
      TrimEndPadding(j, post);
    }
    WordsOfJoin(ws, gaps);
  }
}
