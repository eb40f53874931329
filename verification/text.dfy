/**
 String machinery shared by the popup's helpers: the ECMAScript notion of
 white space (what the regular-expression class `\s` matches and what
 `String.prototype.trim` removes), trimming, replacing every run of white
 space by one character (`replace(/\s+/g, sep)`), and the word view of a
 string against which those operations are specified.

 The functions carry only the facts their own termination needs; what they
 compute is stated by the lemmas that follow them.
 */
module Text {

  /** The code points of the ECMAScript WhiteSpace and LineTerminator
      productions; `\s` and `trim` use the same set. The Zs category is
      taken as of Unicode 15. */
  predicate IsSpace(c: char) {
    || c == '\t' || c == '\n' || c == '\U{B}' || c == '\U{C}' || c == '\r'
    || c == ' ' || c == '\U{A0}' || c == '\U{1680}'
    || ('\U{2000}' <= c <= '\U{200A}')
    || c == '\U{2028}' || c == '\U{2029}' || c == '\U{202F}' || c == '\U{205F}'
    || c == '\U{3000}' || c == '\U{FEFF}'
  }

  /** No character of `s` is white space. */
  predicate NoSpace(s: string) {
    forall i :: 0 <= i < |s| ==> !IsSpace(s[i])
  }

  /** Every character of `s` is white space (the empty string included). */
  predicate Blank(s: string) {
    forall i :: 0 <= i < |s| ==> IsSpace(s[i])
  }

  /** No two adjacent characters of `s` are both white space. */
  predicate NoDoubleSpace(s: string) {
    forall i, j :: 0 <= i < |s| && 0 <= j < |s| && j == i + 1 ==> !IsSpace(s[i]) || !IsSpace(s[j])
  }

  /** The only white space in `s` is the plain space character. */
  predicate OnlyPlainSpaces(s: string) {
    forall i :: 0 <= i < |s| && IsSpace(s[i]) ==> s[i] == ' '
  }

  /** The shape of a string after `clean`: no white space at either end, the
      only white space is the plain space, and no two white-space characters
      are adjacent. */
  predicate Normalized(s: string) {
    && (|s| == 0 || (!IsSpace(s[0]) && !IsSpace(s[|s| - 1])))
    && OnlyPlainSpaces(s)
    && NoDoubleSpace(s)
  }

  /** A word: a non-empty string without white space. */
  predicate IsWord(w: string) {
    |w| > 0 && NoSpace(w)
  }

  /** Leading white space removed. */
  function TrimStart(s: string): (r: string)
    ensures |r| <= |s|
  {
    if |s| > 0 && IsSpace(s[0]) then TrimStart(s[1..]) else s
  }

  /** Trailing white space removed. */
  function TrimEnd(s: string): (r: string)
    ensures |r| <= |s|
  {
    if |s| > 0 && IsSpace(s[|s| - 1]) then TrimEnd(s[..|s| - 1]) else s
  }

  /** `String.prototype.trim`. */
  function Trim(s: string): string
  {
    TrimEnd(TrimStart(s))
  }

  /** `s.replace(/\s+/g, sep)`: every maximal run of white space becomes one
      `sep`; every other character is kept. */
  function ReplaceSpaceRuns(s: string, sep: char): string
    decreases |s|
  {
    if |s| == 0 then []
    else if IsSpace(s[0]) then [sep] + ReplaceSpaceRuns(TrimStart(s), sep)
    else [s[0]] + ReplaceSpaceRuns(s[1..], sep)
  }

  /** The number of leading non-space characters of `s`. */
  function WordLength(s: string): (n: nat)
    ensures n <= |s|
  {
    if |s| > 0 && !IsSpace(s[0]) then 1 + WordLength(s[1..]) else 0
  }

  /** The maximal runs of non-space characters of `s`, in order. */
  function Words(s: string): seq<string>
    decreases |s|
  {
    var t := TrimStart(s);
    if |t| == 0 then []
    else
      var n := WordLength(t);
      [t[..n]] + Words(t[n..])
  }

  /** The words separated by single `sep` characters. */
  function Join(ws: seq<string>, sep: char): string
  {
    if |ws| == 0 then []
    else if |ws| == 1 then ws[0]
    else ws[0] + [sep] + Join(ws[1..], sep)
  }

  /** One `sep` when `t` ends in white space, nothing otherwise. */
  function TrailingSep(t: string, sep: char): string
  {
    if |t| > 0 && IsSpace(t[|t| - 1]) then [sep] else []
  }

  // ---------------------------------------------------------------------
  // What the trimming functions compute.

  /** `TrimStart` drops exactly the leading white space: the dropped prefix
      is blank and the rest is the suffix starting at a non-space
      character. */
  lemma {:induction false} TrimStartSpec(s: string)
    ensures TrimStart(s) == s[|s| - |TrimStart(s)|..]
    ensures Blank(s[..|s| - |TrimStart(s)|])
    ensures |TrimStart(s)| == 0 || !IsSpace(TrimStart(s)[0])
    decreases |s|
  {
    if |s| > 0 && IsSpace(s[0]) {
      TrimStartSpec(s[1..]);
      var k := |s| - |TrimStart(s)|;
      assert s[1..][..k - 1] == s[1..k];
      forall i | 0 <= i < k
        ensures IsSpace(s[..k][i])
      {
        if i > 0 {
          assert s[..k][i] == s[1..][..k - 1][i - 1];
        }
      }
    }
  }

  /** `TrimEnd` drops exactly the trailing white space. */
  lemma {:induction false} TrimEndSpec(s: string)
    ensures TrimEnd(s) == s[..|TrimEnd(s)|]
    ensures Blank(s[|TrimEnd(s)|..])
    ensures |TrimEnd(s)| == 0 || !IsSpace(TrimEnd(s)[|TrimEnd(s)| - 1])
    decreases |s|
  {
    if |s| > 0 && IsSpace(s[|s| - 1]) {
      var s' := s[..|s| - 1];
      TrimEndSpec(s');
      var k := |TrimEnd(s)|;
      forall i | 0 <= i < |s| - k
        ensures IsSpace(s[k..][i])
      {
        if i < |s| - 1 - k {
          assert s[k..][i] == s'[k..][i];
        }
      }
    }
  }

  /** `WordLength` measures exactly the leading word. */
  lemma {:induction false} WordLengthSpec(s: string)
    ensures NoSpace(s[..WordLength(s)])
    ensures WordLength(s) == |s| || IsSpace(s[WordLength(s)])
    decreases |s|
  {
    if |s| > 0 && !IsSpace(s[0]) {
      WordLengthSpec(s[1..]);
      var n := WordLength(s);
      forall i | 0 <= i < n
        ensures !IsSpace(s[..n][i])
      {
        if i > 0 {
          assert s[..n][i] == s[1..][..n - 1][i - 1];
        }
      }
    }
  }

  lemma TrimStartKeeps(s: string)
    requires |s| == 0 || !IsSpace(s[0])
    ensures TrimStart(s) == s
  {
  }

  lemma TrimEndKeeps(s: string)
    requires |s| == 0 || !IsSpace(s[|s| - 1])
    ensures TrimEnd(s) == s
  {
  }

  lemma TrimStartIdempotent(s: string)
    ensures TrimStart(TrimStart(s)) == TrimStart(s)
  {
    TrimStartSpec(s);
    TrimStartKeeps(TrimStart(s));
  }

  lemma {:induction false} TrimStartOfBlank(s: string)
    requires Blank(s)
    ensures TrimStart(s) == []
    decreases |s|
  {
    if |s| > 0 {
      assert Blank(s[1..]) by {
        forall i | 0 <= i < |s| - 1
          ensures IsSpace(s[1..][i])
        {
          assert s[1..][i] == s[i + 1];
        }
      }
      TrimStartOfBlank(s[1..]);
    }
  }

  /** A string that ends in a non-space character keeps that character when
      its leading white space is removed. */
  lemma TrimStartLast(s: string)
    requires |s| > 0 && !IsSpace(s[|s| - 1])
    ensures |TrimStart(s)| > 0 && TrimStart(s)[|TrimStart(s)| - 1] == s[|s| - 1]
  {
    TrimStartSpec(s);
  }

  lemma TrimStartLastOf(s: string)
    requires |TrimStart(s)| > 0
    ensures TrimStart(s)[|TrimStart(s)| - 1] == s[|s| - 1]
  {
    TrimStartSpec(s);
  }

  /** Leading white space of `x + y` lies within `x` when `x` ends in a
      non-space character. */
  lemma {:induction false} TrimStartAppend(x: string, y: string)
    requires |x| > 0 && !IsSpace(x[|x| - 1])
    ensures TrimStart(x + y) == TrimStart(x) + y
    decreases |x|
  {
    if IsSpace(x[0]) {
      assert (x + y)[1..] == x[1..] + y;
      TrimStartAppend(x[1..], y);
    }
  }

  // ---------------------------------------------------------------------
  // What run replacement and the word view compute.

  /** The shape of `s.replace(/\s+/g, sep)`: nothing longer than the input,
      the first character replaced or kept, no white space but `sep`, and
      never two white-space characters in a row. */
  lemma {:induction false} ReplaceSpaceRunsShape(s: string, sep: char)
    ensures |ReplaceSpaceRuns(s, sep)| <= |s|
    ensures |s| > 0 ==>
      |ReplaceSpaceRuns(s, sep)| > 0 && ReplaceSpaceRuns(s, sep)[0] == (if IsSpace(s[0]) then sep else s[0])
    ensures forall i :: 0 <= i < |ReplaceSpaceRuns(s, sep)| ==>
              ReplaceSpaceRuns(s, sep)[i] == sep || !IsSpace(ReplaceSpaceRuns(s, sep)[i])
    ensures NoDoubleSpace(ReplaceSpaceRuns(s, sep))
    decreases |s|
  {
    if |s| > 0 {
      var rest := if IsSpace(s[0]) then TrimStart(s) else s[1..];
      var r' := ReplaceSpaceRuns(rest, sep);
      var r := ReplaceSpaceRuns(s, sep);
      ReplaceSpaceRunsShape(rest, sep);
      if IsSpace(s[0]) {
        TrimStartSpec(s);
      }
      assert r == [r[0]] + r';
      forall i, j | 0 <= i < |r| && 0 <= j < |r| && j == i + 1
        ensures !IsSpace(r[i]) || !IsSpace(r[j])
      {
        if i > 0 {
          assert r[i] == r'[i - 1] && r[j] == r'[j - 1];
        }
      }
    }
  }

  /** Each element of `Words(s)` is a word. */
  lemma {:induction false} WordsAreWords(s: string)
    ensures forall i :: 0 <= i < |Words(s)| ==> IsWord(Words(s)[i])
    decreases |s|
  {
    var t := TrimStart(s);
    if |t| > 0 {
      TrimStartSpec(s);
      WordLengthSpec(t);
      var n := WordLength(t);
      WordsAreWords(t[n..]);
      assert Words(s) == [t[..n]] + Words(t[n..]);
    }
  }

  lemma WordsSkipSpace(s: string)
    ensures Words(TrimStart(s)) == Words(s)
  {
    TrimStartIdempotent(s);
  }

  /** One step of `Words` on a string that starts with a word. */
  lemma WordsAtWord(t: string)
    requires |t| > 0 && !IsSpace(t[0])
    ensures Words(t) == [t[..WordLength(t)]] + Words(t[WordLength(t)..])
  {
    TrimStartKeeps(t);
  }

  lemma WordsNonEmpty(s: string)
    requires |s| > 0 && !IsSpace(s[0])
    ensures |Words(s)| > 0
  {
    TrimStartKeeps(s);
  }

  lemma {:induction false} WordLengthOfWord(w: string, rest: string)
    requires NoSpace(w)
    requires |rest| == 0 || IsSpace(rest[0])
    ensures WordLength(w + rest) == |w|
    decreases |w|
  {
    if |w| > 0 {
      assert (w + rest)[1..] == w[1..] + rest;
      WordLengthOfWord(w[1..], rest);
    } else {
      assert w + rest == rest;
    }
  }

  /** `Words` peels off a leading word that is followed by white space or
      by nothing. */
  lemma WordsCons(w: string, rest: string)
    requires IsWord(w)
    requires |rest| == 0 || IsSpace(rest[0])
    ensures Words(w + rest) == [w] + Words(rest)
  {
    WordLengthOfWord(w, rest);
    WordsAtWord(w + rest);
    assert (w + rest)[..|w|] == w && (w + rest)[|w|..] == rest;
  }

  /** A string has no words exactly when it is blank. */
  lemma WordsEmptyIffBlank(s: string)
    ensures |Words(s)| == 0 <==> Blank(s)
  {
    TrimStartSpec(s);
    if Blank(s) {
      TrimStartOfBlank(s);
    }
  }

  /** Replacing runs in a word followed by anything leaves the word alone. */
  lemma {:induction false} ReplaceAfterWord(w: string, rest: string, sep: char)
    requires NoSpace(w)
    ensures ReplaceSpaceRuns(w + rest, sep) == w + ReplaceSpaceRuns(rest, sep)
    decreases |w|
  {
    if |w| > 0 {
      assert (w + rest)[1..] == w[1..] + rest;
      ReplaceAfterWord(w[1..], rest, sep);
    } else {
      assert w + rest == rest;
    }
  }

  /** A non-empty blank string is one run, replaced by one `sep`. */
  lemma ReplaceBlank(y: string, sep: char)
    requires |y| > 0 && Blank(y)
    ensures ReplaceSpaceRuns(y, sep) == [sep]
  {
    TrimStartOfBlank(y);
  }

  /** Run replacement distributes over a cut placed after a non-space
      character. */
  lemma {:induction false} ReplaceAppend(x: string, y: string, sep: char)
    requires |x| == 0 || !IsSpace(x[|x| - 1])
    ensures ReplaceSpaceRuns(x + y, sep) == ReplaceSpaceRuns(x, sep) + ReplaceSpaceRuns(y, sep)
    decreases |x|
  {
    if |x| == 0 {
      assert x + y == y;
    } else if IsSpace(x[0]) {
      TrimStartAppend(x, y);
      TrimStartLast(x);
      ReplaceAppend(TrimStart(x), y, sep);
    } else {
      assert (x + y)[1..] == x[1..] + y;
      ReplaceAppend(x[1..], y, sep);
    }
  }

  lemma JoinCons(w: string, ws: seq<string>, sep: char)
    requires |ws| > 0
    ensures Join([w] + ws, sep) == w + [sep] + Join(ws, sep)
  {
    assert ([w] + ws)[1..] == ws;
  }

  lemma ConcatAssoc(a: string, b: string, c: string, d: string)
    ensures a + (b + (c + d)) == (a + b + c) + d
  {
  }

  // The three shapes a string starting with a word can have, each proved
  // apart so that every proof stays small.

  lemma ReplaceIsJoinWord(w: string, sep: char)
    requires IsWord(w)
    ensures ReplaceSpaceRuns(w, sep) == Join(Words(w), sep) + TrailingSep(w, sep)
  {
    ReplaceAfterWord(w, [], sep);
    JoinWordsOfWord(w, sep);
    assert w + [] == w;
  }

  lemma JoinWordsOfWord(w: string, sep: char)
    requires IsWord(w)
    ensures Join(Words(w), sep) + TrailingSep(w, sep) == w
  {
    WordsCons(w, []);
    assert w + [] == w;
    assert Words([]) == [];
  }

  lemma ReplaceWordThenBlank(w: string, rest: string, sep: char)
    requires NoSpace(w) && |rest| > 0 && Blank(rest)
    ensures ReplaceSpaceRuns(w + rest, sep) == w + [sep]
  {
    ReplaceAfterWord(w, rest, sep);
    ReplaceBlank(rest, sep);
  }

  lemma JoinWordsOfWordThenBlank(w: string, rest: string, sep: char)
    requires IsWord(w) && |rest| > 0 && Blank(rest)
    ensures Join(Words(w + rest), sep) + TrailingSep(w + rest, sep) == w + [sep]
  {
    WordsCons(w, rest);
    WordsEmptyIffBlank(rest);
    assert Words(w + rest) == [w];
    assert (w + rest)[|w + rest| - 1] == rest[|rest| - 1];
  }

  lemma ReplaceIsJoinWordThenBlank(w: string, rest: string, sep: char)
    requires IsWord(w) && |rest| > 0 && Blank(rest)
    ensures ReplaceSpaceRuns(w + rest, sep)
         == Join(Words(w + rest), sep) + TrailingSep(w + rest, sep)
  {
    ReplaceWordThenBlank(w, rest, sep);
    JoinWordsOfWordThenBlank(w, rest, sep);
  }

  lemma ReplaceWordThenSpace(w: string, rest: string, sep: char)
    requires NoSpace(w) && |rest| > 0 && IsSpace(rest[0])
    ensures ReplaceSpaceRuns(w + rest, sep) == w + ([sep] + ReplaceSpaceRuns(TrimStart(rest), sep))
  {
    ReplaceAfterWord(w, rest, sep);
  }

  lemma JoinWordsOfWordThenSpace(w: string, rest: string, sep: char)
    requires IsWord(w) && |rest| > 0 && IsSpace(rest[0]) && |TrimStart(rest)| > 0
    ensures Join(Words(w + rest), sep) == w + [sep] + Join(Words(TrimStart(rest)), sep)
  {
    WordsCons(w, rest);
    WordsSkipSpace(rest);
    TrimStartSpec(rest);
    WordsNonEmpty(TrimStart(rest));
    JoinCons(w, Words(TrimStart(rest)), sep);
  }

  lemma TrailingSepAfterWord(w: string, rest: string, sep: char)
    requires |TrimStart(rest)| > 0
    ensures TrailingSep(w + rest, sep) == TrailingSep(TrimStart(rest), sep)
  {
    TrimStartLastOf(rest);
    assert (w + rest)[|w + rest| - 1] == rest[|rest| - 1];
  }

  lemma ReplaceIsJoinWordThenMore(w: string, rest: string, sep: char)
    requires IsWord(w) && |rest| > 0 && IsSpace(rest[0])
    requires |TrimStart(rest)| > 0
    requires ReplaceSpaceRuns(TrimStart(rest), sep)
          == Join(Words(TrimStart(rest)), sep) + TrailingSep(TrimStart(rest), sep)
    ensures ReplaceSpaceRuns(w + rest, sep)
         == Join(Words(w + rest), sep) + TrailingSep(w + rest, sep)
  {
    var u := TrimStart(rest);
    ReplaceWordThenSpace(w, rest, sep);
    JoinWordsOfWordThenSpace(w, rest, sep);
    TrailingSepAfterWord(w, rest, sep);
    ConcatAssoc(w, [sep], Join(Words(u), sep), TrailingSep(u, sep));
  }

  lemma ReplaceIsJoinAtWord(t: string, sep: char)
    requires |t| > 0 && WordLength(t) == |t|
    ensures ReplaceSpaceRuns(t, sep) == Join(Words(t), sep) + TrailingSep(t, sep)
  {
    WordLengthSpec(t);
    assert t[..|t|] == t;
    ReplaceIsJoinWord(t, sep);
  }

  lemma ReplaceIsJoinAtWordThenBlank(t: string, sep: char)
    requires |t| > 0 && !IsSpace(t[0]) && WordLength(t) < |t|
    requires |TrimStart(t[WordLength(t)..])| == 0
    ensures ReplaceSpaceRuns(t, sep) == Join(Words(t), sep) + TrailingSep(t, sep)
  {
    var n := WordLength(t);
    WordLengthSpec(t);
    TrimStartSpec(t[n..]);
    assert t[n..][..|t[n..]|] == t[n..];
    assert t == t[..n] + t[n..];
    ReplaceIsJoinWordThenBlank(t[..n], t[n..], sep);
  }

  lemma ReplaceIsJoinAtWordThenMore(t: string, sep: char)
    requires |t| > 0 && !IsSpace(t[0]) && WordLength(t) < |t|
    requires |TrimStart(t[WordLength(t)..])| > 0
    requires var u := TrimStart(t[WordLength(t)..]);
      ReplaceSpaceRuns(u, sep) == Join(Words(u), sep) + TrailingSep(u, sep)
    ensures ReplaceSpaceRuns(t, sep) == Join(Words(t), sep) + TrailingSep(t, sep)
  {
    var n := WordLength(t);
    WordLengthSpec(t);
    assert t == t[..n] + t[n..];
    ReplaceIsJoinWordThenMore(t[..n], t[n..], sep);
  }

  /** The main characterisation: on a string that does not start with white
      space, run replacement yields the words joined by `sep`, plus one
      trailing `sep` exactly when the string ends in white space. */
  lemma {:induction false} ReplaceIsJoin(t: string, sep: char)
    requires |t| == 0 || !IsSpace(t[0])
    ensures ReplaceSpaceRuns(t, sep) == Join(Words(t), sep) + TrailingSep(t, sep)
    decreases |t|
  {
    if |t| > 0 {
      var n := WordLength(t);
      if n == |t| {
        ReplaceIsJoinAtWord(t, sep);
      } else if |TrimStart(t[n..])| == 0 {
        ReplaceIsJoinAtWordThenBlank(t, sep);
      } else {
        TrimStartSpec(t[n..]);
        ReplaceIsJoin(TrimStart(t[n..]), sep);
        ReplaceIsJoinAtWordThenMore(t, sep);
      }
    }
  }

  // ---------------------------------------------------------------------
  // Joining words.

  lemma JoinEmpty(ws: seq<string>, sep: char)
    requires forall i :: 0 <= i < |ws| ==> IsWord(ws[i])
    ensures |Join(ws, sep)| == 0 <==> |ws| == 0
  {
    if |ws| > 0 {
      assert IsWord(ws[0]);
    }
  }

  lemma JoinFirst(ws: seq<string>, sep: char)
    requires |ws| > 0 && forall i :: 0 <= i < |ws| ==> IsWord(ws[i])
    ensures |Join(ws, sep)| > 0 && |ws[0]| > 0 && Join(ws, sep)[0] == ws[0][0]
  {
    assert IsWord(ws[0]);
  }

  /** Words joined by single spaces form a normalized string. */
  lemma {:induction false} JoinNormalized(ws: seq<string>)
    requires forall i :: 0 <= i < |ws| ==> IsWord(ws[i])
    ensures Normalized(Join(ws, ' '))
  {
    if |ws| == 1 {
      assert IsWord(ws[0]);
    } else if |ws| > 1 {
      var w, j := ws[0], Join(ws[1..], ' ');
      JoinNormalized(ws[1..]);
      JoinFirst(ws[1..], ' ');
      assert IsWord(w);
      var s := w + [' '] + j;
      assert Join(ws, ' ') == s;
      forall i | 0 <= i < |s| && IsSpace(s[i])
        ensures s[i] == ' '
      {
        if i > |w| {
          assert s[i] == j[i - |w| - 1];
        }
      }
      forall i, k | 0 <= i < |s| && 0 <= k < |s| && k == i + 1
        ensures !IsSpace(s[i]) || !IsSpace(s[k])
      {
        if i > |w| {
          assert s[i] == j[i - |w| - 1] && s[k] == j[k - |w| - 1];
        }
      }
    }
  }

  /** Joined words are free of white space when the separator is. */
  lemma {:induction false} JoinNoSpace(ws: seq<string>, sep: char)
    requires forall i :: 0 <= i < |ws| ==> IsWord(ws[i])
    requires !IsSpace(sep)
    ensures NoSpace(Join(ws, sep))
  {
    if |ws| == 1 {
      assert IsWord(ws[0]);
    } else if |ws| > 1 {
      JoinNoSpace(ws[1..], sep);
      assert IsWord(ws[0]);
      var s := ws[0] + [sep] + Join(ws[1..], sep);
      forall i | 0 <= i < |s|
        ensures !IsSpace(s[i])
      {
        if i > |ws[0]| {
          assert s[i] == Join(ws[1..], sep)[i - |ws[0]| - 1];
        }
      }
    }
  }

  lemma WordsAfterSep(sep: char, j: string)
    requires IsSpace(sep)
    requires |j| == 0 || !IsSpace(j[0])
    ensures Words([sep] + j) == Words(j)
  {
    assert ([sep] + j)[1..] == j;
    assert TrimStart([sep] + j) == TrimStart(j);
    TrimStartKeeps(j);
    WordsSkipSpace([sep] + j);
  }

  /** Splitting words joined by white space gives the words back. */
  lemma {:induction false} WordsOfJoin(ws: seq<string>, sep: char)
    requires forall i :: 0 <= i < |ws| ==> IsWord(ws[i])
    requires IsSpace(sep)
    ensures Words(Join(ws, sep)) == ws
  {
    if |ws| == 1 {
      assert IsWord(ws[0]);
      WordsCons(ws[0], []);
      assert ws[0] + [] == ws[0];
    } else if |ws| > 1 {
      var w, j := ws[0], Join(ws[1..], sep);
      assert IsWord(w);
      JoinFirst(ws[1..], sep);
      WordsOfJoin(ws[1..], sep);
      WordsAfterSep(sep, j);
      assert Join(ws, sep) == w + ([sep] + j);
      WordsCons(w, [sep] + j);
      assert ws == [w] + ws[1..];
    }
  }

  // ---------------------------------------------------------------------
  // The two compositions the popup uses.

  lemma CancelLast(a: string, b: string, c: char)
    requires a + [c] == b + [c]
    ensures a == b
  {
    assert a == (a + [c])[..|a|];
    assert b == (b + [c])[..|b|];
  }

  /** Trimming and then replacing runs by `sep` joins the words by `sep`:
      the shape of the prefix `toFilename` builds. */
  lemma TrimThenReplace(s: string, sep: char)
    ensures ReplaceSpaceRuns(Trim(s), sep) == Join(Words(s), sep)
  {
    TrimStartSpec(s);
    WordsSkipSpace(s);
    ReplaceTrimmedEnd(TrimStart(s), sep);
  }

  /** For a string that does not start with white space, replacing runs
      after the trailing white space is gone joins its words by `sep`. */
  lemma ReplaceTrimmedEnd(u: string, sep: char)
    requires |u| == 0 || !IsSpace(u[0])
    ensures ReplaceSpaceRuns(TrimEnd(u), sep) == Join(Words(u), sep)
  {
    var t := TrimEnd(u);
    TrimEndSpec(u);
    var y := u[|t|..];
    assert u == t + y;
    ReplaceIsJoin(u, sep);
    if |y| > 0 {
      ReplaceTrailingRun(u, t, y, sep);
    } else {
      assert u == t;
      assert TrailingSep(u, sep) == [];
      assert Join(Words(u), sep) + [] == Join(Words(u), sep);
    }
  }

  lemma ReplaceTrailingRun(u: string, t: string, y: string, sep: char)
    requires u == t + y && |y| > 0 && Blank(y)
    requires |t| == 0 || !IsSpace(t[|t| - 1])
    requires ReplaceSpaceRuns(u, sep) == Join(Words(u), sep) + TrailingSep(u, sep)
    ensures ReplaceSpaceRuns(t, sep) == Join(Words(u), sep)
  {
    ReplaceAppend(t, y, sep);
    ReplaceBlank(y, sep);
    assert u[|u| - 1] == y[|y| - 1];
    assert TrailingSep(u, sep) == [sep];
    CancelLast(ReplaceSpaceRuns(t, sep), Join(Words(u), sep), sep);
  }

  lemma LeadingRun(s: string, sep: char)
    ensures ReplaceSpaceRuns(s, sep)
         == (if |s| > 0 && IsSpace(s[0]) then [sep] else []) + ReplaceSpaceRuns(TrimStart(s), sep)
  {
  }

  lemma TrimJoinTail(j: string, tail: string)
    requires Normalized(j) && |j| > 0
    requires tail == [] || tail == [' ']
    ensures TrimEnd(TrimStart(j + tail)) == j
  {
    TrimStartKeeps(j + tail);
    if tail == [] {
      assert j + tail == j;
    } else {
      assert (j + tail)[..|j + tail| - 1] == j;
    }
    TrimEndKeeps(j);
  }

  lemma TrimLeadSpace(x: string)
    ensures TrimStart([' '] + x) == TrimStart(x)
  {
    assert ([' '] + x)[1..] == x;
  }

  /** Replacing runs by a space and then trimming (JavaScript's
      `replace(/\s+/g, " ").trim()`) joins the words by single spaces. */
  lemma ReplaceThenTrim(s: string)
    ensures Trim(ReplaceSpaceRuns(s, ' ')) == Join(Words(s), ' ')
  {
    var u := TrimStart(s);
    TrimStartSpec(s);
    WordsSkipSpace(s);
    var j := Join(Words(u), ' ');
    var tail := TrailingSep(u, ' ');
    ReplaceIsJoin(u, ' ');
    LeadingRun(s, ' ');
    WordsAreWords(u);
    JoinNormalized(Words(u));
    JoinEmpty(Words(u), ' ');
    var lead: string := if |s| > 0 && IsSpace(s[0]) then [' '] else [];
    assert ReplaceSpaceRuns(s, ' ') == lead + (j + tail);
    if |j| == 0 {
      if |u| > 0 {
        WordsNonEmpty(u);
      }
      assert lead + (j + tail) == lead;
    } else {
      TrimLeadSpace(j + tail);
      assert TrimStart(lead + (j + tail)) == TrimStart(j + tail);
      TrimJoinTail(j, tail);
    }
  }

  /** A string whose only white space is isolated plain spaces is left
      unchanged by run replacement. */
  lemma {:induction false} ReplaceKeepsSingleSpaces(s: string)
    requires OnlyPlainSpaces(s) && NoDoubleSpace(s)
    ensures ReplaceSpaceRuns(s, ' ') == s
    decreases |s|
  {
    if |s| > 0 {
      var s' := s[1..];
      assert OnlyPlainSpaces(s') by {
        forall i | 0 <= i < |s'| && IsSpace(s'[i])
          ensures s'[i] == ' '
        {
          assert s'[i] == s[i + 1];
        }
      }
      assert NoDoubleSpace(s') by {
        forall i, j | 0 <= i < |s'| && 0 <= j < |s'| && j == i + 1
          ensures !IsSpace(s'[i]) || !IsSpace(s'[j])
        {
          assert s'[i] == s[i + 1] && s'[j] == s[j + 1];
        }
      }
      ReplaceKeepsSingleSpaces(s');
      if IsSpace(s[0]) {
        if |s'| > 0 {
          assert s'[0] == s[1];
        }
        TrimStartKeeps(s');
        assert TrimStart(s) == s';
      }
    }
  }
}
