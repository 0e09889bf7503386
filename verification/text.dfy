/** String helpers shared by the server-side (Python) and client-side (JavaScript) models:
    prefix and substring tests, ASCII case mapping, the two languages' notions of
    whitespace, Python's `str.split()`, JavaScript's `split` on one character,
    `join`, `trim` and single-character replacement. */
module Text {

  /** `s` begins with `p` (Python `s.startswith(p)`, JavaScript `s.startsWith(p)`). */
  predicate StartsWith(s: string, p: string) {
    |p| <= |s| && s[..|p|] == p
  }

  /** `s` ends with `p`. */
  predicate EndsWith(s: string, p: string) {
    |p| <= |s| && s[|s| - |p|..] == p
  }

  /** `w` occurs in `s` starting at index `i`. */
  ghost predicate OccursAt(s: string, w: string, i: int) {
    0 <= i && i + |w| <= |s| && s[i..i + |w|] == w
  }

  /** Python's substring test `w in s`, trying every start position from left to right. */
  predicate Contains(s: string, w: string)
    decreases |s|
  {
    StartsWith(s, w) || (|s| > 0 && Contains(s[1..], w))
  }

  /** Python's `any(w in s for w in words)`. */
  predicate ContainsAny(s: string, words: seq<string>) {
    exists k :: 0 <= k < |words| && Contains(s, words[k])
  }

  /** The left-to-right scan finds `w` exactly when `w` occurs somewhere in `s`. */
  lemma {:induction false} ContainsIff(s: string, w: string)
    ensures Contains(s, w) <==> exists i :: OccursAt(s, w, i)
    decreases |s|
  {
    if StartsWith(s, w) {
      assert OccursAt(s, w, 0);
    } else if |s| == 0 {
    } else {
      ContainsIff(s[1..], w);
      if exists i :: OccursAt(s, w, i) {
        var i :| OccursAt(s, w, i);
        assert i != 0;
        assert s[1..][i - 1..i - 1 + |w|] == s[i..i + |w|];
        assert OccursAt(s[1..], w, i - 1);
      }
      if exists j :: OccursAt(s[1..], w, j) {
        var j :| OccursAt(s[1..], w, j);
        assert s[1..][j..j + |w|] == s[j + 1..j + 1 + |w|];
        assert OccursAt(s, w, j + 1);
      }
    }
  }

  /** A string contains every string placed inside it. */
  lemma ContainsInfix(a: string, w: string, b: string)
    ensures Contains(a + w + b, w)
  {
    var s := a + w + b;
    assert s[|a|..|a| + |w|] == w;
    assert OccursAt(s, w, |a|);
    ContainsIff(s, w);
  }

  /** A substring of `s` is a substring of every extension of `s` on either side. */
  lemma ContainsExtend(a: string, s: string, b: string, w: string)
    requires Contains(s, w)
    ensures Contains(a + s + b, w)
  {
    ContainsIff(s, w);
    var i :| OccursAt(s, w, i);
    var t := a + s + b;
    assert t[|a| + i..|a| + i + |w|] == s[i..i + |w|];
    assert OccursAt(t, w, |a| + i);
    ContainsIff(t, w);
  }

  /** `w` does not occur in `s` when one of its characters does not. */
  lemma AbsentChar(s: string, w: string, j: nat)
    requires j < |w| && w[j] !in s
    ensures !Contains(s, w)
  {
    ContainsIff(s, w);
    forall i | 0 <= i && i + |w| <= |s| ensures !OccursAt(s, w, i) {
      assert s[i..i + |w|][j] == s[i + j];
    }
  }

  /** Prepending `p` neither creates nor hides an occurrence of `w` when the last
      character of `p` is not in `w` and some character of `w` is not in `p`. */
  lemma ContainsAfterPrefix(p: string, x: string, w: string, j: nat)
    requires |p| > 0 && p[|p| - 1] !in w
    requires j < |w| && w[j] !in p
    ensures Contains(p + x, w) <==> Contains(x, w)
  {
    ContainsIff(p + x, w);
    ContainsIff(x, w);
    NoneStartsInPrefix(p, x, w, j);
    OccursAfterPrefix(p, x, w);
  }

  /** No occurrence of `w` in `p + x` starts inside `p`. */
  lemma NoneStartsInPrefix(p: string, x: string, w: string, j: nat)
    requires |p| > 0 && p[|p| - 1] !in w
    requires j < |w| && w[j] !in p
    ensures forall i :: 0 <= i < |p| ==> !OccursAt(p + x, w, i)
  {
    var s := p + x;
    forall i | 0 <= i < |p| ensures !OccursAt(s, w, i) {
      if i + |w| <= |p| {
        assert s[i..i + |w|][j] == p[i + j];
      } else if i + |w| <= |s| {
        assert s[i..i + |w|][|p| - 1 - i] == p[|p| - 1];
      }
    }
  }

  /** The occurrences in `p + x` from `|p|` on are those in `x`, shifted by `|p|`. */
  lemma OccursAfterPrefix(p: string, x: string, w: string)
    ensures forall i :: |p| <= i && OccursAt(p + x, w, i) ==> OccursAt(x, w, i - |p|)
    ensures forall i :: OccursAt(x, w, i) ==> OccursAt(p + x, w, i + |p|)
  {
    var s := p + x;
    forall i | |p| <= i && OccursAt(s, w, i) ensures OccursAt(x, w, i - |p|) {
      assert x[i - |p|..i - |p| + |w|] == s[i..i + |w|];
    }
    forall i | OccursAt(x, w, i) ensures OccursAt(s, w, i + |p|) {
      assert s[i + |p|..i + |p| + |w|] == x[i..i + |w|];
    }
  }

  /** `p` cannot take part in an occurrence of `w` in `p + x`: its last character is not
      in `w`, and some character of `w` is not in `p`. */
  predicate Separable(p: string, w: string) {
    |p| > 0 && p[|p| - 1] !in w && exists j :: 0 <= j < |w| && w[j] !in p
  }

  /** A prefix separable from every keyword changes no keyword test. */
  lemma ContainsAnyAfterPrefix(p: string, x: string, words: seq<string>)
    requires forall k :: 0 <= k < |words| ==> Separable(p, words[k])
    ensures ContainsAny(p + x, words) <==> ContainsAny(x, words)
  {
    forall k | 0 <= k < |words| ensures Contains(p + x, words[k]) <==> Contains(x, words[k]) {
      var j :| 0 <= j < |words[k]| && words[k][j] !in p;
      ContainsAfterPrefix(p, x, words[k], j);
    }
  }

  // ---------------------------------------------------------------------------
  // Case mapping

  /** ASCII lower-casing of one character; every other character is unchanged. */
  function LowerChar(c: char): char {
    if 'A' <= c <= 'Z' then (c as int + 32) as char else c
  }

  /** ASCII upper-casing of one character; every other character is unchanged. */
  function UpperChar(c: char): char {
    if 'a' <= c <= 'z' then (c as int - 32) as char else c
  }

  /** Python's `s.lower()`, restricted to the ASCII letters. */
  function Lower(s: string): string {
    seq(|s|, i requires 0 <= i < |s| => LowerChar(s[i]))
  }

  /** Python's `s.upper()`, restricted to the ASCII letters. */
  function Upper(s: string): string {
    seq(|s|, i requires 0 <= i < |s| => UpperChar(s[i]))
  }

  lemma LowerAppend(a: string, b: string)
    ensures Lower(a + b) == Lower(a) + Lower(b)
  {
  }

  /** A lower-case letter is absent from the lower-cased string when neither it nor its
      capital is present in the original. */
  lemma LowerAbsent(s: string, c: char)
    requires 'a' <= c <= 'z'
    requires c !in s && UpperChar(c) !in s
    ensures c !in Lower(s)
  {
    forall i | 0 <= i < |s| ensures Lower(s)[i] != c {
      assert s[i] != c && s[i] != UpperChar(c);
    }
  }

  /** Lower-casing forgets whatever upper-casing did first. */
  lemma LowerOfUpper(s: string)
    ensures Lower(Upper(s)) == Lower(s)
  {
    assert forall i :: 0 <= i < |s| ==> LowerChar(UpperChar(s[i])) == LowerChar(s[i]);
  }

  // ---------------------------------------------------------------------------
  // Whitespace

  /** Python's `str.isspace()` on one character: the separators `str.split()` splits on. */
  predicate IsPySpace(c: char) {
    || c == ' ' || ('\t' <= c <= '\r') || ('\U{1C}' <= c <= '\U{1F}')
    || c == '\U{85}' || c == '\U{A0}' || c == '\U{1680}'
    || ('\U{2000}' <= c <= '\U{200A}') || c == '\U{2028}' || c == '\U{2029}'
    || c == '\U{202F}' || c == '\U{205F}' || c == '\U{3000}'
  }

  /** The characters JavaScript's `String.prototype.trim` removes
      (WhiteSpace and LineTerminator of the ECMAScript grammar). */
  predicate IsJsSpace(c: char) {
    || c == ' ' || ('\t' <= c <= '\r') || c == '\U{A0}' || c == '\U{1680}'
    || ('\U{2000}' <= c <= '\U{200A}') || c == '\U{2028}' || c == '\U{2029}'
    || c == '\U{202F}' || c == '\U{205F}' || c == '\U{3000}' || c == '\U{FEFF}'
  }

  // ---------------------------------------------------------------------------
  // Python's str.split() and str.join()

  /** A non-empty run of non-whitespace characters: one element of `s.split()`. */
  predicate IsWord(w: string) {
    |w| > 0 && forall i :: 0 <= i < |w| ==> !IsPySpace(w[i])
  }

  /** `s` without its leading whitespace. */
  function SkipSpaces(s: string): (r: string)
    ensures |r| <= |s| && r == s[|s| - |r|..]
    ensures |r| == 0 || !IsPySpace(r[0])
    decreases |s|
  {
    if |s| > 0 && IsPySpace(s[0]) then SkipSpaces(s[1..]) else s
  }

  /** The longest prefix of `s` free of whitespace. */
  function WordPrefix(s: string): (w: string)
    ensures StartsWith(s, w)
    ensures forall i :: 0 <= i < |w| ==> !IsPySpace(w[i])
    ensures |w| == |s| || IsPySpace(s[|w|])
    ensures |s| > 0 && !IsPySpace(s[0]) ==> |w| > 0
    decreases |s|
  {
    if |s| == 0 || IsPySpace(s[0]) then "" else [s[0]] + WordPrefix(s[1..])
  }

  /** Python's `s.split()` with no argument: the maximal whitespace-free runs, in order. */
  function Words(s: string): seq<string>
    decreases |s|
  {
    var t := SkipSpaces(s);
    if |t| == 0 then []
    else
      var w := WordPrefix(t);
      [w] + Words(t[|w|..])
  }

  /** Every element of `s.split()` is a word: non-empty and free of whitespace. */
  lemma {:induction false} WordsAreWords(s: string)
    ensures forall k :: 0 <= k < |Words(s)| ==> IsWord(Words(s)[k])
    decreases |s|
  {
    var t := SkipSpaces(s);
    if |t| > 0 {
      var w := WordPrefix(t);
      var rest := t[|w|..];
      assert IsWord(w);
      WordsAreWords(rest);
      AllWordsCons(w, Words(rest));
      assert Words(s) == [w] + Words(rest);
    }
  }

  lemma AllWordsCons(w: string, tail: seq<string>)
    requires IsWord(w)
    requires forall k :: 0 <= k < |tail| ==> IsWord(tail[k])
    ensures forall k :: 0 <= k < |[w] + tail| ==> IsWord(([w] + tail)[k])
  {
    forall k | 0 <= k < |[w] + tail| ensures IsWord(([w] + tail)[k]) {
      if k > 0 {
        assert ([w] + tail)[k] == tail[k - 1];
      }
    }
  }

  /** Python's `sep.join(parts)`. */
  function JoinWith(parts: seq<string>, sep: string): string
    decreases |parts|
  {
    if |parts| == 0 then ""
    else if |parts| == 1 then parts[0]
    else parts[0] + sep + JoinWith(parts[1..], sep)
  }

  /** Concatenation of a sequence of strings (`"".join(parts)`). */
  function Concat(parts: seq<string>): string
    decreases |parts|
  {
    if |parts| == 0 then "" else parts[0] + Concat(parts[1..])
  }

  lemma ConcatAppend(a: seq<string>, b: seq<string>)
    ensures Concat(a + b) == Concat(a) + Concat(b)
    decreases |a|
  {
    if |a| > 0 {
      assert (a + b)[1..] == a[1..] + b;
      ConcatAppend(a[1..], b);
    } else {
      assert a + b == b;
    }
  }

  lemma SkipSpacesOfWordStart(s: string)
    requires |s| > 0 && !IsPySpace(s[0])
    ensures SkipSpaces(s) == s
  {
  }

  lemma SkipOneSpace(x: string)
    requires |x| == 0 || !IsPySpace(x[0])
    ensures SkipSpaces(" " + x) == x
  {
    assert (" " + x)[1..] == x;
  }

  /** The whitespace-free prefix of `w + y` is `w` itself when `y` is empty or starts
      with whitespace. */
  lemma {:induction false} WordPrefixOfWord(w: string, y: string)
    requires forall i :: 0 <= i < |w| ==> !IsPySpace(w[i])
    requires |y| == 0 || IsPySpace(y[0])
    ensures WordPrefix(w + y) == w
    decreases |w|
  {
    if |w| > 0 {
      assert (w + y)[0] == w[0];
      assert !IsPySpace(w[0]);
      assert (w + y)[1..] == w[1..] + y;
      WordPrefixOfWord(w[1..], y);
      assert w == [w[0]] + w[1..];
    } else {
      assert w + y == y;
    }
  }

  lemma JoinWithCons(parts: seq<string>, sep: string)
    requires |parts| >= 2
    ensures JoinWith(parts, sep) == parts[0] + (sep + JoinWith(parts[1..], sep))
  {
    assert parts[0] + sep + JoinWith(parts[1..], sep) == parts[0] + (sep + JoinWith(parts[1..], sep));
  }

  /** Concatenation regroups freely. */
  lemma Assoc<T>(a: seq<T>, b: seq<T>, c: seq<T>)
    ensures a + b + c == a + (b + c)
  {
  }

  lemma Singleton<T>(s: seq<T>)
    requires |s| == 1
    ensures s == [s[0]]
  {
  }

  lemma HeadTail<T>(s: seq<T>)
    requires |s| > 0
    ensures s == [s[0]] + s[1..]
  {
  }

  /** A word followed by nothing or by whitespace is split off as the first word. */
  lemma WordsOfWordThen(w: string, x: string)
    requires IsWord(w)
    requires |x| == 0 || IsPySpace(x[0])
    ensures Words(w + x) == [w] + Words(x)
  {
    var s := w + x;
    assert s[0] == w[0];
    SkipSpacesOfWordStart(s);
    WordPrefixOfWord(w, x);
    assert s[|w|..] == x;
  }

  /** Leading whitespace does not change the split. */
  lemma WordsSkipSpace(y: string)
    ensures Words(" " + y) == Words(y)
  {
    assert (" " + y)[1..] == y;
  }

  /** A single word splits into itself. */
  lemma WordsOfOneWord(w: string)
    requires IsWord(w)
    ensures Words(w) == [w]
  {
    assert w + "" == w;
    WordsOfWordThen(w, "");
    assert Words("") == [];
  }

  /** One step of `WordsOfJoin`: a word, a space and a joined tail split into the word
      followed by the tail's split. */
  lemma WordsOfJoinStep(ws: seq<string>)
    requires |ws| >= 2 && IsWord(ws[0])
    ensures Words(JoinWith(ws, " ")) == [ws[0]] + Words(JoinWith(ws[1..], " "))
  {
    var rest := JoinWith(ws[1..], " ");
    JoinWithCons(ws, " ");
    WordsOfWordThen(ws[0], " " + rest);
    WordsSkipSpace(rest);
  }

  /** Splitting undoes joining with single spaces: `" ".join(ws).split() == ws`
      whenever every element of `ws` is a word. */
  lemma {:induction false} WordsOfJoin(ws: seq<string>)
    requires forall k :: 0 <= k < |ws| ==> IsWord(ws[k])
    ensures Words(JoinWith(ws, " ")) == ws
    decreases |ws|
  {
    if |ws| == 1 {
      WordsOfOneWord(ws[0]);
      Singleton(ws);
    } else if |ws| > 1 {
      var tail := ws[1..];
      assert forall k :: 0 <= k < |tail| ==> IsWord(tail[k]) by {
        forall k | 0 <= k < |tail| ensures IsWord(tail[k]) {
          assert tail[k] == ws[k + 1];
        }
      }
      WordsOfJoin(tail);
      WordsOfJoinStep(ws);
      HeadTail(ws);
    }
  }

  lemma JoinStartsWithWord(ws: seq<string>)
    requires |ws| > 0
    requires forall k :: 0 <= k < |ws| ==> IsWord(ws[k])
    ensures |JoinWith(ws, " ")| > 0 && !IsPySpace(JoinWith(ws, " ")[0])
  {
    assert IsWord(ws[0]);
  }

  /** The first word of a string that starts with a non-space character starts with
      that same character. */
  lemma FirstWordStart(s: string)
    requires |s| > 0 && !IsPySpace(s[0])
    ensures |Words(s)| > 0 && Words(s)[0][0] == s[0]
  {
    SkipSpacesOfWordStart(s);
  }

  // ---------------------------------------------------------------------------
  // JavaScript's split on one character, and replacement of one character

  /** Index of the first `c` in `s`. */
  function IndexOf(s: string, c: char): (i: nat)
    requires c in s
    ensures i < |s| && s[i] == c && c !in s[..i]
    decreases |s|
  {
    if s[0] == c then 0 else 1 + IndexOf(s[1..], c)
  }

  /** JavaScript's `s.split(sep)` for a one-character separator: the pieces between
      separators, keeping empty pieces, so there is always one more piece than there
      are separators. */
  function SplitOn(s: string, sep: char): (parts: seq<string>)
    ensures |parts| > 0
    ensures forall k :: 0 <= k < |parts| ==> sep !in parts[k]
    decreases |s|
  {
    if sep !in s then [s]
    else
      var i := IndexOf(s, sep);
      [s[..i]] + SplitOn(s[i + 1..], sep)
  }

  /** Splitting a line followed by a separator yields that line, then the rest. */
  lemma SplitOnCons(line: string, sep: char, rest: string)
    requires sep !in line
    ensures SplitOn(line + [sep] + rest, sep) == [line] + SplitOn(rest, sep)
  {
    var s := line + [sep] + rest;
    assert s[|line|] == sep;
    assert s[..|line|] == line;
    var i := IndexOf(s, sep);
    assert i == |line|;
    assert s[..i] == line;
    assert s[i + 1..] == rest;
  }

  /** Joining the pieces with the separator gives back the original string. */
  lemma {:induction false} JoinOfSplitOn(s: string, sep: char)
    ensures JoinWith(SplitOn(s, sep), [sep]) == s
    decreases |s|
  {
    if sep in s {
      var i := IndexOf(s, sep);
      var tail := SplitOn(s[i + 1..], sep);
      JoinOfSplitOn(s[i + 1..], sep);
      assert SplitOn(s, sep) == [s[..i]] + tail;
      assert ([s[..i]] + tail)[1..] == tail;
      assert s == s[..i] + [sep] + s[i + 1..];
    }
  }

  /** JavaScript's `s.replace(/c/g, t)`: every occurrence of `c` becomes `t`. */
  function ReplaceChar(s: string, c: char, t: string): string
    decreases |s|
  {
    if |s| == 0 then ""
    else if s[0] == c then t + ReplaceChar(s[1..], c, t)
    else [s[0]] + ReplaceChar(s[1..], c, t)
  }

  lemma {:induction false} ReplaceCharAppend(a: string, b: string, c: char, t: string)
    ensures ReplaceChar(a + b, c, t) == ReplaceChar(a, c, t) + ReplaceChar(b, c, t)
    decreases |a|
  {
    if |a| > 0 {
      assert (a + b)[1..] == a[1..] + b;
      ReplaceCharAppend(a[1..], b, c, t);
    } else {
      assert a + b == b;
    }
  }

  lemma {:induction false} ReplaceCharAbsent(s: string, c: char, t: string)
    requires c !in s
    ensures ReplaceChar(s, c, t) == s
    decreases |s|
  {
    if |s| > 0 {
      assert c !in s[1..];
      ReplaceCharAbsent(s[1..], c, t);
    }
  }

  /** No `c` survives a replacement whose text does not contain `c`. */
  lemma {:induction false} ReplaceCharRemoves(s: string, c: char, t: string)
    requires c !in t
    ensures c !in ReplaceChar(s, c, t)
    decreases |s|
  {
    if |s| > 0 {
      ReplaceCharRemoves(s[1..], c, t);
    }
  }

  /** Replacement agrees with an independent definition: split at every `c`, then join
      the pieces with `t`. */
  lemma {:induction false} ReplaceCharIsJoinOfSplit(s: string, c: char, t: string)
    ensures ReplaceChar(s, c, t) == JoinWith(SplitOn(s, c), t)
    decreases |s|
  {
    if c !in s {
      ReplaceCharAbsent(s, c, t);
    } else {
      var i := IndexOf(s, c);
      var tail := SplitOn(s[i + 1..], c);
      assert s == s[..i] + ([c] + s[i + 1..]);
      ReplaceCharAppend(s[..i], [c] + s[i + 1..], c, t);
      ReplaceCharAbsent(s[..i], c, t);
      assert ([c] + s[i + 1..])[1..] == s[i + 1..];
      ReplaceCharIsJoinOfSplit(s[i + 1..], c, t);
      assert SplitOn(s, c) == [s[..i]] + tail;
      assert ([s[..i]] + tail)[1..] == tail;
    }
  }

  // ---------------------------------------------------------------------------
  // JavaScript's trim()

  /** `s` without leading JavaScript whitespace. */
  function TrimStart(s: string): (r: string)
    ensures |r| <= |s| && r == s[|s| - |r|..]
    ensures |r| == 0 || !IsJsSpace(r[0])
    decreases |s|
  {
    if |s| > 0 && IsJsSpace(s[0]) then TrimStart(s[1..]) else s
  }

  /** `s` without trailing JavaScript whitespace. */
  function TrimEnd(s: string): (r: string)
    ensures |r| <= |s| && r == s[..|r|]
    ensures |r| == 0 || !IsJsSpace(r[|r| - 1])
    decreases |s|
  {
    if |s| > 0 && IsJsSpace(s[|s| - 1]) then TrimEnd(s[..|s| - 1]) else s
  }

  /** JavaScript's `s.trim()`. */
  function Trim(s: string): string {
    TrimEnd(TrimStart(s))
  }

  /** Every character of `s` is JavaScript whitespace. */
  predicate AllJsSpace(s: string) {
    forall i :: 0 <= i < |s| ==> IsJsSpace(s[i])
  }

  /** Trimming the start leaves nothing exactly when everything is whitespace. */
  lemma {:induction false} TrimStartEmpty(s: string)
    ensures |TrimStart(s)| == 0 <==> AllJsSpace(s)
    decreases |s|
  {
    if |s| > 0 && IsJsSpace(s[0]) {
      TrimStartEmpty(s[1..]);
      AllJsSpaceTail(s);
    }
  }

  /** Past a leading space, the rest decides whether all is whitespace. */
  lemma AllJsSpaceTail(s: string)
    requires |s| > 0 && IsJsSpace(s[0])
    ensures AllJsSpace(s) <==> AllJsSpace(s[1..])
  {
    assert forall i :: 1 <= i < |s| ==> s[i] == s[1..][i - 1];
  }

  /** Trimming the end of a string that starts with a non-space keeps that start. */
  lemma {:induction false} TrimEndKeepsHead(s: string)
    requires |s| > 0 && !IsJsSpace(s[0])
    ensures |TrimEnd(s)| > 0 && TrimEnd(s)[0] == s[0]
    decreases |s|
  {
    if IsJsSpace(s[|s| - 1]) {
      TrimEndKeepsHead(s[..|s| - 1]);
    }
  }

  /** `s.trim()` is empty exactly when `s` is all whitespace; otherwise it is a slice
      of `s` that neither starts nor ends with whitespace. */
  lemma TrimEmptyIff(s: string)
    ensures |Trim(s)| == 0 <==> AllJsSpace(s)
    ensures |Trim(s)| > 0 ==> !IsJsSpace(Trim(s)[0]) && !IsJsSpace(Trim(s)[|Trim(s)| - 1])
    ensures exists i, j :: 0 <= i <= j <= |s| && Trim(s) == s[i..j]
  {
    TrimBlank(s);
    TrimSlice(s);
    var k := |s| - |TrimStart(s)|;
    assert Trim(s) == s[k..k + |Trim(s)|];
  }

  /** The first two properties of `TrimEmptyIff`. */
  lemma TrimBlank(s: string)
    ensures |Trim(s)| == 0 <==> AllJsSpace(s)
    ensures |Trim(s)| > 0 ==> !IsJsSpace(Trim(s)[0]) && !IsJsSpace(Trim(s)[|Trim(s)| - 1])
  {
    TrimStartEmpty(s);
    if |TrimStart(s)| > 0 {
      TrimEndKeepsHead(TrimStart(s));
    }
  }

  /** What `trim` keeps is the slice after the leading whitespace. */
  lemma TrimSlice(s: string)
    ensures |s| - |TrimStart(s)| + |Trim(s)| <= |s|
    ensures Trim(s) == s[|s| - |TrimStart(s)|..|s| - |TrimStart(s)| + |Trim(s)|]
  {
  }
}
