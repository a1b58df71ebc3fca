/** The operations on Python `str` values that update_pound_defines.py and
    powershellColonObjects.py are built from: whitespace stripping, prefix
    and suffix tests, splitting at a separator and joining back, splitting
    into whitespace-separated words with a `maxsplit`, and replacing one
    character by a string. A `str` is a sequence of code points. */
module PyText {

  /** `str.isspace` on one code point: the ASCII controls 9 to 13 and 28 to
      31, the space, and the Unicode spaces and separators Python counts. */
  predicate IsSpace(c: char)
  {
    c == ' ' || ('\t' <= c <= '\r') || ('\U{1C}' <= c <= '\U{1F}')
    || c == '\U{85}' || c == '\U{A0}' || c == '\U{1680}' || ('\U{2000}' <= c <= '\U{200A}')
    || c == '\U{2028}' || c == '\U{2029}' || c == '\U{202F}' || c == '\U{205F}' || c == '\U{3000}'
  }

  /** Every code point of `s` is whitespace (`not s.strip()`). */
  predicate Blank(s: string)
  {
    forall i :: 0 <= i < |s| ==> IsSpace(s[i])
  }

  /** No code point of `w` is whitespace. */
  predicate NoSpace(w: string)
  {
    forall i :: 0 <= i < |w| ==> !IsSpace(w[i])
  }

  /** `s.lstrip()`: the suffix of `s` left after its leading whitespace. */
  function LStrip(s: string): (r: string)
    ensures |r| <= |s| && r == s[|s| - |r|..]
    ensures r == [] || !IsSpace(r[0])
    ensures Blank(s[..|s| - |r|])
  {
    if s != [] && IsSpace(s[0]) then
      var r := LStrip(s[1..]);
      SuffixCons(s, r);
      r
    else
      assert s[..0] == [];
      s
  }

  /** A suffix of `s[1..]` after a blank prefix is a suffix of `s` after a
      blank prefix, when `s` starts with whitespace. */
  lemma SuffixCons(s: string, r: string)
    requires s != [] && IsSpace(s[0])
    requires |r| <= |s| - 1 && r == s[1..][|s| - 1 - |r|..] && Blank(s[1..][..|s| - 1 - |r|])
    ensures r == s[|s| - |r|..] && Blank(s[..|s| - |r|])
  {
    var k := |s| - |r|;
    assert s[1..][k - 1..] == s[k..];
    assert s[..k] == [s[0]] + s[1..][..k - 1];
    BlankAppend([s[0]], s[1..][..k - 1]);
  }

  /** `s.rstrip()`: the prefix of `s` left before its trailing whitespace. */
  function RStrip(s: string): (r: string)
    ensures |r| <= |s| && r == s[..|r|]
    ensures r == [] || !IsSpace(r[|r| - 1])
    ensures Blank(s[|r|..])
  {
    if s != [] && IsSpace(s[|s| - 1]) then
      var r := RStrip(s[..|s| - 1]);
      PrefixSnoc(s, r);
      r
    else
      assert s[|s|..] == [];
      s
  }

  /** A prefix of `s` without its last code point, before a blank suffix, is
      a prefix of `s` before a blank suffix, when `s` ends with whitespace. */
  lemma PrefixSnoc(s: string, r: string)
    requires s != [] && IsSpace(s[|s| - 1])
    requires |r| <= |s| - 1 && r == s[..|s| - 1][..|r|] && Blank(s[..|s| - 1][|r|..])
    ensures r == s[..|r|] && Blank(s[|r|..])
  {
    var u := s[..|s| - 1];
    assert u[..|r|] == s[..|r|];
    assert s[|r|..] == u[|r|..] + [s[|s| - 1]];
    BlankAppend(u[|r|..], [s[|s| - 1]]);
  }

  /** `s.strip()`: `s` without whitespace on either side; it is empty
      exactly when `s` is blank. */
  function Strip(s: string): (r: string)
    ensures |r| <= |s|
    ensures r == [] || (!IsSpace(r[0]) && !IsSpace(r[|r| - 1]))
    ensures r == [] <==> Blank(s)
  {
    StripEnds(s);
    RStrip(LStrip(s))
  }

  /** The first code point `strip` keeps is the first one `lstrip` keeps,
      and nothing is kept exactly when the text is blank. */
  lemma StripEnds(s: string)
    ensures var t := LStrip(s); var r := RStrip(t);
      (r != [] ==> r[0] == t[0]) && (r == [] <==> Blank(s))
  {
    var t := LStrip(s);
    var a := |s| - |t|;
    var r := RStrip(t);
    if r == [] {
      forall i | 0 <= i < |s|
        ensures IsSpace(s[i])
      {
        if i < a {
          assert s[..a][i] == s[i];
        } else {
          assert t[|r|..][i - a] == s[i];
        }
      }
    } else {
      assert t[..|r|][0] == t[0] && t[0] == s[a];
    }
  }

  /** Two blank texts make a blank text. */
  lemma BlankAppend(x: string, y: string)
    requires Blank(x) && Blank(y)
    ensures Blank(x + y)
  {
  }

  /** `s.startswith(p)`. */
  predicate StartsWith(s: string, p: string)
  {
    |p| <= |s| && s[..|p|] == p
  }

  /** `s.endswith(p)`. */
  predicate EndsWith(s: string, p: string)
  {
    |p| <= |s| && s[|s| - |p|..] == p
  }

  /** `sep` occurs in `s` starting at index `i`. */
  predicate OccursAt(s: string, sep: string, i: int)
  {
    0 <= i && i + |sep| <= |s| && s[i..i + |sep|] == sep
  }

  /** `sep in s`. */
  ghost predicate Contains(s: string, sep: string)
  {
    exists i :: OccursAt(s, sep, i)
  }

  /** `s.find(sep)`: the first index where `sep` occurs, or -1. */
  function Find(s: string, sep: string): (r: int)
    ensures r == -1 || OccursAt(s, sep, r)
    ensures forall i :: 0 <= i && (r == -1 || i < r) ==> !OccursAt(s, sep, i)
    decreases |s|
  {
    if |s| < |sep| then -1
    else if s[..|sep|] == sep then 0
    else
      var j := Find(s[1..], sep);
      OccursShift(s, sep);
      if j == -1 then -1 else j + 1
  }

  /** Dropping the first code point moves every later occurrence one place
      to the left. */
  lemma OccursShift(s: string, sep: string)
    requires s != []
    ensures forall i :: 1 <= i ==> (OccursAt(s, sep, i) <==> OccursAt(s[1..], sep, i - 1))
  {
    forall i | 1 <= i
      ensures OccursAt(s, sep, i) <==> OccursAt(s[1..], sep, i - 1)
    {
      if i + |sep| <= |s| {
        assert s[1..][i - 1..i - 1 + |sep|] == s[i..i + |sep|];
      }
    }
  }

  /** An occurrence inside a prefix of `s` is an occurrence in `s`. */
  lemma OccursInPrefix(s: string, sep: string, n: nat, i: int)
    requires n <= |s| && OccursAt(s[..n], sep, i)
    ensures OccursAt(s, sep, i) && i + |sep| <= n
  {
    assert s[..n][i..i + |sep|] == s[i..i + |sep|];
  }

  /** The text before the first occurrence of `sep` does not contain it. */
  lemma PrefixBeforeFind(s: string, sep: string)
    requires sep != [] && Find(s, sep) != -1
    ensures !Contains(s[..Find(s, sep)], sep)
  {
    var i := Find(s, sep);
    if Contains(s[..i], sep) {
      var j :| OccursAt(s[..i], sep, j);
      OccursInPrefix(s, sep, i, j);
    }
  }

  /** `s.split(sep, 1)[0]`: the text before the first `sep`, or all of `s`. */
  function Before(s: string, sep: string): (r: string)
    ensures |r| <= |s| && r == s[..|r|]
    ensures sep != [] ==> !Contains(r, sep)
    ensures r == s || OccursAt(s, sep, |r|)
  {
    var i := Find(s, sep);
    if i == -1 then s
    else
      assert sep != [] ==> !Contains(s[..i], sep) by {
        if sep != [] {
          PrefixBeforeFind(s, sep);
        }
      }
      s[..i]
  }

  /** `s.split(sep)` for a non-empty separator: the pieces between the
      occurrences of `sep` found from the left; none of them contains `sep`. */
  function Split(s: string, sep: string): (r: seq<string>)
    requires sep != []
    ensures |r| >= 1
    ensures forall i :: 0 <= i < |r| ==> !Contains(r[i], sep)
    decreases |s|
  {
    var i := Find(s, sep);
    if i == -1 then [s]
    else
      PrefixBeforeFind(s, sep);
      [s[..i]] + Split(s[i + |sep|..], sep)
  }

  /** `sep.join(parts)`. */
  function Join(parts: seq<string>, sep: string): string
  {
    if |parts| == 0 then []
    else if |parts| == 1 then parts[0]
    else parts[0] + sep + Join(parts[1..], sep)
  }

  /** One step of a split: the first piece, then the split of the rest. */
  lemma SplitStep(s: string, sep: string)
    requires sep != [] && Find(s, sep) != -1
    ensures var i := Find(s, sep);
      Split(s, sep) == [s[..i]] + Split(s[i + |sep|..], sep)
      && s == s[..i] + sep + s[i + |sep|..]
  {
    SplitUnfold(s, sep);
    AroundOccurrence(s, sep, Find(s, sep));
  }

  /** A text is the part before an occurrence, the occurrence and the part
      after it. */
  lemma AroundOccurrence(s: string, sep: string, i: int)
    requires OccursAt(s, sep, i)
    ensures s == s[..i] + sep + s[i + |sep|..]
  {
    assert s == s[..i] + s[i..i + |sep|] + s[i + |sep|..];
  }

  /** The first piece of a split and the split of the rest. */
  lemma SplitUnfold(s: string, sep: string)
    requires sep != [] && Find(s, sep) != -1
    ensures Split(s, sep) == [s[..Find(s, sep)]] + Split(s[Find(s, sep) + |sep|..], sep)
  {
    hide Find, OccursAt, Contains;
  }

  /** Joining a piece to a non-empty list of pieces. */
  lemma JoinCons(head: string, parts: seq<string>, sep: string)
    requires parts != []
    ensures Join([head] + parts, sep) == head + sep + Join(parts, sep)
  {
    assert ([head] + parts)[1..] == parts;
  }

  /** Joining the pieces of a split with the separator gives the text back. */
  lemma {:induction false} JoinSplit(s: string, sep: string)
    requires sep != []
    ensures Join(Split(s, sep), sep) == s
    decreases |s|
  {
    var i := Find(s, sep);
    if i != -1 {
      var rest := s[i + |sep|..];
      SplitStep(s, sep);
      JoinSplit(rest, sep);
      JoinCons(s[..i], Split(rest, sep), sep);
    }
  }

  /** The length of the word at the head of `t`. */
  function WordLength(t: string): (n: nat)
    ensures n <= |t| && NoSpace(t[..n]) && (n < |t| ==> IsSpace(t[n]))
  {
    if t == [] || IsSpace(t[0]) then 0
    else
      var n := 1 + WordLength(t[1..]);
      assert t[..n] == [t[0]] + t[1..][..n - 1];
      n
  }

  /** `s.split(maxsplit=m)`: at most `m` words, then the rest of the text
      with its leading whitespace removed and its trailing whitespace kept.
      Every element is non-empty and starts with a non-space; the first `m`
      contain no whitespace at all. */
  function SplitWords(s: string, maxsplit: nat): (r: seq<string>)
    ensures |r| <= maxsplit + 1
    ensures forall i :: 0 <= i < |r| ==> r[i] != [] && !IsSpace(r[i][0])
    ensures forall i :: 0 <= i < |r| && i < maxsplit ==> NoSpace(r[i])
    decreases |s|
  {
    var t := LStrip(s);
    if t == [] then []
    else if maxsplit == 0 then [t]
    else
      var n := WordLength(t);
      var rest := SplitWords(t[n..], maxsplit - 1);
      WordsCons(t[..n], rest, maxsplit);
      [t[..n]] + rest
  }

  /** A word in front of the words of a split with one split fewer. */
  lemma WordsCons(w: string, rest: seq<string>, maxsplit: nat)
    requires w != [] && NoSpace(w) && maxsplit > 0 && |rest| <= maxsplit
    requires forall i :: 0 <= i < |rest| ==> rest[i] != [] && !IsSpace(rest[i][0])
    requires forall i :: 0 <= i < |rest| && i < maxsplit - 1 ==> NoSpace(rest[i])
    ensures var r := [w] + rest;
      (forall i :: 0 <= i < |r| ==> r[i] != [] && !IsSpace(r[i][0]))
      && (forall i :: 0 <= i < |r| && i < maxsplit ==> NoSpace(r[i]))
  {
    var r := [w] + rest;
    assert forall i :: 1 <= i < |r| ==> r[i] == rest[i - 1];
  }

  /** The word at the head of `w + x` is `w` when `x` starts with a space. */
  lemma {:induction false} WordLengthOf(w: string, x: string)
    requires NoSpace(w) && x != [] && IsSpace(x[0])
    ensures WordLength(w + x) == |w|
    decreases |w|
  {
    if w == [] {
      assert w + x == x;
    } else {
      var t := w + x;
      assert t[0] == w[0] && !IsSpace(w[0]);
      assert t[1..] == w[1..] + x;
      assert NoSpace(w[1..]) by {
        assert forall i :: 0 <= i < |w| - 1 ==> w[1..][i] == w[i + 1];
      }
      WordLengthCons(t);
      hide *;
      WordLengthOf(w[1..], x);
    }
  }

  /** The word at the head of a text that starts with a non-space. */
  lemma WordLengthCons(t: string)
    requires t != [] && !IsSpace(t[0])
    ensures WordLength(t) == 1 + WordLength(t[1..])
  {
    hide NoSpace;
  }

  /** A word followed by whitespace is the first element of the split, and
      the rest is split with one split fewer. */
  lemma SplitWordsCons(w: string, gap: string, rest: string, maxsplit: nat)
    requires w != [] && NoSpace(w) && gap != [] && Blank(gap) && maxsplit > 0
    ensures SplitWords(w + gap + rest, maxsplit) == [w] + SplitWords(gap + rest, maxsplit - 1)
  {
    var s := w + gap + rest;
    assert s == w + (gap + rest) && s[0] == w[0];
    WordLengthOf(w, gap + rest);
    assert s[..|w|] == w && s[|w|..] == gap + rest;
  }

  /** A text without whitespace on its left splits with `maxsplit` 0 into
      itself, unless it is empty. */
  lemma SplitWordsNone(s: string)
    requires s != [] && !IsSpace(s[0])
    ensures SplitWords(s, 0) == [s]
  {
  }

  /** Leading whitespace does not change the split. */
  lemma SplitWordsSkipsSpace(gap: string, s: string, maxsplit: nat)
    requires Blank(gap)
    ensures SplitWords(gap + s, maxsplit) == SplitWords(s, maxsplit)
  {
    LStripSkipsSpace(gap, s);
  }

  /** `lstrip` removes a blank prefix along with the rest of the whitespace. */
  lemma {:induction false} LStripSkipsSpace(gap: string, s: string)
    requires Blank(gap)
    ensures LStrip(gap + s) == LStrip(s)
    decreases |gap|
  {
    if gap != [] {
      assert (gap + s)[1..] == gap[1..] + s;
      LStripSkipsSpace(gap[1..], s);
    } else {
      assert gap + s == s;
    }
  }

  /** `s.replace(c, rep)` for a one-character `c`. */
  function Replace(s: string, c: char, rep: string): (r: string)
    ensures c !in rep ==> c !in r
    ensures c !in s ==> r == s
  {
    if s == [] then [] else (if s[0] == c then rep else [s[0]]) + Replace(s[1..], c, rep)
  }

  /** `replace` works piece by piece. */
  lemma {:induction false} ReplaceAppend(a: string, b: string, c: char, rep: string)
    ensures Replace(a + b, c, rep) == Replace(a, c, rep) + Replace(b, c, rep)
    decreases |a|
  {
    if a == [] {
      assert a + b == b && Replace(a, c, rep) == [];
    } else {
      ReplaceAppend(a[1..], b, c, rep);
      ReplaceAppendStep(a, b, c, rep);
    }
  }

  /** The step of `ReplaceAppend`: from the rest of `a` to all of it. */
  lemma ReplaceAppendStep(a: string, b: string, c: char, rep: string)
    requires a != []
    requires Replace(a[1..] + b, c, rep) == Replace(a[1..], c, rep) + Replace(b, c, rep)
    ensures Replace(a + b, c, rep) == Replace(a, c, rep) + Replace(b, c, rep)
  {
    var head := if a[0] == c then rep else [a[0]];
    assert Replace(a + b, c, rep) == head + Replace(a[1..] + b, c, rep) by {
      ReplaceCons(a + b, c, rep);
      assert (a + b)[0] == a[0] && (a + b)[1..] == a[1..] + b;
    }
    assert Replace(a, c, rep) == head + Replace(a[1..], c, rep) by {
      ReplaceCons(a, c, rep);
    }
    ConcatAssoc(head, Replace(a[1..], c, rep), Replace(b, c, rep));
  }

  /** Concatenation is associative. */
  lemma ConcatAssoc(h: string, x: string, y: string)
    ensures h + (x + y) == (h + x) + y
  {
  }

  /** Replacing in a text by its first code point. */
  lemma ReplaceCons(s: string, c: char, rep: string)
    requires s != []
    ensures Replace(s, c, rep) == (if s[0] == c then rep else [s[0]]) + Replace(s[1..], c, rep)
  {
  }

  /** Joining one more piece at the end. */
  lemma {:induction false} JoinSnoc(parts: seq<string>, x: string, sep: string)
    requires parts != []
    ensures Join(parts + [x], sep) == Join(parts, sep) + sep + x
    decreases |parts|
  {
    if |parts| > 1 {
      assert (parts + [x])[1..] == parts[1..] + [x];
      JoinSnoc(parts[1..], x, sep);
    }
  }

  /** A character in no piece and not in the separator is not in the join. */
  lemma {:induction false} JoinLacks(parts: seq<string>, sep: string, c: char)
    requires c !in sep && forall i :: 0 <= i < |parts| ==> c !in parts[i]
    ensures c !in Join(parts, sep)
    decreases |parts|
  {
    if |parts| > 1 {
      JoinLacks(parts[1..], sep, c);
    }
  }

  /** Every line feed comes right after a carriage return. */
  predicate CrlfOnly(s: string)
  {
    forall i :: 0 <= i < |s| && s[i] == '\n' ==> 0 < i && s[i - 1] == '\r'
  }

  /** Pieces without a line feed joined with `\r\n` have only CRLF line
      endings. */
  lemma {:induction false} JoinCrlf(parts: seq<string>)
    requires forall i :: 0 <= i < |parts| ==> '\n' !in parts[i]
    ensures CrlfOnly(Join(parts, "\r\n"))
    decreases |parts|
  {
    if |parts| > 1 {
      var rest := Join(parts[1..], "\r\n");
      JoinCrlf(parts[1..]);
      var j := Join(parts, "\r\n");
      var n := |parts[0]|;
      assert j == parts[0] + "\r\n" + rest;
      forall i | 0 <= i < |j|
        ensures j[i] == '\n' ==> 0 < i && j[i - 1] == '\r'
      {
        if i < n {
          assert j[i] == parts[0][i];
        } else if i >= n + 2 {
          assert j[i] == rest[i - n - 2];
        }
      }
    }
  }

  /** A character that is in `s` occurs in it as a one-character string. */
  lemma CharContains(s: string, c: char)
    requires c in s
    ensures Contains(s, [c])
  {
    var k :| 0 <= k < |s| && s[k] == c;
    assert OccursAt(s, [c], k);
  }

  /** A character not in the text is in none of the pieces of a split. */
  lemma {:induction false} SplitLacks(s: string, sep: string, c: char)
    requires sep != [] && c !in s
    ensures forall i :: 0 <= i < |Split(s, sep)| ==> c !in Split(s, sep)[i]
    decreases |s|
  {
    var i := Find(s, sep);
    if i != -1 {
      SplitStep(s, sep);
      var rest := s[i + |sep|..];
      assert forall k :: 0 <= k < |rest| ==> rest[k] == s[k + i + |sep|];
      SplitLacks(rest, sep, c);
      assert forall k :: 0 <= k < i ==> s[..i][k] == s[k];
    }
  }

  /** No piece of a split on a line feed holds a line feed. */
  lemma SplitLinesLackNewline(s: string)
    ensures forall i :: 0 <= i < |Split(s, "\n")| ==> '\n' !in Split(s, "\n")[i]
  {
    var r := Split(s, "\n");
    forall i | 0 <= i < |r|
      ensures '\n' !in r[i]
    {
      if '\n' in r[i] {
        CharContains(r[i], '\n');
      }
    }
  }

  /** `sep` is found right after a prefix that does not hold its first code
      point. */
  lemma FindAfter(pre: string, sep: string, post: string)
    requires sep != [] && sep[0] !in pre
    ensures Find(pre + sep + post, sep) == |pre|
  {
    var s := pre + sep + post;
    assert s[|pre|..|pre| + |sep|] == sep;
    assert OccursAt(s, sep, |pre|);
    forall i | 0 <= i < |pre|
      ensures !OccursAt(s, sep, i)
    {
      assert s[i] == pre[i];
      assert i + |sep| <= |s| ==> s[i..i + |sep|][0] == s[i];
    }
  }

  /** A text without the first code point of `sep` does not contain it. */
  lemma FindNone(s: string, sep: string)
    requires sep != [] && sep[0] !in s
    ensures Find(s, sep) == -1
  {
    forall i | 0 <= i
      ensures !OccursAt(s, sep, i)
    {
      assert i + |sep| <= |s| ==> s[i..i + |sep|][0] == s[i];
    }
  }

  /** A text without the first code point of `sep` is not split. */
  lemma SplitNone(s: string, sep: string)
    requires sep != [] && sep[0] !in s
    ensures Split(s, sep) == [s]
  {
    FindNone(s, sep);
  }

  /** Splitting at the first separator. */
  lemma SplitAfter(pre: string, sep: string, post: string)
    requires sep != [] && sep[0] !in pre
    ensures Split(pre + sep + post, sep) == [pre] + Split(post, sep)
  {
    var s := pre + sep + post;
    FindAfter(pre, sep, post);
    assert s[..|pre|] == pre && s[|pre| + |sep|..] == post;
  }

  /** A text that is not blank at either end is its own `strip()`. */
  lemma StripPlain(s: string)
    requires s != [] && !IsSpace(s[0]) && !IsSpace(s[|s| - 1])
    ensures Strip(s) == s
  {
    assert LStrip(s) == s;
    assert RStrip(s) == s;
  }
}
