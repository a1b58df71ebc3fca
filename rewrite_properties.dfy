/** What `replacePoundDefinesInCode` promises, proved about the model in
    module DefineRewrite: when it raises, which lines it keeps, where the
    new lines go, that every key ends up written, and how the text ends. */
module RewriteProperties {
  import opened Wrappers
  import opened PyText
  import opened PyDict
  import opened PoundDefines
  import opened DefineRewrite

  /** `line` is a `#define` line named `name`. */
  predicate Names(line: string, name: string)
  {
    IsDefine(line) && NameOf(line) == Some(name)
  }

  /** Some `#define` line of `data` is named `name`. */
  ghost predicate NamedIn(data: seq<string>, name: string)
  {
    exists i :: 0 <= i < |data| && Names(data[i], name)
  }

  /** `x` is the line written for an entry of `d`. */
  ghost predicate FromDict(x: string, d: Dict<Value>, quote: bool)
  {
    exists e :: e in d && x == DefineLine(e.0, e.1, quote)
  }

  /** A `#define` line named `name` is among the lines before the last or
      is the last. */
  lemma NamedInSnoc(data: seq<string>, name: string)
    requires data != []
    ensures var n := |data| - 1;
      NamedIn(data, name)
      <==> NamedIn(data[..n], name) || (IsDefine(data[n]) && NameOf(data[n]) == Some(name))
  {
    var n := |data| - 1;
    assert Names(data[n], name) <==> IsDefine(data[n]) && NameOf(data[n]) == Some(name);
    NamedInPrefix(data, name);
    hide NamedIn, Names, IsDefine, NameOf;
  }

  /** A line named `name` among the lines before the last is one of all
      the lines, and one among all the lines is before the last or is the
      last. */
  lemma NamedInPrefix(data: seq<string>, name: string)
    requires data != []
    ensures var n := |data| - 1;
      NamedIn(data, name) <==> NamedIn(data[..n], name) || Names(data[n], name)
  {
    hide Names;
    var n := |data| - 1;
    if NamedIn(data[..n], name) {
      var i :| 0 <= i < n && Names(data[..n][i], name);
      assert data[i] == data[..n][i];
    }
    if NamedIn(data, name) {
      var i :| 0 <= i < |data| && Names(data[i], name);
      if i < n {
        assert data[..n][i] == data[i];
      }
    }
  }

  /** The last step of the first pass, unfolded. */
  lemma FirstPassLast(data: seq<string>, d: Dict<Value>, quote: bool)
    requires data != []
    ensures FirstPass(data, d, quote)
         == match FirstPass(data[..|data| - 1], d, quote)
            case None => None
            case Some(p) => Step(p, |data| - 1, data[|data| - 1], d, quote)
  {
  }

  /** A line that starts with `#define` starts with `#`. */
  lemma DefineIsDirective(line: string)
    requires IsDefine(line)
    ensures IsDirective(line)
  {
    assert line[0] == line[..7][0];
  }

  // ---------------------------------------------------------------------
  // Raising

  /** One line of the first pass, case by case. */
  lemma StepFacts(p: Pass, lineNo: nat, line: string, d: Dict<Value>, quote: bool)
    ensures Step(p, lineNo, line, d, quote).None? <==> BareDefine(line)
    ensures Step(p, lineNo, line, d, quote).Some? ==>
      var r := Step(p, lineNo, line, d, quote).value;
      && r.insertAt == (if IsDirective(line) then Some(lineNo + 1) else p.insertAt)
      && r.replaced == (if IsDefine(line) then p.replaced + MatchedKeys(NameOf(line).value, d) else p.replaced)
      && r.newData == p.newData
           + (if IsDefine(line) && MatchLines(NameOf(line).value, d, quote) != []
              then MatchLines(NameOf(line).value, d, quote) else [line])
  {
    if IsDefine(line) {
      DefineIsDirective(line);
    }
  }

  /** The rewrite raises exactly when some `#define` line has no name. */
  lemma {:induction false} RaisesIff(data: seq<string>, d: Dict<Value>, quote: bool)
    ensures FirstPass(data, d, quote).None? <==> exists i :: 0 <= i < |data| && BareDefine(data[i])
  {
    if data != [] {
      hide *;
      var n := |data| - 1;
      var init := data[..n];
      RaisesIff(init, d, quote);
      BareSnoc(data);
      assert FirstPass(data, d, quote).None? <==> FirstPass(init, d, quote).None? || BareDefine(data[n]) by {
        FirstPassLast(data, d, quote);
        if FirstPass(init, d, quote).Some? {
          StepFacts(FirstPass(init, d, quote).value, n, data[n], d, quote);
        }
      }
    }
  }

  /** A nameless `#define` is among the lines before the last or is the
      last. */
  lemma BareSnoc(data: seq<string>)
    requires data != []
    ensures var n := |data| - 1;
      (exists i :: 0 <= i < |data| && BareDefine(data[i]))
      <==> (exists i :: 0 <= i < n && BareDefine(data[..n][i])) || BareDefine(data[n])
  {
    hide BareDefine;
    var n := |data| - 1;
    if exists i :: 0 <= i < n && BareDefine(data[..n][i]) {
      var i :| 0 <= i < n && BareDefine(data[..n][i]);
      assert data[i] == data[..n][i];
    }
    if exists i :: 0 <= i < |data| && BareDefine(data[i]) {
      var i :| 0 <= i < |data| && BareDefine(data[i]);
      if i < n {
        assert data[..n][i] == data[i];
      }
    }
  }

  /** On text, the rewrite raises exactly when a line (with any `\r`
      removed) starts with `#define` and has no second word. */
  lemma RewriteRaisesIff(code: string, d: Dict<Value>, quote: bool)
    ensures Rewrite(code, Some(d), quote) == IndexError
        <==> exists i :: 0 <= i < |Lines(code)| && BareDefine(Lines(code)[i])
  {
    RaisesIff(Lines(code), d, quote);
  }

  // ---------------------------------------------------------------------
  // Where new lines go

  /** With a line that starts with `#`, new lines go right after the last
      such line; without one, the first pass leaves the place open. */
  lemma {:induction false} InsertAfterLastDirective(data: seq<string>, d: Dict<Value>, quote: bool, p: Pass)
    requires FirstPass(data, d, quote) == Some(p)
    ensures p.insertAt.None? <==> forall i :: 0 <= i < |data| ==> !IsDirective(data[i])
    ensures p.insertAt.Some? ==>
      var a := p.insertAt.value;
      0 < a <= |data| && IsDirective(data[a - 1])
      && forall j :: a <= j < |data| ==> !IsDirective(data[j])
  {
    if data != [] {
      var n := |data| - 1;
      var init := data[..n];
      FirstPassLast(data, d, quote);
      var q := FirstPass(init, d, quote).value;
      InsertAfterLastDirective(init, d, quote, q);
      assert forall i :: 0 <= i < n ==> init[i] == data[i];
      if IsDefine(data[n]) {
        DefineIsDirective(data[n]);
      }
    }
  }

  /** Every index the head comment scan stops after is the end of a line
      comment or of a block comment. */
  lemma {:induction false} ScanEndsAfterComment(data: seq<string>, i: nat, at: nat, block: bool)
    requires i <= |data| && at <= i
    requires at > 0 ==> StartsWith(Strip(data[at - 1]), "//") || EndsWith(Strip(data[at - 1]), "*/")
    ensures var r := Scan(data, i, at, block);
      r > 0 ==> StartsWith(Strip(data[r - 1]), "//") || EndsWith(Strip(data[r - 1]), "*/")
    decreases |data| - i
  {
    hide Strip, StartsWith, EndsWith;
    if i < |data| {
      var t := Strip(data[i]);
      if StartsWith(t, "/*") {
        ScanEndsAfterComment(data, i + 1, at, true);
      } else if StartsWith(t, "//") {
        ScanEndsAfterComment(data, i + 1, i + 1, block);
      } else if block {
        ScanEndsAfterComment(data, i + 1, if EndsWith(t, "*/") then i + 1 else at, block);
      }
    }
  }

  /** Without a line that starts with `#`, new lines go at the top or right
      after a line that ends a comment. */
  lemma HeadCommentEndAfterComment(data: seq<string>)
    ensures var a := HeadCommentEnd(data);
      a > 0 ==> StartsWith(Strip(data[a - 1]), "//") || EndsWith(Strip(data[a - 1]), "*/")
  {
    hide Strip, StartsWith, EndsWith;
    ScanEndsAfterComment(data, 0, 0, false);
  }

  // ---------------------------------------------------------------------
  // Which keys replace lines

  /** A key is among the matched keys of a name exactly when it is a key of
      `d` with that name. */
  lemma MatchedKeysIff(name: string, d: Dict<Value>, k: string)
    ensures k in MatchedKeys(name, d) <==> k in Keys(d) && KeyName(k) == name
  {
    if k in Keys(d) && KeyName(k) == name {
      var i :| 0 <= i < |d| && Keys(d)[i] == k;
      assert d[i] in d;
    }
  }

  /** A key replaced a line exactly when a `#define` line carries its
      name. */
  lemma {:induction false} ReplacedIff(data: seq<string>, d: Dict<Value>, quote: bool, p: Pass, k: string)
    requires FirstPass(data, d, quote) == Some(p)
    ensures k in p.replaced <==> k in Keys(d) && NamedIn(data, KeyName(k))
  {
    hide NameOf, MatchLines, MatchedKeys, KeyName, IsDefine, IsDirective, Keys;
    if data != [] {
      var n := |data| - 1;
      var init := data[..n];
      FirstPassLast(data, d, quote);
      var q := FirstPass(init, d, quote).value;
      ReplacedIff(init, d, quote, q, k);
      NamedInSnoc(data, KeyName(k));
      if IsDefine(data[n]) {
        MatchedKeysIff(NameOf(data[n]).value, d, k);
      }
    }
  }

  /** No line is written for a name that no key has. */
  lemma {:induction false} MatchLinesNone(name: string, d: Dict<Value>, quote: bool)
    requires forall k :: k in Keys(d) ==> KeyName(k) != name
    ensures MatchLines(name, d, quote) == []
  {
    if d != [] {
      var init := d[..|d| - 1];
      assert Keys(init) == Keys(d)[..|d| - 1];
      MatchLinesNone(name, init, quote);
      assert Keys(d)[|d| - 1] == d[|d| - 1].0;
    }
  }

  /** When no key names a `#define` line, the first pass keeps every line
      as it is and replaces nothing. */
  lemma {:induction false} KeptWhenNoMatch(data: seq<string>, d: Dict<Value>, quote: bool, p: Pass)
    requires FirstPass(data, d, quote) == Some(p)
    requires forall k :: k in Keys(d) ==> !NamedIn(data, KeyName(k))
    ensures p.newData == data && p.replaced == {}
  {
    hide NameOf, MatchLines, MatchedKeys, KeyName, IsDefine, IsDirective, Keys;
    if data != [] {
      var n := |data| - 1;
      var init := data[..n];
      FirstPassLast(data, d, quote);
      var q := FirstPass(init, d, quote).value;
      forall k | k in Keys(d)
        ensures NamedIn(init, KeyName(k)) ==> NamedIn(data, KeyName(k))
      {
        NamedInSnoc(data, KeyName(k));
      }
      KeptWhenNoMatch(init, d, quote, q);
      if IsDefine(data[n]) {
        var name := NameOf(data[n]).value;
        forall k | k in Keys(d)
          ensures KeyName(k) != name
        {
          NamedInSnoc(data, KeyName(k));
        }
        MatchLinesNone(name, d, quote);
        forall k | k in MatchedKeys(name, d)
          ensures false
        {
          MatchedKeysIff(name, d, k);
        }
      }
      assert init + [data[n]] == data;
    }
  }

  // ---------------------------------------------------------------------
  // What the lines of the result are

  /** The lines written for a name are lines of entries of `d`. */
  lemma {:induction false} MatchLinesFromDict(name: string, d: Dict<Value>, quote: bool)
    ensures forall x :: x in MatchLines(name, d, quote) ==> FromDict(x, d, quote)
  {
    if d != [] {
      var init := d[..|d| - 1];
      MatchLinesFromDict(name, init, quote);
      forall x | x in MatchLines(name, init, quote)
        ensures FromDict(x, d, quote)
      {
        var e :| e in init && x == DefineLine(e.0, e.1, quote);
        assert e in d;
      }
      assert d[|d| - 1] in d;
    }
  }

  /** The pending lines are lines of entries of `d`. */
  lemma {:induction false} PendingFromDict(d: Dict<Value>, replaced: set<string>, quote: bool)
    ensures forall x :: x in PendingLines(d, replaced, quote) ==> FromDict(x, d, quote)
  {
    if d != [] {
      var init := d[..|d| - 1];
      PendingFromDict(init, replaced, quote);
      forall x | x in PendingLines(init, replaced, quote)
        ensures FromDict(x, d, quote)
      {
        var e :| e in init && x == DefineLine(e.0, e.1, quote);
        assert e in d;
      }
      assert d[|d| - 1] in d;
    }
  }

  /** Each line of the first pass is a line of the text or a line written
      for an entry of `d`. */
  lemma {:induction false} FirstPassLines(data: seq<string>, d: Dict<Value>, quote: bool, p: Pass)
    requires FirstPass(data, d, quote) == Some(p)
    ensures forall x :: x in p.newData ==> x in data || FromDict(x, d, quote)
  {
    if data != [] {
      var n := |data| - 1;
      var init := data[..n];
      FirstPassLast(data, d, quote);
      var q := FirstPass(init, d, quote).value;
      FirstPassLines(init, d, quote, q);
      assert forall x :: x in init ==> x in data;
      if IsDefine(data[n]) {
        MatchLinesFromDict(NameOf(data[n]).value, d, quote);
      }
    }
  }

  /** The lines after the insertion are the lines before it and the
      pending ones. */
  lemma InsertedMembers(newData: seq<string>, at: nat, pending: seq<string>)
    requires at <= |newData|
    ensures forall x :: x in Inserted(newData, at, pending) <==> x in newData || x in pending
  {
    var mid := Inserted(newData, at, pending);
    var rev := Reversed(pending);
    assert newData == newData[..at] + newData[at..];
    forall x | x in pending
      ensures x in rev
    {
      var i :| 0 <= i < |pending| && pending[i] == x;
      assert rev[|pending| - 1 - i] == x;
    }
    forall x | x in rev
      ensures x in pending
    {
      var i :| 0 <= i < |rev| && rev[i] == x;
    }
  }

  /** The lines of the result, once the text is known not to raise. */
  lemma RewriteLinesSome(data: seq<string>, d: Dict<Value>, quote: bool, ls: seq<string>)
    requires RewriteLines(data, d, quote) == Some(ls)
    ensures FirstPass(data, d, quote).Some?
    ensures var p := FirstPass(data, d, quote).value;
      && InsertPoint(data, p) <= |p.newData|
      && (forall x :: x in ls ==> x in p.newData || x in PendingLines(d, p.replaced, quote) || x == "")
      && (forall x :: x in p.newData || x in PendingLines(d, p.replaced, quote) ==> x in ls)
  {
    var p := FirstPass(data, d, quote).value;
    var mid := Inserted(p.newData, InsertPoint(data, p), PendingLines(d, p.replaced, quote));
    InsertedMembers(p.newData, InsertPoint(data, p), PendingLines(d, p.replaced, quote));
    assert ls == Terminated(mid);
    assert forall x :: x in ls ==> x in mid || x == "" by {
      if |ls| > |mid| {
        assert ls == mid + [""];
      }
    }
    assert forall x :: x in mid ==> x in ls by {
      assert ls[..|mid|] == mid;
    }
  }

  /** Each line of the result is a line of the text, a line written for an
      entry of `d`, or the empty line added at the end. */
  lemma RewriteLinesFrom(data: seq<string>, d: Dict<Value>, quote: bool, ls: seq<string>)
    requires RewriteLines(data, d, quote) == Some(ls)
    ensures forall x :: x in ls ==> x in data || FromDict(x, d, quote) || x == ""
  {
    RewriteLinesSome(data, d, quote, ls);
    var p := FirstPass(data, d, quote).value;
    FirstPassLines(data, d, quote, p);
    PendingFromDict(d, p.replaced, quote);
  }

  // ---------------------------------------------------------------------
  // Every key is written

  /** The line of a key that has `name` as its name is among the lines
      written for `name`. */
  lemma {:induction false} MatchLinesHas(name: string, d: Dict<Value>, quote: bool, k: string, v: Value)
    requires (k, v) in d && KeyName(k) == name
    ensures DefineLine(k, v, quote) in MatchLines(name, d, quote)
  {
    var init := d[..|d| - 1];
    if d[|d| - 1] != (k, v) {
      assert (k, v) in init by {
        var i :| 0 <= i < |d| && d[i] == (k, v);
        assert i < |d| - 1 && init[i] == d[i];
      }
      MatchLinesHas(name, init, quote, k, v);
    }
  }

  /** The line of a key that replaced nothing is pending. */
  lemma {:induction false} PendingHas(d: Dict<Value>, replaced: set<string>, quote: bool, k: string, v: Value)
    requires (k, v) in d && k !in replaced
    ensures DefineLine(k, v, quote) in PendingLines(d, replaced, quote)
  {
    var init := d[..|d| - 1];
    if d[|d| - 1] != (k, v) {
      assert (k, v) in init by {
        var i :| 0 <= i < |d| && d[i] == (k, v);
        assert i < |d| - 1 && init[i] == d[i];
      }
      PendingHas(init, replaced, quote, k, v);
    }
  }

  /** The line of a key that replaced a line is in the first pass. */
  lemma {:induction false} ReplacedWritten(data: seq<string>, d: Dict<Value>, quote: bool, p: Pass, k: string, v: Value)
    requires FirstPass(data, d, quote) == Some(p)
    requires (k, v) in d && k in p.replaced
    ensures DefineLine(k, v, quote) in p.newData
  {
    var n := |data| - 1;
    var init := data[..n];
    FirstPassLast(data, d, quote);
    var q := FirstPass(init, d, quote).value;
    if k in q.replaced {
      ReplacedWritten(init, d, quote, q, k, v);
      assert p.newData[..|q.newData|] == q.newData;
    } else {
      var name := NameOf(data[n]).value;
      MatchedKeysIff(name, d, k);
      MatchLinesHas(name, d, quote, k, v);
    }
  }

  /** Every entry of the dictionary ends up as a `#define` line of the
      result: either in place of a line of its name, or inserted. */
  lemma EveryKeyWritten(data: seq<string>, d: Dict<Value>, quote: bool, ls: seq<string>, k: string, v: Value)
    requires RewriteLines(data, d, quote) == Some(ls)
    requires (k, v) in d
    ensures DefineLine(k, v, quote) in ls
  {
    RewriteLinesSome(data, d, quote, ls);
    var p := FirstPass(data, d, quote).value;
    if k in p.replaced {
      ReplacedWritten(data, d, quote, p, k, v);
    } else {
      PendingHas(d, p.replaced, quote, k, v);
    }
  }

  // ---------------------------------------------------------------------
  // Line endings

  /** A text with `\r` in it comes back with CRLF line endings only, and a
      text without comes back without `\r`, provided no written line holds
      a line break of its own. */
  lemma LineEndingsKept(code: string, d: Dict<Value>, quote: bool, out: string)
    requires Rewrite(code, Some(d), quote) == Code(out)
    requires forall e :: e in d ==> '\n' !in DefineLine(e.0, e.1, quote) && '\r' !in DefineLine(e.0, e.1, quote)
    ensures Crlf(code) ==> CrlfOnly(out)
    ensures !Crlf(code) ==> '\r' !in out
  {
    var data := Lines(code);
    var ls := RewriteLines(data, d, quote).value;
    assert out == Join(ls, Newline(code));
    hide Rewrite, RewriteLines;
    RewriteLinesFrom(data, d, quote, ls);
    if Crlf(code) {
      assert data == Split(Replace(code, '\r', ""), "\n");
      assert out == Join(ls, "\r\n");
      hide Lines, Newline, Crlf;
      SplitLinesLackNewline(Replace(code, '\r', ""));
      LinesLack(data, d, quote, ls, '\n');
      JoinCrlf(ls);
    } else {
      assert data == Split(code, "\n");
      assert out == Join(ls, "\n") && '\r' !in code;
      hide Lines, Newline, Crlf;
      SplitLacks(code, "\n", '\r');
      LinesLack(data, d, quote, ls, '\r');
      JoinLacks(ls, "\n", '\r');
    }
  }

  /** A character in no line of the text and in no written line is in no
      line of the result. */
  lemma LinesLack(data: seq<string>, d: Dict<Value>, quote: bool, ls: seq<string>, c: char)
    requires forall x :: x in ls ==> x in data || FromDict(x, d, quote) || x == ""
    requires forall i :: 0 <= i < |data| ==> c !in data[i]
    requires forall e :: e in d ==> c !in DefineLine(e.0, e.1, quote)
    ensures forall i :: 0 <= i < |ls| ==> c !in ls[i]
  {
    forall i | 0 <= i < |ls|
      ensures c !in ls[i]
    {
      var x := ls[i];
      assert x in ls;
      if x in data {
        var k :| 0 <= k < |data| && data[k] == x;
      } else if FromDict(x, d, quote) {
        var e :| e in d && x == DefineLine(e.0, e.1, quote);
      }
    }
  }

  // ---------------------------------------------------------------------
  // An update with no keys

  /** With no keys, lines without a nameless `#define` come back as they
      were, with an empty line added when the last is not blank. */
  lemma EmptyUpdateLines(data: seq<string>, quote: bool)
    requires forall i :: 0 <= i < |data| ==> !BareDefine(data[i])
    ensures RewriteLines(data, [], quote) == Some(Terminated(data))
  {
    assert FirstPass(data, [], quote).Some? by {
      RaisesIff(data, [], quote);
    }
    var p := FirstPass(data, [], quote).value;
    assert p.newData == data by {
      assert Keys<Value>([]) == [];
      KeptWhenNoMatch(data, [], quote, p);
    }
    var at := InsertPoint(data, p);
    assert at <= |data|;
    assert PendingLines([], p.replaced, quote) == [];
    assert RewriteLines(data, [], quote) == Some(Terminated(Inserted(data, at, [])));
    InsertedNone(data, at);
  }

  /** Inserting no lines changes nothing. */
  lemma InsertedNone(newData: seq<string>, at: nat)
    requires at <= |newData|
    ensures Inserted(newData, at, []) == newData
  {
    assert Reversed([]) == [];
    assert newData[..at] + newData[at..] == newData;
  }

  /** With no keys, text without `\r` and without a nameless `#define`
      comes back as it was, with a line break added when its last line is
      not blank. */
  lemma EmptyUpdate(code: string, quote: bool)
    requires !Crlf(code)
    requires forall i :: 0 <= i < |Lines(code)| ==> !BareDefine(Lines(code)[i])
    ensures var data := Split(code, "\n");
      Rewrite(code, Some([]), quote) == Code(if Blank(data[|data| - 1]) then code else code + "\n")
  {
    var data := Split(code, "\n");
    EmptyUpdateText(code, quote);
    TerminatedCases(data);
    hide Rewrite, Terminated, Split;
    JoinSplit(code, "\n");
    if !Blank(data[|data| - 1]) {
      JoinSnoc(data, "", "\n");
    }
  }

  /** The text of an update with no keys, before joining. */
  lemma EmptyUpdateText(code: string, quote: bool)
    requires !Crlf(code)
    requires forall i :: 0 <= i < |Lines(code)| ==> !BareDefine(Lines(code)[i])
    ensures Rewrite(code, Some([]), quote) == Code(Join(Terminated(Split(code, "\n")), "\n"))
  {
    var data := Split(code, "\n");
    assert Lines(code) == data;
    EmptyUpdateLines(data, quote);
  }

  /** The two cases of the final empty line. */
  lemma TerminatedCases(lines: seq<string>)
    requires lines != []
    ensures Terminated(lines) == if Blank(lines[|lines| - 1]) then lines else lines + [""]
  {
  }

  // ---------------------------------------------------------------------
  // Reading the written lines back

  /** A written `#define` line is read back by `getPoundDefines` as its key
      and its value, as long as the key is one word without `/` and the
      value neither starts with whitespace nor holds `//`. */
  lemma DefineLineReadBack(k: string, v: Value, quote: bool)
    requires k != [] && NoSpace(k) && '/' !in k
    requires FixVal(v, quote) == [] || !IsSpace(FixVal(v, quote)[0])
    requires !Contains(FixVal(v, quote), "//")
    ensures DefineOf(DefineLine(k, v, quote)) == Some((k, FixVal(v, quote)))
  {
    DefineOfWritten(k, FixVal(v, quote));
  }

  // ---------------------------------------------------------------------
  // updateVersionInCode

  /** Whatever `quotestrings` says, a version or build date is written as
      the C string of its text. */
  lemma VersionValueQuoted(s: string, quote: bool)
    ensures FixVal(VersionValue(s, quote), quote) == CppQuote(s)
  {
  }

  /** `VERSION` and `BUILD_DATE`, when given, are in the dictionary with
      values written as C strings; every other key keeps the value the
      caller gave it. */
  lemma VersionDictEntries(version: Option<string>, buildDate: Option<string>, name2val: Option<Dict<Value>>, quote: bool, k: string)
    ensures var d := VersionDict(version, buildDate, name2val, quote);
      var base := if name2val.None? then [] else name2val.value;
      && (version.Some? && k == "VERSION" ==> Get(d, k) == Some(VersionValue(version.value, quote)))
      && (buildDate.Some? && k == "BUILD_DATE" ==> Get(d, k) == Some(VersionValue(buildDate.value, quote)))
      && (k != "VERSION" && k != "BUILD_DATE" ==> Get(d, k) == Get(base, k))
  {
    var base := if name2val.None? then [] else name2val.value;
    var withVersion := if version.None? then base else Set(base, "VERSION", VersionValue(version.value, quote));
    if version.Some? {
      GetSet(base, "VERSION", VersionValue(version.value, quote), k);
    }
    if buildDate.Some? {
      GetSet(withVersion, "BUILD_DATE", VersionValue(buildDate.value, quote), k);
    }
  }

  /** The written line of `VERSION`. */
  lemma LiteralLineVersion(f: string)
    ensures "#define " + "VERSION" + " " + f == "#define VERSION " + f
  {
    hide *;
    assert "#define " + "VERSION" + " " == "#define VERSION ";
  }

  /** The written line of `BUILD_DATE`. */
  lemma LiteralLineBuildDate(f: string)
    ensures "#define " + "BUILD_DATE" + " " + f == "#define BUILD_DATE " + f
  {
    hide *;
    assert "#define " + "BUILD_DATE" + " " == "#define BUILD_DATE ";
  }

  /** A given version ends up in the result as `#define VERSION "..."`. */
  lemma VersionWritten(code: string, version: string, buildDate: Option<string>, name2val: Option<Dict<Value>>, quote: bool, ls: seq<string>)
    requires RewriteLines(Lines(code), VersionDict(Some(version), buildDate, name2val, quote), quote) == Some(ls)
    ensures "#define VERSION " + CppQuote(version) in ls
  {
    var d := VersionDict(Some(version), buildDate, name2val, quote);
    VersionDictEntries(Some(version), buildDate, name2val, quote, "VERSION");
    var x := VersionValue(version, quote);
    VersionValueQuoted(version, quote);
    LiteralLineVersion(FixVal(x, quote));
    assert DefineLine("VERSION", x, quote) == "#define " + "VERSION" + " " + FixVal(x, quote);
    hide *;
    var i :| 0 <= i < |d| && d[i] == ("VERSION", x);
    assert ("VERSION", x) in d;
    EveryKeyWritten(Lines(code), d, quote, ls, "VERSION", x);
  }

  /** A given build date ends up in the result as `#define BUILD_DATE "..."`. */
  lemma BuildDateWritten(code: string, version: Option<string>, buildDate: string, name2val: Option<Dict<Value>>, quote: bool, ls: seq<string>)
    requires RewriteLines(Lines(code), VersionDict(version, Some(buildDate), name2val, quote), quote) == Some(ls)
    ensures "#define BUILD_DATE " + CppQuote(buildDate) in ls
  {
    var d := VersionDict(version, Some(buildDate), name2val, quote);
    VersionDictEntries(version, Some(buildDate), name2val, quote, "BUILD_DATE");
    var x := VersionValue(buildDate, quote);
    VersionValueQuoted(buildDate, quote);
    LiteralLineBuildDate(FixVal(x, quote));
    assert DefineLine("BUILD_DATE", x, quote) == "#define " + "BUILD_DATE" + " " + FixVal(x, quote);
    hide *;
    var i :| 0 <= i < |d| && d[i] == ("BUILD_DATE", x);
    assert ("BUILD_DATE", x) in d;
    EveryKeyWritten(Lines(code), d, quote, ls, "BUILD_DATE", x);
  }
}
