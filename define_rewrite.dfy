/** `replacePoundDefinesInCode` and `updateVersionInCode` of
    update_pound_defines.py: a rewrite of C source, line by line, that
    replaces the `#define` lines of the given names and inserts the ones
    that are not there yet. */
module DefineRewrite {
  import opened Wrappers
  import opened PyText
  import opened PyDict
  import opened PoundDefines

  /** What the rewrite returns: the new text, or the `IndexError` a
      `#define` line without a name raises. */
  datatype Outcome = Code(text: string) | IndexError

  /** The state of the first pass over the lines: the lines written so far,
      the keys that replaced a line, and the index after the last line that
      starts with `#`, if any. */
  datatype Pass = Pass(newData: seq<string>, replaced: set<string>, insertAt: Option<nat>)

  // ---------------------------------------------------------------------
  // Names and lines

  /** `fixval(val)`: a `str` is quoted as a C string when `quotestrings` is
      set; anything else is written as `str(val)`. */
  function FixVal(v: Value, quote: bool): string
  {
    if quote && v.Str? then CppQuote(v.s) else PyStr(v)
  }

  /** The line written for the key `k`. */
  function DefineLine(k: string, v: Value, quote: bool): string
  {
    "#define " + k + " " + FixVal(v, quote)
  }

  /** The macro name of a key: the text before any `(`, stripped. */
  function KeyName(k: string): string
  {
    Strip(Before(k, "("))
  }

  /** The macro name of a line that starts with `#define`: its second word
      up to any `(`; None when the line has no second word. */
  function NameOf(line: string): (r: Option<string>)
    ensures r.None? <==> |SplitWords(line, 3)| < 2
  {
    var parts := SplitWords(line, 3);
    if |parts| < 2 then None else Some(Before(parts[1], "("))
  }

  /** A line that starts with `#define`. */
  predicate IsDefine(line: string)
  {
    StartsWith(line, "#define")
  }

  /** A line that starts with `#`. */
  predicate IsDirective(line: string)
  {
    StartsWith(line, "#")
  }

  /** A line that starts with `#define` but has no name after it. */
  predicate BareDefine(line: string)
  {
    IsDefine(line) && NameOf(line).None?
  }

  /** The lines written for the keys whose name is `name`, in the order of
      the dictionary. */
  function MatchLines(name: string, d: Dict<Value>, quote: bool): seq<string>
  {
    if d == [] then []
    else
      var e := d[|d| - 1];
      MatchLines(name, d[..|d| - 1], quote) + (if KeyName(e.0) == name then [DefineLine(e.0, e.1, quote)] else [])
  }

  /** The keys whose name is `name`. */
  function MatchedKeys(name: string, d: Dict<Value>): set<string>
  {
    set e | e in d && KeyName(e.0) == name :: e.0
  }

  // ---------------------------------------------------------------------
  // The first pass

  /** One line of the first pass, at index `lineNo`. */
  function Step(p: Pass, lineNo: nat, line: string, d: Dict<Value>, quote: bool): Option<Pass>
  {
    if IsDefine(line) then
      match NameOf(line)
      case None => None
      case Some(name) =>
        var m := MatchLines(name, d, quote);
        Some(Pass(p.newData + (if m == [] then [line] else m), p.replaced + MatchedKeys(name, d), Some(lineNo + 1)))
    else if IsDirective(line) then
      Some(Pass(p.newData + [line], p.replaced, Some(lineNo + 1)))
    else
      Some(p.(newData := p.newData + [line]))
  }

  /** The first pass over `data`; None when it raises. Every line gives at
      least one line, and the insertion point is at most the number of
      lines. */
  function FirstPass(data: seq<string>, d: Dict<Value>, quote: bool): (r: Option<Pass>)
    ensures r.Some? ==> |r.value.newData| >= |data|
    ensures r.Some? && r.value.insertAt.Some? ==> 0 < r.value.insertAt.value <= |data|
  {
    if data == [] then Some(Pass([], {}, None))
    else
      match FirstPass(data[..|data| - 1], d, quote)
      case None => None
      case Some(p) => Step(p, |data| - 1, data[|data| - 1], d, quote)
  }

  // ---------------------------------------------------------------------
  // The insertion point when no line starts with `#`

  /** The scan over the head comments from line `i` on, with `at` the
      insertion point so far and `block` set once a line opened a block
      comment (it is never cleared). */
  function Scan(data: seq<string>, i: nat, at: nat, block: bool): (r: nat)
    requires i <= |data| && at <= |data|
    ensures r <= |data|
    decreases |data| - i
  {
    if i == |data| then at
    else
      var t := Strip(data[i]);
      if StartsWith(t, "/*") then Scan(data, i + 1, at, true)
      else if StartsWith(t, "//") then Scan(data, i + 1, i + 1, block)
      else if block then Scan(data, i + 1, if EndsWith(t, "*/") then i + 1 else at, block)
      else at
  }

  /** Where new lines go when no line starts with `#`: after the head
      comments. */
  function HeadCommentEnd(data: seq<string>): (r: nat)
    ensures r <= |data|
  {
    Scan(data, 0, 0, false)
  }

  // ---------------------------------------------------------------------
  // Inserting and finishing

  /** The lines of the keys that replaced nothing, in the order of the
      dictionary. */
  function PendingLines(d: Dict<Value>, replaced: set<string>, quote: bool): seq<string>
  {
    if d == [] then []
    else
      var e := d[|d| - 1];
      PendingLines(d[..|d| - 1], replaced, quote) + (if e.0 !in replaced then [DefineLine(e.0, e.1, quote)] else [])
  }

  /** A list back to front. */
  function Reversed(s: seq<string>): (r: seq<string>)
    ensures |r| == |s|
    ensures forall i :: 0 <= i < |s| ==> r[i] == s[|s| - 1 - i]
  {
    if s == [] then [] else [s[|s| - 1]] + Reversed(s[..|s| - 1])
  }

  /** Each pending line inserted at index `at` in turn: the later lines end
      up in front of the earlier ones. */
  function Inserted(newData: seq<string>, at: nat, pending: seq<string>): (r: seq<string>)
    requires at <= |newData|
    ensures |r| == |newData| + |pending|
  {
    newData[..at] + Reversed(pending) + newData[at..]
  }

  /** An empty line is added unless the last line is already blank, so the
      text ends with a line break. */
  function Terminated(lines: seq<string>): (r: seq<string>)
    ensures r != [] && Blank(r[|r| - 1])
    ensures |lines| <= |r| <= |lines| + 1 && r[..|lines|] == lines
  {
    if lines == [] || !Blank(lines[|lines| - 1]) then lines + [""] else lines
  }

  /** Whether the text has Windows line endings: any `\r` in it. */
  predicate Crlf(code: string)
  {
    '\r' in code
  }

  /** The lines of the text, with every `\r` removed when there is one. */
  function Lines(code: string): seq<string>
  {
    if Crlf(code) then Split(Replace(code, '\r', ""), "\n") else Split(code, "\n")
  }

  /** The separator the lines are joined with. */
  function Newline(code: string): string
  {
    if Crlf(code) then "\r\n" else "\n"
  }

  /** The lines of the result for the lines `data`, or None when the
      rewrite raises. */
  function RewriteLines(data: seq<string>, d: Dict<Value>, quote: bool): Option<seq<string>>
  {
    match FirstPass(data, d, quote)
    case None => None
    case Some(p) => Some(Terminated(Inserted(p.newData, InsertPoint(data, p), PendingLines(d, p.replaced, quote))))
  }

  /** Where the pending lines go: after the last line that starts with `#`,
      or else after the head comments. */
  function InsertPoint(data: seq<string>, p: Pass): nat
  {
    if p.insertAt.Some? then p.insertAt.value else HeadCommentEnd(data)
  }

  /** `replacePoundDefinesInCode(existingCode, name2val, quotestrings)`. */
  function Rewrite(code: string, name2val: Option<Dict<Value>>, quote: bool): Outcome
  {
    match name2val
    case None => Code(code)
    case Some(d) =>
      match RewriteLines(Lines(code), d, quote)
      case None => IndexError
      case Some(lines) => Code(Join(lines, Newline(code)))
  }

  // ---------------------------------------------------------------------
  // One step more

  /** One more line of the first pass. */
  lemma FirstPassSnoc(data: seq<string>, i: nat, d: Dict<Value>, quote: bool)
    requires i < |data|
    ensures FirstPass(data[..i + 1], d, quote)
         == match FirstPass(data[..i], d, quote)
            case None => None
            case Some(p) => Step(p, i, data[i], d, quote)
  {
    assert data[..i + 1][..i] == data[..i];
  }

  /** Once the first pass has raised, it raises on any longer text. */
  lemma {:induction false} FirstPassStaysRaised(data: seq<string>, i: nat, d: Dict<Value>, quote: bool)
    requires i <= |data| && FirstPass(data[..i], d, quote).None?
    ensures FirstPass(data, d, quote).None?
    decreases |data| - i
  {
    if i < |data| {
      FirstPassSnoc(data, i, d, quote);
      FirstPassStaysRaised(data, i + 1, d, quote);
    } else {
      assert data[..i] == data;
    }
  }

  /** One more key matched against a name. */
  lemma MatchSnoc(name: string, d: Dict<Value>, j: nat, quote: bool)
    requires j < |d|
    ensures MatchLines(name, d[..j + 1], quote)
         == MatchLines(name, d[..j], quote) + (if KeyName(d[j].0) == name then [DefineLine(d[j].0, d[j].1, quote)] else [])
  {
    assert d[..j + 1][..j] == d[..j];
  }

  /** The step of the loop over the keys. */
  lemma MatchStep(name: string, d: Dict<Value>, j: nat, quote: bool, lines: seq<string>, keys: set<string>)
    requires j < |d|
    requires lines == MatchLines(name, d[..j], quote) && keys == MatchedKeys(name, d[..j])
    ensures KeyName(d[j].0) == name ==>
      lines + [DefineLine(d[j].0, d[j].1, quote)] == MatchLines(name, d[..j + 1], quote)
      && keys + {d[j].0} == MatchedKeys(name, d[..j + 1])
    ensures KeyName(d[j].0) != name ==>
      lines == MatchLines(name, d[..j + 1], quote) && keys == MatchedKeys(name, d[..j + 1])
  {
    MatchSnoc(name, d, j, quote);
    MatchedKeysSnoc(name, d, j);
  }

  /** No key matched yet. */
  lemma MatchNone(name: string, d: Dict<Value>, quote: bool)
    ensures MatchLines(name, d[..0], quote) == []
    ensures MatchedKeys(name, d[..0]) == {}
  {
    assert d[..0] == [];
  }

  /** One more key whose name may match. */
  lemma MatchedKeysSnoc(name: string, d: Dict<Value>, j: nat)
    requires j < |d|
    ensures MatchedKeys(name, d[..j + 1])
         == MatchedKeys(name, d[..j]) + (if KeyName(d[j].0) == name then {d[j].0} else {})
  {
    var a, b := d[..j], d[..j + 1];
    assert b == a + [d[j]];
    assert forall e :: e in b <==> e in a || e == d[j];
  }

  /** One more key looked at for insertion. */
  lemma PendingSnoc(d: Dict<Value>, j: nat, replaced: set<string>, quote: bool)
    requires j < |d|
    ensures PendingLines(d[..j + 1], replaced, quote)
         == PendingLines(d[..j], replaced, quote) + (if d[j].0 !in replaced then [DefineLine(d[j].0, d[j].1, quote)] else [])
  {
    assert d[..j + 1][..j] == d[..j];
  }

  /** Inserting one more line at `at`. */
  lemma InsertOne(newData: seq<string>, at: nat, pending: seq<string>, line: string)
    requires at <= |newData|
    ensures var cur := Inserted(newData, at, pending);
      Inserted(newData, at, pending + [line]) == cur[..at] + [line] + cur[at..]
  {
    var cur := Inserted(newData, at, pending);
    assert Reversed(pending + [line]) == [line] + Reversed(pending) by {
      assert (pending + [line])[..|pending|] == pending;
    }
    assert cur[..at] == newData[..at];
    assert cur[at..] == Reversed(pending) + newData[at..];
  }

  // ---------------------------------------------------------------------
  // The loops of the rewrite

  /** The loop over the keys for a `#define` line named `name`: the lines
      written for the keys of that name, and those keys. */
  method MatchKeys(name: string, d: Dict<Value>, quote: bool) returns (lines: seq<string>, keys: set<string>)
    ensures lines == MatchLines(name, d, quote)
    ensures keys == MatchedKeys(name, d)
  {
    lines, keys := [], {};
    MatchNone(name, d, quote);
    for j := 0 to |d|
      invariant lines == MatchLines(name, d[..j], quote)
      invariant keys == MatchedKeys(name, d[..j])
    {
      MatchStep(name, d, j, quote, lines, keys);
      if KeyName(d[j].0) == name {
        lines := lines + [DefineLine(d[j].0, d[j].1, quote)];
        keys := keys + {d[j].0};
      }
    }
    assert d[..|d|] == d;
  }

  /** The first loop over the lines; None when a `#define` line has no
      name. */
  method FirstPassOf(data: seq<string>, d: Dict<Value>, quote: bool) returns (r: Option<Pass>)
    ensures r == FirstPass(data, d, quote)
  {
    var newData: seq<string> := [];
    var replaced: set<string> := {};
    var insertAt: Option<nat> := None;
    assert FirstPass(data[..0], d, quote) == Some(Pass([], {}, None));
    hide FirstPass;
    for lineNo := 0 to |data|
      invariant FirstPass(data[..lineNo], d, quote) == Some(Pass(newData, replaced, insertAt))
    {
      var line := data[lineNo];
      FirstPassSnoc(data, lineNo, d, quote);
      if StartsWith(line, "#define") {
        var lineparts := SplitWords(line, 3);
        if |lineparts| < 2 {
          FirstPassStaysRaised(data, lineNo + 1, d, quote);
          return None;
        }
        var name := Before(lineparts[1], "(");
        var lines, keys := MatchKeys(name, d, quote);
        replaced := replaced + keys;
        if lines == [] {
          newData := newData + [line];
        } else {
          newData := newData + lines;
        }
        insertAt := Some(lineNo + 1);
      } else if StartsWith(line, "#") {
        insertAt := Some(lineNo + 1);
        newData := newData + [line];
      } else {
        newData := newData + [line];
      }
    }
    assert data[..|data|] == data;
    return Some(Pass(newData, replaced, insertAt));
  }

  /** The scan over the head comments, which stops at the first line that
      is neither a comment nor inside a block comment. */
  method HeadCommentEndOf(data: seq<string>) returns (at: nat)
    ensures at == HeadCommentEnd(data)
  {
    at := 0;
    var block := false;
    for lineNo := 0 to |data|
      invariant at <= |data| && Scan(data, lineNo, at, block) == HeadCommentEnd(data)
    {
      var t := Strip(data[lineNo]);
      if StartsWith(t, "/*") {
        block := true;
      } else if StartsWith(t, "//") {
        at := lineNo + 1;
      } else if block {
        if EndsWith(t, "*/") {
          at := lineNo + 1;
        }
      } else {
        break;
      }
    }
  }

  /** The loop that inserts, at index `at`, the line of every key that
      replaced nothing. */
  method InsertPending(newData: seq<string>, at: nat, d: Dict<Value>, replaced: set<string>, quote: bool) returns (r: seq<string>)
    requires at <= |newData|
    ensures r == Inserted(newData, at, PendingLines(d, replaced, quote))
  {
    r := newData;
    assert Inserted(newData, at, PendingLines(d[..0], replaced, quote)) == newData by {
      assert d[..0] == [] && Reversed([]) == [];
    }
    hide Inserted, PendingLines;
    for j := 0 to |d|
      invariant r == Inserted(newData, at, PendingLines(d[..j], replaced, quote))
    {
      var (k, v) := d[j];
      ghost var pending := PendingLines(d[..j], replaced, quote);
      PendingSnoc(d, j, replaced, quote);
      if k !in replaced {
        InsertOne(newData, at, pending, DefineLine(k, v, quote));
        r := r[..at] + [DefineLine(k, v, quote)] + r[at..];
      } else {
        assert pending + [] == pending;
      }
    }
    assert d[..|d|] == d;
  }

  // ---------------------------------------------------------------------
  // The rewrite

  /** The lines of `replacePoundDefinesInCode` once the text is split:
      the first pass over the lines, the head comment scan when no line
      starts with `#`, the insertion of the keys that replaced nothing and
      the final empty line. */
  method RewriteLinesOf(data: seq<string>, d: Dict<Value>, quote: bool) returns (r: Option<seq<string>>)
    ensures r == RewriteLines(data, d, quote)
  {
    hide FirstPass, Strip, HeadCommentEnd, PendingLines, Inserted;
    var pass := FirstPassOf(data, d, quote);
    if pass.None? {
      return None;
    }
    var newData, replaced, insertAt := pass.value.newData, pass.value.replaced, pass.value.insertAt;

    var at: nat;
    if insertAt.None? {
      at := HeadCommentEndOf(data);
    } else {
      at := insertAt.value;
    }

    newData := InsertPending(newData, at, d, replaced, quote);
    if newData == [] || Strip(newData[|newData| - 1]) != [] {
      newData := newData + [""];
    }
    return Some(newData);
  }

  /** `replacePoundDefinesInCode`: the text split into lines, with every
      `\r` removed when there is one, rewritten, and joined with the line
      ending the text had. */
  method ReplacePoundDefinesInCode(existingCode: string, name2val: Option<Dict<Value>>, quote: bool) returns (r: Outcome)
    ensures r == Rewrite(existingCode, name2val, quote)
    ensures name2val.None? ==> r == Code(existingCode)
  {
    if name2val.None? {
      return Code(existingCode);
    }
    var crlf := '\r' in existingCode;
    var data: seq<string>;
    if crlf {
      data := Split(Replace(existingCode, '\r', ""), "\n");
    } else {
      data := Split(existingCode, "\n");
    }
    var lines := RewriteLinesOf(data, name2val.value, quote);
    if lines.None? {
      return IndexError;
    }
    if crlf {
      return Code(Join(lines.value, "\r\n"));
    }
    return Code(Join(lines.value, "\n"));
  }

  // ---------------------------------------------------------------------
  // updateVersionInCode

  /** A version or build date as it goes into the dictionary: quoted here
      when `quotestrings` is off, so that it is always written as a C
      string. */
  function VersionValue(s: string, quote: bool): Value
  {
    Str(if quote then s else CppQuote(s))
  }

  /** The dictionary `updateVersionInCode` passes on: a copy of `name2val`
      (or an empty one) with `VERSION` and `BUILD_DATE` assigned when they
      are given. */
  function VersionDict(version: Option<string>, buildDate: Option<string>, name2val: Option<Dict<Value>>, quote: bool): Dict<Value>
  {
    var base := if name2val.None? then [] else name2val.value;
    var withVersion := if version.None? then base else Set(base, "VERSION", VersionValue(version.value, quote));
    if buildDate.None? then withVersion else Set(withVersion, "BUILD_DATE", VersionValue(buildDate.value, quote))
  }

  /** `updateVersionInCode`, with the build date given as the text it is
      formatted to. */
  method UpdateVersionInCode(existingCode: string, version: Option<string>, buildDate: Option<string>,
                             name2val: Option<Dict<Value>>, quote: bool) returns (r: Outcome)
    ensures r == Rewrite(existingCode, Some(VersionDict(version, buildDate, name2val, quote)), quote)
  {
    var d: Dict<Value>;
    if name2val.None? {
      d := [];
    } else {
      d := name2val.value;
    }
    if version.Some? {
      var v := version.value;
      if !quote {
        v := CppQuote(v);
      }
      d := Set(d, "VERSION", Str(v));
    }
    if buildDate.Some? {
      var b := buildDate.value;
      if !quote {
        b := CppQuote(b);
      }
      d := Set(d, "BUILD_DATE", Str(b));
    }
    r := ReplacePoundDefinesInCode(existingCode, Some(d), quote);
  }
}
