/** The C `#define` rewriter of update_pound_defines.py: `cppQuote`, the
    reading of `#define` lines in `getPoundDefines`,
    `replacePoundDefinesInCode` and `updateVersionInCode`. Files, the clock
    and the command line are outside the model: a file is given as its
    decoded text and a build date as the string it would be formatted to. */
module PoundDefines {
  import opened Wrappers
  import opened PyText
  import opened PyDict

  // ---------------------------------------------------------------------
  // Values and their text

  /** A value of `name2val`: a `str`, an `int` or a `bool`. */
  datatype Value = Str(s: string) | Int(i: int) | Bool(b: bool)

  /** The decimal digit for `d`. */
  function Digit(d: nat): (c: char)
    requires d < 10
    ensures '0' <= c <= '9' && (c as int) - ('0' as int) == d
  {
    (('0' as int) + d) as char
  }

  /** A string of decimal digits. */
  predicate AllDigits(r: string)
  {
    forall i :: 0 <= i < |r| ==> '0' <= r[i] <= '9'
  }

  /** `str(n)` for a natural number: its decimal digits, most significant
      first, without leading zeros. */
  function Decimal(n: nat): (r: string)
    ensures r != [] && AllDigits(r)
    ensures |r| > 1 ==> r[0] != '0'
  {
    if n < 10 then [Digit(n)] else Decimal(n / 10) + [Digit(n % 10)]
  }

  /** The number a string of decimal digits denotes. */
  function DigitsValue(r: string): nat
    requires AllDigits(r)
  {
    if r == [] then 0 else 10 * DigitsValue(r[..|r| - 1]) + ((r[|r| - 1] as int) - ('0' as int))
  }

  /** Reading the digits back gives the number. */
  lemma {:induction false} DecimalRoundTrip(n: nat)
    ensures DigitsValue(Decimal(n)) == n
  {
    if n >= 10 {
      DecimalRoundTrip(n / 10);
      var r := Decimal(n);
      assert r[..|r| - 1] == Decimal(n / 10);
    }
  }

  /** `str(val)`. */
  function PyStr(v: Value): string
  {
    match v
    case Str(s) => s
    case Int(i) => if i < 0 then "-" + Decimal(-i) else Decimal(i)
    case Bool(b) => if b then "True" else "False"
  }

  // ---------------------------------------------------------------------
  // cppQuote

  /** The chain of `replace` calls of `cppQuote`, backslash first. */
  function EscapeAll(s: string): string
  {
    Replace(Replace(Replace(Replace(Replace(Replace(
      s, '\\', "\\\\"), '\t', "\\t"), '\r', "\\r"), '\n', "\\n"), '\0', "\\0"), '"', "\\\"")
  }

  /** `cppQuote(s)` for a `str`: a C string literal for `s`. Between the
      double quotes each character stands escaped on its own, no raw tab,
      CR, LF or NUL remains and every `"` follows a backslash, and reading
      the escapes back gives `s` exactly. */
  function CppQuote(s: string): (r: string)
    ensures |r| >= 2 && r[0] == '"' && r[|r| - 1] == '"'
    ensures r[1..|r| - 1] == Escaped(s)
    ensures WellEscaped(r[1..|r| - 1])
    ensures Unescape(r[1..|r| - 1]) == Some(s)
  {
    EscapeAllEscaped(s);
    EscapedShape(s);
    UnescapeEscaped(s);
    "\"" + EscapeAll(s) + "\""
  }

  /** The escape sequence `cppQuote` produces for one character. */
  function EscapeChar(c: char): string
  {
    match c
    case '\\' => "\\\\"
    case '\t' => "\\t"
    case '\r' => "\\r"
    case '\n' => "\\n"
    case '\0' => "\\0"
    case '"' => "\\\""
    case _ => [c]
  }

  /** Each character replaced by its escape sequence. */
  function Escaped(s: string): string
  {
    if s == [] then [] else EscapeChar(s[0]) + Escaped(s[1..])
  }

  /** The replace chain works character by character. */
  lemma EscapeAllAppend(a: string, b: string)
    ensures EscapeAll(a + b) == EscapeAll(a) + EscapeAll(b)
  {
    var a1, b1 := Replace(a, '\\', "\\\\"), Replace(b, '\\', "\\\\");
    ReplaceAppend(a, b, '\\', "\\\\");
    var a2, b2 := Replace(a1, '\t', "\\t"), Replace(b1, '\t', "\\t");
    ReplaceAppend(a1, b1, '\t', "\\t");
    var a3, b3 := Replace(a2, '\r', "\\r"), Replace(b2, '\r', "\\r");
    ReplaceAppend(a2, b2, '\r', "\\r");
    var a4, b4 := Replace(a3, '\n', "\\n"), Replace(b3, '\n', "\\n");
    ReplaceAppend(a3, b3, '\n', "\\n");
    var a5, b5 := Replace(a4, '\0', "\\0"), Replace(b4, '\0', "\\0");
    ReplaceAppend(a4, b4, '\0', "\\0");
    ReplaceAppend(a5, b5, '"', "\\\"");
  }

  /** `replace` on a one-character string. */
  lemma ReplaceOne(c: char, x: char, rep: string)
    ensures Replace([c], x, rep) == if c == x then rep else [c]
  {
    assert [c][1..] == [];
  }

  /** On one character the replace chain gives its escape sequence: the
      backslash goes first, so no later replacement is escaped twice. */
  lemma EscapeAllChar(c: char)
    ensures EscapeAll([c]) == EscapeChar(c)
  {
    if c == '\\' {
      ReplaceOne(c, '\\', "\\\\");
      EscapeKept("\\\\", 1);
    } else if c == '\t' {
      ReplaceOne(c, '\\', "\\\\");
      ReplaceOne(c, '\t', "\\t");
      EscapeKept("\\t", 2);
    } else if c == '\r' {
      ReplaceOne(c, '\\', "\\\\");
      ReplaceOne(c, '\t', "\\t");
      ReplaceOne(c, '\r', "\\r");
      EscapeKept("\\r", 3);
    } else if c == '\n' {
      ReplaceOne(c, '\\', "\\\\");
      ReplaceOne(c, '\t', "\\t");
      ReplaceOne(c, '\r', "\\r");
      ReplaceOne(c, '\n', "\\n");
      EscapeKept("\\n", 4);
    } else {
      ReplaceOne(c, '\\', "\\\\");
      ReplaceOne(c, '\t', "\\t");
      ReplaceOne(c, '\r', "\\r");
      ReplaceOne(c, '\n', "\\n");
      ReplaceOne(c, '\0', "\\0");
      ReplaceOne(c, '"', "\\\"");
      if c == '\0' {
        EscapeKept("\\0", 5);
      }
    }
  }

  /** The later steps of the replace chain leave a finished escape alone. */
  lemma EscapeKept(u: string, from: nat)
    requires 1 <= from <= 5 && |u| == 2 && u[0] == '\\'
    requires u[1] == 't' || u[1] == 'r' || u[1] == 'n' || u[1] == '0' || u[1] == '\\'
    ensures from <= 1 ==> Replace(u, '\t', "\\t") == u
    ensures from <= 2 ==> Replace(u, '\r', "\\r") == u
    ensures from <= 3 ==> Replace(u, '\n', "\\n") == u
    ensures from <= 4 ==> Replace(u, '\0', "\\0") == u
    ensures Replace(u, '"', "\\\"") == u
  {
    if from <= 1 { KeptBy(u, '\t', "\\t"); }
    if from <= 2 { KeptBy(u, '\r', "\\r"); }
    if from <= 3 { KeptBy(u, '\n', "\\n"); }
    if from <= 4 { KeptBy(u, '\0', "\\0"); }
    KeptBy(u, '"', "\\\"");
  }

  /** A replace step leaves alone an escape that does not hold its character. */
  lemma KeptBy(u: string, c: char, rep: string)
    requires |u| == 2 && u[0] == '\\' && u[1] != c && c != '\\'
    ensures Replace(u, c, rep) == u
  {
    assert c !in u by {
      assert u == ['\\', u[1]];
    }
  }

  /** An escape sequence is the character itself, when it need not be
      escaped, or a backslash and the letter that stands for it. */
  lemma EscapeCharShape(c: char)
    ensures var u := EscapeChar(c);
      (!MustEscape(c) && u == [c])
      || (MustEscape(c) && |u| == 2 && u[0] == '\\' && EscapeLetter(u[1]) == Some(c)
          && (u[1] == '\\' || u[1] == 't' || u[1] == 'r' || u[1] == 'n' || u[1] == '0' || u[1] == '"'))
  {
  }

  /** The replace chain of `cppQuote` escapes each character on its own. */
  lemma {:induction false} EscapeAllEscaped(s: string)
    ensures EscapeAll(s) == Escaped(s)
    decreases |s|
  {
    if s != [] {
      assert s == [s[0]] + s[1..];
      EscapeAllAppend([s[0]], s[1..]);
      EscapeAllChar(s[0]);
      EscapeAllEscaped(s[1..]);
    }
  }

  /** The character an escape letter after a backslash stands for. */
  function EscapeLetter(e: char): Option<char>
  {
    match e
    case '\\' => Some('\\')
    case 't' => Some('\t')
    case 'r' => Some('\r')
    case 'n' => Some('\n')
    case '0' => Some('\0')
    case '"' => Some('"')
    case _ => None
  }

  /** A character that may not appear unescaped in the quoted text. */
  predicate MustEscape(c: char)
  {
    c == '\\' || c == '\t' || c == '\r' || c == '\n' || c == '\0' || c == '"'
  }

  /** Reading a C string body back: each backslash pair stands for the
      character it escapes; a raw character that must be escaped, a lone
      trailing backslash or an unknown escape is rejected. */
  function Unescape(t: string): Option<string>
    decreases |t|
  {
    if t == [] then Some([])
    else if t[0] == '\\' then
      if |t| < 2 || EscapeLetter(t[1]).None? then None
      else
        match Unescape(t[2..])
        case None => None
        case Some(rest) => Some([EscapeLetter(t[1]).value] + rest)
    else if MustEscape(t[0]) then None
    else
      match Unescape(t[1..])
      case None => None
      case Some(rest) => Some([t[0]] + rest)
  }

  /** The per-character form of the round trip. */
  lemma {:induction false} UnescapeEscaped(s: string)
    ensures Unescape(Escaped(s)) == Some(s)
    decreases |s|
  {
    if s != [] {
      UnescapeEscaped(s[1..]);
      var u, e := EscapeChar(s[0]), Escaped(s);
      EscapeCharShape(s[0]);
      assert e == u + Escaped(s[1..]);
      assert e[|u|..] == Escaped(s[1..]);
      assert s == [s[0]] + s[1..];
    }
  }

  /** No raw tab, CR, LF or NUL, and every double quote follows a
      backslash. */
  predicate WellEscaped(e: string)
  {
    forall i :: 0 <= i < |e| ==>
      e[i] != '\t' && e[i] != '\r' && e[i] != '\n' && e[i] != '\0'
      && (e[i] == '"' ==> i > 0 && e[i - 1] == '\\')
  }

  /** Escaping every character gives well-escaped text. */
  lemma {:induction false} EscapedShape(s: string)
    ensures WellEscaped(Escaped(s))
    decreases |s|
  {
    if s != [] {
      EscapedShape(s[1..]);
      var u, t := EscapeChar(s[0]), Escaped(s[1..]);
      var e := Escaped(s);
      EscapeCharShape(s[0]);
      assert e == u + t;
      forall i | 0 <= i < |e|
        ensures e[i] != '\t' && e[i] != '\r' && e[i] != '\n' && e[i] != '\0'
          && (e[i] == '"' ==> i > 0 && e[i - 1] == '\\')
      {
        if i < |u| {
          assert e[i] == u[i];
          if i == 1 {
            assert e[0] == u[0];
          }
        } else {
          var j := i - |u|;
          assert 0 <= j < |t| && e[i] == t[j];
          if e[i] == '"' {
            assert e[i - 1] == t[j - 1];
          }
        }
      }
    }
  }

  // ---------------------------------------------------------------------
  // getPoundDefines

  /** One line as `getPoundDefines` reads it: the text before `//` split
      into at most three words; a line whose first word is `#define` and
      that has a second word defines that word as the rest of the line, or
      as the empty string when there is no rest. */
  function DefineOf(line: string): (r: Option<(string, string)>)
    ensures r.Some? ==> r.value.0 != [] && NoSpace(r.value.0)
    ensures r.Some? ==> r.value.1 == [] || !IsSpace(r.value.1[0])
  {
    var parts := SplitWords(Before(line, "//"), 2);
    if |parts| > 1 && parts[0] == "#define" then
      Some((parts[1], if |parts| > 2 then parts[2] else ""))
    else None
  }

  /** `line` is a `#define` of `name`. */
  predicate Defines(line: string, name: string)
  {
    DefineOf(line).Some? && DefineOf(line).value.0 == name
  }

  /** The line `#define name value` that the rewriter writes is read back
      as that name and value, provided the name is one word without a
      slash and the value holds no `//` and does not start with a space. */
  lemma DefineOfWritten(name: string, value: string)
    requires name != [] && NoSpace(name) && '/' !in name
    requires value == [] || !IsSpace(value[0])
    requires !Contains(value, "//")
    ensures DefineOf("#define " + name + " " + value) == Some((name, value))
  {
    NoSlashNoComment(name);
    assert Blank([]) && Blank(" ");
    hide *;
    assert [] + "#define" + " " + name + " " + value == "#define " + name + " " + value;
    DefineOfSpaced([], " ", name, " ", value);
  }

  /** Text after the first `//` of a line does not change how the line
      reads, provided the text before it neither holds `//` nor ends in a
      slash (which would start the comment one place earlier). */
  lemma CommentIgnored(a: string, b: string)
    requires !Contains(a, "//") && (a == [] || a[|a| - 1] != '/')
    ensures DefineOf(a + "//" + b) == DefineOf(a)
  {
    var s := a + "//" + b;
    assert OccursAt(s, "//", |a|) by {
      assert s[|a|..|a| + 2] == "//";
    }
    forall j | 0 <= j < |a|
      ensures !OccursAt(s, "//", j)
    {
      if j + 2 <= |a| {
        assert s[j..j + 2] == a[j..j + 2];
        assert !OccursAt(a, "//", j);
      } else {
        assert s[j..j + 2][0] == a[|a| - 1];
      }
    }
    assert Find(s, "//") == |a|;
    assert s[..|a|] == a;
    assert Before(s, "//") == a;
    assert Before(a, "//") == a by {
      var r := Before(a, "//");
      assert r == a || OccursAt(a, "//", |r|);
    }
  }

  /** A `#define` line with any whitespace before, between and after its
      words reads as its name and the rest of the line, when neither holds
      `//`. */
  lemma DefineOfSpaced(w0: string, w1: string, name: string, w2: string, value: string)
    requires Blank(w0) && w1 != [] && Blank(w1) && w2 != [] && Blank(w2)
    requires name != [] && NoSpace(name) && !Contains(name, "//")
    requires (value == [] || !IsSpace(value[0])) && !Contains(value, "//")
    ensures DefineOf(w0 + "#define" + w1 + name + w2 + value) == Some((name, value))
  {
    var line := w0 + "#define" + w1 + name + w2 + value;
    assert Before(line, "//") == line by {
      SpacedHasNoComment(w0, w1, name, w2, value);
      var r := Before(line, "//");
      assert r == line || OccursAt(line, "//", |r|);
    }
    var parts := SplitWords(line, 2);
    assert parts == if value == [] then ["#define", name] else ["#define", name, value] by {
      SpacedWords(w0, w1, name, w2, value);
    }
    hide SplitWords, Before, Blank, NoSpace, Contains, OccursAt, IsSpace;
  }

  /** A `#define` line with whitespace around its words holds no `//` when
      its name and value hold none. */
  lemma SpacedHasNoComment(w0: string, w1: string, name: string, w2: string, value: string)
    requires Blank(w0) && Blank(w1) && w2 != [] && Blank(w2)
    requires !Contains(name, "//") && !Contains(value, "//")
    ensures !Contains(w0 + "#define" + w1 + name + w2 + value, "//")
  {
    var lead := w0 + "#define" + w1;
    assert '/' !in lead by {
      BlankHasNoSlash(w0);
      BlankHasNoSlash(w1);
    }
    BlankHasNoSlash(w2);
    NoSlashNoComment(lead);
    NoSlashNoComment(w2);
    NoCommentJoin(lead, name);
    NoCommentJoin(w2, value);
    assert (w2 + value)[0] == w2[0] && w2[0] in w2;
    NoCommentJoin(lead + name, w2 + value);
    assert w0 + "#define" + w1 + name + w2 + value == (lead + name) + (w2 + value);
  }

  /** The words of a `#define` line with any whitespace around them. */
  lemma SpacedWords(w0: string, w1: string, name: string, w2: string, value: string)
    requires Blank(w0) && w1 != [] && Blank(w1) && w2 != [] && Blank(w2)
    requires name != [] && NoSpace(name)
    requires value == [] || !IsSpace(value[0])
    ensures SplitWords(w0 + "#define" + w1 + name + w2 + value, 2)
         == if value == [] then ["#define", name] else ["#define", name, value]
  {
    hide *;
    var rest := name + w2 + value;
    var words := SplitWords(w0 + "#define" + w1 + name + w2 + value, 2);
    var tail := SplitWords(rest, 1);
    assert words == ["#define"] + tail by {
      Regroup(w0, "#define", w1, name, w2, value);
      LeadWords(w0, w1, rest);
    }
    assert tail == if value == [] then [name] else [name, value] by {
      RestWords(name, w2, value);
    }
    if value == [] {
      assert ["#define"] + [name] == ["#define", name];
    } else {
      assert ["#define"] + [name, value] == ["#define", name, value];
    }
  }

  /** Whitespace, `#define` and more whitespace give the word `#define`
      and leave the rest of the line to be split once more. */
  lemma LeadWords(w0: string, w1: string, rest: string)
    requires Blank(w0) && w1 != [] && Blank(w1)
    ensures SplitWords(w0 + ("#define" + w1 + rest), 2) == ["#define"] + SplitWords(rest, 1)
  {
    assert NoSpace("#define");
    SplitWordsSkipsSpace(w0, "#define" + w1 + rest, 2);
    SplitWordsCons("#define", w1, rest, 2);
    SplitWordsSkipsSpace(w1, rest, 1);
  }

  /** A name, whitespace and a value split once give the name and, unless
      it is empty, the value. */
  lemma RestWords(name: string, gap: string, value: string)
    requires name != [] && NoSpace(name) && gap != [] && Blank(gap)
    requires value == [] || !IsSpace(value[0])
    ensures SplitWords(name + gap + value, 1)
         == if value == [] then [name] else [name, value]
  {
    SplitWordsCons(name, gap, value, 1);
    SplitWordsSkipsSpace(gap, value, 0);
    if value == [] {
      assert SplitWords(value, 0) == [];
    } else {
      SplitWordsNone(value);
    }
  }

  /** The leading whitespace of a line set apart from the rest. */
  lemma Regroup(a: string, b: string, c: string, d: string, e: string, f: string)
    ensures a + b + c + d + e + f == a + (b + c + (d + e + f))
  {
  }

  /** Whitespace holds no slash. */
  lemma BlankHasNoSlash(w: string)
    requires Blank(w)
    ensures '/' !in w
  {
    forall i | 0 <= i < |w|
      ensures w[i] != '/'
    {
      assert IsSpace(w[i]);
    }
  }

  /** Text without a slash holds no `//`. */
  lemma NoSlashNoComment(t: string)
    requires '/' !in t
    ensures !Contains(t, "//")
  {
    forall i | 0 <= i && i + 2 <= |t|
      ensures !OccursAt(t, "//", i)
    {
      assert t[i..i + 2][0] == t[i] && t[i] in t;
    }
  }

  /** Joining two texts without `//` makes none, unless the first ends and
      the second starts with a slash. */
  lemma NoCommentJoin(x: string, y: string)
    requires !Contains(x, "//") && !Contains(y, "//")
    requires x == [] || y == [] || x[|x| - 1] != '/' || y[0] != '/'
    ensures !Contains(x + y, "//")
  {
    var s := x + y;
    forall i | 0 <= i && i + 2 <= |s|
      ensures !OccursAt(s, "//", i)
    {
      if i + 2 <= |x| {
        assert s[i..i + 2] == x[i..i + 2];
        assert !OccursAt(x, "//", i);
      } else if |x| <= i {
        assert s[i..i + 2] == y[i - |x|..i - |x| + 2];
        assert !OccursAt(y, "//", i - |x|);
      } else {
        assert s[i..i + 2] == [x[|x| - 1], y[0]];
      }
    }
  }

  /** The dictionary `getPoundDefines` builds: starting from the defaults,
      each `#define` line assigns its value to its name, in order. */
  function DefinesOf(lines: seq<string>, defaults: Dict<string>): Dict<string>
  {
    if lines == [] then defaults
    else
      var d := DefinesOf(lines[..|lines| - 1], defaults);
      match DefineOf(lines[|lines| - 1])
      case None => d
      case Some(nv) => Set(d, nv.0, nv.1)
  }

  /** One more line. */
  lemma DefinesOfSnoc(lines: seq<string>, line: string, defaults: Dict<string>)
    ensures DefinesOf(lines + [line], defaults)
         == match DefineOf(line)
            case None => DefinesOf(lines, defaults)
            case Some(nv) => Set(DefinesOf(lines, defaults), nv.0, nv.1)
  {
    assert (lines + [line])[..|lines|] == lines;
  }

  /** A name no line defines keeps its default. */
  lemma {:induction false} DefinesKeepDefault(lines: seq<string>, defaults: Dict<string>, name: string)
    requires forall i :: 0 <= i < |lines| ==> !Defines(lines[i], name)
    ensures Get(DefinesOf(lines, defaults), name) == Get(defaults, name)
  {
    hide DefineOf, Set;
    if lines != [] {
      var init := lines[..|lines| - 1];
      DefinesKeepDefault(init, defaults, name);
      match DefineOf(lines[|lines| - 1])
      case None =>
      case Some(nv) =>
        GetSet(DefinesOf(init, defaults), nv.0, nv.1, name);
    }
  }

  /** The last line that defines a name decides its value, over earlier
      lines and over the defaults. */
  lemma {:induction false} DefinesLastWins(lines: seq<string>, defaults: Dict<string>, i: nat, name: string, value: string)
    requires i < |lines| && DefineOf(lines[i]) == Some((name, value))
    requires forall j :: i < j < |lines| ==> !Defines(lines[j], name)
    ensures Get(DefinesOf(lines, defaults), name) == Some(value)
  {
    hide DefineOf, Set;
    var init := lines[..|lines| - 1];
    if i < |lines| - 1 {
      assert init[i] == lines[i];
      assert forall j :: i < j < |init| ==> init[j] == lines[j];
      DefinesLastWins(init, defaults, i, name, value);
    }
    match DefineOf(lines[|lines| - 1])
    case None =>
    case Some(nv) =>
      GetSet(DefinesOf(init, defaults), nv.0, nv.1, name);
  }

  /** The lines of several files, file after file. */
  function AllLines(codes: seq<string>): seq<string>
  {
    if codes == [] then [] else AllLines(codes[..|codes| - 1]) + Split(codes[|codes| - 1], "\n")
  }

  /** One more line of a file. */
  lemma SnocSlice(before: seq<string>, lines: seq<string>, i: nat)
    requires i < |lines|
    ensures before + lines[..i + 1] == (before + lines[..i]) + [lines[i]]
  {
    assert lines[..i + 1] == lines[..i] + [lines[i]];
  }

  /** One more file. */
  lemma AllLinesSnoc(codes: seq<string>, f: nat)
    requires f < |codes|
    ensures AllLines(codes[..f + 1]) == AllLines(codes[..f]) + Split(codes[f], "\n")
  {
    assert codes[..f + 1][..f] == codes[..f];
  }

  /** The step of the loop over the lines of a file. */
  lemma DefineStep(before: seq<string>, lines: seq<string>, i: nat, defaults: Dict<string>, ret: Dict<string>)
    requires i < |lines| && ret == DefinesOf(before + lines[..i], defaults)
    ensures DefineOf(lines[i]).None? ==> ret == DefinesOf(before + lines[..i + 1], defaults)
    ensures DefineOf(lines[i]).Some? ==>
      var nv := DefineOf(lines[i]).value;
      Set(ret, nv.0, nv.1) == DefinesOf(before + lines[..i + 1], defaults)
  {
    SnocSlice(before, lines, i);
    DefinesOfSnoc(before + lines[..i], lines[i], defaults);
  }

  /** `getPoundDefines`, given the decoded text of each file. */
  method GetPoundDefines(codes: seq<string>, defaults: Dict<string>) returns (ret: Dict<string>)
    ensures ret == DefinesOf(AllLines(codes), defaults)
  {
    assert AllLines(codes[..0]) == [] && DefinesOf([], defaults) == defaults;
    hide DefineOf, Set, DefinesOf, AllLines, Split;
    ret := defaults;
    for f := 0 to |codes|
      invariant ret == DefinesOf(AllLines(codes[..f]), defaults)
    {
      var lines := Split(codes[f], "\n");
      ghost var before := AllLines(codes[..f]);
      assert before + lines[..0] == before;
      for i := 0 to |lines|
        invariant ret == DefinesOf(before + lines[..i], defaults)
      {
        DefineStep(before, lines, i, defaults, ret);
        match DefineOf(lines[i]) {
          case Some(nv) => ret := Set(ret, nv.0, nv.1);
          case None =>
        }
      }
      assert lines[..|lines|] == lines;
      AllLinesSnoc(codes, f);
    }
    assert codes[..|codes|] == codes;
  }
}
