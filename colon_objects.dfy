/** The parser of PowerShell's `Format-List` output: records of
    `Key : value` lines, a line that starts with a space continuing the value
    of the line before, and records separated by an empty line. One record
    becomes a `ColonObject` whose attributes are the keys in the order they
    first appear; a list of records becomes a `ColonObjects`. */
module ColonObjects {
  import opened Wrappers
  import opened PyText
  import opened PyDict

  /** The names the class already defines as read-only properties: setting an
      attribute of one of these names raises `AttributeError`. */
  predicate Reserved(k: string)
  {
    k == "json" || k == "jsonStr" || k == "jsonObj"
  }

  /** The state of `decodePsResult` between two lines: the current key and
      value, the attributes set so far, and whether no line has raised. */
  datatype Run = Run(key: string, val: string, fields: Dict<string>, ok: bool)

  /** The first code point of a line is a space, so the line continues the
      value of the line before. */
  predicate Continues(line: string)
  {
    line != [] && line[0] == ' '
  }

  /** A line that names its key: not empty, not a continuation. */
  predicate KeyLine(line: string)
  {
    line != [] && line[0] != ' '
  }

  /** The key of a key line that holds a `:`: the text before the first `:`
      without its trailing whitespace. */
  function KeyOf(line: string): string
    requires Find(line, ":") != -1
  {
    RStrip(line[..Find(line, ":")])
  }

  /** The value of a key line that holds a `:`: the text after the first `:`
      without its leading whitespace; it may contain further `:`. */
  function ValueOf(line: string): string
    requires Find(line, ":") != -1
  {
    LStrip(line[Find(line, ":") + 1..])
  }

  /** A line on which `decodePsResult` raises whatever came before: a key line
      without a `:` (`kv[1]` does not exist), or one whose key is a reserved
      name. */
  predicate Bad(line: string)
  {
    KeyLine(line) && (Find(line, ":") == -1 || Reserved(KeyOf(line)))
  }

  /** One line of `decodePsResult`. A failing line leaves the attributes set by
      the lines before it. */
  function LineStep(r: Run, line: string): Run
  {
    if line == [] then r
    else if Continues(line) then
      var v := r.val + LStrip(line);
      if Reserved(r.key) then Run(r.key, v, r.fields, false)
      else Run(r.key, v, Set(r.fields, r.key, v), true)
    else if Find(line, ":") == -1 then r.(ok := false)
    else
      var k, v := KeyOf(line), ValueOf(line);
      if Reserved(k) then Run(k, v, r.fields, false)
      else Run(k, v, Set(r.fields, k, v), true)
  }

  /** The lines in order, stopping at the first that raises. */
  function RunLines(lines: seq<string>, start: Run): Run
  {
    if lines == [] then start
    else
      var r := RunLines(lines[..|lines| - 1], start);
      if !r.ok then r else LineStep(r, lines[|lines| - 1])
  }

  /** The lines `decodePsResult` reads: the stripped text split at `\n`. */
  function RecordLines(raw: string): seq<string>
  {
    Split(Strip(raw), "\n")
  }

  /** `decodePsResult(raw)` on an object whose attributes are `fields`. */
  function Decode(fields: Dict<string>, raw: string): Run
  {
    RunLines(RecordLines(raw), Run("", "", fields, true))
  }

  /** `c.isalpha() and c.isupper()` for the code points up to U+00FF. */
  predicate IsUpperLetter(c: char)
  {
    ('A' <= c <= 'Z') || ('\U{C0}' <= c <= '\U{DE}' && c != '\U{D7}')
  }

  /** The attribute becomes a JSON member: its name starts with an upper-case
      letter. */
  predicate Exported(k: string)
  {
    k != [] && IsUpperLetter(k[0])
  }

  /** `jsonObj` of one object: the attributes whose name starts with an
      upper-case letter, or `None` when an attribute has the empty name
      (`k[0]` raises `IndexError`). */
  function JsonOf(fields: Dict<string>): Option<Dict<string>>
  {
    if fields == [] then Some([])
    else
      var (k, v) := fields[|fields| - 1];
      match JsonOf(fields[..|fields| - 1])
      case None => None
      case Some(j) =>
        if k == [] then None
        else if IsUpperLetter(k[0]) then Some(Set(j, k, v))
        else Some(j)
  }

  /** The records of a raw text as `decodePsResult` of the collection means
      to cut them: with every `\r` removed, split at each empty line. */
  function Records(raw: string): seq<string>
  {
    Split(Replace(raw, '\r', ""), "\n\n")
  }

  /** The records as line 101 of the collection's `decodePsResult` leaves
      them: the result of `replace` is dropped, so `\r` stays in the text
      that is split. */
  function RecordsAsWritten(raw: string): seq<string>
  {
    Split(raw, "\n\n")
  }

  /** The attributes of the objects built from `records`, in order, up to the
      first record whose decoding raises; the flag says whether none did. */
  function DecodeAll(records: seq<string>): (seq<Dict<string>>, bool)
  {
    if records == [] then ([], true)
    else
      var (objs, ok) := DecodeAll(records[..|records| - 1]);
      if !ok then (objs, false)
      else
        var r := Decode([], records[|records| - 1]);
        if r.ok then (objs + [r.fields], true) else (objs, false)
  }

  /** `jsonObj` of the collection: every object's `jsonObj`, or `None` when one
      of them raises. */
  function JsonAll(objs: seq<Dict<string>>): Option<seq<Dict<string>>>
  {
    if objs == [] then Some([])
    else
      match JsonAll(objs[..|objs| - 1])
      case None => None
      case Some(l) =>
        match JsonOf(objs[|objs| - 1])
        case None => None
        case Some(j) => Some(l + [j])
  }

  /** What one line does to a run, case by case, in the terms the loop of
      `decodePsResult` computes. */
  lemma StepCases(r: Run, line: string)
    ensures line == [] ==> LineStep(r, line) == r
    ensures line != [] && line[0] == ' ' ==>
      var v := r.val + LStrip(line);
      LineStep(r, line) == if Reserved(r.key) then Run(r.key, v, r.fields, false) else Run(r.key, v, Set(r.fields, r.key, v), true)
    ensures line != [] && line[0] != ' ' && Find(line, ":") == -1 ==> LineStep(r, line) == r.(ok := false)
    ensures line != [] && line[0] != ' ' && Find(line, ":") != -1 ==>
      var c := Find(line, ":");
      var k, v := RStrip(line[..c]), LStrip(line[c + 1..]);
      LineStep(r, line) == if Reserved(k) then Run(k, v, r.fields, false) else Run(k, v, Set(r.fields, k, v), true)
  {
    hide Set, Find, LStrip, RStrip;
  }

  /** One line of `decodePsResult`: the new key, value and attributes, and
      whether the line was read without raising. */
  method DecodeLine(key: string, val: string, attrs: Dict<string>, line: string)
    returns (key': string, val': string, attrs': Dict<string>, ok: bool)
    ensures Run(key', val', attrs', ok) == LineStep(Run(key, val, attrs, true), line)
  {
    StepCases(Run(key, val, attrs, true), line);
    key', val', attrs', ok := key, val, attrs, true;
    if line == [] {
      return;
    } else if line[0] == ' ' {
      val' := val + LStrip(line);
    } else {
      var c := Find(line, ":");
      if c == -1 {
        ok := false;
        return;
      }
      key' := RStrip(line[..c]);
      val' := LStrip(line[c + 1..]);
    }
    if Reserved(key') {
      ok := false;
      return;
    }
    attrs' := Set(attrs, key', val');
  }

  /** Once a line has raised, the later lines change nothing. */
  lemma {:induction false} RunStaysFailed(lines: seq<string>, start: Run, n: nat)
    requires n <= |lines| && !RunLines(lines[..n], start).ok
    ensures RunLines(lines, start) == RunLines(lines[..n], start)
    decreases |lines| - n
  {
    if n < |lines| {
      assert lines[..n + 1][..n] == lines[..n];
      RunStaysFailed(lines, start, n + 1);
    } else {
      assert lines[..n] == lines;
    }
  }

  /** The run over one more line. */
  lemma RunSnoc(lines: seq<string>, i: nat, start: Run)
    requires i < |lines|
    ensures var r := RunLines(lines[..i], start);
      RunLines(lines[..i + 1], start) == if !r.ok then r else LineStep(r, lines[i])
  {
    assert lines[..i + 1][..i] == lines[..i];
  }

  /** Once a record has raised, the later records change nothing. */
  lemma {:induction false} DecodeAllStaysFailed(records: seq<string>, n: nat)
    requires n <= |records| && !DecodeAll(records[..n]).1
    ensures DecodeAll(records) == DecodeAll(records[..n])
    decreases |records| - n
  {
    if n < |records| {
      assert records[..n + 1][..n] == records[..n];
      DecodeAllStaysFailed(records, n + 1);
    } else {
      assert records[..n] == records;
    }
  }

  /** One Python object of the class `PowershellColonObject`: its instance
      attributes, in the order they were first set. */
  class ColonObject {
    var fields: Dict<string>

    /** `PowershellColonObject()`: no attributes yet. */
    constructor()
      ensures fields == []
    {
      fields := [];
    }

    /** `decodePsResult(raw)`: every attribute the lines set, in order; `ok`
        is false when a line raised, and then the attributes set by the lines
        before it stay. */
    method DecodePsResult(raw: string) returns (ok: bool)
      modifies this
      ensures var r := Decode(old(fields), raw); fields == r.fields && ok == r.ok
    {
      var key, val, attrs := "", "", fields;
      var lines := RecordLines(raw);
      ghost var start := Run("", "", attrs, true);
      assert Decode(attrs, raw) == RunLines(lines, start);
      assert lines[..0] == [] && RunLines(lines[..0], start) == start;
      for i := 0 to |lines|
        invariant RunLines(lines[..i], start) == Run(key, val, attrs, true)
      {
        RunSnoc(lines, i, start);
        var read;
        key, val, attrs, read := DecodeLine(key, val, attrs, lines[i]);
        if !read {
          RunStaysFailed(lines, start, i + 1);
          assert lines[..|lines|] == lines;
          fields := attrs;
          return false;
        }
      }
      assert lines[..|lines|] == lines;
      fields := attrs;
      ok := true;
    }

    /** `jsonObj`: the attributes whose name starts with an upper-case letter,
        or `None` where `k[0]` raises on an attribute with the empty name. */
    method JsonObj() returns (r: Option<Dict<string>>)
      ensures r == JsonOf(fields)
    {
      var ret: Dict<string> := [];
      for i := 0 to |fields|
        invariant JsonOf(fields[..i]) == Some(ret)
      {
        assert fields[..i + 1][..i] == fields[..i];
        var (k, v) := fields[i];
        if k == [] {
          assert JsonOf(fields[..i + 1]) == None;
          JsonStaysFailed(fields, i + 1);
          return None;
        }
        if IsUpperLetter(k[0]) {
          ret := Set(ret, k, v);
        }
      }
      assert fields[..|fields|] == fields;
      r := Some(ret);
    }
  }

  /** Once an attribute with the empty name has been met, `jsonObj` raises. */
  lemma {:induction false} JsonStaysFailed(fields: Dict<string>, n: nat)
    requires n <= |fields| && JsonOf(fields[..n]).None?
    ensures JsonOf(fields).None?
    decreases |fields| - n
  {
    if n < |fields| {
      assert fields[..n + 1][..n] == fields[..n];
      JsonStaysFailed(fields, n + 1);
    } else {
      assert fields[..n] == fields;
    }
  }

  /** `PowershellColonObject(raw)`: a new object that decodes `raw`; `ok` is
      false when the decoding raised. */
  method NewColonObject(raw: string) returns (dev: ColonObject, ok: bool)
    ensures fresh(dev)
    ensures var r := Decode([], raw); dev.fields == r.fields && ok == r.ok
  {
    dev := new ColonObject();
    ok := dev.DecodePsResult(raw);
  }

  /** The loop of the collection's `decodePsResult`: one new object per
      record, in order, up to the first record whose decoding raises. */
  method DecodeRecords(records: seq<string>) returns (objs: seq<ColonObject>, ok: bool)
    ensures FieldsOf(objs) == DecodeAll(records).0 && ok == DecodeAll(records).1
    ensures forall o :: o in objs ==> fresh(o)
  {
    objs := [];
    assert records[..0] == [] && DecodeAll(records[..0]) == ([], true);
    for i := 0 to |records|
      invariant FieldsOf(objs) == DecodeAll(records[..i]).0
      invariant DecodeAll(records[..i]).1
      invariant forall o :: o in objs ==> fresh(o)
    {
      var dev, done := NewColonObject(records[i]);
      DecodeAllStep(records, i, objs, dev, done);
      if !done {
        return objs, false;
      }
      objs := objs + [dev];
    }
    assert records[..|records|] == records;
    ok := true;
  }

  /** The loop of the collection's `jsonObj`: the `jsonObj` of every object
      in `objs`, or `None` when one raises. */
  method JsonObjs(objs: seq<ColonObject>) returns (r: Option<seq<Dict<string>>>)
    ensures r == JsonAll(FieldsOf(objs))
  {
    var ret: seq<Dict<string>> := [];
    assert objs[..0] == [] && FieldsOf([]) == [];
    for i := 0 to |objs|
      invariant JsonAll(FieldsOf(objs[..i])) == Some(ret)
    {
      JsonAllStep(objs, i, ret);
      var j := objs[i].JsonObj();
      if j.None? {
        JsonAllStaysFailed(objs, i + 1);
        return None;
      }
      ret := ret + [j.value];
    }
    assert objs[..|objs|] == objs;
    r := Some(ret);
  }

  /** The attributes of the objects in `objs`, in order. */
  ghost function FieldsOf(objs: seq<ColonObject>): seq<Dict<string>>
    reads objs
  {
    if objs == [] then [] else FieldsOf(objs[..|objs| - 1]) + [objs[|objs| - 1].fields]
  }

  /** One Python object of the class `PowershellColonObjects`: the list of
      decoded records. */
  class ColonObjects {
    var psObjects: seq<ColonObject>

    /** `PowershellColonObjects()`: no records yet. */
    constructor()
      ensures psObjects == []
    {
      psObjects := [];
    }

    /** `decodePsResult(raw)`: one new object per record, in order; `ok` is
        false when a record raised, and then the objects of the records before
        it stay. The records are cut as the code has it, with `\r` left in
        the text. */
    method DecodePsResult(raw: string) returns (ok: bool)
      modifies this
      ensures FieldsOf(psObjects) == DecodeAll(RecordsAsWritten(raw)).0
      ensures ok == DecodeAll(RecordsAsWritten(raw)).1
      ensures forall o :: o in psObjects ==> fresh(o)
    {
      var records := RecordsAsWritten(raw);
      psObjects, ok := DecodeRecords(records);
    }

    /** `jsonObj`: the `jsonObj` of every object, or `None` when one raises. */
    method JsonObj() returns (r: Option<seq<Dict<string>>>)
      ensures r == JsonAll(FieldsOf(psObjects))
    {
      r := JsonObjs(psObjects);
    }
  }

  /** The records up to and including record `i`. */
  lemma DecodeAllSnoc(records: seq<string>, i: nat)
    requires i < |records| && DecodeAll(records[..i]).1
    ensures var r := Decode([], records[i]);
      DecodeAll(records[..i + 1])
      == if r.ok then (DecodeAll(records[..i]).0 + [r.fields], true) else (DecodeAll(records[..i]).0, false)
  {
    assert records[..i + 1][..i] == records[..i];
  }

  /** The step of the loop of the collection's `decodePsResult`: a record
      that decodes adds its object, one that raises ends the decoding. */
  lemma DecodeAllStep(records: seq<string>, i: nat, objs: seq<ColonObject>, dev: ColonObject, done: bool)
    requires i < |records| && DecodeAll(records[..i]).1 && FieldsOf(objs) == DecodeAll(records[..i]).0
    requires dev.fields == Decode([], records[i]).fields && done == Decode([], records[i]).ok
    ensures done ==> FieldsOf(objs + [dev]) == DecodeAll(records[..i + 1]).0 && DecodeAll(records[..i + 1]).1
    ensures !done ==> DecodeAll(records) == (FieldsOf(objs), false)
  {
    DecodeAllSnoc(records, i);
    FieldsSnoc(objs, dev);
    if !done {
      DecodeAllStaysFailed(records, i + 1);
    }
  }

  /** The step of the loop of the collection's `jsonObj`. */
  lemma JsonAllStep(objs: seq<ColonObject>, i: nat, ret: seq<Dict<string>>)
    requires i < |objs| && JsonAll(FieldsOf(objs[..i])) == Some(ret)
    ensures JsonOf(objs[i].fields).None? ==> JsonAll(FieldsOf(objs[..i + 1])).None?
    ensures JsonOf(objs[i].fields).Some? ==> JsonAll(FieldsOf(objs[..i + 1])) == Some(ret + [JsonOf(objs[i].fields).value])
  {
    assert objs[..i + 1] == objs[..i] + [objs[i]];
    FieldsSnoc(objs[..i], objs[i]);
  }

  /** The attributes of one more object come last. */
  lemma FieldsSnoc(objs: seq<ColonObject>, o: ColonObject)
    ensures FieldsOf(objs + [o]) == FieldsOf(objs) + [o.fields]
  {
    assert (objs + [o])[..|objs|] == objs;
  }

  /** Once an object's `jsonObj` has raised, the collection's raises. */
  lemma {:induction false} JsonAllStaysFailed(objs: seq<ColonObject>, n: nat)
    requires n <= |objs| && JsonAll(FieldsOf(objs[..n])).None?
    ensures JsonAll(FieldsOf(objs)).None?
    decreases |objs| - n
  {
    if n < |objs| {
      assert objs[..n + 1][..n] == objs[..n];
      JsonAllStaysFailed(objs, n + 1);
    } else {
      assert objs[..n] == objs;
    }
  }
}
