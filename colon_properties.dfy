/** What the colon-record parser promises: a key line splits at its first
    `:`, a continuation line extends the current value, the last assignment
    of a key wins, a line without `:` raises and keeps what came before,
    `jsonObj` keeps exactly the attributes named with an upper-case letter,
    and the records come out one object each, in order. */
module ColonProperties {
  import opened Wrappers
  import opened PyText
  import opened PyDict
  import opened ColonObjects

  /** A key line splits at its first `:` only: the key is the text before it
      without trailing whitespace, the value the rest without leading
      whitespace, whatever further `:` it holds. */
  lemma FirstColon(k: string, v: string)
    requires ':' !in k
    ensures var line := k + ":" + v;
      Find(line, ":") == |k| && KeyOf(line) == RStrip(k) && ValueOf(line) == LStrip(v)
  {
    var line := k + ":" + v;
    FindAfter(k, ":", v);
    assert line[..|k|] == k && line[|k| + 1..] == v;
  }

  /** A line that does not raise sets the current key to the current value
      and leaves every other attribute as it was; a continuation keeps the
      key and appends the line without its leading spaces to the value. */
  lemma LineStepSets(r: Run, line: string)
    requires r.ok && !Reserved(r.key) && line != [] && !Bad(line)
    ensures var s := LineStep(r, line);
      s.ok && !Reserved(s.key)
      && (Continues(line) ==> s.key == r.key && s.val == r.val + LStrip(line))
      && (!Continues(line) ==> Find(line, ":") != -1 && s.key == KeyOf(line) && s.val == ValueOf(line))
      && Get(s.fields, s.key) == Some(s.val)
      && forall k :: k != s.key ==> Get(s.fields, k) == Get(r.fields, k)
  {
    var s := LineStep(r, line);
    forall k
      ensures Get(s.fields, k) == if k == s.key then Some(s.val) else Get(r.fields, k)
    {
      GetSet(r.fields, s.key, s.val, k);
    }
  }

  /** Given a current key that may be assigned, a line raises exactly when it
      is bad; when it raises it leaves the attributes as they were. */
  lemma StepOkIff(r: Run, line: string)
    requires r.ok && !Reserved(r.key)
    ensures var s := LineStep(r, line);
      (s.ok <==> !Bad(line)) && (s.ok ==> !Reserved(s.key)) && (!s.ok ==> s.fields == r.fields)
  {
  }

  /** Reading lines one after the other: the run over `a + b` is the run over
      `b` from where the run over `a` ended. */
  lemma {:induction false} RunAppend(a: seq<string>, b: seq<string>, start: Run)
    ensures RunLines(a + b, start) == RunLines(b, RunLines(a, start))
    decreases |b|
  {
    if b == [] {
      assert a + b == a;
    } else {
      var n := |b| - 1;
      assert (a + b)[..|a + b| - 1] == a + b[..n];
      assert (a + b)[|a + b| - 1] == b[n];
      RunAppend(a, b[..n], start);
    }
  }

  /** A run that ends without raising did not raise on any prefix. */
  lemma PrefixOk(lines: seq<string>, start: Run, n: nat)
    requires n <= |lines| && RunLines(lines, start).ok
    ensures RunLines(lines[..n], start).ok
  {
    if !RunLines(lines[..n], start).ok {
      RunStaysFailed(lines, start, n);
    }
  }

  /** `decodePsResult` raises exactly when one of its lines is a key line
      without `:` or with a reserved key; a run that does not raise ends on a
      key that may be assigned. */
  lemma {:induction false} DecodeOkIff(lines: seq<string>, start: Run)
    requires start.ok && !Reserved(start.key)
    ensures var r := RunLines(lines, start);
      (r.ok <==> forall i :: 0 <= i < |lines| ==> !Bad(lines[i]))
      && (r.ok ==> !Reserved(r.key))
    decreases |lines|
  {
    if lines != [] {
      var n := |lines| - 1;
      var init := lines[..n];
      DecodeOkIff(init, start);
      var r := RunLines(init, start);
      assert RunLines(lines, start) == if !r.ok then r else LineStep(r, lines[n]);
      if r.ok {
        StepOkIff(r, lines[n]);
      }
      AllGoodSnoc(lines);
      hide *;
    }
  }

  /** Every line is good exactly when every line before the last is and
      the last one is. */
  lemma AllGoodSnoc(lines: seq<string>)
    requires lines != []
    ensures var n := |lines| - 1;
      (forall i :: 0 <= i < |lines| ==> !Bad(lines[i]))
      <==> (forall i :: 0 <= i < n ==> !Bad(lines[..n][i])) && !Bad(lines[n])
  {
    var n := |lines| - 1;
    assert forall i :: 0 <= i < n ==> lines[..n][i] == lines[i];
    hide Bad;
  }

  /** At the first line that raises, the attributes set by the lines before
      it stay, and nothing after it is read. */
  lemma DecodeFailKeeps(lines: seq<string>, start: Run, f: nat)
    requires start.ok && !Reserved(start.key)
    requires f < |lines| && Bad(lines[f]) && forall i :: 0 <= i < f ==> !Bad(lines[i])
    ensures var r := RunLines(lines, start);
      !r.ok && r.fields == RunLines(lines[..f], start).fields
  {
    var r := RunLines(lines[..f], start);
    assert r.ok && !Reserved(r.key) by {
      var init := lines[..f];
      assert forall i :: 0 <= i < f ==> init[i] == lines[i];
      DecodeOkIff(init, start);
    }
    assert RunLines(lines[..f + 1], start) == LineStep(r, lines[f]) by {
      RunSnoc(lines, f, start);
    }
    StepOkIff(r, lines[f]);
    RunStaysFailed(lines, start, f + 1);
  }

  /** A key line of `line` names a key other than `k`. */
  predicate AvoidsKey(line: string, k: string)
  {
    KeyLine(line) && Find(line, ":") != -1 ==> KeyOf(line) != k
  }

  /** Lines whose keys all differ from `k`, read while the current key is not
      `k`, leave the attribute `k` as it was. */
  lemma {:induction false} OtherKeysKeep(lines: seq<string>, start: Run, k: string)
    requires start.ok && !Reserved(start.key) && start.key != k
    requires RunLines(lines, start).ok
    requires forall i :: 0 <= i < |lines| ==> AvoidsKey(lines[i], k)
    ensures var r := RunLines(lines, start);
      r.key != k && Get(r.fields, k) == Get(start.fields, k)
    decreases |lines|
  {
    if lines != [] {
      var n := |lines| - 1;
      var init := lines[..n];
      assert forall i :: 0 <= i < n ==> init[i] == lines[i];
      var r := RunLines(init, start);
      assert r.ok;
      OtherKeysKeep(init, start, k);
      DecodeOkIff(init, start);
      StepOkIff(r, lines[n]);
      if lines[n] != [] {
        LineStepSets(r, lines[n]);
      }
      assert AvoidsKey(lines[n], k);
      hide LineStep, Bad, Reserved, KeyOf;
    }
  }

  /** A run that ends without raising started without raising. */
  lemma StartOk(lines: seq<string>, r: Run)
    requires RunLines(lines, r).ok
    ensures r.ok
  {
    if !r.ok {
      assert lines[..0] == [];
      RunStaysFailed(lines, r, 0);
    }
  }

  /** Lines that start with a key line and assign only keys other than `k`
      leave the attribute `k` as it was. */
  lemma {:induction false} NextKeyKeeps(post: seq<string>, r1: Run, k: string)
    requires r1.ok && !Reserved(r1.key)
    requires RunLines(post, r1).ok
    requires post != [] ==> KeyLine(post[0])
    requires forall i :: 0 <= i < |post| ==> AvoidsKey(post[i], k)
    ensures Get(RunLines(post, r1).fields, k) == Get(r1.fields, k)
  {
    if post != [] {
      var r2 := LineStep(r1, post[0]);
      assert RunLines(post, r1) == RunLines(post[1..], r2) by {
        RunAppend([post[0]], post[1..], r1);
        assert [post[0]] + post[1..] == post;
        assert [post[0]][..0] == [];
      }
      assert r2.ok by {
        StartOk(post[1..], r2);
      }
      assert !Reserved(r2.key) && r2.key != k && Get(r2.fields, k) == Get(r1.fields, k) by {
        StepOkIff(r1, post[0]);
        LineStepSets(r1, post[0]);
        assert AvoidsKey(post[0], k);
      }
      assert forall i :: 0 <= i < |post| - 1 ==> AvoidsKey(post[1..][i], k) by {
        assert forall i :: 0 <= i < |post| - 1 ==> post[1..][i] == post[i + 1];
      }
      hide LineStep, RunLines;
      OtherKeysKeep(post[1..], r2, k);
    }
  }

  /** Right after a key line that does not raise, its key holds its value. */
  lemma {:induction false} AfterKeyLine(pre: seq<string>, line: string, start: Run)
    requires start.ok && !Reserved(start.key)
    requires KeyLine(line) && Find(line, ":") != -1
    requires RunLines(pre + [line], start).ok
    ensures var r1 := RunLines(pre + [line], start);
      r1.key == KeyOf(line) && !Reserved(r1.key) && Get(r1.fields, KeyOf(line)) == Some(ValueOf(line))
  {
    RunAppend(pre, [line], start);
    var r0 := RunLines(pre, start);
    assert [line][..0] == [];
    assert RunLines(pre + [line], start) == LineStep(r0, line);
    StartOk([line], r0);
    DecodeOkIff(pre, start);
    StepOkIff(r0, line);
    LineStepSets(r0, line);
  }

  /** A repeated key ends with the value of its last key line: after that
      line, the next line names another key and so do all later key lines. */
  lemma {:induction false} LastWins(pre: seq<string>, line: string, post: seq<string>, start: Run)
    requires start.ok && !Reserved(start.key)
    requires KeyLine(line) && Find(line, ":") != -1
    requires RunLines(pre + [line] + post, start).ok
    requires post != [] ==> KeyLine(post[0])
    requires forall i :: 0 <= i < |post| ==> AvoidsKey(post[i], KeyOf(line))
    ensures Get(RunLines(pre + [line] + post, start).fields, KeyOf(line)) == Some(ValueOf(line))
  {
    RunAppend(pre + [line], post, start);
    var r1 := RunLines(pre + [line], start);
    StartOk(post, r1);
    AfterKeyLine(pre, line, start);
    NextKeyKeeps(post, r1, KeyOf(line));
  }

  /** Assigning attributes one at a time never repeats a name. */
  lemma {:induction false} DecodeKeepsDistinct(lines: seq<string>, start: Run)
    requires KeysDistinct(start.fields)
    ensures KeysDistinct(RunLines(lines, start).fields)
    decreases |lines|
  {
    if lines != [] {
      var init := lines[..|lines| - 1];
      DecodeKeepsDistinct(init, start);
      var r := RunLines(init, start);
      if r.ok && lines[|lines| - 1] != [] {
        var s := LineStep(r, lines[|lines| - 1]);
        if s.ok {
          SetKeepsKeysDistinct(r.fields, s.key, s.val);
        }
      }
    }
  }

  /** `jsonObj` raises exactly when an attribute has the empty name; otherwise
      it holds an attribute exactly when its name starts with an upper-case
      letter, with the attribute's value. */
  lemma {:induction false} JsonOfIff(fields: Dict<string>)
    requires KeysDistinct(fields)
    ensures JsonOf(fields).None? <==> "" in Keys(fields)
    ensures JsonOf(fields).Some? ==>
      var j := JsonOf(fields).value;
      KeysDistinct(j) && forall k :: Get(j, k) == if Exported(k) then Get(fields, k) else None
    decreases |fields|
  {
    if fields != [] {
      var n := |fields| - 1;
      var init := fields[..n];
      var e := fields[n];
      assert fields == init + [e];
      KeysSnoc(init, e);
      forall i | 0 <= i < n
        ensures Keys(init)[i] != e.0
      {
        assert Keys(init)[i] == fields[i].0;
      }
      JsonOfIff(init);
      match JsonOf(init)
      case None =>
      case Some(j) =>
        if e.0 != [] {
          forall k
            ensures Get(JsonOf(fields).value, k) == if Exported(k) then Get(fields, k) else None
          {
            GetSnoc(init, e, k);
            if IsUpperLetter(e.0[0]) {
              GetSet(j, e.0, e.1, k);
            }
          }
          if IsUpperLetter(e.0[0]) {
            SetKeepsKeysDistinct(j, e.0, e.1);
          }
        }
    }
  }

  /** Object `i` holds the attributes of record `i`, which does not raise. */
  predicate DecodedAs(records: seq<string>, objs: seq<Dict<string>>)
  {
    |objs| <= |records|
    && forall i :: 0 <= i < |objs| ==> Decode([], records[i]).ok && objs[i] == Decode([], records[i]).fields
  }

  /** The collection's `decodePsResult` builds one object per record, in
      order, each with the attributes of its record; it raises exactly when a
      record raises, and then holds the objects of the records before it. */
  lemma {:induction false} DecodeAllIff(records: seq<string>)
    ensures DecodedAs(records, DecodeAll(records).0)
    ensures DecodeAll(records).1 <==> |DecodeAll(records).0| == |records|
    ensures !DecodeAll(records).1 ==> !Decode([], records[|DecodeAll(records).0|]).ok
    decreases |records|
  {
    hide Decode;
    if records != [] {
      var n := |records| - 1;
      var init := records[..n];
      DecodeAllIff(init);
      var (objs, ok) := DecodeAll(init);
      var r := Decode([], records[n]);
      assert DecodeAll(records)
        == if !ok then (objs, false) else if r.ok then (objs + [r.fields], true) else (objs, false);
      hide DecodeAll;
      assert DecodedAs(records, objs) by {
        assert forall i :: 0 <= i < |objs| ==> init[i] == records[i];
      }
      if ok && r.ok {
        var objs' := objs + [r.fields];
        forall i | 0 <= i < |objs'|
          ensures Decode([], records[i]).ok && objs'[i] == Decode([], records[i]).fields
        {
          if i < n {
            assert objs'[i] == objs[i];
          }
        }
      }
      if !ok {
        assert init[|objs|] == records[|objs|];
      }
    }
  }

  /** The collection's `jsonObj` raises exactly when one object's does;
      otherwise it lists every object's `jsonObj`, in order. */
  lemma {:induction false} JsonAllIff(objs: seq<Dict<string>>)
    ensures JsonAll(objs).Some? <==> forall i :: 0 <= i < |objs| ==> JsonOf(objs[i]).Some?
    ensures JsonAll(objs).Some? ==>
      var l := JsonAll(objs).value;
      |l| == |objs| && forall i :: 0 <= i < |objs| ==> l[i] == JsonOf(objs[i]).value
    decreases |objs|
  {
    if objs != [] {
      var n := |objs| - 1;
      var init := objs[..n];
      JsonAllIff(init);
      assert forall i :: 0 <= i < n ==> init[i] == objs[i];
    }
  }

  /** Text whose lines end in `\r\n` holds no empty line to the eyes of a
      split at `\n\n`: the collection's `decodePsResult` as written reads it
      as one single record. */
  lemma AsWrittenOneRecord(lines: seq<string>)
    requires forall i :: 0 <= i < |lines| ==> '\n' !in lines[i]
    ensures RecordsAsWritten(Join(lines, "\r\n")) == [Join(lines, "\r\n")]
  {
    var s := Join(lines, "\r\n");
    JoinCrlf(lines);
    forall i | 0 <= i
      ensures !OccursAt(s, "\n\n", i)
    {
      assert i + 2 <= |s| ==> s[i..i + 2][0] == s[i] && s[i..i + 2][1] == s[i + 1];
    }
  }

  /** Removing `\r` from lines that end in `\r\n` leaves them ending in `\n`. */
  lemma {:induction false} CrlfToLf(lines: seq<string>)
    requires forall i :: 0 <= i < |lines| ==> '\r' !in lines[i]
    ensures Replace(Join(lines, "\r\n"), '\r', "") == Join(lines, "\n")
    decreases |lines|
  {
    if |lines| == 1 {
    } else if |lines| > 1 {
      var h, rest := lines[0], lines[1..];
      assert lines == [h] + rest;
      JoinCons(h, rest, "\r\n");
      JoinCons(h, rest, "\n");
      CrlfToLf(rest);
      ReplaceAppend(h + "\r\n", Join(rest, "\r\n"), '\r', "");
      ReplaceAppend(h, "\r\n", '\r', "");
      assert Replace("\r\n", '\r', "") == "\n";
    }
  }

  /** The records as they are meant to be cut do not depend on the line
      ending: text written with `\r\n` gives the records of the same text
      written with `\n`. */
  lemma CrlfSameAsLf(lines: seq<string>)
    requires forall i :: 0 <= i < |lines| ==> '\r' !in lines[i]
    ensures Records(Join(lines, "\r\n")) == Records(Join(lines, "\n"))
  {
    CrlfToLf(lines);
    JoinLacks(lines, "\n", '\r');
  }

  /** The pieces of the example text `A:1`, blank line, `B:2`. */
  lemma ExamplePieces()
    ensures Join(["A:1", "", "B:2"], "\r\n") == "A:1\r\n\r\nB:2"
    ensures Join(["A:1", "", "B:2"], "\n") == "A:1\n\nB:2"
    ensures "A:1\r" + "\n" + ("\r" + "\n" + "B:2") == "A:1\r\n\r\nB:2"
    ensures "A:1" + "\n\n" + "B:2" == "A:1\n\nB:2"
    ensures '\n' !in "A:1\r" && '\n' !in "\r" && '\n' !in "B:2" && '\n' !in "A:1"
    ensures ':' !in "\r" && "A:1\r" == "A" + ":" + "1\r" && "A:1" == "A" + ":" + "1" && "B:2" == "B" + ":" + "2"
    ensures '\r' !in "A:1" && '\r' !in "" && '\r' !in "B:2"
  {
  }

  /** The lines of the example record as written. */
  lemma ExampleLines()
    ensures RecordLines("A:1\r\n\r\nB:2") == ["A:1\r", "\r", "B:2"]
  {
    hide Find, Split, Strip, LStrip, RStrip;
    ExamplePieces();
    var raw := "A:1\r\n\r\nB:2";
    StripPlain(raw);
    SplitAfter("A:1\r", "\n", "\r" + "\n" + "B:2");
    SplitAfter("\r", "\n", "B:2");
    SplitNone("B:2", "\n");
  }

  /** The first line of the example record does not raise; the blank line
      `\r` does. */
  lemma ExampleBad()
    ensures !Bad("A:1\r") && Bad("\r")
  {
    ExamplePieces();
    FindAfter("A", ":", "1\r");
    FindNone("\r", ":");
    assert KeyOf("A:1\r") == RStrip("A");
  }

  /** As written, the example text is one record. */
  lemma ExampleOneRecord()
    ensures RecordsAsWritten("A:1\r\n\r\nB:2") == ["A:1\r\n\r\nB:2"]
  {
    ExamplePieces();
    AsWrittenOneRecord(["A:1", "", "B:2"]);
  }

  /** As written, the example record raises at its blank line `\r`. */
  lemma ExampleRaises()
    ensures !Decode([], "A:1\r\n\r\nB:2").ok
  {
    var lines := ["A:1\r", "\r", "B:2"];
    ExampleLines();
    ExampleBad();
    hide Bad, RunLines, LineStep, Find, RecordLines, KeyOf, Strip, Split;
    assert lines[0] == "A:1\r" && lines[1] == "\r";
    DecodeFailKeeps(lines, Run("", "", [], true), 1);
  }

  /** As written, two records separated by a blank line with `\r\n` line ends
      give no object at all: they are read as one record, whose blank line
      `\r` is a key line without `:`, so `IndexError` is raised. */
  lemma CrlfRecordsAsWritten()
    ensures DecodeAll(RecordsAsWritten("A:1\r\n\r\nB:2")) == ([], false)
  {
    var raw := "A:1\r\n\r\nB:2";
    ExampleOneRecord();
    ExampleRaises();
    assert [raw][..0] == [];
    hide Decode, RecordsAsWritten;
    assert DecodeAll([raw]) == ([], false);
  }

  /** A text without `\n` and without whitespace at its ends is one line. */
  lemma PlainLine(line: string)
    requires line != [] && !IsSpace(line[0]) && !IsSpace(line[|line| - 1]) && '\n' !in line
    ensures RecordLines(line) == [line]
  {
    StripPlain(line);
    SplitNone(line, "\n");
  }

  /** The key and value of the one-line record `k:v`. */
  lemma OneLineParts(k: string, v: string)
    requires |k| == 1 && |v| == 1 && !IsSpace(k[0]) && !IsSpace(v[0]) && k[0] != ':' && k[0] != '\n' && v[0] != '\n'
    ensures var line := k + ":" + v;
      RecordLines(line) == [line] && !Continues(line) && Find(line, ":") != -1
      && KeyOf(line) == k && ValueOf(line) == v
  {
    var line := k + ":" + v;
    assert line[0] == k[0] && line[|line| - 1] == v[0] && '\n' !in line;
    FirstColon(k, v);
    assert RStrip(k) == k && LStrip(v) == v;
    PlainLine(line);
  }

  /** The one-line record `k:v`. */
  lemma OneLineRecord(k: string, v: string, line: string)
    requires |k| == 1 && |v| == 1 && !IsSpace(k[0]) && !IsSpace(v[0]) && k[0] != ':' && k[0] != '\n' && v[0] != '\n'
    requires !Reserved(k) && line == k + ":" + v
    ensures Decode([], line) == Run(k, v, [(k, v)], true)
  {
    var start := Run("", "", [], true);
    OneLineParts(k, v);
    assert [line][..0] == [];
    assert RunLines([line], start) == LineStep(start, line);
    hide RecordLines, Find, KeyOf, ValueOf;
    assert LineStep(start, line) == Run(k, v, Set([], k, v), true);
  }

  /** The example text written with `\n` line ends. */
  lemma ExampleLf()
    ensures Join(["A:1", "", "B:2"], "\r\n") == "A:1\r\n\r\nB:2"
    ensures Join(["A:1", "", "B:2"], "\n") == "A:1" + "\n\n" + "B:2"
    ensures '\r' !in "A:1" + "\n\n" + "B:2" && '\n' !in "A:1" && '\n' !in "B:2"
    ensures forall i :: 0 <= i < 3 ==> '\r' !in ["A:1", "", "B:2"][i]
  {
  }

  /** The records of a text that holds no `\r`. */
  lemma RecordsWithoutCr(s: string)
    requires '\r' !in s
    ensures Records(s) == Split(s, "\n\n")
  {
  }

  /** With the `\r` removed as intended, the example text is two records. */
  lemma ExampleRecords()
    ensures Records("A:1\r\n\r\nB:2") == ["A:1", "B:2"]
  {
    hide *;
    CrlfSameAsLf(["A:1", "", "B:2"]);
    ExampleLf();
    RecordsWithoutCr("A:1" + "\n\n" + "B:2");
    SplitAfter("A:1", "\n\n", "B:2");
    SplitNone("B:2", "\n\n");
  }

  /** One more record that decodes adds its object at the end. */
  lemma DecodeAllSnoc(records: seq<string>, x: string)
    requires DecodeAll(records).1 && Decode([], x).ok
    ensures DecodeAll(records + [x]) == (DecodeAll(records).0 + [Decode([], x).fields], true)
  {
    assert (records + [x])[..|records|] == records;
  }

  /** Two records that both decode give their two objects. */
  lemma DecodeTwo(a: string, b: string)
    requires Decode([], a).ok && Decode([], b).ok
    ensures DecodeAll([a, b]) == ([Decode([], a).fields, Decode([], b).fields], true)
  {
    hide Decode;
    assert DecodeAll([]) == ([], true);
    DecodeAllSnoc([], a);
    assert [] + [a] == [a];
    DecodeAllSnoc([a], b);
    assert [a] + [b] == [a, b];
    var fa, fb := Decode([], a).fields, Decode([], b).fields;
    assert [] + [fa] + [fb] == [fa, fb];
  }

  /** The first example record. */
  lemma ExampleObjectA()
    ensures Decode([], "A:1") == Run("A", "1", [("A", "1")], true)
  {
    OneLineRecord("A", "1", "A:1");
  }

  /** The second example record. */
  lemma ExampleObjectB()
    ensures Decode([], "B:2") == Run("B", "2", [("B", "2")], true)
  {
    OneLineRecord("B", "2", "B:2");
  }

  /** With the `\r` removed as intended, the same text gives its two
      objects. */
  lemma CrlfRecordsCorrected()
    ensures DecodeAll(Records("A:1\r\n\r\nB:2")) == ([[("A", "1")], [("B", "2")]], true)
  {
    hide *;
    ExampleRecords();
    ExampleObjectA();
    ExampleObjectB();
    DecodeTwo("A:1", "B:2");
  }
}
