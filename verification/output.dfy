/**
  The prediction writer of predict.py (`write_output`): every line of a
  template file holds `para_id, sent_id, entity, NONE` separated by tabs, and
  is rewritten into `para_id, sent_id, entity, state, loc_before, loc_after`
  from the stored prediction of that paragraph and entity.
*/
module PredictOutput {
  import opened PyText
  import opened Predict

  const Tab: char := '\t'
  const Newline: char := '\n'

  /** The key `write_output` looks an instance up under: `str(para_id) + '-' + entity`. */
  function InstanceKey(paraId: int, entity: string): string {
    IntToString(paraId) + "-" + entity
  }

  /** The key splits at the first `-` after position 0: the part before it
      parses back to the paragraph id, and the rest is the entity. */
  lemma InstanceKeySplits(paraId: int, entity: string)
    ensures var k, n := InstanceKey(paraId, entity), |IntToString(paraId)|;
      && 1 <= n < |k| && k[n] == '-' && (forall j :: 1 <= j < n ==> k[j] != '-')
      && ParseInt(k[..n]) == Some(paraId) && k[n + 1..] == entity
  {
    var k, n := InstanceKey(paraId, entity), |IntToString(paraId)|;
    ParseIntToString(paraId);
    assert k[..n] == IntToString(paraId);
    forall j | 1 <= j < n ensures k[j] != '-' {
      assert k[j] == IntToString(paraId)[j];
    }
  }

  /** Different instances have different keys: the key determines the
      paragraph id and the entity name. */
  lemma InstanceKeyInjective(paraId1: int, entity1: string, paraId2: int, entity2: string)
    requires InstanceKey(paraId1, entity1) == InstanceKey(paraId2, entity2)
    ensures paraId1 == paraId2 && entity1 == entity2
  {
    InstanceKeySplits(paraId1, entity1);
    InstanceKeySplits(paraId2, entity2);
    var k := InstanceKey(paraId1, entity1);
    FirstDashUnique(k, |IntToString(paraId1)|, |IntToString(paraId2)|);
  }

  /** A string has at most one first `-` after position 0. */
  lemma FirstDashUnique(k: string, n1: nat, n2: nat)
    requires 1 <= n1 < |k| && 1 <= n2 < |k|
    requires k[n1] == '-' && k[n2] == '-'
    requires forall j :: 1 <= j < n1 ==> k[j] != '-'
    requires forall j :: 1 <= j < n2 ==> k[j] != '-'
    ensures n1 == n2
  {
  }

  /** The template line is well formed: four tab-separated fields, the last `NONE`. */
  predicate IsTemplate(fields: seq<string>) {
    |fields| == 4 && fields[3] == "NONE"
  }

  /** The per-line transform of `write_output`, lines 26-45: strip the line,
      split it at tabs and fill in the fields. */
  function FillLine(line: string, output: map<string, Instance>): (r: Result<string>)
    ensures var fields := Split(Strip(line), Tab);
      && (!IsTemplate(fields) ==> r == Err(AssertionError))
      && (r.Ok? ==>
        && IsTemplate(fields)
        && ParseInt(fields[0]).Some? && ParseInt(fields[1]).Some?
        && InstanceKey(ParseInt(fields[0]).value, fields[2]) in output
        && var instance := output[InstanceKey(ParseInt(fields[0]).value, fields[2])];
        && instance.id == ParseInt(fields[0]).value && instance.entity == fields[2]
        && ParseInt(fields[1]).value <= instance.totalSents)
  {
    FillFields(Split(Strip(line), Tab), output)
  }

  /** Filling in the fields of one template line, with the exceptions raised
      on the way: the shape assertion and `int()` of the two ids here, the
      rest in `FillParsed`. */
  function FillFields(fields: seq<string>, output: map<string, Instance>): (r: Result<string>)
    ensures !IsTemplate(fields) ==> r == Err(AssertionError)
    ensures r.Ok? ==>
      && IsTemplate(fields)
      && ParseInt(fields[0]).Some? && ParseInt(fields[1]).Some?
      && InstanceKey(ParseInt(fields[0]).value, fields[2]) in output
      && var instance := output[InstanceKey(ParseInt(fields[0]).value, fields[2])];
      && instance.id == ParseInt(fields[0]).value && instance.entity == fields[2]
      && ParseInt(fields[1]).value <= instance.totalSents
  {
    if !IsTemplate(fields) then Err(AssertionError)
    else match (ParseInt(fields[0]), ParseInt(fields[1]))
      case (None, _) => Err(ValueError)
      case (_, None) => Err(ValueError)
      case (Some(paraId), Some(sentId)) => FillParsed(fields, paraId, sentId, output)
  }

  /** The rest of the line once both ids are parsed: the dictionary lookup,
      the two consistency assertions and the list index. */
  function FillParsed(fields: seq<string>, paraId: int, sentId: int, output: map<string, Instance>): (r: Result<string>)
    requires |fields| == 4
    ensures r.Ok? ==>
      && InstanceKey(paraId, fields[2]) in output
      && var instance := output[InstanceKey(paraId, fields[2])];
      && instance.id == paraId && instance.entity == fields[2] && sentId <= instance.totalSents
  {
    var key := InstanceKey(paraId, fields[2]);
    if key !in output then Err(KeyError)
    else
      var instance := output[key];
      if !(sentId <= instance.totalSents) then Err(AssertionError)
      else if !(paraId == instance.id && fields[2] == instance.entity) then Err(AssertionError)
      else match PyIndex(instance.prediction, sentId - 1)
        case None => Err(IndexError)
        case Some(t) => Ok(Join(fields[..3] + [t.state.Name(), t.before, t.after], Tab))
  }

  /** Once the ids parse, the line's fate is decided by `FillParsed`. */
  lemma FillFieldsParsed(fields: seq<string>, output: map<string, Instance>, paraId: int, sentId: int)
    requires IsTemplate(fields)
    requires ParseInt(fields[0]) == Some(paraId) && ParseInt(fields[1]) == Some(sentId)
    ensures FillFields(fields, output) == FillParsed(fields, paraId, sentId, output)
  {
  }

  /** The record a well-formed template line receives, as one string, for
      the triple that Python's `prediction[sent_id - 1]` selects. */
  lemma FillFieldsValue(fields: seq<string>, output: map<string, Instance>, paraId: int, sentId: int, t: Triple)
    requires IsTemplate(fields)
    requires ParseInt(fields[0]) == Some(paraId) && ParseInt(fields[1]) == Some(sentId)
    requires InstanceKey(paraId, fields[2]) in output
    requires var instance := output[InstanceKey(paraId, fields[2])];
      && instance.id == paraId && instance.entity == fields[2]
      && sentId <= instance.totalSents && PyIndex(instance.prediction, sentId - 1) == Some(t)
    ensures FillFields(fields, output) == Ok(Join(fields[..3] + [t.state.Name(), t.before, t.after], Tab))
  {
    FillFieldsParsed(fields, output, paraId, sentId);
  }

  /** A record of six tab-free fields splits back into those six fields. */
  lemma RecordFields(fields: seq<string>, t: Triple)
    requires |fields| == 4
    requires forall i :: 0 <= i < 3 ==> Tab !in fields[i]
    requires Tab !in t.before && Tab !in t.after
    ensures var record := fields[..3] + [t.state.Name(), t.before, t.after];
      Split(Join(record, Tab), Tab) == record
  {
    var record := fields[..3] + [t.state.Name(), t.before, t.after];
    assert Tab !in t.state.Name();
    assert forall i :: 0 <= i < |record| ==> Tab !in record[i];
    SplitJoin(record, Tab);
  }

  /** On a well-formed template line whose instance is stored, the written
      record has six fields: the three from the template, then the state and
      the two locations of triple `sent_id` (counted from 1). */
  lemma FillFieldsRecord(fields: seq<string>, output: map<string, Instance>, paraId: int, sentId: int)
    requires IsTemplate(fields)
    requires ParseInt(fields[0]) == Some(paraId) && ParseInt(fields[1]) == Some(sentId)
    requires InstanceKey(paraId, fields[2]) in output
    requires var instance := output[InstanceKey(paraId, fields[2])];
      && instance.id == paraId && instance.entity == fields[2]
      && 1 <= sentId <= instance.totalSents && sentId <= |instance.prediction|
      && Tab !in instance.prediction[sentId - 1].before
      && Tab !in instance.prediction[sentId - 1].after
    requires forall i :: 0 <= i < 3 ==> Tab !in fields[i]
    ensures var t := output[InstanceKey(paraId, fields[2])].prediction[sentId - 1];
      && FillFields(fields, output).Ok?
      && Split(FillFields(fields, output).value, Tab) == fields[..3] + [t.state.Name(), t.before, t.after]
  {
    var t := output[InstanceKey(paraId, fields[2])].prediction[sentId - 1];
    FillFieldsValue(fields, output, paraId, sentId, t);
    RecordFields(fields, t);
  }

  /** A template sentence id of 0 passes the `sent_id <= total_sents` check
      and, through Python's index -1, picks the triple of the last sentence. */
  lemma SentIdZeroTakesLast(fields: seq<string>, output: map<string, Instance>, paraId: int)
    requires |fields| == 4
    requires InstanceKey(paraId, fields[2]) in output
    requires var instance := output[InstanceKey(paraId, fields[2])];
      && instance.id == paraId && instance.entity == fields[2]
      && 0 <= instance.totalSents && |instance.prediction| >= 1
    ensures var p := output[InstanceKey(paraId, fields[2])].prediction;
      var last := p[|p| - 1];
      FillParsed(fields, paraId, 0, output) == Ok(Join(fields[..3] + [last.state.Name(), last.before, last.after], Tab))
  {
    var p := output[InstanceKey(paraId, fields[2])].prediction;
    assert PyIndex(p, 0 - 1) == Some(p[|p| - 1]);
  }

  /** What `write_output` leaves in the output file: the text written, and the
      exception that stopped it, if any. */
  datatype Written = Written(text: string, failure: Option<Failure>)

  /** The result of filling in each template line, in order. Filling is pure,
      so computing every result first and then writing them until the first
      failure writes what the interleaved loop writes. */
  function FillLines(lines: seq<string>, output: map<string, Instance>): (rs: seq<Result<string>>)
    ensures |rs| == |lines|
    ensures forall i :: 0 <= i < |lines| ==> rs[i] == FillLine(lines[i], output)
    decreases |lines|
  {
    if |lines| == 0 then [] else [FillLine(lines[0], output)] + FillLines(lines[1..], output)
  }

  lemma {:induction false} FillLinesAt(lines: seq<string>, output: map<string, Instance>, i: nat)
    requires i < |lines|
    ensures FillLines(lines, output)[i] == FillLine(lines[i], output)
    decreases i
  {
    if i > 0 {
      FillLinesAt(lines[1..], output, i - 1);
      assert lines[1..][i - 1] == lines[i];
    }
  }

  /** The writing loop as written: each record goes out with no line break
      after it (the template's own break was removed by `strip()`), and the
      first failure ends the loop after the earlier records were written. */
  function WriteGlued(results: seq<Result<string>>): (w: Written)
    ensures w.failure == None <==> forall i :: 0 <= i < |results| ==> results[i].Ok?
    decreases |results|
  {
    if |results| == 0 then Written("", None)
    else match results[0]
      case Err(f) => Written("", Some(f))
      case Ok(record) =>
        var rest := WriteGlued(results[1..]);
        Written(record + rest.text, rest.failure)
  }

  /** The writing loop as intended: a line break after each record. */
  function WriteTerminated(results: seq<Result<string>>): (w: Written)
    ensures w.failure == None <==> forall i :: 0 <= i < |results| ==> results[i].Ok?
    decreases |results|
  {
    if |results| == 0 then Written("", None)
    else match results[0]
      case Err(f) => Written("", Some(f))
      case Ok(record) =>
        var rest := WriteTerminated(results[1..]);
        Written(record + [Newline] + rest.text, rest.failure)
  }

  /** `write_output` as written. */
  function WriteOutputAsWritten(lines: seq<string>, output: map<string, Instance>): (w: Written)
    ensures w.failure == None <==> forall i :: 0 <= i < |lines| ==> FillLine(lines[i], output).Ok?
  {
    WriteGlued(FillLines(lines, output))
  }

  /** `write_output` as intended: one record per line. */
  function WriteOutput(lines: seq<string>, output: map<string, Instance>): (w: Written)
    ensures w.failure == None <==> forall i :: 0 <= i < |lines| ==> FillLine(lines[i], output).Ok?
  {
    WriteTerminated(FillLines(lines, output))
  }

  /** Every result is a record, and no record holds a line break. */
  predicate AllRecords(results: seq<Result<string>>) {
    forall i :: 0 <= i < |results| ==> results[i].Ok? && Newline !in results[i].value
  }

  /** The records of a sequence of successful results. */
  function Values(results: seq<Result<string>>): (rs: seq<string>)
    requires AllRecords(results)
    ensures |rs| == |results|
  {
    seq(|results|, i requires 0 <= i < |results| && AllRecords(results) => results[i].value)
  }

  /** Every template line is filled in, and no record holds a line break. */
  predicate AllFilled(lines: seq<string>, output: map<string, Instance>) {
    forall i :: 0 <= i < |lines| ==> FillLine(lines[i], output).Ok? && Newline !in FillLine(lines[i], output).value
  }

  /** The records of the template lines, in order. */
  function Records(lines: seq<string>, output: map<string, Instance>): (rs: seq<string>)
    requires AllFilled(lines, output)
    ensures |rs| == |lines|
  {
    seq(|lines|, i requires 0 <= i < |lines| && AllFilled(lines, output) => FillLine(lines[i], output).value)
  }

  lemma RecordsHaveNoLineBreak(lines: seq<string>, output: map<string, Instance>)
    requires AllFilled(lines, output)
    ensures forall i :: 0 <= i < |lines| ==> Newline !in Records(lines, output)[i]
  {
  }

  /** When every line is filled in, the results are exactly the records. */
  lemma FilledLines(lines: seq<string>, output: map<string, Instance>)
    requires AllFilled(lines, output)
    ensures AllRecords(FillLines(lines, output))
    ensures Values(FillLines(lines, output)) == Records(lines, output)
  {
    forall i | 0 <= i < |lines| ensures FillLines(lines, output)[i] == FillLine(lines[i], output) {
      FillLinesAt(lines, output, i);
    }
  }

  /** Records written one after the other. */
  function Glued(records: seq<string>): string {
    if |records| == 0 then "" else records[0] + Glued(records[1..])
  }

  /** Records each followed by a line break. */
  function Terminated(records: seq<string>): string {
    if |records| == 0 then "" else records[0] + [Newline] + Terminated(records[1..])
  }

  lemma {:induction false} GluedText(results: seq<Result<string>>)
    requires AllRecords(results)
    ensures WriteGlued(results) == Written(Glued(Values(results)), None)
    decreases |results|
  {
    if |results| > 0 {
      var rest := results[1..];
      assert AllRecords(rest) by {
        forall i | 0 <= i < |rest| ensures rest[i].Ok? && Newline !in rest[i].value {
          assert rest[i] == results[i + 1];
        }
      }
      GluedText(rest);
      assert Values(results)[1..] == Values(rest);
    }
  }

  lemma {:induction false} TerminatedText(results: seq<Result<string>>)
    requires AllRecords(results)
    ensures WriteTerminated(results) == Written(Terminated(Values(results)), None)
    decreases |results|
  {
    if |results| > 0 {
      var rest := results[1..];
      assert AllRecords(rest) by {
        forall i | 0 <= i < |rest| ensures rest[i].Ok? && Newline !in rest[i].value {
          assert rest[i] == results[i + 1];
        }
      }
      TerminatedText(rest);
      assert Values(results)[1..] == Values(rest);
    }
  }

  /** The first failing result stops both writing loops with its exception. */
  lemma {:induction false} FirstFailureStops(results: seq<Result<string>>, k: nat)
    requires k < |results|
    requires forall i :: 0 <= i < k ==> results[i].Ok?
    requires results[k].Err?
    ensures WriteGlued(results).failure == Some(results[k].failure)
    ensures WriteTerminated(results).failure == Some(results[k].failure)
    decreases k
  {
    if k > 0 {
      var rest := results[1..];
      assert forall i :: 0 <= i < k - 1 ==> rest[i] == results[i + 1];
      FirstFailureStops(rest, k - 1);
    }
  }

  /** When the first failure comes at `k`, both loops have written the
      records before it and stop with its exception. */
  lemma {:induction false} FailureText(results: seq<Result<string>>, k: nat)
    requires k < |results|
    requires AllRecords(results[..k])
    requires results[k].Err?
    ensures WriteGlued(results) == Written(Glued(Values(results[..k])), Some(results[k].failure))
    ensures WriteTerminated(results) == Written(Terminated(Values(results[..k])), Some(results[k].failure))
    decreases k
  {
    if k > 0 {
      var done := results[..k];
      var rest := results[1..];
      var prefix := rest[..k - 1];
      assert prefix == done[1..];
      assert AllRecords(prefix) by {
        forall i | 0 <= i < k - 1 ensures prefix[i].Ok? && Newline !in prefix[i].value {
          assert prefix[i] == done[i + 1];
        }
      }
      FailureText(rest, k - 1);
      assert results[0] == done[0];
      assert Values(done)[1..] == Values(prefix);
    } else {
      assert Values(results[..k]) == [];
    }
  }

  lemma AsWrittenText(lines: seq<string>, output: map<string, Instance>)
    requires AllFilled(lines, output)
    ensures WriteOutputAsWritten(lines, output) == Written(Glued(Records(lines, output)), None)
  {
    FilledLines(lines, output);
    GluedText(FillLines(lines, output));
  }

  lemma CorrectedText(lines: seq<string>, output: map<string, Instance>)
    requires AllFilled(lines, output)
    ensures WriteOutput(lines, output) == Written(Terminated(Records(lines, output)), None)
  {
    FilledLines(lines, output);
    TerminatedText(FillLines(lines, output));
  }

  lemma {:induction false} GluedHasNoLineBreak(records: seq<string>)
    requires forall i :: 0 <= i < |records| ==> Newline !in records[i]
    ensures Newline !in Glued(records)
    decreases |records|
  {
    if |records| > 0 {
      GluedHasNoLineBreak(records[1..]);
    }
  }

  lemma {:induction false} SplitTerminated(records: seq<string>)
    requires forall i :: 0 <= i < |records| ==> Newline !in records[i]
    ensures Split(Terminated(records), Newline) == records + [""]
    decreases |records|
  {
    if |records| > 0 {
      var rest := Terminated(records[1..]);
      SplitTerminated(records[1..]);
      assert Terminated(records) == records[0] + ([Newline] + rest);
      SplitAfterField(records[0], [Newline] + rest, Newline);
      assert ([Newline] + rest)[1..] == rest;
      assert Split([Newline] + rest, Newline) == [""] + Split(rest, Newline);
      assert records[0] + "" == records[0];
      assert [records[0]] + (records[1..] + [""]) == records + [""];
    }
  }

  /** The defect: as written, a template of two or more lines yields a file
      of one single line in which each record's last field runs into the next
      record's paragraph id, so the records cannot be told apart. */
  lemma AsWrittenGluesRecords(lines: seq<string>, output: map<string, Instance>)
    requires |lines| >= 2
    requires AllFilled(lines, output)
    ensures WriteOutputAsWritten(lines, output).failure == None
    ensures Split(WriteOutputAsWritten(lines, output).text, Newline) == [WriteOutputAsWritten(lines, output).text]
    ensures |Split(WriteOutputAsWritten(lines, output).text, Newline)| < |lines|
  {
    AsWrittenText(lines, output);
    RecordsHaveNoLineBreak(lines, output);
    var text := Glued(Records(lines, output));
    GluedHasNoLineBreak(Records(lines, output));
    SplitJoin([text], Newline);
  }

  /** The correction: with a line break after each record, the file's lines
      are exactly the records, one per template line. */
  lemma OneRecordPerLine(lines: seq<string>, output: map<string, Instance>)
    requires AllFilled(lines, output)
    ensures WriteOutput(lines, output).failure == None
    ensures Split(WriteOutput(lines, output).text, Newline) == Records(lines, output) + [""]
  {
    CorrectedText(lines, output);
    RecordsHaveNoLineBreak(lines, output);
    SplitTerminated(Records(lines, output));
  }

  /** A failing template line stops the writer in both versions, after the
      records of the lines before it. */
  lemma FailureStopsWriting(lines: seq<string>, output: map<string, Instance>, k: nat)
    requires k < |lines|
    requires AllFilled(lines[..k], output)
    requires FillLine(lines[k], output).Err?
    ensures WriteOutput(lines, output) ==
      Written(Terminated(Records(lines[..k], output)), Some(FillLine(lines[k], output).failure))
    ensures WriteOutputAsWritten(lines, output) ==
      Written(Glued(Records(lines[..k], output)), Some(FillLine(lines[k], output).failure))
  {
    FilledPrefix(lines, output, k);
    FillLinesAt(lines, output, k);
    FailureText(FillLines(lines, output), k);
  }

  /** The results of lines that all fill in are their records. */
  lemma FilledPrefix(lines: seq<string>, output: map<string, Instance>, k: nat)
    requires k <= |lines|
    requires AllFilled(lines[..k], output)
    ensures AllRecords(FillLines(lines, output)[..k])
    ensures Values(FillLines(lines, output)[..k]) == Records(lines[..k], output)
  {
    var done := FillLines(lines, output)[..k];
    forall i | 0 <= i < k ensures done[i] == FillLine(lines[..k][i], output) {
      FillLinesAt(lines, output, i);
      assert lines[..k][i] == lines[i];
    }
    assert AllRecords(done);
    assert Values(done) == Records(lines[..k], output);
  }
}

module PredictOutputExample {
  import opened PyText
  import opened Predict
  import opened PredictOutput

  lemma IronOreStrip()
    ensures Strip("12\t3\tironore\tNONE\n") == "12\t3\tironore\tNONE"
  {
    var line := "12\t3\tironore\tNONE\n";
    assert StripLeft(line) == line;
    assert StripRight(line) == StripRight(line[..17]);
    assert StripRight(line[..17]) == line[..17];
  }

  lemma IronOreSplit()
    ensures Split("12\t3\tironore\tNONE", Tab) == ["12", "3", "ironore", "NONE"]
  {
    var fields := ["12", "3", "ironore", "NONE"];
    assert Join(fields, Tab) == "12\t3\tironore\tNONE";
    SplitJoin(fields, Tab);
  }

  lemma IronOreParaId()
    ensures ParseInt("12") == Some(12)
  {
    var s := IntToString(12);
    assert s == "12" by {
      assert NatToString(12) == NatToString(1) + [DigitChar(2)];
    }
    ParseIntToString(12);
  }

  lemma IronOreSentId()
    ensures ParseInt("3") == Some(3)
  {
    var s := IntToString(3);
    assert s == "3" by {
      assert NatToString(3) == [DigitChar(3)];
    }
    ParseIntToString(3);
  }

  lemma IronOreKey()
    ensures InstanceKey(12, "ironore") == "12-ironore"
  {
  }

  lemma IronOreRecord()
    ensures Join(["12", "3", "ironore", "MOVE", "water", "soil"], Tab) == "12\t3\tironore\tMOVE\twater\tsoil"
  {
  }

  /** The stored instance of paragraph 12 and entity `ironore`, whose third
      triple is `(MOVE, water, soil)`. */
  predicate IronOreStored(output: map<string, Instance>) {
    && "12-ironore" in output
    && var instance := output["12-ironore"];
    && instance.id == 12 && instance.entity == "ironore"
    && instance.totalSents >= 3 && |instance.prediction| >= 3
    && instance.prediction[2] == Triple(Move, "water", "soil")
  }

  lemma IronOreFill(output: map<string, Instance>)
    requires IronOreStored(output)
    ensures FillFields(["12", "3", "ironore", "NONE"], output) == Ok("12\t3\tironore\tMOVE\twater\tsoil")
  {
    var fields := ["12", "3", "ironore", "NONE"];
    var record := ["12", "3", "ironore", "MOVE", "water", "soil"];
    assert fields[..3] + [Move.Name(), "water", "soil"] == record;
    IronOreRecord();
    assert fields[0] == "12" && fields[1] == "3" && fields[2] == "ironore" && fields[3] == "NONE";
    IronOreParaId();
    IronOreSentId();
    IronOreKey();
    FillFieldsValue(fields, output, 12, 3, Triple(Move, "water", "soil"));
  }

  /** The template line `12 3 ironore NONE` with a stored third triple
      `(MOVE, water, soil)` becomes `12 3 ironore MOVE water soil`. */
  lemma IronOreExample(output: map<string, Instance>)
    requires IronOreStored(output)
    ensures FillLine("12\t3\tironore\tNONE\n", output) == Ok("12\t3\tironore\tMOVE\twater\tsoil")
  {
    IronOreStrip();
    IronOreSplit();
    IronOreFill(output);
  }
}
