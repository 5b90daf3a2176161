/**
  The evaluation driver: every document is tried at length factors 0.25, 0.5
  and 0.75, each with `'longer'` then `'shorter'`; each trial asks the
  generator for a text and scores it against the original. The generator is
  an arbitrary function of the prompt and the length budget. A division by
  zero in a similarity aborts the whole run, so nothing is produced. The
  TF-IDF and KL-divergence scores are not modelled, so neither are the
  errors they can raise: "aborts" below always means one of the two
  similarity divisions.
 */
module Evaluation {

  import opened Text
  import opened Prompting
  import Levenshtein
  import Jaccard
  import Euclidean

  datatype Result<+T, +E> = Success(value: T) | Failure(error: E)

  /** One row of the metadata table. */
  datatype Document = Document(fileName: string, text: string)

  /** One (document, factor, operation) combination. */
  datatype Trial = Trial(doc: Document, factor: real, operation: Operation)

  datatype Metric = LevenshteinMetric | JaccardMetric

  /** The `ZeroDivisionError` a similarity raises, and where. */
  datatype EvalError = ZeroDivision(trial: Trial, metric: Metric)

  /** One result row (the cosine and KL-divergence columns are not modelled;
      the Euclidean column is kept squared). */
  datatype Record = Record(
    fileName: string,
    originalLength: nat,
    lengthFactor: real,
    operation: Operation,
    model: string,
    generatedText: string,
    generatedLength: nat,
    levenshtein: real,
    jaccard: real,
    squaredEuclidean: nat)

  const LengthFactors: seq<real> := [0.25, 0.5, 0.75]
  const Operations: seq<Operation> := [Longer, Shorter]
  const ModelName: string := "gpt3"

  /** The text generator: prompt and `max_length` in, generated text out. */
  type Generator = (Prompt, int) -> string

  /** Position of operation `k` of factor `j` within one document's trials. */
  function Slot(j: nat, k: nat): nat {
    2 * j + k
  }

  /** Position of trial (document `d`, factor `j`, operation `k`) in the run. */
  function TrialIndex(d: nat, j: nat, k: nat): nat {
    6 * d + Slot(j, k)
  }

  /** The inner loops over `fs`, each factor with `'longer'` then `'shorter'`. */
  function FactorTrials(doc: Document, fs: seq<real>): (ts: seq<Trial>)
    ensures |ts| == 2 * |fs|
    ensures forall j, k :: 0 <= j < |fs| && 0 <= k < 2 ==>
      ts[Slot(j, k)] == Trial(doc, fs[j], Operations[k])
  {
    if fs == [] then []
    else
      var head, tail := [Trial(doc, fs[0], Longer), Trial(doc, fs[0], Shorter)], FactorTrials(doc, fs[1..]);
      assert forall j, k :: 1 <= j < |fs| && 0 <= k < 2 ==> (head + tail)[Slot(j, k)] == tail[Slot(j - 1, k)];
      head + tail
  }

  /** Every trial of the run, in the order the nested loops visit them:
      by document, then factor, then operation. */
  function Trials(docs: seq<Document>): (ts: seq<Trial>)
    ensures |ts| == 6 * |docs|
    ensures forall d, j, k :: 0 <= d < |docs| && 0 <= j < 3 && 0 <= k < 2 ==>
      ts[TrialIndex(d, j, k)] == Trial(docs[d], LengthFactors[j], Operations[k])
  {
    if docs == [] then []
    else
      var head, tail := FactorTrials(docs[0], LengthFactors), Trials(docs[1..]);
      TrialsCons(docs, head, tail);
      head + tail
  }

  /** The six trials of the first document followed by the trials of the
      others are indexed as the nested loops visit them. */
  lemma TrialsCons(docs: seq<Document>, head: seq<Trial>, tail: seq<Trial>)
    requires docs != []
    requires |head| == 6
    requires forall j, k :: 0 <= j < 3 && 0 <= k < 2 ==>
      head[Slot(j, k)] == Trial(docs[0], LengthFactors[j], Operations[k])
    requires |tail| == 6 * (|docs| - 1)
    requires forall d, j, k :: 0 <= d < |docs| - 1 && 0 <= j < 3 && 0 <= k < 2 ==>
      tail[TrialIndex(d, j, k)] == Trial(docs[1..][d], LengthFactors[j], Operations[k])
    ensures forall d, j, k :: 0 <= d < |docs| && 0 <= j < 3 && 0 <= k < 2 ==>
      (head + tail)[TrialIndex(d, j, k)] == Trial(docs[d], LengthFactors[j], Operations[k])
  {
    forall d, j, k | 0 <= d < |docs| && 0 <= j < 3 && 0 <= k < 2
      ensures (head + tail)[TrialIndex(d, j, k)] == Trial(docs[d], LengthFactors[j], Operations[k])
    {
      if d == 0 {
        assert TrialIndex(0, j, k) == Slot(j, k);
      } else {
        var m := TrialIndex(d - 1, j, k);
        assert TrialIndex(d, j, k) == 6 + m;
        assert tail[m] == Trial(docs[1..][d - 1], LengthFactors[j], Operations[k]);
        assert docs[1..][d - 1] == docs[d];
      }
    }
  }

  /** Every position of the run is the index of exactly one loop iteration. */
  lemma IndexDecomposition(n: nat)
    ensures n / 6 >= 0 && n % 6 / 2 < 3 && n % 2 < 2
    ensures TrialIndex(n / 6, n % 6 / 2, n % 2) == n
  {
  }

  predicate PositiveFactors(ts: seq<Trial>) {
    forall i :: 0 <= i < |ts| ==> ts[i].factor > 0.0
  }

  /** The text the generator returns for trial `t`. */
  function Generated(t: Trial, gen: Generator): string
    requires t.factor > 0.0
  {
    var n := WordCount(t.doc.text);
    gen(Prompt(t.doc.text, t.factor, t.operation), TargetLength(n, t.factor, t.operation))
  }

  /** One pass of the inner loop body: generate, score, build the row. The
      trial fails, at one of the two similarity divisions, exactly when both
      texts are blank. */
  function RunTrial(t: Trial, gen: Generator): (r: Result<Record, EvalError>)
    requires t.factor > 0.0
    ensures r.Failure? <==> AllSpace(t.doc.text) && AllSpace(Generated(t, gen))
    ensures r.Failure? ==> r.error.trial == t
    ensures r.Failure? ==>
      (r.error.metric == LevenshteinMetric <==> t.doc.text == [] && Generated(t, gen) == [])
    ensures r.Success? ==>
      var row, g := r.value, Generated(t, gen);
      && row.fileName == t.doc.fileName
      && row.originalLength == WordCount(t.doc.text)
      && row.lengthFactor == t.factor
      && row.operation == t.operation
      && row.model == ModelName
      && row.generatedText == g
      && row.generatedLength == WordCount(g)
      && 0.0 <= row.levenshtein <= 1.0
      && (row.levenshtein == 1.0 <==> g == t.doc.text)
      && 0.0 <= row.jaccard <= 1.0
      && (row.jaccard == 1.0 <==> Jaccard.TokenSet(g) == Jaccard.TokenSet(t.doc.text))
      && (row.squaredEuclidean == 0 <==> multiset(Split(t.doc.text)) == multiset(Split(g)))
  {
    var text := t.doc.text;
    var g := Generated(t, gen);
    if |text| == 0 && |g| == 0 then
      Failure(ZeroDivision(t, LevenshteinMetric))
    else if Jaccard.TokenSet(text) + Jaccard.TokenSet(g) == {} then
      Failure(ZeroDivision(t, JaccardMetric))
    else
      Success(Record(
        t.doc.fileName,
        WordCount(text),
        t.factor,
        t.operation,
        ModelName,
        g,
        WordCount(g),
        Levenshtein.Similarity(text, g),
        Jaccard.Similarity(text, g),
        Euclidean.SquaredDistance(Split(text), Split(g))))
  }

  /** The trial results combined as the loop combines them: the rows of all
      trials if every trial succeeded, otherwise the error of the first one
      that failed, which aborts the run. */
  function Collect<R, E>(rs: seq<Result<R, E>>): (r: Result<seq<R>, E>)
    ensures r.Success? <==> forall i :: 0 <= i < |rs| ==> rs[i].Success?
    ensures r.Success? ==>
      |r.value| == |rs| && forall i :: 0 <= i < |rs| ==> r.value[i] == rs[i].value
    ensures r.Failure? ==>
      exists i :: 0 <= i < |rs| && rs[i].Failure? && r.error == rs[i].error &&
        forall j :: 0 <= j < i ==> rs[j].Success?
  {
    if rs == [] then Success([])
    else
      match rs[0]
      case Failure(e) => Failure(e)
      case Success(row) =>
        match Collect(rs[1..])
        case Failure(e) => Failure(e)
        case Success(rows) => Success([row] + rows)
  }

  /** The result of every trial, in order. */
  function Outcomes(ts: seq<Trial>, gen: Generator): (rs: seq<Result<Record, EvalError>>)
    requires PositiveFactors(ts)
    ensures |rs| == |ts|
    ensures forall i :: 0 <= i < |ts| ==> rs[i] == RunTrial(ts[i], gen)
  {
    if ts == [] then [] else [RunTrial(ts[0], gen)] + Outcomes(ts[1..], gen)
  }

  lemma TrialsHavePositiveFactors(docs: seq<Document>)
    ensures PositiveFactors(Trials(docs))
  {
    var ts := Trials(docs);
    forall n | 0 <= n < |ts|
      ensures ts[n].factor > 0.0
    {
      IndexDecomposition(n);
      var d, j, k := n / 6, n % 6 / 2, n % 2;
      assert ts[TrialIndex(d, j, k)].factor == LengthFactors[j];
    }
  }

  /** The whole run: the result table, or the error that aborted it. A
      completed table has six rows per document, all naming the fixed model;
      an aborted run names one of its own trials as the culprit. */
  function Evaluate(docs: seq<Document>, gen: Generator): (r: Result<seq<Record>, EvalError>)
    ensures r.Success? ==>
      |r.value| == 6 * |docs| && forall n :: 0 <= n < |r.value| ==> r.value[n].model == ModelName
    ensures r.Failure? ==> r.error.trial in Trials(docs)
  {
    TrialsHavePositiveFactors(docs);
    var ts := Trials(docs);
    var rs := Outcomes(ts, gen);
    var r := Collect(rs);
    assert r.Failure? ==> r.error.trial in ts by {
      if r.Failure? {
        var i :| 0 <= i < |rs| && rs[i].Failure? && r.error == rs[i].error;
        assert r.error.trial == ts[i];
      }
    }
    r
  }

  /** A completed run has six rows per document; the row of document `d`,
      factor `j` and operation `k` sits at `TrialIndex(d, j, k)` and names the
      document, its word count, the factor, the operation and the fixed model
      name. */
  lemma EvaluateShape(docs: seq<Document>, gen: Generator)
    requires Evaluate(docs, gen).Success?
    ensures |Evaluate(docs, gen).value| == 6 * |docs|
    ensures forall d, j, k :: 0 <= d < |docs| && 0 <= j < 3 && 0 <= k < 2 ==>
      var row := Evaluate(docs, gen).value[TrialIndex(d, j, k)];
      && row.fileName == docs[d].fileName
      && row.originalLength == WordCount(docs[d].text)
      && row.model == ModelName
      && row.lengthFactor == LengthFactors[j]
      && row.operation == Operations[k]
  {
  }

  /** Neither the document nor the generated text of `t` holds a word, so
      both similarities divide by zero. */
  predicate BlankTrial(t: Trial, gen: Generator)
    requires t.factor > 0.0
  {
    AllSpace(t.doc.text) && AllSpace(Generated(t, gen))
  }

  /** A run aborts at a similarity division exactly when some trial has a
      blank document and a blank generation. */
  lemma EvaluateFailsIff(docs: seq<Document>, gen: Generator)
    ensures Evaluate(docs, gen).Failure? <==>
      exists d, j, k :: 0 <= d < |docs| && 0 <= j < 3 && 0 <= k < 2 &&
        BlankTrial(Trial(docs[d], LengthFactors[j], Operations[k]), gen)
  {
    if Evaluate(docs, gen).Failure? {
      EvaluateFailureIsBlank(docs, gen);
    } else {
      EvaluateSuccessIsNotBlank(docs, gen);
    }
  }

  lemma EvaluateFailureIsBlank(docs: seq<Document>, gen: Generator)
    requires Evaluate(docs, gen).Failure?
    ensures exists d, j, k ::
      0 <= d < |docs| && 0 <= j < 3 && 0 <= k < 2 &&
      BlankTrial(Trial(docs[d], LengthFactors[j], Operations[k]), gen)
  {
    var ts := Trials(docs);
    TrialsHavePositiveFactors(docs);
    var n :| 0 <= n < |ts| && RunTrial(ts[n], gen).Failure?;
    IndexDecomposition(n);
    var d, j, k := n / 6, n % 6 / 2, n % 2;
    assert ts[TrialIndex(d, j, k)] == Trial(docs[d], LengthFactors[j], Operations[k]);
    assert BlankTrial(ts[n], gen);
  }

  lemma EvaluateSuccessIsNotBlank(docs: seq<Document>, gen: Generator)
    requires Evaluate(docs, gen).Success?
    ensures forall d, j, k :: 0 <= d < |docs| && 0 <= j < 3 && 0 <= k < 2 ==>
      !BlankTrial(Trial(docs[d], LengthFactors[j], Operations[k]), gen)
  {
    var ts := Trials(docs);
    TrialsHavePositiveFactors(docs);
    forall d, j, k | 0 <= d < |docs| && 0 <= j < 3 && 0 <= k < 2
      ensures !BlankTrial(Trial(docs[d], LengthFactors[j], Operations[k]), gen)
    {
      var n := TrialIndex(d, j, k);
      assert RunTrial(ts[n], gen).Success?;
    }
  }

  /** Documents that each contain a word never make a similarity divide by
      zero, whatever the generator returns. */
  lemma EvaluateSucceedsOnNonBlankDocuments(docs: seq<Document>, gen: Generator)
    requires forall d :: 0 <= d < |docs| ==> WordCount(docs[d].text) > 0
    ensures Evaluate(docs, gen).Success?
  {
    EvaluateFailsIff(docs, gen);
    forall d | 0 <= d < |docs|
      ensures !AllSpace(docs[d].text)
    {
      SplitEmptyIff(docs[d].text);
    }
  }

  /** One document of 100 words yields exactly six rows, each reporting an
      original length of 100 and the model name, whatever the generator does
      (no similarity division can fail). */
  lemma HundredWordDocument(doc: Document, gen: Generator)
    requires WordCount(doc.text) == 100
    ensures Evaluate([doc], gen).Success?
    ensures |Evaluate([doc], gen).value| == 6
    ensures forall n :: 0 <= n < 6 ==>
      Evaluate([doc], gen).value[n].originalLength == 100 &&
      Evaluate([doc], gen).value[n].model == "gpt3"
  {
    EvaluateSucceedsOnNonBlankDocuments([doc], gen);
    EvaluateShape([doc], gen);
    forall n | 0 <= n < 6
      ensures Evaluate([doc], gen).value[n].originalLength == 100
      ensures Evaluate([doc], gen).value[n].model == "gpt3"
    {
      IndexDecomposition(n);
      assert TrialIndex(0, n % 6 / 2, n % 2) == n;
    }
  }

  /** `rows` are the values of the first `|rows|` results, all of which are
      successes. */
  ghost predicate Completed<R, E>(rows: seq<R>, rs: seq<Result<R, E>>) {
    |rows| <= |rs| && forall n :: 0 <= n < |rows| ==> rs[n] == Success(rows[n])
  }

  lemma CompletedExtend<R, E>(rows: seq<R>, rs: seq<Result<R, E>>, row: R)
    requires Completed(rows, rs)
    requires |rows| < |rs|
    requires rs[|rows|] == Success(row)
    ensures Completed(rows + [row], rs)
  {
    var rows' := rows + [row];
    forall n | 0 <= n < |rows'|
      ensures rs[n] == Success(rows'[n])
    {
      if n < |rows| {
        assert rows'[n] == rows[n];
      }
    }
  }

  lemma CompletedAll<R, E>(rows: seq<R>, rs: seq<Result<R, E>>)
    requires Completed(rows, rs)
    requires |rows| == |rs|
    ensures Collect(rs) == Success(rows)
  {
    assert forall i :: 0 <= i < |rs| ==> rs[i] == Success(rows[i]);
    assert Collect(rs).value == rows;
  }

  /** A failing result preceded only by successful ones decides the
      combined error. */
  lemma {:induction false} FirstFailure<R, E>(rows: seq<R>, rs: seq<Result<R, E>>)
    requires Completed(rows, rs)
    requires |rows| < |rs|
    requires rs[|rows|].Failure?
    ensures Collect(rs) == Failure(rs[|rows|].error)
    decreases |rows|
  {
    if rows != [] {
      assert rs[1..][|rows| - 1] == rs[|rows|];
      assert Completed(rows[1..], rs[1..]) by {
        forall n | 0 <= n < |rows| - 1
          ensures rs[1..][n] == Success(rows[1..][n])
        {
          assert rs[n + 1] == Success(rows[n + 1]);
        }
      }
      FirstFailure(rows[1..], rs[1..]);
    }
  }

  /** The main loop as written: three nested loops appending one row per
      trial, stopping at the first division by zero. */
  method EvaluationLoop(docs: seq<Document>, gen: Generator) returns (res: Result<seq<Record>, EvalError>)
    ensures res == Evaluate(docs, gen)
  {
    ghost var ts := Trials(docs);
    TrialsHavePositiveFactors(docs);
    ghost var rs := Outcomes(ts, gen);
    var rows: seq<Record> := [];
    var d := 0;
    while d < |docs|
      invariant 0 <= d <= |docs|
      invariant |rows| == 6 * d
      invariant Completed(rows, rs)
    {
      var j := 0;
      while j < |LengthFactors|
        invariant 0 <= j <= |LengthFactors|
        invariant |rows| == 6 * d + 2 * j
        invariant Completed(rows, rs)
      {
        var k := 0;
        while k < |Operations|
          invariant 0 <= k <= |Operations|
          invariant |rows| == TrialIndex(d, j, k)
          invariant Completed(rows, rs)
        {
          var t := Trial(docs[d], LengthFactors[j], Operations[k]);
          assert t == ts[|rows|];
          var r := RunTrial(t, gen);
          assert r == rs[|rows|];
          if r.Failure? {
            FirstFailure(rows, rs);
            return Failure(r.error);
          }
          CompletedExtend(rows, rs, r.value);
          rows := rows + [r.value];
          k := k + 1;
        }
        j := j + 1;
      }
      d := d + 1;
    }
    CompletedAll(rows, rs);
    res := Success(rows);
  }
}
