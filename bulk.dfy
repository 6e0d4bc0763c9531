/**
 * The bulk orchestrator `iniciarProcessamentoEmMassa`: for each batch it
 * writes a temporary PDF, runs the batch through the model, appends the
 * records to the master list and deletes the file; at the end it writes the
 * master list to the output file. The filesystem is modelled by the ordered
 * list of writes and deletes the run performs.
 */
module BulkProcessing {
  import opened Options
  import opened JsText
  import opened Batching
  import opened Extraction

  /** The file the master list is written to. */
  const OutputFile: string := "catalogo_completo_1000.json"

  /** `temp_lote_<batch>.pdf`, the temporary PDF of a batch (batches count from 1). */
  function TempFileName(batch: nat): (r: string)
    ensures r != OutputFile
  {
    var r := "temp_lote_" + Decimal(batch) + ".pdf";
    assert r[0] != OutputFile[0];
    r
  }

  /** Two batches never share a temporary file. */
  lemma TempFileNamesDistinct(a: nat, b: nat)
    requires a != b
    ensures TempFileName(a) != TempFileName(b)
  {
    if TempFileName(a) == TempFileName(b) {
      var da, db := Decimal(a), Decimal(b);
      var ta, tb := TempFileName(a), TempFileName(b);
      assert |da| == |db|;
      assert ta[10..10 + |da|] == da;
      assert tb[10..10 + |db|] == db;
      DecimalInjective(a, b);
    }
  }

  /** What a run does to the disk, in order. */
  datatype Effect<R> =
    | WriteTemp(batch: nat, pages: seq<nat>)     // `fs.writeFileSync` of `TempFileName(batch)`, a PDF of these pages
    | DeleteTemp(batch: nat)                     // `fs.unlinkSync` of `TempFileName(batch)`
    | WriteOutput(products: seq<R>)              // the final master list, as JSON

  /** How a run ends. */
  datatype Ending<R> =
    | MissingPdf                                 // `catalogo.pdf` does not exist: nothing is done
    | Finished(products: seq<R>)                 // every batch returned; the master list was written
    | UploadCrashed(batch: nat, unsaved: seq<R>) // the upload of this batch threw; the list so far is lost

  datatype Run<R> = Run(effects: seq<Effect<R>>, ending: Ending<R>)

  /**
   * What `processarLote(temp file, batch number)` yields, given the batch
   * number and the pages the temporary file holds. The source's step is
   * `(b, pages) => ProcessBatch(ai(b, pages), parse)`; see `SourceStep`.
   */
  type BatchStep<R> = (nat, seq<nat>) -> BatchResult<R>

  /** `processarLote` as the source defines it, for a model that answers `ai(batch number, pages)`. */
  function SourceStep<R>(ai: (nat, seq<nat>) -> Exchange, parse: string -> Option<seq<R>>): BatchStep<R>
  {
    (b: nat, pages: seq<nat>) => ProcessBatch(ai(b, pages), parse)
  }

  /** The results of the first `n` batches. */
  function ResultsPrefix<R>(bs: seq<seq<nat>>, n: nat, process: BatchStep<R>): (rs: seq<BatchResult<R>>)
    requires n <= |bs|
    ensures |rs| == n
  {
    if n == 0 then [] else ResultsPrefix(bs, n - 1, process) + [process(n, bs[n - 1])]
  }

  /** The results of all batches. */
  function Results<R>(bs: seq<seq<nat>>, process: BatchStep<R>): seq<BatchResult<R>>
  {
    ResultsPrefix(bs, |bs|, process)
  }

  lemma {:induction false} ResultsPrefixAt<R>(bs: seq<seq<nat>>, n: nat, k: nat, process: BatchStep<R>)
    requires k < n <= |bs|
    ensures ResultsPrefix(bs, n, process)[k] == process(k + 1, bs[k])
    ensures ResultsPrefix(bs, n, process)[..k] == ResultsPrefix(bs, k, process)
    decreases n
  {
    if k < n - 1 {
      ResultsPrefixAt(bs, n - 1, k, process);
      var prev := ResultsPrefix(bs, n - 1, process);
      assert ResultsPrefix(bs, n, process)[..k] == prev[..k];
    }
  }

  /** Batch `k` (counting from 0) gets what the step yields for batch number `k + 1` and its pages. */
  lemma ResultAt<R>(bs: seq<seq<nat>>, k: nat, process: BatchStep<R>)
    requires k < |bs|
    ensures Results(bs, process)[k] == process(k + 1, bs[k])
    ensures Results(bs, process)[..k] == ResultsPrefix(bs, k, process)
  {
    ResultsPrefixAt(bs, |bs|, k, process);
  }

  predicate AllReturned<R>(rs: seq<BatchResult<R>>)
  {
    forall k :: 0 <= k < |rs| ==> rs[k].Returned?
  }

  /** The index of the first batch from `k` on whose upload failed, or `|rs|` when none did. */
  function FirstEscapeFrom<R>(rs: seq<BatchResult<R>>, k: nat): (n: nat)
    requires k <= |rs|
    ensures k <= n <= |rs|
    ensures forall j :: k <= j < n ==> rs[j].Returned?
    ensures n < |rs| ==> rs[n].Escaped?
    decreases |rs| - k
  {
    if k == |rs| || rs[k].Escaped? then k else FirstEscapeFrom(rs, k + 1)
  }

  /** The index of the first batch whose upload failed, or `|rs|` when none did. */
  function FirstEscape<R>(rs: seq<BatchResult<R>>): nat
  {
    FirstEscapeFrom(rs, 0)
  }

  /** The records a batch adds to the master list. */
  function Contribution<R>(r: BatchResult<R>): seq<R>
  {
    if r.Returned? then r.records else []
  }

  /** The master list after the given batches: their records, batch after batch. */
  function Collected<R>(rs: seq<BatchResult<R>>): seq<R>
  {
    if |rs| == 0 then [] else Collected(rs[..|rs| - 1]) + Contribution(rs[|rs| - 1])
  }

  /** The number of records the given batches returned. */
  function TotalRecords<R>(rs: seq<BatchResult<R>>): nat
  {
    if rs == [] then 0 else |Contribution(rs[0])| + TotalRecords(rs[1..])
  }

  /** The writes and deletes of the first `n` completed iterations. */
  function Lifecycle<R>(bs: seq<seq<nat>>, n: nat): (r: seq<Effect<R>>)
    requires n <= |bs|
    ensures |r| == 2 * n
  {
    if n == 0 then []
    else Lifecycle(bs, n - 1) + [WriteTemp(n, bs[n - 1]), DeleteTemp(n)]
  }

  /**
   * The reference run: batches are processed in order until the first upload
   * failure; a completed run ends by writing the concatenated records.
   */
  function BulkRun<R>(pdf: Option<nat>, process: BatchStep<R>): Run<R>
  {
    match pdf
    case None => Run([], MissingPdf)
    case Some(total) =>
      var bs := Batches(total);
      var rs := Results(bs, process);
      var n := FirstEscape(rs);
      if n < |rs| then
        Run(Lifecycle(bs, n) + [WriteTemp(n + 1, bs[n])], UploadCrashed(n + 1, Collected(rs[..n])))
      else
        Run(Lifecycle(bs, n) + [WriteOutput(Collected(rs))], Finished(Collected(rs)))
  }

  lemma CollectedStep<R>(rs: seq<BatchResult<R>>, r: BatchResult<R>)
    ensures Collected(rs + [r]) == Collected(rs) + Contribution(r)
  {
    assert (rs + [r])[..|rs|] == rs;
  }

  /**
   * The state of `iniciarProcessamentoEmMassa` after `n` iterations in which
   * every upload went through: the master list and the disk effects so far.
   */
  ghost predicate Reached<R>(bs: seq<seq<nat>>, process: BatchStep<R>, n: nat, master: seq<R>, effects: seq<Effect<R>>)
  {
    && n <= |bs|
    && AllReturned(ResultsPrefix(bs, n, process))
    && master == Collected(ResultsPrefix(bs, n, process))
    && effects == Lifecycle(bs, n)
  }

  /** The reference run, when the batch at index `n` (`loteAtual` `n + 1`) is the first whose upload fails. */
  lemma BulkRunCrashesAt<R>(total: nat, process: BatchStep<R>, n: nat, master: seq<R>, effects: seq<Effect<R>>)
    requires Reached(Batches(total), process, n, master, effects) && n < |Batches(total)|
    requires process(n + 1, Batches(total)[n]).Escaped?
    ensures BulkRun(Some(total), process) ==
      Run(effects + [WriteTemp(n + 1, Batches(total)[n])], UploadCrashed(n + 1, master))
  {
    var bs := Batches(total);
    var rs := Results(bs, process);
    ResultAt(bs, n, process);
    assert rs[n].Escaped?;
    forall k | 0 <= k < n ensures rs[k].Returned? {
      assert rs[k] == rs[..n][k];
    }
    assert FirstEscape(rs) == n;
  }

  /** The reference run, when all `n` batches were processed and every upload succeeded. */
  lemma BulkRunFinishes<R>(total: nat, process: BatchStep<R>, n: nat, master: seq<R>, effects: seq<Effect<R>>)
    requires Reached(Batches(total), process, n, master, effects) && n == |Batches(total)|
    ensures BulkRun(Some(total), process) == Run(effects + [WriteOutput(master)], Finished(master))
  {
    var rs := Results(Batches(total), process);
    assert FirstEscape(rs) == |rs|;
  }

  /** One more iteration whose upload goes through keeps `Reached`. */
  lemma Advance<R>(bs: seq<seq<nat>>, process: BatchStep<R>, n: nat, master: seq<R>, effects: seq<Effect<R>>,
                   master': seq<R>, effects': seq<Effect<R>>)
    requires Reached(bs, process, n, master, effects) && n < |bs|
    requires process(n + 1, bs[n]).Returned?
    requires master' == master + process(n + 1, bs[n]).records
    requires effects' == effects + [WriteTemp(n + 1, bs[n])] + [DeleteTemp(n + 1)]
    ensures Reached(bs, process, n + 1, master', effects')
  {
    var rs := ResultsPrefix(bs, n, process);
    var r := process(n + 1, bs[n]);
    assert ResultsPrefix(bs, n + 1, process) == rs + [r];
    CollectedStep(rs, r);
    assert Lifecycle<R>(bs, n + 1) == effects';
  }

  /**
   * `iniciarProcessamentoEmMassa`. `pdf` is the page count of `catalogo.pdf`,
   * or `None` when the file does not exist; `process` is `processarLote`.
   */
  method ProcessInBulk<R>(pdf: Option<nat>, process: BatchStep<R>) returns (run: Run<R>)
    ensures run == BulkRun(pdf, process)
  {
    if pdf.None? {
      return Run([], MissingPdf);
    }
    var total := pdf.value;
    assert pdf == Some(total);
    ghost var bs := Batches(total);
    var master: seq<R> := [];
    var effects: seq<Effect<R>> := [];
    var batch: nat := 1;
    var i: nat := 0;
    while i < total
      invariant 1 <= batch && i == (batch - 1) * PagesPerBatch
      invariant Reached(bs, process, batch - 1, master, effects)
      decreases total - i
    {
      BatchStartsAt(total, batch - 1, i);
      var pages := PagesToCopy(i, total);
      ghost var done, before := effects, master;
      effects := effects + [WriteTemp(batch, pages)];
      var result := process(batch, pages);
      if result.Escaped? {
        BulkRunCrashesAt(total, process, batch - 1, master, done);
        return Run(effects, UploadCrashed(batch, master));
      }
      if |result.records| > 0 {
        master := master + result.records;
      } else {
        assert master == before + result.records;
      }
      effects := effects + [DeleteTemp(batch)];
      Advance(bs, process, batch - 1, before, done, master, effects);
      batch := batch + 1;
      i := i + PagesPerBatch;
    }
    BatchStartsAt(total, batch - 1, i);
    BulkRunFinishes(total, process, batch - 1, master, effects);
    effects := effects + [WriteOutput(master)];
    run := Run(effects, Finished(master));
  }

  /** Splitting the batches anywhere splits the master list there. */
  lemma {:induction false} CollectedConcat<R>(a: seq<BatchResult<R>>, b: seq<BatchResult<R>>)
    ensures Collected(a + b) == Collected(a) + Collected(b)
    decreases |b|
  {
    if b == [] {
      assert a + b == a;
    } else {
      var b' := b[..|b| - 1];
      assert (a + b)[..|a + b| - 1] == a + b';
      CollectedConcat(a, b');
    }
  }

  /** The master list holds as many records as the batches returned in total. */
  lemma {:induction false} CollectedLength<R>(rs: seq<BatchResult<R>>)
    ensures |Collected(rs)| == TotalRecords(rs)
    decreases |rs|
  {
    if rs != [] {
      assert rs == [rs[0]] + rs[1..];
      CollectedConcat([rs[0]], rs[1..]);
      assert Collected([rs[0]]) == Contribution(rs[0]);
      CollectedLength(rs[1..]);
    }
  }

  lemma SplitAt<T>(s: seq<T>, k: nat)
    requires k < |s|
    ensures s == s[..k] + ([s[k]] + s[k + 1..])
  {
  }

  lemma CollectedSingle<R>(r: BatchResult<R>)
    ensures Collected([r]) == Contribution(r)
  {
    assert [r][..0] == [];
  }

  /** A batch that returns the empty list leaves the master list as if it had not run. */
  lemma EmptyBatchChangesNothing<R>(rs: seq<BatchResult<R>>, k: nat)
    requires k < |rs| && Contribution(rs[k]) == []
    ensures Collected(rs) == Collected(rs[..k] + rs[k + 1..])
  {
    SplitAt(rs, k);
    CollectedConcat(rs[..k], [rs[k]] + rs[k + 1..]);
    CollectedConcat([rs[k]], rs[k + 1..]);
    CollectedSingle(rs[k]);
    CollectedConcat(rs[..k], rs[k + 1..]);
  }

  /**
   * The records of batch `k` sit in the master list right after those of the
   * batches before it.
   */
  lemma BatchRecordsInOrder<R>(rs: seq<BatchResult<R>>, k: nat)
    requires k < |rs|
    ensures TotalRecords(rs[..k]) + |Contribution(rs[k])| <= |Collected(rs)|
    ensures Collected(rs)[TotalRecords(rs[..k])..TotalRecords(rs[..k]) + |Contribution(rs[k])|] == Contribution(rs[k])
  {
    SplitAt(rs, k);
    CollectedConcat(rs[..k], [rs[k]] + rs[k + 1..]);
    CollectedConcat([rs[k]], rs[k + 1..]);
    CollectedSingle(rs[k]);
    CollectedLength(rs[..k]);
    MiddleSlice(Collected(rs[..k]), Contribution(rs[k]), Collected(rs[k + 1..]));
  }

  lemma MiddleSlice<T>(x: seq<T>, y: seq<T>, z: seq<T>)
    ensures (x + (y + z))[|x|..|x| + |y|] == y
  {
  }

  /** Iteration `k` writes `temp_lote_k.pdf` with batch `k`'s pages and deletes it before iteration `k + 1`. */
  lemma {:induction false} LifecycleSteps<R>(bs: seq<seq<nat>>, n: nat, k: nat)
    requires k < n <= |bs|
    ensures |Lifecycle<R>(bs, n)| == 2 * n
    ensures Lifecycle<R>(bs, n)[2 * k] == WriteTemp(k + 1, bs[k])
    ensures Lifecycle<R>(bs, n)[2 * k + 1] == DeleteTemp(k + 1)
    decreases n
  {
    if k < n - 1 {
      LifecycleSteps<R>(bs, n - 1, k);
    } else if n > 1 {
      LifecycleSteps<R>(bs, n - 1, 0);
    }
  }

  /** The set of files on disk after the effects, starting from `disk`. */
  function ApplyEffects<R>(disk: set<string>, es: seq<Effect<R>>): set<string>
  {
    if es == [] then disk
    else
      var before := ApplyEffects(disk, es[..|es| - 1]);
      match es[|es| - 1]
      case WriteTemp(b, _) => before + {TempFileName(b)}
      case DeleteTemp(b) => before - {TempFileName(b)}
      case WriteOutput(_) => before + {OutputFile}
  }

  /** The temporary files of batches `1 .. n`. */
  function TempFiles(n: nat): set<string>
  {
    if n == 0 then {} else TempFiles(n - 1) + {TempFileName(n)}
  }

  lemma {:induction false} TempFilesHold(n: nat, k: nat)
    requires 1 <= k <= n
    ensures TempFileName(k) in TempFiles(n)
  {
    if k < n {
      TempFilesHold(n - 1, k);
    }
  }

  /** After `n` completed iterations, none of their temporary files is left. */
  lemma {:induction false} LifecycleRemovesTemps<R>(disk: set<string>, bs: seq<seq<nat>>, n: nat)
    requires n <= |bs|
    ensures ApplyEffects(disk, Lifecycle<R>(bs, n)) == disk - TempFiles(n)
  {
    if n > 0 {
      var prev := Lifecycle<R>(bs, n - 1);
      var w, d := WriteTemp(n, bs[n - 1]), DeleteTemp(n);
      assert Lifecycle<R>(bs, n) == prev + [w, d];
      assert (prev + [w, d])[..|prev| + 1] == prev + [w];
      assert (prev + [w])[..|prev|] == prev;
      LifecycleRemovesTemps<R>(disk, bs, n - 1);
    }
  }

  /** Every effect of completed iterations is a temporary write or delete. */
  lemma LifecycleWritesNoOutput<R>(bs: seq<seq<nat>>, n: nat, j: nat)
    requires n <= |bs| && j < |Lifecycle<R>(bs, n)|
    ensures !Lifecycle<R>(bs, n)[j].WriteOutput?
  {
    LifecycleSteps<R>(bs, n, j / 2);
  }

  /** An empty document has no batches: the run only writes an empty master list. */
  lemma EmptyDocument<R>(process: BatchStep<R>)
    ensures BulkRun(Some(0), process) == Run([WriteOutput([])], Finished([]))
  {
    BatchCount(0);
  }

  /** A run finishes exactly when no batch's upload fails. */
  lemma FinishedRun<R>(total: nat, process: BatchStep<R>)
    ensures BulkRun(Some(total), process).ending.Finished? <==>
      forall k :: 0 <= k < |Batches(total)| ==> process(k + 1, Batches(total)[k]).Returned?
  {
    var bs := Batches(total);
    var rs := Results(bs, process);
    forall k | 0 <= k < |bs| ensures rs[k] == process(k + 1, bs[k]) {
      ResultAt(bs, k, process);
    }
  }

  /** A finished run's master list is every batch's records, in batch order. */
  lemma FinishedProducts<R>(total: nat, process: BatchStep<R>)
    requires BulkRun(Some(total), process).ending.Finished?
    ensures var products := BulkRun(Some(total), process).ending.products;
      && products == Collected(Results(Batches(total), process))
      && |products| == TotalRecords(Results(Batches(total), process))
  {
    CollectedLength(Results(Batches(total), process));
  }

  /** A finished run leaves every temporary file it wrote deleted and the output file present. */
  lemma FinishedDisk<R>(total: nat, process: BatchStep<R>, disk: set<string>)
    requires BulkRun(Some(total), process).ending.Finished?
    ensures var after := ApplyEffects(disk, BulkRun(Some(total), process).effects);
      && after == (disk - TempFiles(|Batches(total)|)) + {OutputFile}
      && forall k :: 1 <= k <= |Batches(total)| ==> TempFileName(k) !in after
  {
    var bs := Batches(total);
    var n := |bs|;
    LifecycleRemovesTemps<R>(disk, bs, n);
    ApplyOutput(disk, Lifecycle<R>(bs, n), Collected(Results(bs, process)));
    TempFilesGone(disk, n);
  }

  lemma ApplyOutput<R>(disk: set<string>, es: seq<Effect<R>>, products: seq<R>)
    ensures ApplyEffects(disk, es + [WriteOutput(products)]) == ApplyEffects(disk, es) + {OutputFile}
  {
    assert (es + [WriteOutput(products)])[..|es|] == es;
  }

  lemma TempFilesGone(disk: set<string>, n: nat)
    ensures forall k :: 1 <= k <= n ==> TempFileName(k) !in (disk - TempFiles(n)) + {OutputFile}
  {
    forall k | 1 <= k <= n ensures TempFileName(k) !in (disk - TempFiles(n)) + {OutputFile} {
      TempFilesHold(n, k);
    }
  }

  /**
   * A run crashes at batch `b` exactly when `b` is the first batch whose
   * upload fails; its temporary file is then left on disk and the output file
   * is never written.
   */
  lemma CrashedRun<R>(total: nat, process: BatchStep<R>, disk: set<string>)
    ensures var run := BulkRun(Some(total), process);
      run.ending.UploadCrashed? ==>
        && 1 <= run.ending.batch <= |Batches(total)|
        && process(run.ending.batch, Batches(total)[run.ending.batch - 1]).Escaped?
        && (forall k :: 0 <= k < run.ending.batch - 1 ==> process(k + 1, Batches(total)[k]).Returned?)
        && TempFileName(run.ending.batch) in ApplyEffects(disk, run.effects)
        && forall j :: 0 <= j < |run.effects| ==> !run.effects[j].WriteOutput?
  {
    var bs := Batches(total);
    var rs := Results(bs, process);
    var run := BulkRun(Some(total), process);
    if run.ending.UploadCrashed? {
      var n := FirstEscape(rs);
      forall k | 0 <= k <= n ensures rs[k] == process(k + 1, bs[k]) {
        ResultAt(bs, k, process);
      }
      var life := Lifecycle<R>(bs, n);
      assert (life + [WriteTemp(n + 1, bs[n])])[..|life|] == life;
      forall j | 0 <= j < |run.effects| ensures !run.effects[j].WriteOutput? {
        if j < |life| {
          LifecycleWritesNoOutput<R>(bs, n, j);
        }
      }
    }
  }

  /**
   * With the source's `processarLote`, a batch escapes exactly when its upload
   * fails, and a batch whose cleaned reply lacks a bracket, or whose model call
   * or parse fails, adds nothing to the master list.
   */
  lemma SourceStepOutcomes<R>(ai: (nat, seq<nat>) -> Exchange, parse: string -> Option<seq<R>>, b: nat, pages: seq<nat>)
    ensures SourceStep(ai, parse)(b, pages).Escaped? <==> ai(b, pages).UploadFailed?
    ensures ai(b, pages).InvokeFailed? ==> Contribution(SourceStep(ai, parse)(b, pages)) == []
    ensures ai(b, pages).Replied? && ArrayText(ai(b, pages).content).None? ==>
      Contribution(SourceStep(ai, parse)(b, pages)) == []
    ensures ai(b, pages).Replied? && ArrayText(ai(b, pages).content).Some? ==>
      Contribution(SourceStep(ai, parse)(b, pages)) ==
        (match parse(ArrayText(ai(b, pages).content).value) case Some(records) => records case None => [])
  {
  }
}
