/**
 The translator's batch loop: for each selected document, download it and
 extract its markdown, then for each selected language translate, render and
 upload it. The external calls are replaced by their recorded outcomes; what
 remains is the bookkeeping of `current_task`, `successful_conversions`,
 `failed_conversions`, the list of converted files, and the values the
 progress bar is given.
 */
module Batch {
  import opened Text
  import OutputKeys

  /** How far one (document, language) task got once the document's markdown was
      extracted: translate, render and upload are tried in turn and the first
      failure ends the task. */
  datatype LanguageStage = TranslateFailed | RenderFailed | UploadFailed | Uploaded

  /** A selected document: its key, whether its download and its markdown
      extraction succeeded, and, per selected language in order, how far that
      language's task got. */
  datatype Document = Document(name: string, downloaded: bool, extracted: bool, stages: seq<LanguageStage>)

  /** An entry of `converted_files`. */
  datatype ConvertedFile = ConvertedFile(originalName: string, pdfKey: string, outputBucket: string, language: string)

  /** The loop's state: the task counter, the two per-document tallies, the
      converted files in completion order, and every value the loop has handed
      to the progress bar so far (as task counts rather than fractions; the
      bar's initial 0, set before the loop, is not part of the trace). */
  datatype Tally = Tally(currentTask: nat, successful: nat, failed: nat,
                         converted: seq<ConvertedFile>, progress: seq<nat>)

  const Start: Tally := Tally(0, 0, 0, [], [])

  /** Every document records one outcome per selected language. */
  predicate WellFormed(docs: seq<Document>, langs: seq<string>) {
    forall i :: 0 <= i < |docs| ==> |docs[i].stages| == |langs|
  }

  function TotalTasks(docs: seq<Document>, langs: seq<string>): nat {
    |docs| * |langs|
  }

  /** The file recorded when `doc` reaches `lang` in `bucket`. */
  function Converted(doc: Document, lang: string, bucket: string): ConvertedFile {
    ConvertedFile(doc.name, OutputKeys.PdfKey(doc.name, lang), bucket, lang)
  }

  /** One pass of the inner loop body: every branch advances the counter by one
      and reports it; only a completed upload records a file. */
  function LanguageStep(t: Tally, doc: Document, lang: string, stage: LanguageStage, bucket: string): (r: Tally)
    ensures r.currentTask == t.currentTask + 1
    ensures r.progress == t.progress + [r.currentTask]
    ensures r.successful == t.successful && r.failed == t.failed
    ensures stage == Uploaded ==> r.converted == t.converted + [Converted(doc, lang, bucket)]
    ensures stage != Uploaded ==> r.converted == t.converted
  {
    var next := t.currentTask + 1;
    var t' := t.(currentTask := next, progress := t.progress + [next]);
    if stage == Uploaded then t'.(converted := t.converted + [Converted(doc, lang, bucket)]) else t'
  }

  /** The inner loop over the languages from position `j` on. */
  function Languages(t: Tally, doc: Document, langs: seq<string>, j: nat, bucket: string): Tally
    requires |doc.stages| == |langs| && j <= |langs|
    decreases |langs| - j
  {
    if j == |langs| then t
    else Languages(LanguageStep(t, doc, langs[j], doc.stages[j], bucket), doc, langs, j + 1, bucket)
  }

  /** One pass of the outer loop body. */
  function DocumentStep(t: Tally, doc: Document, langs: seq<string>, bucket: string): Tally
    requires |doc.stages| == |langs|
  {
    if !doc.downloaded || !doc.extracted then
      var next := t.currentTask + |langs|;
      t.(failed := t.failed + 1, currentTask := next, progress := t.progress + [next])
    else
      var u := Languages(t, doc, langs, 0, bucket);
      u.(successful := u.successful + 1)
  }

  /** The outer loop over the documents, as a fold. */
  function Documents(t: Tally, docs: seq<Document>, langs: seq<string>, bucket: string): Tally
    requires WellFormed(docs, langs)
    decreases |docs|
  {
    if docs == [] then t
    else Documents(DocumentStep(t, docs[0], langs, bucket), docs[1..], langs, bucket)
  }

  /** The whole batch, from a fresh tally. */
  function RunBatch(docs: seq<Document>, langs: seq<string>, bucket: string): Tally
    requires WellFormed(docs, langs)
  {
    Documents(Start, docs, langs, bucket)
  }

  // Reference definitions, stated without counters.

  /** The document got through download and extraction. */
  predicate Extracted(doc: Document) {
    doc.downloaded && doc.extracted
  }

  function CountExtracted(docs: seq<Document>): nat {
    if docs == [] then 0 else (if Extracted(docs[0]) then 1 else 0) + CountExtracted(docs[1..])
  }

  /** The files of the languages from position `j` on whose upload completed, in
      language order. */
  function LanguageFiles(doc: Document, langs: seq<string>, j: nat, bucket: string): seq<ConvertedFile>
    requires |doc.stages| == |langs| && j <= |langs|
    decreases |langs| - j
  {
    if j == |langs| then []
    else
      var here := if doc.stages[j] == Uploaded then [Converted(doc, langs[j], bucket)] else [];
      here + LanguageFiles(doc, langs, j + 1, bucket)
  }

  function DocumentFiles(doc: Document, langs: seq<string>, bucket: string): seq<ConvertedFile>
    requires |doc.stages| == |langs|
  {
    if Extracted(doc) then LanguageFiles(doc, langs, 0, bucket) else []
  }

  /** The files the batch should record: document by document, language by language. */
  function ExpectedFiles(docs: seq<Document>, langs: seq<string>, bucket: string): seq<ConvertedFile>
    requires WellFormed(docs, langs)
  {
    if docs == [] then [] else DocumentFiles(docs[0], langs, bucket) + ExpectedFiles(docs[1..], langs, bucket)
  }

  /** The `n` counter values after `from`: from + 1, ..., from + n. */
  function Steps(from: nat, n: nat): seq<nat> {
    seq(n, i requires 0 <= i < n => from + i + 1)
  }

  /** Each language advances the counter by exactly one and reports it, whatever
      stage it reached; the tallies stay put and only completed uploads are recorded. */
  lemma {:induction false} LanguagesSpec(t: Tally, doc: Document, langs: seq<string>, j: nat, bucket: string)
    requires |doc.stages| == |langs| && j <= |langs|
    ensures var r := Languages(t, doc, langs, j, bucket);
      && r.currentTask == t.currentTask + (|langs| - j)
      && r.progress == t.progress + Steps(t.currentTask, |langs| - j)
      && r.successful == t.successful && r.failed == t.failed
      && r.converted == t.converted + LanguageFiles(doc, langs, j, bucket)
    decreases |langs| - j
  {
    if j < |langs| {
      var u := LanguageStep(t, doc, langs[j], doc.stages[j], bucket);
      LanguagesSpec(u, doc, langs, j + 1, bucket);
      var n := |langs| - j - 1;
      StepsCons(t.currentTask, n);
      AppendAssociative(t.progress, [t.currentTask + 1], Steps(t.currentTask + 1, n));
      var here := if doc.stages[j] == Uploaded then [Converted(doc, langs[j], bucket)] else [];
      assert u.converted == t.converted + here;
      AppendAssociative(t.converted, here, LanguageFiles(doc, langs, j + 1, bucket));
    } else {
      assert Steps(t.currentTask, 0) == [];
    }
  }

  lemma StepsCons(from: nat, n: nat)
    ensures [from + 1] + Steps(from + 1, n) == Steps(from, n + 1)
  {
  }

  /** A document whose download or extraction fails counts as one failure,
      advances the counter by the number of languages in a single report and
      records nothing; an extracted document counts as one success even if every
      language then fails, and reports each language's task by itself. */
  lemma DocumentStepSpec(t: Tally, doc: Document, langs: seq<string>, bucket: string)
    requires |doc.stages| == |langs|
    ensures var r := DocumentStep(t, doc, langs, bucket);
      && r.currentTask == t.currentTask + |langs|
      && r.converted == t.converted + DocumentFiles(doc, langs, bucket)
      && (!Extracted(doc) ==>
            r.failed == t.failed + 1 && r.successful == t.successful
            && r.converted == t.converted && r.progress == t.progress + [r.currentTask])
      && (Extracted(doc) ==>
            r.successful == t.successful + 1 && r.failed == t.failed
            && r.progress == t.progress + Steps(t.currentTask, |langs|))
  {
    LanguagesSpec(t, doc, langs, 0, bucket);
  }

  lemma MulSucc(n: nat, m: nat)
    ensures (n + 1) * m == m + n * m
  {
  }

  /** The counter advances by documents times languages over the fold. */
  lemma {:induction false} DocumentsCounter(t: Tally, docs: seq<Document>, langs: seq<string>, bucket: string)
    requires WellFormed(docs, langs)
    ensures Documents(t, docs, langs, bucket).currentTask == t.currentTask + |docs| * |langs|
    decreases |docs|
  {
    if docs != [] {
      var u := DocumentStep(t, docs[0], langs, bucket);
      DocumentStepSpec(t, docs[0], langs, bucket);
      DocumentsCounter(u, docs[1..], langs, bucket);
      MulSucc(|docs| - 1, |langs|);
    }
  }

  /** Every document lands in exactly one of the two tallies, in the success one
      exactly when it was extracted. */
  lemma {:induction false} DocumentsTallies(t: Tally, docs: seq<Document>, langs: seq<string>, bucket: string)
    requires WellFormed(docs, langs)
    ensures var r := Documents(t, docs, langs, bucket);
      && r.successful == t.successful + CountExtracted(docs)
      && r.successful + r.failed == t.successful + t.failed + |docs|
    decreases |docs|
  {
    if docs != [] {
      var u := DocumentStep(t, docs[0], langs, bucket);
      DocumentStepSpec(t, docs[0], langs, bucket);
      DocumentsTallies(u, docs[1..], langs, bucket);
    }
  }

  /** The fold records the expected files, in order, after those already recorded. */
  lemma {:induction false} DocumentsConverted(t: Tally, docs: seq<Document>, langs: seq<string>, bucket: string)
    requires WellFormed(docs, langs)
    ensures Documents(t, docs, langs, bucket).converted == t.converted + ExpectedFiles(docs, langs, bucket)
    decreases |docs|
  {
    if docs != [] {
      var u := DocumentStep(t, docs[0], langs, bucket);
      DocumentStepSpec(t, docs[0], langs, bucket);
      DocumentsConverted(u, docs[1..], langs, bucket);
      AppendAssociative(t.converted, DocumentFiles(docs[0], langs, bucket), ExpectedFiles(docs[1..], langs, bucket));
    } else {
      assert t.converted + [] == t.converted;
    }
  }

  /** The progress reports seen so far never go down, never pass the counter, and
      the latest equals the counter. */
  predicate ProgressOk(t: Tally) {
    && (forall i, j :: 0 <= i < j < |t.progress| ==> t.progress[i] <= t.progress[j])
    && (forall i :: 0 <= i < |t.progress| ==> t.progress[i] <= t.currentTask)
    && (t.progress != [] ==> t.progress[|t.progress| - 1] == t.currentTask)
  }

  lemma DocumentStepProgress(t: Tally, doc: Document, langs: seq<string>, bucket: string)
    requires |doc.stages| == |langs|
    requires ProgressOk(t)
    ensures ProgressOk(DocumentStep(t, doc, langs, bucket))
    ensures |DocumentStep(t, doc, langs, bucket).progress|
         == |t.progress| + (if Extracted(doc) then |langs| else 1)
  {
    DocumentStepSpec(t, doc, langs, bucket);
  }

  lemma {:induction false} DocumentsProgress(t: Tally, docs: seq<Document>, langs: seq<string>, bucket: string)
    requires WellFormed(docs, langs)
    requires ProgressOk(t)
    ensures ProgressOk(Documents(t, docs, langs, bucket))
    ensures |Documents(t, docs, langs, bucket).progress| >= |t.progress|
    ensures docs != [] && langs != [] ==> |Documents(t, docs, langs, bucket).progress| > |t.progress|
    decreases |docs|
  {
    if docs != [] {
      var u := DocumentStep(t, docs[0], langs, bucket);
      DocumentStepProgress(t, docs[0], langs, bucket);
      DocumentStepSpec(t, docs[0], langs, bucket);
      DocumentsProgress(u, docs[1..], langs, bucket);
    }
  }

  /** The whole batch: the counter ends at documents times languages, the progress
      reports never decrease and never exceed that total and the last one reaches
      it, the two tallies add up to the number of documents, and the converted files
      are exactly the expected ones. */
  lemma RunBatchSpec(docs: seq<Document>, langs: seq<string>, bucket: string)
    requires WellFormed(docs, langs)
    ensures var r := RunBatch(docs, langs, bucket);
      && r.currentTask == TotalTasks(docs, langs)
      && (forall i, j :: 0 <= i < j < |r.progress| ==> r.progress[i] <= r.progress[j])
      && (forall i :: 0 <= i < |r.progress| ==> r.progress[i] <= TotalTasks(docs, langs))
      && (docs != [] && langs != [] ==> r.progress != [] && r.progress[|r.progress| - 1] == TotalTasks(docs, langs))
      && r.successful == CountExtracted(docs)
      && r.successful + r.failed == |docs|
      && r.converted == ExpectedFiles(docs, langs, bucket)
  {
    DocumentsCounter(Start, docs, langs, bucket);
    DocumentsTallies(Start, docs, langs, bucket);
    DocumentsConverted(Start, docs, langs, bucket);
    DocumentsProgress(Start, docs, langs, bucket);
  }

  /** The pair (document `i`, language `k`) completed its upload. */
  predicate UploadedPair(docs: seq<Document>, langs: seq<string>, i: int, k: int)
    requires WellFormed(docs, langs)
  {
    0 <= i < |docs| && 0 <= k < |langs| && Extracted(docs[i]) && docs[i].stages[k] == Uploaded
  }

  /** A recorded file belongs to a language of the document whose upload
      completed, and every such language is recorded. */
  lemma {:induction false} LanguageFilesMembers(doc: Document, langs: seq<string>, j: nat, bucket: string, f: ConvertedFile)
    requires |doc.stages| == |langs| && j <= |langs|
    ensures f in LanguageFiles(doc, langs, j, bucket) <==>
      exists k :: j <= k < |langs| && doc.stages[k] == Uploaded && f == Converted(doc, langs[k], bucket)
    decreases |langs| - j
  {
    if j < |langs| {
      LanguageFilesMembers(doc, langs, j + 1, bucket, f);
      var here := if doc.stages[j] == Uploaded then [Converted(doc, langs[j], bucket)] else [];
      assert LanguageFiles(doc, langs, j, bucket) == here + LanguageFiles(doc, langs, j + 1, bucket);
      if f in here {
        assert doc.stages[j] == Uploaded && f == Converted(doc, langs[j], bucket);
      }
      if k :| j <= k < |langs| && doc.stages[k] == Uploaded && f == Converted(doc, langs[k], bucket) {
        if k == j {
          assert f in here;
        }
      }
    }
  }

  /** A recorded file belongs to an extracted document and a language whose upload
      completed, and every such pair is recorded. */
  lemma {:induction false} ExpectedFilesMembers(docs: seq<Document>, langs: seq<string>, bucket: string, f: ConvertedFile)
    requires WellFormed(docs, langs)
    ensures f in ExpectedFiles(docs, langs, bucket) <==>
      exists i, k :: UploadedPair(docs, langs, i, k) && f == Converted(docs[i], langs[k], bucket)
  {
    if docs != [] {
      var tail := docs[1..];
      ExpectedFilesMembers(tail, langs, bucket, f);
      LanguageFilesMembers(docs[0], langs, 0, bucket, f);
      if f in ExpectedFiles(tail, langs, bucket) {
        var i, k :| UploadedPair(tail, langs, i, k) && f == Converted(tail[i], langs[k], bucket);
        assert UploadedPair(docs, langs, i + 1, k);
      }
      if f in DocumentFiles(docs[0], langs, bucket) {
        var k :| 0 <= k < |langs| && docs[0].stages[k] == Uploaded && f == Converted(docs[0], langs[k], bucket);
        assert UploadedPair(docs, langs, 0, k);
      }
      if i, k :| UploadedPair(docs, langs, i, k) && f == Converted(docs[i], langs[k], bucket) {
        if i > 0 {
          assert UploadedPair(tail, langs, i - 1, k);
        } else {
          assert f in DocumentFiles(docs[0], langs, bucket);
        }
      }
    }
  }

  function CountUploaded(stages: seq<LanguageStage>): nat {
    if stages == [] then 0 else (if stages[0] == Uploaded then 1 else 0) + CountUploaded(stages[1..])
  }

  /** An extracted document records one file per language whose upload completed. */
  lemma {:induction false} LanguageFilesCount(doc: Document, langs: seq<string>, j: nat, bucket: string)
    requires |doc.stages| == |langs| && j <= |langs|
    ensures |LanguageFiles(doc, langs, j, bucket)| == CountUploaded(doc.stages[j..])
    decreases |langs| - j
  {
    if j < |langs| {
      LanguageFilesCount(doc, langs, j + 1, bucket);
      assert doc.stages[j..][1..] == doc.stages[j + 1..];
    } else {
      assert doc.stages[j..] == [];
    }
  }

  /** The scenario of two documents and two languages where the first download
      fails: one success, one failure, four tasks, and the second document's two
      translations recorded in language order. */
  lemma ScenarioKeys()
    ensures OutputKeys.PdfKey("b.pdf", "French") == "b_French.pdf"
    ensures OutputKeys.PdfKey("b.pdf", "German") == "b_German.pdf"
  {
    var stem := "b";
    assert stem[0] != '.';
    OutputKeys.PdfKeyOf("", stem, ".pdf", "French");
    OutputKeys.PdfKeyOf("", stem, ".pdf", "German");
    assert "" + stem + ".pdf" == "b.pdf";
  }

  /** Two documents and two languages, the first document failing to download and
      the second going through: one failure, one success, four tasks reported as
      2, 3, 4, and the second document's two PDFs recorded in language order. */
  lemma TwoDocumentScenario(first: string, second: string)
    ensures var langs := ["French", "German"];
      var a := Document(first, false, false, [Uploaded, Uploaded]);
      var b := Document(second, true, true, [Uploaded, Uploaded]);
      var r := RunBatch([a, b], langs, "out");
      && r.successful == 1 && r.failed == 1
      && r.currentTask == 4 && r.progress == [2, 3, 4]
      && r.converted == [ConvertedFile(second, OutputKeys.PdfKey(second, "French"), "out", "French"),
                         ConvertedFile(second, OutputKeys.PdfKey(second, "German"), "out", "German")]
  {
    var langs := ["French", "German"];
    var a := Document(first, false, false, [Uploaded, Uploaded]);
    var b := Document(second, true, true, [Uploaded, Uploaded]);
    var t1 := DocumentStep(Start, a, langs, "out");
    ScenarioFirst(a, langs);
    ScenarioSecond(b, langs);
    assert [a, b][1..] == [b];
    assert RunBatch([a, b], langs, "out") == Documents(t1, [b], langs, "out");
  }

  lemma ScenarioFirst(a: Document, langs: seq<string>)
    requires |langs| == 2 && |a.stages| == 2 && !a.downloaded
    ensures DocumentStep(Start, a, langs, "out") == Tally(2, 0, 1, [], [2])
  {
  }

  lemma ScenarioSecond(b: Document, langs: seq<string>)
    requires |langs| == 2 && b.stages == [Uploaded, Uploaded] && Extracted(b)
    ensures DocumentStep(Tally(2, 0, 1, [], [2]), b, langs, "out")
         == Tally(4, 1, 1, [Converted(b, langs[0], "out"), Converted(b, langs[1], "out")], [2, 3, 4])
  {
    var t1 := Tally(2, 0, 1, [], [2]);
    var l1 := LanguageStep(t1, b, langs[0], Uploaded, "out");
    var l2 := LanguageStep(l1, b, langs[1], Uploaded, "out");
    assert Languages(l2, b, langs, 2, "out") == l2;
    assert Languages(l1, b, langs, 1, "out") == l2;
    assert Languages(t1, b, langs, 0, "out") == l2;
  }
}
