/**
 * `process_pdf_folder`: walk the directory listing in order, analyse every
 * entry whose name ends in ".pdf" and whose text is not empty, keep each
 * truthy analysis result, and turn the kept records into the sheet.
 */
module Batch {
  import opened Wrappers
  import opened Json
  import opened Text
  import opened Pacing
  import opened Fence
  import opened Gemini
  import opened Extraction
  import opened Report

  /** One directory entry, in listing order: its name and what opening it as a PDF gives. */
  datatype Entry = Entry(name: string, doc: Document)

  /** What the loop did with one entry. */
  datatype FileStatus =
    | NotPdf                      // name does not end in ".pdf": skipped silently
    | NoText                      // "Aucun texte extrait": no request made
    | Analyzed(analysis: Analysis) // requests made; kept when the result is truthy

  /** The state of the loop: records kept so far, the pacing state, one status per entry seen. */
  datatype Scan = Scan(records: seq<Record>, pacer: Pacer, log: seq<FileStatus>)

  /** `file_name.endswith(".pdf")`: case-sensitive. */
  predicate IsPdfName(name: string) {
    EndsWith(name, ".pdf")
  }

  /** `if extracted_info:` — the analysis returned a non-empty object. */
  predicate Kept(s: FileStatus) {
    s.Analyzed? && s.analysis.value.Some? && Truthy(s.analysis.value.value)
  }

  /** An entry is kept exactly when its analysis returned an object that is not `{}`. */
  lemma KeptIffNonEmpty(s: FileStatus)
    ensures Kept(s) <==> s.Analyzed? && s.analysis.value.Some? && s.analysis.value.value != map[]
  {
    if s.Analyzed? && s.analysis.value.Some? && s.analysis.value.value != map[] {
      var r := s.analysis.value.value;
      var key :| key in r;
      assert key in r.Keys;
    }
  }

  /** The kept records of a log, in log order. */
  function Collected(log: seq<FileStatus>): (records: seq<Record>)
    ensures |records| <= |log|
    ensures forall r :: r in records ==> Truthy(r)
  {
    if log == [] then []
    else
      var last := log[|log| - 1];
      Collected(log[..|log| - 1]) + (if Kept(last) then [last.analysis.value.value] else [])
  }

  /** Kept records never disappear: a longer prefix of a log keeps at least as many. */
  lemma {:induction false} CollectedGrows(log: seq<FileStatus>, i: nat, j: nat)
    requires i <= j <= |log|
    ensures |Collected(log[..i])| <= |Collected(log[..j])|
    ensures i < j && Kept(log[i]) ==> |Collected(log[..i])| < |Collected(log[..j])|
    decreases j - i
  {
    if i < j {
      CollectedGrows(log, i + 1, j);
      assert log[..i + 1][..i] == log[..i];
    }
  }

  /**
   * The record of a kept entry sits in the records at the number of kept
   * entries before it: the records follow the log's order.
   */
  lemma {:induction false} CollectedPosition(log: seq<FileStatus>, i: nat)
    requires i < |log| && Kept(log[i])
    ensures |Collected(log[..i])| < |Collected(log)|
    ensures Collected(log)[|Collected(log[..i])|] == log[i].analysis.value.value
    decreases |log|
  {
    var init := log[..|log| - 1];
    if i == |log| - 1 {
      assert init == log[..i];
    } else {
      assert init[..i] == log[..i];
      CollectedPosition(init, i);
    }
  }

  /** The number of service requests a log records. */
  function Requests(log: seq<FileStatus>): nat {
    if log == [] then 0
    else
      var last := log[|log| - 1];
      Requests(log[..|log| - 1]) + (if last.Analyzed? then last.analysis.attempts else 0)
  }

  /** The pacing state when the entry at `i` of a log came up. */
  function PacerAt(log: seq<FileStatus>, i: nat): Pacer
    requires i <= |log|
  {
    Run(Initial, Requests(log[..i]))
  }

  /** What the loop does with entry `e` when the request counter stands at `pacer`. */
  function Status(service: Service, parse: Parser, e: Entry, pacer: Pacer): (s: FileStatus)
    ensures s.NotPdf? <==> !IsPdfName(e.name)
    ensures s.NoText? <==> IsPdfName(e.name) && ExtractPdfText(e.doc) == []
    ensures s.Analyzed? ==> 1 <= s.analysis.attempts <= Retries
    ensures s.Analyzed? ==> s.analysis.pacer.counter == pacer.counter + s.analysis.attempts
  {
    if !IsPdfName(e.name) then NotPdf
    else if ExtractPdfText(e.doc) == [] then NoText
    else Analyzed(AnalyzeContent(service, parse, ExtractPdfText(e.doc), pacer))
  }

  /** The pacing state after an entry's requests. */
  function After(s: FileStatus, pacer: Pacer): Pacer {
    if s.Analyzed? then s.analysis.pacer else pacer
  }

  /** One iteration of the `for file_name in os.listdir(...)` loop. */
  function Step(service: Service, parse: Parser, scan: Scan, e: Entry): Scan {
    var status := Status(service, parse, e, scan.pacer);
    Scan(if Kept(status) then scan.records + [status.analysis.value.value] else scan.records,
         After(status, scan.pacer), scan.log + [status])
  }

  /**
   * The loop over a listing: one status per entry, in order, each the
   * entry's treatment with the request counter where the previous entries
   * left it; the records are the kept results in listing order, and the
   * pacing state has seen every request.
   */
  function ScanFolder(service: Service, parse: Parser, entries: seq<Entry>): (r: Scan)
    ensures |r.log| == |entries|
    ensures forall i {:trigger PacerAt(r.log, i)} :: 0 <= i < |entries| ==>
      r.log[i] == Status(service, parse, entries[i], PacerAt(r.log, i))
    ensures r.records == Collected(r.log)
    ensures r.pacer == Run(Initial, Requests(r.log))
    decreases |entries|
  {
    if entries == [] then Scan([], Initial, [])
    else
      var prev := ScanFolder(service, parse, entries[..|entries| - 1]);
      StepKeepsScan(service, parse, prev, entries[|entries| - 1]);
      Step(service, parse, prev, entries[|entries| - 1])
  }

  /** Requests and kept records of a log grow by the last entry's share. */
  lemma LogAppend(log: seq<FileStatus>, s: FileStatus)
    ensures Requests(log + [s]) == Requests(log) + (if s.Analyzed? then s.analysis.attempts else 0)
    ensures Collected(log + [s]) == Collected(log) + (if Kept(s) then [s.analysis.value.value] else [])
    ensures forall i :: 0 <= i <= |log| ==> PacerAt(log + [s], i) == PacerAt(log, i)
  {
    assert (log + [s])[..|log|] == log;
    forall i | 0 <= i <= |log|
      ensures PacerAt(log + [s], i) == PacerAt(log, i)
    {
      assert (log + [s])[..i] == log[..i];
    }
  }

  /** A step appends the entry's status and keeps records and pacing in line with the log. */
  lemma StepKeepsScan(service: Service, parse: Parser, prev: Scan, e: Entry)
    requires prev.records == Collected(prev.log)
    requires prev.pacer == Run(Initial, Requests(prev.log))
    ensures var r := Step(service, parse, prev, e);
      && r.log == prev.log + [Status(service, parse, e, prev.pacer)]
      && r.records == Collected(r.log)
      && r.pacer == Run(Initial, Requests(r.log))
      && forall i :: 0 <= i <= |prev.log| ==> PacerAt(r.log, i) == PacerAt(prev.log, i)
  {
    var status := Status(service, parse, e, prev.pacer);
    var r := Step(service, parse, prev, e);
    assert r.log == prev.log + [status];
    LogAppend(prev.log, status);
    if status.Analyzed? {
      var a := AnalyzeContent(service, parse, ExtractPdfText(e.doc), prev.pacer);
      assert status.analysis == a;
      assert r.pacer == Run(prev.pacer, a.attempts);
      RunCompose(Initial, Requests(prev.log), a.attempts);
    } else {
      assert r.pacer == prev.pacer;
    }
  }

  /**
   * Every entry is classified by the source's two tests: skipped exactly when
   * its name does not end in ".pdf", sent to no request exactly when its text
   * is empty, analysed otherwise.
   */
  lemma Classified(service: Service, parse: Parser, entries: seq<Entry>, i: nat)
    requires i < |entries|
    ensures var s := ScanFolder(service, parse, entries).log[i];
      && (s.NotPdf? <==> !IsPdfName(entries[i].name))
      && (s.NoText? <==> IsPdfName(entries[i].name) && ExtractPdfText(entries[i].doc) == [])
      && (s.Analyzed? <==> IsPdfName(entries[i].name) && ExtractPdfText(entries[i].doc) != [])
  {
    var r := ScanFolder(service, parse, entries);
    assert r.log[i] == Status(service, parse, entries[i], PacerAt(r.log, i));
  }

  /**
   * Records keep the listing order: of two kept entries of a log, the
   * earlier one's record comes first in the records (`ScanFolder`'s records
   * are `Collected` of its log).
   */
  lemma RecordsInListingOrder(log: seq<FileStatus>, i: nat, j: nat)
    requires i < j < |log|
    requires Kept(log[i]) && Kept(log[j])
    ensures var pi, pj := |Collected(log[..i])|, |Collected(log[..j])|;
      && pi < pj < |Collected(log)|
      && Collected(log)[pi] == log[i].analysis.value.value
      && Collected(log)[pj] == log[j].analysis.value.value
  {
    CollectedGrows(log, i, j);
    CollectedPosition(log, i);
    CollectedPosition(log, j);
  }

  /** `process_pdf_folder`: the sheet for a listing, or `None` when nothing is written. */
  function ProcessPdfFolder(service: Service, parse: Parser, entries: seq<Entry>): (sheet: Option<seq<Row>>)
    ensures sheet.None? <==> NoneKept(ScanFolder(service, parse, entries).log)
    ensures sheet.Some? ==> |sheet.value| == |Collected(ScanFolder(service, parse, entries).log)|
  {
    var scan := ScanFolder(service, parse, entries);
    SheetOfLog(scan.log);
    Export(scan.records)
  }

  /** The sheet of a log's kept records: absent exactly when no entry is kept, one row per kept entry. */
  lemma SheetOfLog(log: seq<FileStatus>)
    ensures Export(Collected(log)).None? <==> NoneKept(log)
    ensures Export(Collected(log)).Some? ==> |Export(Collected(log)).value| == |Collected(log)|
  {
    CollectedEmpty(log);
  }

  /** No entry of the log is kept. */
  predicate NoneKept(log: seq<FileStatus>) {
    forall i :: 0 <= i < |log| ==> !Kept(log[i])
  }

  /** A log keeps no record exactly when none of its entries is kept. */
  lemma {:induction false} CollectedEmpty(log: seq<FileStatus>)
    ensures Collected(log) == [] <==> NoneKept(log)
    decreases |log|
  {
    if log != [] {
      var init := log[..|log| - 1];
      CollectedEmpty(init);
      assert forall i :: 0 <= i < |init| ==> init[i] == log[i];
    }
  }

  /**
   * Each kept entry has its own sheet row, at the number of kept entries
   * before it: the entry's record projected onto the column, with the
   * qualifications rewritten.
   */
  lemma SheetRowOfEntry(service: Service, parse: Parser, entries: seq<Entry>, i: nat, c: nat)
    requires i < |entries| && c < |ExcelColumns|
    ensures var log := ScanFolder(service, parse, entries).log;
      var sheet := ProcessPdfFolder(service, parse, entries);
      Kept(log[i]) ==>
        var rec, k := log[i].analysis.value.value, |Collected(log[..i])|;
        && sheet.Some? && k < |sheet.value|
        && sheet.value[k][c]
           == (ExcelColumns[c], if c == 14 then SplitLines(Cell(rec, Qualifications)) else Cell(rec, ExcelColumns[c]))
  {
    var scan := ScanFolder(service, parse, entries);
    if Kept(scan.log[i]) {
      LogRow(scan.log, i, c);
    }
  }

  /** The row a kept entry of a log gets in the sheet of the log's kept records. */
  lemma LogRow(log: seq<FileStatus>, i: nat, c: nat)
    requires i < |log| && c < |ExcelColumns| && Kept(log[i])
    ensures var rec, k := log[i].analysis.value.value, |Collected(log[..i])|;
      var sheet := Export(Collected(log));
      && sheet.Some? && k < |sheet.value|
      && sheet.value[k][c]
         == (ExcelColumns[c], if c == 14 then SplitLines(Cell(rec, Qualifications)) else Cell(rec, ExcelColumns[c]))
  {
    CollectedPosition(log, i);
    ColumnsShape();
  }

  /**
   * What each entry costs in requests: one or two for a ".pdf" entry with
   * text, none for any other entry.
   */
  lemma EntryCost(service: Service, parse: Parser, entries: seq<Entry>, i: nat)
    requires i < |entries|
    ensures var log := ScanFolder(service, parse, entries).log;
      var cost := PacerAt(log, i + 1).counter - PacerAt(log, i).counter;
      && (IsPdfName(entries[i].name) && ExtractPdfText(entries[i].doc) != [] ==> 1 <= cost <= Retries)
      && (!IsPdfName(entries[i].name) || ExtractPdfText(entries[i].doc) == [] ==> cost == 0)
  {
    var log := ScanFolder(service, parse, entries).log;
    assert log[i] == Status(service, parse, entries[i], PacerAt(log, i));
    LogEntryCost(log, i);
  }

  /** The requests an entry of a log accounts for: its attempts when analysed, none otherwise. */
  lemma LogEntryCost(log: seq<FileStatus>, i: nat)
    requires i < |log|
    ensures PacerAt(log, i + 1).counter
         == PacerAt(log, i).counter + (if log[i].Analyzed? then log[i].analysis.attempts else 0)
  {
    assert log[..i + 1] == log[..i] + [log[i]];
    LogAppend(log[..i], log[i]);
  }

  /** Entries whose name ends in ".pdf". */
  function PdfCount(entries: seq<Entry>): nat {
    if entries == [] then 0
    else PdfCount(entries[..|entries| - 1]) + (if IsPdfName(entries[|entries| - 1].name) then 1 else 0)
  }

  /** Entries whose name ends in ".pdf" and whose text is not empty. */
  function TextCount(entries: seq<Entry>): nat {
    if entries == [] then 0
    else
      var e := entries[|entries| - 1];
      TextCount(entries[..|entries| - 1]) + (if IsPdfName(e.name) && ExtractPdfText(e.doc) != [] then 1 else 0)
  }

  /** There are never more records than ".pdf" entries. */
  lemma {:induction false} RecordsBound(service: Service, parse: Parser, entries: seq<Entry>)
    ensures |ScanFolder(service, parse, entries).records| <= PdfCount(entries)
    decreases |entries|
  {
    if entries != [] {
      RecordsBound(service, parse, entries[..|entries| - 1]);
    }
  }

  /**
   * Each ".pdf" entry with text costs one or two requests, every other entry
   * none: the request counter ends between that count and twice it.
   */
  lemma {:induction false} RequestsBound(service: Service, parse: Parser, entries: seq<Entry>)
    ensures TextCount(entries) <= ScanFolder(service, parse, entries).pacer.counter
    ensures ScanFolder(service, parse, entries).pacer.counter <= Retries * TextCount(entries)
    ensures TextCount(entries) <= PdfCount(entries)
    decreases |entries|
  {
    if entries != [] {
      RequestsBound(service, parse, entries[..|entries| - 1]);
    }
  }

  /** Over a whole run the pauses number the requests made, divided by ten. */
  lemma ScanPauses(service: Service, parse: Parser, entries: seq<Entry>)
    ensures var p := ScanFolder(service, parse, entries).pacer;
      p.pauses == p.counter / MaxRequestsBeforePause
  {
    var r := ScanFolder(service, parse, entries);
    PausesFromStart(Requests(r.log));
  }

  /** A listing without a ".pdf" entry makes no request and writes no sheet. */
  lemma NoPdfNoSheet(service: Service, parse: Parser, entries: seq<Entry>)
    requires forall i :: 0 <= i < |entries| ==> !IsPdfName(entries[i].name)
    ensures ScanFolder(service, parse, entries).pacer == Initial
    ensures ProcessPdfFolder(service, parse, entries).None?
  {
    NoPdfCount(entries);
    RecordsBound(service, parse, entries);
    RequestsBound(service, parse, entries);
  }

  lemma {:induction false} NoPdfCount(entries: seq<Entry>)
    requires forall i :: 0 <= i < |entries| ==> !IsPdfName(entries[i].name)
    ensures PdfCount(entries) == 0
    decreases |entries|
  {
    if entries != [] {
      NoPdfCount(entries[..|entries| - 1]);
    }
  }

  /** The suffix test is exact and case-sensitive. */
  lemma PdfSuffixIsExact()
    ensures IsPdfName("offre.pdf") && IsPdfName(".pdf")
    ensures !IsPdfName("offre.PDF") && !IsPdfName("offre.pdf.bak") && !IsPdfName("pdf")
  {
    assert "offre.PDF"[5..] != ".pdf" by {
      assert "offre.PDF"[5..][1] == 'P';
    }
    assert "offre.pdf.bak"[9..] != ".pdf" by {
      assert "offre.pdf.bak"[9..][1] == 'b';
    }
  }

  /** The scan of a one-entry listing is one step from the start. */
  lemma SingleScan(service: Service, parse: Parser, e: Entry)
    ensures ScanFolder(service, parse, [e]) == Step(service, parse, Scan([], Initial, []), e)
  {
    assert [e][..0] == [];
  }

  /**
   * One ".pdf" entry with text whose first reply parses to a non-empty
   * object: one request, and a sheet of exactly that record's row.
   */
  lemma OnePdfOneRow(service: Service, parse: Parser, e: Entry, rec: Record)
    requires IsPdfName(e.name) && ExtractPdfText(e.doc) != []
    requires Answer(service, parse, ExtractPdfText(e.doc), 1) == Some(rec) && Truthy(rec)
    ensures ScanFolder(service, parse, [e]).pacer.counter == 1
    ensures ProcessPdfFolder(service, parse, [e]) == Export([rec])
  {
    var text := ExtractPdfText(e.doc);
    var scan := ScanFolder(service, parse, [e]);
    SingleScan(service, parse, e);
    FirstAnswerWins(service, parse, text, Initial);
    var a := AnalyzeContent(service, parse, text, Initial);
    assert a == Analysis(Some(rec), EnforceRateLimit(Initial), 1);
    assert Status(service, parse, e, Initial) == Analyzed(a);
    assert scan.records == [rec];
  }

  /**
   * A first reply that parses to `{}` ends the retry loop, yet is falsy:
   * the entry costs one request and contributes no record.
   */
  lemma EmptyObjectDropped(service: Service, parse: Parser, e: Entry, text: string)
    requires IsPdfName(e.name) && ExtractPdfText(e.doc) != []
    requires service(1, ExtractPdfText(e.doc)) == Reply(text)
    requires parse(ParserInput(text)) == Some(map[])
    ensures ScanFolder(service, parse, [e]).pacer.counter == 1
    ensures ProcessPdfFolder(service, parse, [e]).None?
  {
    var scan := ScanFolder(service, parse, [e]);
    SingleScan(service, parse, e);
    EmptyObjectEndsLoop(service, parse, ExtractPdfText(e.doc), Initial, text);
    assert scan.records == [];
  }
}
