/**
 * `main`: make sure a seed list exists, move the reports waiting in
 * `reported_urls` onto it, then run the collector, the retriever and the
 * database insertion in turn, stopping with exit status 1 at the first
 * stage that fails.
 *
 * The three files live between the stages: the seed list is text, the
 * dead-URL list is the collector's output text, and the archive file is
 * the retriever's records, read back by the insertion as JSON.
 */
module Pipeline {
  import opened Wrappers
  import UrlList
  import Collector
  import Retriever
  import ArchiveStore
  import IsoDate

  const DUMMY_SEED := "https://google.com\nhttps://thisurldoesnotexist123456789.com\nhttps://friendster.com"
  const PENDING := "PENDING"
  const PROCESSING := "PROCESSING"

  /** Where the report sync raises, if it does: before the seed file is appended to, or after (in the `UPDATE` or the commit). */
  datatype SyncFault = SyncOk | FailsBeforeAppend | FailsAfterAppend

  /**
   * `pending` is what `SELECT url FROM reported_urls WHERE status='PENDING'`
   * returns: every pending URL once, in an order the database chooses.
   */
  predicate ListsPending(reported: map<string, string>, pending: seq<string>)
  {
    && (forall u :: u in pending ==> u in reported && reported[u] == PENDING)
    && (forall u :: u in reported && reported[u] == PENDING ==> u in pending)
    && (forall i, j :: 0 <= i < j < |pending| ==> pending[i] != pending[j])
  }

  /** `UPDATE reported_urls SET status='PROCESSING' WHERE status='PENDING'`. */
  function MarkProcessing(reported: map<string, string>): (r: map<string, string>)
    ensures r.Keys == reported.Keys
  {
    map u | u in reported :: if reported[u] == PENDING then PROCESSING else reported[u]
  }

  /** The sync appends to the seed file when it has a connection, finds pending reports and gets past the query. */
  predicate Appends(connected: bool, pending: seq<string>, fault: SyncFault)
  {
    connected && pending != [] && fault != FailsBeforeAppend
  }

  function SeedAfterSync(seed: string, connected: bool, pending: seq<string>, fault: SyncFault): string
  {
    if Appends(connected, pending, fault) then seed + "\n" + UrlList.Join(pending) else seed
  }

  /** The status update is committed only when nothing raised. */
  function ReportedAfterSync(reported: map<string, string>, connected: bool, pending: seq<string>, fault: SyncFault)
    : map<string, string>
  {
    if Appends(connected, pending, fault) && fault == SyncOk then MarkProcessing(reported) else reported
  }

  /**
   * The report sync. Any exception is caught and only logged; the
   * connection is then dropped without a commit.
   */
  method SyncReports(seed: string, reported: map<string, string>, connected: bool, pending: seq<string>, fault: SyncFault)
    returns (seed': string, reported': map<string, string>)
    ensures seed' == SeedAfterSync(seed, connected, pending, fault)
    ensures reported' == ReportedAfterSync(reported, connected, pending, fault)
  {
    seed', reported' := seed, reported;
    if !connected || fault == FailsBeforeAppend {
      return;
    }
    if |pending| > 0 {
      seed' := seed + "\n" + UrlList.Join(pending);
      if fault == FailsAfterAppend {
        return;
      }
      reported' := MarkProcessing(reported);
    }
  }

  /** Everything outside the program that one run meets, stage by stage. */
  datatype Env = Env(
    syncConnected: bool, pendingOrder: seq<string>, syncFault: SyncFault,
    probe: nat -> Collector.HeadReply, collectorConnected: bool, statementFails: nat -> bool, deadWrite: bool,
    network: nat -> Retriever.Exchange, archiveWrite: bool,
    storeConnected: bool, storeFails: bool)

  /**
   * The run's result: exit status, the seed file, the two tables, the files
   * written in this run (`None`: not written), and the HEAD and archive
   * requests sent.
   */
  datatype Outcome = Outcome(
    exitCode: int, seed: string, reported: map<string, string>,
    deadFile: Option<string>, archiveFile: Option<seq<Retriever.StagedRecord>>,
    archived: map<string, ArchiveStore.Row>,
    probes: seq<string>, archiveRequests: seq<string>)

  /** The seed list handed to the collector: the existing file or the dummy, with the pending reports appended. */
  function SeedText(seed: Option<string>, env: Env): string
  {
    SeedAfterSync(seed.GetOr(DUMMY_SEED), env.syncConnected, env.pendingOrder, env.syncFault)
  }

  function SeedUrls(seed: Option<string>, env: Env): seq<string>
  {
    UrlList.ReadUrls(SeedText(seed, env))
  }

  function DeadList(seed: Option<string>, env: Env): seq<string>
  {
    var urls := SeedUrls(seed, env);
    Collector.DeadUrls(urls, env.probe, |urls|)
  }

  /** `reported_urls` after the collector has run on `urls`, starting from `before`. */
  function CollectorTable(urls: seq<string>, env: Env, before: map<string, string>): map<string, string>
  {
    if env.collectorConnected then Collector.Synced(urls, env.probe, env.statementFails, Collector.Db(before, false), |urls|).table
    else before
  }

  function ReportedAfterCollector(seed: Option<string>, reported: map<string, string>, env: Env): map<string, string>
  {
    CollectorTable(SeedUrls(seed, env), env, ReportedAfterSync(reported, env.syncConnected, env.pendingOrder, env.syncFault))
  }

  function StagedList(seed: Option<string>, env: Env): seq<Retriever.StagedRecord>
  {
    var dead := DeadList(seed, env);
    Retriever.Staged(dead, env.network, |dead|)
  }

  /** `json.dump` then `json.load` of one record: every field a string, a missing timestamp `null`. */
  function ItemOf(r: Retriever.StagedRecord): ArchiveStore.Item
  {
    ArchiveStore.Item(
      ArchiveStore.Str(r.originalUrl),
      if r.archiveTimestamp.Some? then ArchiveStore.Str(r.archiveTimestamp.value) else ArchiveStore.Null,
      ArchiveStore.Str(r.cleanedText))
  }

  /** The retriever's JSON list, item by item. */
  function Items(rs: seq<Retriever.StagedRecord>): seq<ArchiveStore.Item>
  {
    seq(|rs|, k requires 0 <= k < |rs| => ItemOf(rs[k]))
  }

  /** The database record a staged record becomes. */
  function StoredRecord(r: Retriever.StagedRecord): ArchiveStore.Record
  {
    ArchiveStore.Record(
      r.originalUrl,
      if r.archiveTimestamp.Some? then IsoDate.ParseIsoDate(r.archiveTimestamp) else None,
      Some(r.cleanedText))
  }

  /** The database records of the retriever's list, record by record. */
  function StoredRecords(rs: seq<Retriever.StagedRecord>): seq<ArchiveStore.Record>
  {
    seq(|rs|, k requires 0 <= k < |rs| => StoredRecord(rs[k]))
  }

  /** The insertion accepts the retriever's records. */
  predicate StoreSucceeds(staged: seq<Retriever.StagedRecord>, env: Env)
  {
    staged != [] && env.storeConnected && !env.storeFails && !ArchiveStore.PageRepeatsUrl(StoredRecords(staged))
  }

  /** All three stages succeed. */
  predicate Succeeds(seed: Option<string>, env: Env)
  {
    env.deadWrite && env.archiveWrite && StoreSucceeds(StagedList(seed, env), env)
  }

  /** Stage 3: the archive file the retriever wrote, inserted. */
  method StoreStage(staged: seq<Retriever.StagedRecord>, env: Env, archived: map<string, ArchiveStore.Row>)
    returns (stored: bool, archived': map<string, ArchiveStore.Row>)
    requires forall r :: r in staged ==> r.originalUrl != ""
    ensures stored == StoreSucceeds(staged, env)
    ensures archived' == if stored then ArchiveStore.UpsertAll(archived, StoredRecords(staged)) else archived
  {
    RecordsOfItems(staged, |staged|);
    assert staged[..|staged|] == staged;
    var items := Items(staged);
    assert ArchiveStore.Records(items, |items|) == StoredRecords(staged);
    assert items == [] <==> staged == [];
    stored, archived' := ArchiveStore.InsertArchiveData(ArchiveStore.FileJson(items), env.storeConnected,
                                                        archived, env.storeFails);
  }

  /** The seed file made ready (the dummy when missing, then the report sync), followed by the collector. */
  method CollectStage(seed: Option<string>, reported: map<string, string>, env: Env)
    returns (seedText: string, reported': map<string, string>, collected: bool, deadFile: Option<string>, probes: seq<string>)
    ensures seedText == SeedText(seed, env)
    ensures reported' == ReportedAfterCollector(seed, reported, env)
    ensures probes == Collector.Targets(SeedUrls(seed, env), |SeedUrls(seed, env)|)
    ensures collected == env.deadWrite
    ensures deadFile == if env.deadWrite then Some(UrlList.WriteLines(DeadList(seed, env))) else None
  {
    seedText := if seed.Some? then seed.value else DUMMY_SEED;
    var table;
    seedText, table := SyncReports(seedText, reported, env.syncConnected, env.pendingOrder, env.syncFault);
    collected, deadFile, reported', probes := Collector.Run(Some(seedText), env.probe, env.collectorConnected, table,
                                                           env.statementFails, env.deadWrite);
  }

  /** `main`. */
  method RunPipeline(seed: Option<string>, reported: map<string, string>, archived: map<string, ArchiveStore.Row>, env: Env)
    returns (o: Outcome)
    ensures o.seed == SeedText(seed, env)
    ensures o.reported == ReportedAfterCollector(seed, reported, env)
    ensures o.probes == Collector.Targets(SeedUrls(seed, env), |SeedUrls(seed, env)|)
    ensures o.deadFile == if env.deadWrite then Some(UrlList.WriteLines(DeadList(seed, env))) else None
    ensures !env.deadWrite ==> o.archiveFile.None? && o.archiveRequests == []
    ensures env.deadWrite ==>
      var dead := DeadList(seed, env);
      && o.archiveRequests == Retriever.Requests(dead, env.network, |dead|)
      && o.archiveFile == if env.archiveWrite then Some(StagedList(seed, env)) else None
    ensures o.exitCode == if Succeeds(seed, env) then 0 else 1
    ensures o.archived == if Succeeds(seed, env) then ArchiveStore.UpsertAll(archived, StoredRecords(StagedList(seed, env))) else archived
  {
    var seedText, table', collected, deadFile, probes := CollectStage(seed, reported, env);
    if !collected {
      return Outcome(1, seedText, table', None, None, archived, probes, []);
    }

    DeadListRoundTrip(seed, env);
    var retrieved, archiveFile, requests := Retriever.Run(deadFile, env.network, env.archiveWrite);
    if !retrieved {
      return Outcome(1, seedText, table', deadFile, None, archived, probes, requests);
    }

    var staged := archiveFile.value;
    StagedUrlsNonEmpty(seed, env);
    var stored, archived' := StoreStage(staged, env, archived);
    o := Outcome(if stored then 0 else 1, seedText, table', deadFile, archiveFile, archived', probes, requests);
  }

  // ----- Properties -----

  /** The collector's output file reads back, in the retriever, as the dead list itself. */
  lemma DeadListRoundTrip(seed: Option<string>, env: Env)
    ensures UrlList.IsUrlList(DeadList(seed, env))
    ensures UrlList.ReadUrls(UrlList.WriteLines(DeadList(seed, env))) == DeadList(seed, env)
  {
    var urls := SeedUrls(seed, env);
    UrlList.ReadUrlsIsUrlList(SeedText(seed, env));
    Collector.DeadUrlsAreUrlList(urls, env.probe, |urls|);
    UrlList.ReadWriteRoundTrip(DeadList(seed, env));
  }

  lemma {:induction false} StagedUrlsFromInput(urls: seq<string>, network: nat -> Retriever.Exchange, n: nat)
    requires n <= |urls|
    ensures forall r :: r in Retriever.Staged(urls, network, n) ==> r.originalUrl in urls
  {
    if n > 0 {
      StagedUrlsFromInput(urls, network, n - 1);
    }
  }

  /** Each staged record carries a (non-empty) URL from the dead list. */
  lemma StagedUrlsNonEmpty(seed: Option<string>, env: Env)
    ensures forall r :: r in StagedList(seed, env) ==> r.originalUrl in DeadList(seed, env) && r.originalUrl != ""
  {
    var dead := DeadList(seed, env);
    DeadListRoundTrip(seed, env);
    StagedUrlsFromInput(dead, env.network, |dead|);
  }

  /** The insertion keeps every record of a file the retriever wrote, converted field by field. */
  lemma {:induction false} RecordsOfItems(rs: seq<Retriever.StagedRecord>, n: nat)
    requires n <= |rs|
    requires forall r :: r in rs ==> r.originalUrl != ""
    ensures ArchiveStore.Records(Items(rs), n) == StoredRecords(rs[..n])
  {
    if n > 0 {
      RecordsOfItems(rs, n - 1);
      assert rs[n - 1] in rs;
      assert StoredRecords(rs[..n]) == StoredRecords(rs[..n - 1]) + [StoredRecord(rs[n - 1])];
    }
    assert rs[..|rs|] == rs;
  }

  /** The existing seed file (or the dummy, when there is none) is kept as a prefix: the sync only appends. */
  lemma SeedKeepsContent(seed: Option<string>, env: Env)
    ensures seed.Some? ==> seed.value <= SeedText(seed, env)
    ensures seed.None? ==> DUMMY_SEED <= SeedText(seed, env)
  {
    var base := seed.GetOr(DUMMY_SEED);
    if Appends(env.syncConnected, env.pendingOrder, env.syncFault) {
      assert SeedText(seed, env) == base + ("\n" + UrlList.Join(env.pendingOrder));
    }
  }

  /** The collector sees the seed file's URLs, then the pending reports' URLs (stripped, blank ones dropped) when they were appended. */
  lemma SeedUrlsAfterSync(seed: Option<string>, env: Env)
    requires forall k :: 0 <= k < |env.pendingOrder| ==> UrlList.NoLineBreaks(env.pendingOrder[k])
    ensures SeedUrls(seed, env) == UrlList.ReadUrls(seed.GetOr(DUMMY_SEED)) +
      (if Appends(env.syncConnected, env.pendingOrder, env.syncFault) then UrlList.NonBlankStripped(env.pendingOrder) else [])
  {
    var base := seed.GetOr(DUMMY_SEED);
    if Appends(env.syncConnected, env.pendingOrder, env.syncFault) {
      UrlList.AppendedUrls(base, env.pendingOrder);
    } else {
      assert UrlList.ReadUrls(base) + [] == UrlList.ReadUrls(base);
    }
  }

  /** The status update moves every pending report, and only those, to `PROCESSING`. */
  lemma MarkProcessingMovesPending(reported: map<string, string>, pending: seq<string>)
    requires ListsPending(reported, pending)
    ensures forall u :: u in pending ==> MarkProcessing(reported)[u] == PROCESSING
    ensures forall u :: u in reported && u !in pending ==> MarkProcessing(reported)[u] == reported[u]
    ensures forall u :: u in MarkProcessing(reported) ==> MarkProcessing(reported)[u] != PENDING
  {
  }

  /** No row of `table` is `PENDING`. */
  predicate NoPending(table: map<string, string>)
  {
    forall u :: u in table ==> table[u] != PENDING
  }

  /** The collector never sets a row to `PENDING`: a table without pending rows keeps none, on any URL list. */
  lemma CollectorKeepsNoPending(urls: seq<string>, env: Env, before: map<string, string>)
    requires NoPending(before)
    ensures NoPending(CollectorTable(urls, env, before))
  {
    if env.collectorConnected {
      var t := CollectorTable(urls, env, before);
      Collector.SyncedOnlyConfirmsOrDeletes(urls, env.probe, env.statementFails, Collector.Db(before, false), |urls|);
      assert |Collector.CONFIRMED_DEAD| != |PENDING|;
      forall u | u in t
        ensures t[u] != PENDING
      {
        assert u in before;
      }
    }
  }

  /** The collector leaves the row of a URL it does not check as it was. */
  lemma CollectorLeavesUnlisted(urls: seq<string>, env: Env, before: map<string, string>, u: string)
    requires u !in urls
    ensures (u in CollectorTable(urls, env, before)) == (u in before)
    ensures u in before ==> CollectorTable(urls, env, before)[u] == before[u]
  {
    if env.collectorConnected {
      assert urls[..|urls|] == urls;
      Collector.SyncedOtherRowsUnchanged(urls, env.probe, env.statementFails, Collector.Db(before, false), |urls|, u);
    }
  }

  /** Without failing statements, the collector settles the row of every URL it checks. */
  lemma CollectorSettlesListed(urls: seq<string>, env: Env, before: map<string, string>, u: string)
    requires env.collectorConnected && forall i :: !env.statementFails(i)
    requires u in urls
    ensures u !in CollectorTable(urls, env, before) || CollectorTable(urls, env, before)[u] == Collector.CONFIRMED_DEAD
  {
    Collector.SyncedSettlesListedUrl(urls, env.probe, env.statementFails, before, u);
  }

  /** After a sync that went through, no report is left `PENDING`, however the collector fared. */
  lemma NoReportLeftPending(seed: Option<string>, reported: map<string, string>, env: Env)
    requires ListsPending(reported, env.pendingOrder)
    requires env.syncConnected && env.syncFault == SyncOk
    ensures forall u :: u in ReportedAfterCollector(seed, reported, env) ==> ReportedAfterCollector(seed, reported, env)[u] != PENDING
  {
    var urls := SeedUrls(seed, env);
    var before := ReportedAfterSync(reported, env.syncConnected, env.pendingOrder, env.syncFault);
    assert NoPending(before) by {
      MarkProcessingMovesPending(reported, env.pendingOrder);
    }
    CollectorKeepsNoPending(urls, env, before);
    assert ReportedAfterCollector(seed, reported, env) == CollectorTable(urls, env, before);
  }

  /**
   * The report lifecycle: when the sync goes through and no database
   * statement fails, every report that was `PENDING` ends the run
   * `CONFIRMED_DEAD` or deleted, provided its URL is a clean seed line.
   */
  lemma PendingReportsSettle(seed: Option<string>, reported: map<string, string>, env: Env)
    requires ListsPending(reported, env.pendingOrder)
    requires UrlList.IsUrlList(env.pendingOrder)
    requires env.syncConnected && env.syncFault == SyncOk && env.collectorConnected
    requires forall i :: !env.statementFails(i)
    ensures var after := ReportedAfterCollector(seed, reported, env);
      forall u :: u in reported && reported[u] == PENDING ==> u !in after || after[u] == Collector.CONFIRMED_DEAD
  {
    var urls := SeedUrls(seed, env);
    var before := ReportedAfterSync(reported, env.syncConnected, env.pendingOrder, env.syncFault);
    PendingUrlsScanned(seed, env);
    forall u | u in reported && reported[u] == PENDING
      ensures u !in CollectorTable(urls, env, before) || CollectorTable(urls, env, before)[u] == Collector.CONFIRMED_DEAD
    {
      InSuffix(UrlList.ReadUrls(seed.GetOr(DUMMY_SEED)), env.pendingOrder, u);
      CollectorSettlesListed(urls, env, before, u);
    }
  }

  lemma InSuffix(a: seq<string>, b: seq<string>, u: string)
    requires u in b
    ensures u in a + b
  {
    var k :| 0 <= k < |b| && b[k] == u;
    assert (a + b)[|a| + k] == u;
  }

  /** Clean pending URLs reach the collector verbatim, after the seed file's own. */
  lemma PendingUrlsScanned(seed: Option<string>, env: Env)
    requires UrlList.IsUrlList(env.pendingOrder)
    requires env.syncConnected && env.syncFault == SyncOk
    ensures SeedUrls(seed, env) == UrlList.ReadUrls(seed.GetOr(DUMMY_SEED)) + env.pendingOrder
  {
    SeedUrlsAfterSync(seed, env);
    UrlList.NonBlankStrippedOfUrlList(env.pendingOrder);
    if env.pendingOrder == [] {
      assert UrlList.NonBlankStripped([]) == [];
    }
  }

  /** The collector, run on a URL list, leaves the row of a string with whitespace at an end as it was. */
  lemma UnlistedRowKept(urls: seq<string>, env: Env, before: map<string, string>, u: string)
    requires UrlList.IsUrlList(urls) && !UrlList.IsStripped(u)
    requires u in before
    ensures u in CollectorTable(urls, env, before) && CollectorTable(urls, env, before)[u] == before[u]
  {
    CollectorLeavesUnlisted(urls, env, before, u);
  }

  /**
   * A pending report whose URL has surrounding whitespace is moved to
   * `PROCESSING` but never settled: the seed list holds its stripped form,
   * so the collector updates a different key.
   */
  lemma PaddedReportStaysProcessing(seed: Option<string>, reported: map<string, string>, env: Env, u: string)
    requires ListsPending(reported, env.pendingOrder)
    requires env.syncConnected && env.syncFault == SyncOk
    requires u in reported && reported[u] == PENDING && !UrlList.IsStripped(u)
    ensures u in ReportedAfterCollector(seed, reported, env)
    ensures ReportedAfterCollector(seed, reported, env)[u] == PROCESSING
  {
    var before := ReportedAfterSync(reported, env.syncConnected, env.pendingOrder, env.syncFault);
    assert u in before && before[u] == PROCESSING by {
      MarkProcessingMovesPending(reported, env.pendingOrder);
    }
    UrlList.ReadUrlsIsUrlList(SeedText(seed, env));
    UnlistedRowKept(SeedUrls(seed, env), env, before, u);
  }

  /**
   * A run that archives nothing ends with exit status 1: when no dead URL
   * has a snapshot, in particular when every seed URL is alive, the archive
   * file holds an empty list and the insertion refuses it.
   */
  lemma NothingArchivedFails(seed: Option<string>, env: Env)
    requires forall i :: 0 <= i < |DeadList(seed, env)| ==> !Retriever.Found(env.network, i)
    ensures StagedList(seed, env) == []
    ensures !Succeeds(seed, env)
  {
    var dead := DeadList(seed, env);
    Retriever.NotFoundStagesNothing(dead, env.network, |dead|);
  }

  /** After a successful run every staged URL has a row holding its last record's timestamp and text. */
  lemma SuccessStoresStagedUrls(seed: Option<string>, archived: map<string, ArchiveStore.Row>, env: Env, i: nat)
    requires Succeeds(seed, env)
    requires i < |StagedList(seed, env)|
    requires forall j :: i < j < |StagedList(seed, env)| ==> StagedList(seed, env)[j].originalUrl != StagedList(seed, env)[i].originalUrl
    ensures var r := StagedList(seed, env)[i];
      var table := ArchiveStore.UpsertAll(archived, StoredRecords(StagedList(seed, env)));
      r.originalUrl in table && table[r.originalUrl] == ArchiveStore.RowOf(StoredRecord(r))
  {
    StoredLastWins(archived, StagedList(seed, env), i);
  }

  /** Upserting the records of a staged list stores, for each URL, its last staged record. */
  lemma StoredLastWins(archived: map<string, ArchiveStore.Row>, staged: seq<Retriever.StagedRecord>, i: nat)
    requires i < |staged|
    requires forall j :: i < j < |staged| ==> staged[j].originalUrl != staged[i].originalUrl
    ensures var table := ArchiveStore.UpsertAll(archived, StoredRecords(staged));
      staged[i].originalUrl in table && table[staged[i].originalUrl] == ArchiveStore.RowOf(StoredRecord(staged[i]))
  {
    var records := StoredRecords(staged);
    assert records[i] == StoredRecord(staged[i]);
    assert forall j :: i < j < |records| ==> records[j].url == staged[j].originalUrl;
    ArchiveStore.UpsertLastWins(archived, records, i);
  }
}
