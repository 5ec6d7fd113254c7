/**
 * `DBConnector.insert_archive_data`: load the retriever's JSON file, keep
 * the items that have an `original_url`, and upsert them into
 * `archived_documents` keyed on `original_url` in one transaction.
 *
 * The table is a map from `original_url` to the columns the upsert writes.
 * Whether `get_connection` connects, and whether the database raises for
 * some other reason, are parameters.
 */
module ArchiveStore {
  import opened Wrappers
  import opened IsoDate
  import Indices

  /** `execute_values`' default `page_size`: the rows go to the server as one `INSERT` per 100 records. */
  const PAGE_SIZE: nat := 100

  /** A field of a JSON object as `dict.get` sees it: missing, `null`, or a string. */
  datatype JsonField = Absent | Null | Str(s: string)

  datatype Item = Item(originalUrl: JsonField, archiveTimestamp: JsonField, cleanedText: JsonField)

  /** The JSON file: missing; present but unreadable or not a list of objects; or the list. */
  datatype ArchiveFile = FileMissing | FileUnparsable | FileJson(items: seq<Item>)

  /** One tuple handed to `execute_values`; `None` is SQL `NULL`. */
  datatype Record = Record(url: string, timestamp: Option<DateTime>, text: Option<string>)

  /** The columns of an `archived_documents` row that the upsert sets. */
  datatype Row = Row(archiveTimestamp: Option<DateTime>, cleanedText: Option<string>)

  /** `if url:` holds for a non-empty string only. */
  predicate HasUrl(item: Item)
  {
    item.originalUrl.Str? && item.originalUrl.s != ""
  }

  /** `_parse_isodate(ts)`, where a missing or `null` timestamp is falsy. */
  function Timestamp(f: JsonField): (t: Option<DateTime>)
    ensures f.Absent? || f.Null? ==> t.None?
    ensures t.Some? ==> Valid(t.value)
  {
    if f.Str? then ParseIsoDate(Some(f.s)) else None
  }

  /** `item.get("cleaned_text", "")`: `""` when missing, `NULL` when `null`. */
  function Text(f: JsonField): (t: Option<string>)
    ensures f.Absent? ==> t == Some("")
    ensures f.Null? ==> t.None?
    ensures f.Str? ==> t == Some(f.s)
  {
    match f
    case Absent => Some("")
    case Null => None
    case Str(s) => Some(s)
  }

  function RecordOf(item: Item): Record
    requires HasUrl(item)
  {
    Record(item.originalUrl.s, Timestamp(item.archiveTimestamp), Text(item.cleanedText))
  }

  /** The records built from the first `n` items. */
  function Records(items: seq<Item>, n: nat): seq<Record>
    requires n <= |items|
  {
    if n == 0 then []
    else Records(items, n - 1) + (if HasUrl(items[n - 1]) then [RecordOf(items[n - 1])] else [])
  }

  /** The loop that builds `records`. */
  method CollectRecords(items: seq<Item>) returns (records: seq<Record>)
    ensures records == Records(items, |items|)
  {
    records := [];
    var i := 0;
    while i < |items|
      invariant 0 <= i <= |items|
      invariant records == Records(items, i)
    {
      var item := items[i];
      if item.originalUrl.Str? && item.originalUrl.s != "" {
        records := records + [Record(item.originalUrl.s, Timestamp(item.archiveTimestamp), Text(item.cleanedText))];
      }
      i := i + 1;
    }
  }

  /**
   * PostgreSQL refuses an `INSERT ... ON CONFLICT DO UPDATE` that would
   * touch the same row twice, so a page holding two records for one URL
   * makes its statement raise.
   */
  predicate PageRepeatsUrl(records: seq<Record>)
  {
    exists i, j :: 0 <= i < j < |records| && i / PAGE_SIZE == j / PAGE_SIZE && records[i].url == records[j].url
  }

  function RowOf(r: Record): Row
  {
    Row(r.timestamp, r.text)
  }

  /** The committed effect of upserting `records` in order: insert a new URL, overwrite both columns of an existing one. */
  function UpsertAll(table: map<string, Row>, records: seq<Record>): map<string, Row>
  {
    if records == [] then table
    else
      var last := records[|records| - 1];
      UpsertAll(table, records[..|records| - 1])[last.url := RowOf(last)]
  }

  /**
   * `insert_archive_data`. `dbFails` stands for any other error the
   * statements or the commit raise; every error inside the `try` rolls
   * the whole transaction back.
   */
  method InsertArchiveData(file: ArchiveFile, connected: bool, table: map<string, Row>, dbFails: bool)
    returns (ok: bool, table': map<string, Row>)
    ensures file.FileMissing? || !connected || file.FileUnparsable? ==> !ok && table' == table
    ensures file.FileJson? && connected ==>
      var items := file.items;
      var records := Records(items, |items|);
      if items == [] then !ok && table' == table
      else if records == [] then ok && table' == table
      else if dbFails || PageRepeatsUrl(records) then !ok && table' == table
      else ok && table' == UpsertAll(table, records)
  {
    if file.FileMissing? || !connected || file.FileUnparsable? {
      return false, table;
    }
    var items := file.items;
    if |items| == 0 {
      return false, table;
    }
    var records := CollectRecords(items);
    if |records| == 0 {
      return true, table;
    }
    if dbFails || PageRepeatsUrl(records) {
      return false, table;
    }
    return true, UpsertAll(table, records);
  }

  // ----- Properties -----

  predicate HasUrlAt(items: seq<Item>, i: nat)
  {
    i < |items| && HasUrl(items[i])
  }

  /** The records are the items with a URL, in file order, each converted by `RecordOf`. */
  lemma {:induction false} RecordsExactly(items: seq<Item>, n: nat)
    requires n <= |items|
    ensures var idx := Indices.Matching((i: nat) => HasUrlAt(items, i), n);
      && |Records(items, n)| == |idx|
      && forall k :: 0 <= k < |idx| ==> HasUrl(items[idx[k]]) && Records(items, n)[k] == RecordOf(items[idx[k]])
  {
    if n > 0 {
      RecordsExactly(items, n - 1);
    }
  }

  /** Every record has a non-empty URL and, when it has a timestamp, a valid one. */
  lemma {:induction false} RecordsWellFormed(items: seq<Item>, n: nat)
    requires n <= |items|
    ensures forall r :: r in Records(items, n) ==> r.url != "" && (r.timestamp.Some? ==> Valid(r.timestamp.value))
  {
    if n > 0 {
      RecordsWellFormed(items, n - 1);
    }
  }

  /** A URL's row ends up with the columns of its last record. */
  lemma {:induction false} UpsertLastWins(table: map<string, Row>, records: seq<Record>, i: nat)
    requires i < |records|
    requires forall j :: i < j < |records| ==> records[j].url != records[i].url
    ensures records[i].url in UpsertAll(table, records)
    ensures UpsertAll(table, records)[records[i].url] == RowOf(records[i])
  {
    if i < |records| - 1 {
      UpsertLastWins(table, records[..|records| - 1], i);
    }
  }

  /** A URL without a record keeps its row, or stays without one. */
  lemma {:induction false} UpsertOthersUnchanged(table: map<string, Row>, records: seq<Record>, u: string)
    requires forall j :: 0 <= j < |records| ==> records[j].url != u
    ensures u in UpsertAll(table, records) <==> u in table
    ensures u in table ==> UpsertAll(table, records)[u] == table[u]
  {
    if records != [] {
      UpsertOthersUnchanged(table, records[..|records| - 1], u);
    }
  }

  /** The upsert never deletes: the keys afterwards are the old keys and the records' URLs. */
  lemma {:induction false} UpsertKeys(table: map<string, Row>, records: seq<Record>)
    ensures UpsertAll(table, records).Keys == table.Keys + set r | r in records :: r.url
  {
    if records != [] {
      var init := records[..|records| - 1];
      UpsertKeys(table, init);
      assert records == init + [records[|records| - 1]];
      assert (set r | r in records :: r.url) == (set r | r in init :: r.url) + {records[|records| - 1].url};
    }
  }

  /** Two batches in a row commit what their concatenation would. */
  lemma {:induction false} UpsertAppend(table: map<string, Row>, a: seq<Record>, b: seq<Record>)
    ensures UpsertAll(table, a + b) == UpsertAll(UpsertAll(table, a), b)
  {
    if b == [] {
      assert a + b == a;
    } else {
      assert (a + b)[..|a + b| - 1] == a + b[..|b| - 1];
      UpsertAppend(table, a, b[..|b| - 1]);
    }
  }

  /** Committing one batch twice is committing it once: re-running the store step on the same file does no harm. */
  lemma UpsertIdempotent(table: map<string, Row>, records: seq<Record>)
    ensures UpsertAll(UpsertAll(table, records), records) == UpsertAll(table, records)
  {
    var once := UpsertAll(table, records);
    var twice := UpsertAll(once, records);
    UpsertKeys(table, records);
    UpsertKeys(once, records);
    forall u | u in once
      ensures twice[u] == once[u]
    {
      if i :| 0 <= i < |records| && records[i].url == u {
        var k := LastIndexOf(records, i);
        UpsertLastWins(table, records, k);
        UpsertLastWins(once, records, k);
      } else {
        UpsertOthersUnchanged(once, records, u);
      }
    }
  }

  /** The last position holding the same URL as position `i`. */
  function LastIndexOf(records: seq<Record>, i: nat): (k: nat)
    requires i < |records|
    ensures i <= k < |records| && records[k].url == records[i].url
    ensures forall j :: k < j < |records| ==> records[j].url != records[k].url
    decreases |records| - i
  {
    if exists j :: i < j < |records| && records[j].url == records[i].url then
      var j :| i < j < |records| && records[j].url == records[i].url;
      LastIndexOf(records, j)
    else i
  }

  /**
   * Two archived snapshots of one page never coexist: a later run that
   * stores the same URL again overwrites the earlier snapshot's timestamp
   * and text.
   */
  lemma LaterSnapshotReplaces(table: map<string, Row>, first: Record, second: Record)
    requires first.url == second.url
    ensures UpsertAll(UpsertAll(table, [first]), [second]) == table[first.url := RowOf(second)]
  {
    assert [first][..0] == [];
    assert [second][..0] == [];
  }

  /** Two records for one URL within the first page make the whole batch fail. */
  lemma SameUrlInOnePageRejects(records: seq<Record>, i: nat, j: nat)
    requires i < j < |records| && j < PAGE_SIZE && records[i].url == records[j].url
    ensures PageRepeatsUrl(records)
  {
  }

  /**
   * A URL repeated only at positions 0 and `PAGE_SIZE` sits on two pages,
   * so the batch passes the per-page check and the second record is the
   * one stored.
   */
  lemma RepeatAcrossPagesPasses(table: map<string, Row>, records: seq<Record>)
    requires PAGE_SIZE < |records| && records[0].url == records[PAGE_SIZE].url
    requires forall i, j :: 0 <= i < j < |records| && records[i].url == records[j].url ==> i == 0 && j == PAGE_SIZE
    ensures !PageRepeatsUrl(records)
    ensures records[0].url in UpsertAll(table, records)
    ensures UpsertAll(table, records)[records[0].url] == RowOf(records[PAGE_SIZE])
  {
    assert 0 / PAGE_SIZE != PAGE_SIZE / PAGE_SIZE;
    assert forall j :: PAGE_SIZE < j < |records| ==> records[j].url != records[PAGE_SIZE].url;
    UpsertLastWins(table, records, PAGE_SIZE);
  }

  /** A batch whose URLs are all distinct never trips the per-page check. */
  lemma DistinctUrlsPass(records: seq<Record>)
    requires forall i, j :: 0 <= i < j < |records| ==> records[i].url != records[j].url
    ensures !PageRepeatsUrl(records)
  {
  }
}
