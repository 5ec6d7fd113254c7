/**
 * `ArchiveRetriever.run`: for each URL of the dead-URL list, ask the
 * archive's availability service for the closest snapshot, fetch that
 * snapshot, and stage one record per URL that has one; then write the
 * staged records out.
 *
 * The network is an oracle: `network(k)` is what the two calls made for the
 * `k`-th URL return. HTML cleaning is part of the oracle too: a 200 reply
 * carries the text BeautifulSoup would extract.
 */
module Retriever {
  import opened Wrappers
  import UrlList
  import Indices

  const AVAILABILITY_ENDPOINT := "https://archive.org/wayback/available?url="

  /**
   * The availability call: it raised (transport error, timeout, or a body
   * that is not JSON), or it returned a JSON object whose `archived_snapshots`
   * member is absent or an object of named snapshot objects with string fields.
   */
  datatype AvailabilityReply =
    | AvailabilityRaised
    | AvailabilityJson(archivedSnapshots: Option<map<string, map<string, string>>>)

  /** The snapshot fetch: it raised (including while parsing), or it returned a status and the cleaned text. */
  datatype ContentReply = ContentRaised | ContentResponse(statusCode: int, cleanedText: string)

  /** The two replies the network gives for one URL. */
  datatype Exchange = Exchange(availability: AvailabilityReply, content: ContentReply)

  /** The loop variables `snapshot_url` and `timestamp` after the availability step. */
  datatype Discovery = Discovery(snapshotUrl: Option<string>, timestamp: Option<string>)

  /** One element of `results`. */
  datatype StagedRecord = StagedRecord(originalUrl: string, archiveTimestamp: Option<string>, cleanedText: string)

  /**
   * The availability step. `closest["url"]` is read before
   * `closest["timestamp"]`, so a snapshot without a timestamp still sets
   * `snapshot_url` before the `KeyError` is caught.
   */
  function Discover(reply: AvailabilityReply): (d: Discovery)
    ensures d.timestamp.Some? ==> d.snapshotUrl.Some?
    ensures d.snapshotUrl.Some? <==>
      reply.AvailabilityJson? && reply.archivedSnapshots.Some? && "closest" in reply.archivedSnapshots.value
      && "url" in reply.archivedSnapshots.value["closest"]
    ensures d.snapshotUrl.Some? ==> d.snapshotUrl.value == reply.archivedSnapshots.value["closest"]["url"]
    ensures d.timestamp.Some? <==> d.snapshotUrl.Some? && "timestamp" in reply.archivedSnapshots.value["closest"]
    ensures d.timestamp.Some? ==> d.timestamp.value == reply.archivedSnapshots.value["closest"]["timestamp"]
  {
    match reply
    case AvailabilityRaised => Discovery(None, None)
    case AvailabilityJson(snapshots) =>
      if snapshots.Some? && "closest" in snapshots.value then
        var closest := snapshots.value["closest"];
        if "url" !in closest then Discovery(None, None)
        else if "timestamp" !in closest then Discovery(Some(closest["url"]), None)
        else Discovery(Some(closest["url"]), Some(closest["timestamp"]))
      else Discovery(None, None)
  }

  /** `if snapshot_url:` — present and not the empty string. */
  predicate HasSnapshot(reply: AvailabilityReply)
  {
    var d := Discover(reply);
    d.snapshotUrl.Some? && d.snapshotUrl.value != ""
  }

  /** `cleaned_text`: the extracted text on status 200, and `""` on any other status or an exception. */
  function FetchedText(reply: ContentReply): string
  {
    if reply.ContentResponse? && reply.statusCode == 200 then reply.cleanedText else ""
  }

  /** The record staged for a URL whose snapshot was found. */
  function RecordFor(url: string, ex: Exchange): StagedRecord
  {
    StagedRecord(url, Discover(ex.availability).timestamp, FetchedText(ex.content))
  }

  /** What the loop body adds to `results` for the `k`-th URL. */
  function StageOne(url: string, ex: Exchange): seq<StagedRecord>
  {
    if HasSnapshot(ex.availability) then [RecordFor(url, ex)] else []
  }

  /** `results` after the first `n` URLs. */
  function Staged(urls: seq<string>, network: nat -> Exchange, n: nat): seq<StagedRecord>
    requires n <= |urls|
  {
    if n == 0 then [] else Staged(urls, network, n - 1) + StageOne(urls[n - 1], network(n - 1))
  }

  /** The requests the loop body sends for one URL: the availability query, then the snapshot if there is one. */
  function RequestsOne(url: string, ex: Exchange): seq<string>
  {
    [AVAILABILITY_ENDPOINT + url] + (if HasSnapshot(ex.availability) then [Discover(ex.availability).snapshotUrl.value] else [])
  }

  /** The requests sent for the first `n` URLs, in order. */
  function Requests(urls: seq<string>, network: nat -> Exchange, n: nat): seq<string>
    requires n <= |urls|
  {
    if n == 0 then [] else Requests(urls, network, n - 1) + RequestsOne(urls[n - 1], network(n - 1))
  }

  /** The loop over the URL list. */
  method StageAll(urls: seq<string>, network: nat -> Exchange) returns (results: seq<StagedRecord>, requests: seq<string>)
    ensures results == Staged(urls, network, |urls|)
    ensures requests == Requests(urls, network, |urls|)
  {
    results, requests := [], [];
    var i := 0;
    while i < |urls|
      invariant 0 <= i <= |urls|
      invariant results == Staged(urls, network, i)
      invariant requests == Requests(urls, network, i)
    {
      var url := urls[i];
      var ex := network(i);
      var snapshotUrl: Option<string> := None;
      var timestamp: Option<string> := None;
      var cleanedText := "";
      requests := requests + [AVAILABILITY_ENDPOINT + url];
      var d := Discover(ex.availability);
      snapshotUrl, timestamp := d.snapshotUrl, d.timestamp;
      if snapshotUrl.Some? && snapshotUrl.value != "" {
        requests := requests + [snapshotUrl.value];
        match ex.content
        case ContentResponse(status, text) =>
          if status == 200 {
            cleanedText := text;
          }
        case ContentRaised =>
      }
      if snapshotUrl.Some? && snapshotUrl.value != "" {
        results := results + [StagedRecord(url, timestamp, cleanedText)];
      }
      i := i + 1;
    }
  }

  /**
   * `ArchiveRetriever.run`. `input` is the input file's content (`None`:
   * missing or unreadable); `writeSucceeds` says whether writing the output
   * file works. `output` is what the output file holds afterwards (`None`:
   * not written).
   */
  method Run(input: Option<string>, network: nat -> Exchange, writeSucceeds: bool)
    returns (ok: bool, output: Option<seq<StagedRecord>>, requests: seq<string>)
    ensures input.None? ==> !ok && output.None? && requests == []
    ensures input.Some? ==>
      var urls := UrlList.ReadUrls(input.value);
      && ok == writeSucceeds
      && output == (if writeSucceeds then Some(Staged(urls, network, |urls|)) else None)
      && requests == Requests(urls, network, |urls|)
  {
    if input.None? {
      return false, None, [];
    }
    var urls := UrlList.ReadUrls(input.value);
    var results;
    results, requests := StageAll(urls, network);
    if writeSucceeds {
      ok, output := true, Some(results);
    } else {
      ok, output := false, None;
    }
  }

  // ----- Properties of the staged records -----

  /** A URL stages a record exactly when its availability reply names a non-empty snapshot URL. */
  predicate Found(network: nat -> Exchange, i: nat)
  {
    HasSnapshot(network(i).availability)
  }

  /**
   * The staged records are, in input order, exactly one per URL whose
   * snapshot was found: the `k`-th record belongs to the `idx[k]`-th URL,
   * carries it verbatim with the discovered timestamp and the fetched text.
   */
  lemma {:induction false} StagedExactly(urls: seq<string>, network: nat -> Exchange, n: nat)
    requires n <= |urls|
    ensures var idx := Indices.Matching((i: nat) => Found(network, i), n);
      && |Staged(urls, network, n)| == |idx|
      && forall k :: 0 <= k < |idx| ==> Staged(urls, network, n)[k] == RecordFor(urls[idx[k]], network(idx[k]))
  {
    if n > 0 {
      StagedExactly(urls, network, n - 1);
    }
  }

  /** At most one record per input URL. */
  lemma StagedBound(urls: seq<string>, network: nat -> Exchange, n: nat)
    requires n <= |urls|
    ensures |Staged(urls, network, n)| <= n
  {
    StagedExactly(urls, network, n);
  }

  /** A URL without a snapshot stages nothing, whether discovery raised or found none. */
  lemma {:induction false} NotFoundStagesNothing(urls: seq<string>, network: nat -> Exchange, n: nat)
    requires n <= |urls|
    requires forall i :: 0 <= i < n ==> !Found(network, i)
    ensures Staged(urls, network, n) == []
  {
    if n > 0 {
      NotFoundStagesNothing(urls, network, n - 1);
      assert !Found(network, n - 1);
      assert StageOne(urls[n - 1], network(n - 1)) == [];
    }
  }

  /** A found snapshot whose fetch is not a 200 is still staged, with empty text and the discovered timestamp. */
  lemma FailedFetchStaged(url: string, ex: Exchange)
    requires HasSnapshot(ex.availability)
    requires !(ex.content.ContentResponse? && ex.content.statusCode == 200)
    ensures StageOne(url, ex) == [StagedRecord(url, Discover(ex.availability).timestamp, "")]
  {
  }

  /** One availability request per URL and one snapshot fetch per staged record. */
  lemma {:induction false} RequestCount(urls: seq<string>, network: nat -> Exchange, n: nat)
    requires n <= |urls|
    ensures |Requests(urls, network, n)| == n + |Staged(urls, network, n)|
  {
    if n > 0 {
      RequestCount(urls, network, n - 1);
    }
  }
}
