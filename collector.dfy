/**
 * `Collector.run`: probe every URL of the seed list with a HEAD request,
 * keep the dead ones in input order, mirror each verdict into the
 * `reported_urls` table (dead: `CONFIRMED_DEAD`, alive: row deleted), and
 * write the dead URLs out, one per line.
 *
 * The network is an oracle (`probe(k)` is the HEAD reply for the `k`-th
 * URL), and so is the database (`statementFails(k)` says whether the
 * statement for the `k`-th URL raises). The table is a map from URL to status.
 */
module Collector {
  import opened Wrappers
  import UrlList
  import Indices
  import opened Strings

  const CONFIRMED_DEAD := "CONFIRMED_DEAD"

  /** The HEAD request: any exception (timeout, other request errors, anything else), or a final status code. */
  datatype HeadReply = HeadRaised | HeadResponse(statusCode: int)

  /** The connection's state: the table as committed, and whether the transaction has been aborted. */
  datatype Db = Db(table: map<string, string>, aborted: bool)

  predicate HasScheme(url: string)
  {
    StartsWith(url, "http://") || StartsWith(url, "https://")
  }

  /** `target_url`: the URL with `http://` put in front unless it already starts with `http://` or `https://`. */
  function TargetUrl(url: string): (t: string)
    ensures HasScheme(t)
    ensures HasScheme(url) ==> t == url
    ensures !HasScheme(url) ==> t == "http://" + url
  {
    if HasScheme(url) then url
    else
      var t := "http://" + url;
      assert t[..7] == "http://";
      t
  }

  /** A URL is dead when the probe raised or answered 404; every other status, 5xx included, is alive. */
  predicate IsDead(reply: HeadReply)
  {
    reply.HeadRaised? || reply.statusCode == 404
  }

  /** The table after one committed statement: `UPDATE ... SET status='CONFIRMED_DEAD'` or `DELETE`, both `WHERE url=%s`. */
  function Apply(table: map<string, string>, url: string, dead: bool): map<string, string>
  {
    if !dead then table - {url}
    else if url in table then table[url := CONFIRMED_DEAD]
    else table
  }

  /**
   * One URL's database step. The `except` branch neither rolls back nor
   * reconnects, so once a statement has raised, the transaction stays
   * aborted and every later statement on the connection raises too.
   */
  function SyncOne(db: Db, url: string, dead: bool, fails: bool): Db
  {
    if db.aborted || fails then Db(db.table, true)
    else Db(Apply(db.table, url, dead), false)
  }

  /** `dead_urls` after the first `n` URLs. */
  function DeadUrls(urls: seq<string>, probe: nat -> HeadReply, n: nat): seq<string>
    requires n <= |urls|
  {
    if n == 0 then [] else DeadUrls(urls, probe, n - 1) + (if IsDead(probe(n - 1)) then [urls[n - 1]] else [])
  }

  /** The database after the first `n` URLs, over a connection that was opened. */
  function Synced(urls: seq<string>, probe: nat -> HeadReply, statementFails: nat -> bool, db: Db, n: nat): Db
    requires n <= |urls|
  {
    if n == 0 then db
    else SyncOne(Synced(urls, probe, statementFails, db, n - 1), urls[n - 1], IsDead(probe(n - 1)), statementFails(n - 1))
  }

  /** The HEAD requests sent: one per URL, in order, to its `TargetUrl`. */
  function Targets(urls: seq<string>, n: nat): seq<string>
    requires n <= |urls|
  {
    if n == 0 then [] else Targets(urls, n - 1) + [TargetUrl(urls[n - 1])]
  }

  /**
   * The validation loop. `connected` says whether `get_connection` gave a
   * connection; without one the table is not touched.
   */
  method CheckAll(urls: seq<string>, probe: nat -> HeadReply, connected: bool,
                  table: map<string, string>, statementFails: nat -> bool)
    returns (dead: seq<string>, table': map<string, string>, targets: seq<string>)
    ensures dead == DeadUrls(urls, probe, |urls|)
    ensures table' == if connected then Synced(urls, probe, statementFails, Db(table, false), |urls|).table else table
    ensures targets == Targets(urls, |urls|)
  {
    dead, targets := [], [];
    var db := Db(table, false);
    var i := 0;
    while i < |urls|
      invariant 0 <= i <= |urls|
      invariant dead == DeadUrls(urls, probe, i)
      invariant targets == Targets(urls, i)
      invariant connected ==> db == Synced(urls, probe, statementFails, Db(table, false), i)
      invariant !connected ==> db == Db(table, false)
    {
      var url := urls[i];
      var targetUrl := url;
      if !HasScheme(targetUrl) {
        targetUrl := "http://" + targetUrl;
      }
      targets := targets + [targetUrl];
      var isDead := false;
      match probe(i) {
        case HeadResponse(status) =>
          if status == 404 {
            isDead := true;
          }
        case HeadRaised =>
          isDead := true;
      }
      if isDead {
        dead := dead + [url];
      }
      if connected {
        if db.aborted || statementFails(i) {
          db := db.(aborted := true);
        } else if isDead {
          if url in db.table {
            db := db.(table := db.table[url := CONFIRMED_DEAD]);
          }
        } else {
          db := db.(table := db.table - {url});
        }
      }
      i := i + 1;
    }
    table' := db.table;
  }

  /**
   * `Collector.run`. `input` is the seed file's content (`None`: missing or
   * unreadable); `output` is what the output file holds afterwards (`None`:
   * not written).
   */
  method Run(input: Option<string>, probe: nat -> HeadReply, connected: bool, table: map<string, string>,
             statementFails: nat -> bool, writeSucceeds: bool)
    returns (ok: bool, output: Option<string>, table': map<string, string>, targets: seq<string>)
    ensures input.None? ==> !ok && output.None? && table' == table && targets == []
    ensures input.Some? ==>
      var urls := UrlList.ReadUrls(input.value);
      && ok == writeSucceeds
      && output == (if writeSucceeds then Some(UrlList.WriteLines(DeadUrls(urls, probe, |urls|))) else None)
      && table' == (if connected then Synced(urls, probe, statementFails, Db(table, false), |urls|).table else table)
      && targets == Targets(urls, |urls|)
  {
    if input.None? {
      return false, None, table, [];
    }
    var urls := UrlList.ReadUrls(input.value);
    var dead;
    dead, table', targets := CheckAll(urls, probe, connected, table, statementFails);
    if writeSucceeds {
      ok, output := true, Some(UrlList.WriteLines(dead));
    } else {
      ok, output := false, None;
    }
  }

  // ----- Properties -----

  /** Putting the scheme in front twice is putting it in front once. */
  lemma TargetUrlIdempotent(url: string)
    ensures TargetUrl(TargetUrl(url)) == TargetUrl(url)
  {
  }

  predicate DeadAt(probe: nat -> HeadReply, i: nat)
  {
    IsDead(probe(i))
  }

  /**
   * `dead_urls` is the sub-sequence of the input (as read, not with the
   * scheme added) at exactly the positions judged dead, in input order.
   */
  lemma {:induction false} DeadUrlsExactly(urls: seq<string>, probe: nat -> HeadReply, n: nat)
    requires n <= |urls|
    ensures var idx := Indices.Matching((i: nat) => DeadAt(probe, i), n);
      && |DeadUrls(urls, probe, n)| == |idx|
      && forall k :: 0 <= k < |idx| ==> DeadUrls(urls, probe, n)[k] == urls[idx[k]]
  {
    if n > 0 {
      DeadUrlsExactly(urls, probe, n - 1);
    }
  }

  /** The dead URLs keep what `ReadUrls` promises, so the output file reads back as them. */
  lemma {:induction false} DeadUrlsAreUrlList(urls: seq<string>, probe: nat -> HeadReply, n: nat)
    requires n <= |urls| && UrlList.IsUrlList(urls)
    ensures UrlList.IsUrlList(DeadUrls(urls, probe, n))
  {
    if n > 0 {
      DeadUrlsAreUrlList(urls, probe, n - 1);
    }
  }

  /** The loop only updates or deletes: no row is added, and a row keeps its status or becomes `CONFIRMED_DEAD`. */
  lemma {:induction false} SyncedOnlyConfirmsOrDeletes(urls: seq<string>, probe: nat -> HeadReply,
                                                       statementFails: nat -> bool, db: Db, n: nat)
    requires n <= |urls|
    ensures var t := Synced(urls, probe, statementFails, db, n).table;
      forall u :: u in t ==> u in db.table && (t[u] == db.table[u] || t[u] == CONFIRMED_DEAD)
  {
    if n > 0 {
      SyncedOnlyConfirmsOrDeletes(urls, probe, statementFails, db, n - 1);
    }
  }

  /** Rows for URLs that are not in the input are left as they were. */
  lemma {:induction false} SyncedOtherRowsUnchanged(urls: seq<string>, probe: nat -> HeadReply,
                                                    statementFails: nat -> bool, db: Db, n: nat, u: string)
    requires n <= |urls| && u !in urls[..n]
    ensures var t := Synced(urls, probe, statementFails, db, n).table;
      (u in t <==> u in db.table) && (u in t ==> t[u] == db.table[u])
  {
    if n > 0 {
      assert urls[..n - 1] <= urls[..n];
      SyncedOtherRowsUnchanged(urls, probe, statementFails, db, n - 1, u);
      assert urls[..n][n - 1] == urls[n - 1];
    }
  }

  /**
   * Without a failing statement, every input URL ends `CONFIRMED_DEAD` or
   * without a row: nothing the collector has seen is left `PENDING` or
   * `PROCESSING`.
   */
  lemma {:induction false} SyncedSettlesEveryUrl(urls: seq<string>, probe: nat -> HeadReply,
                                                 statementFails: nat -> bool, table: map<string, string>, n: nat)
    requires n <= |urls|
    requires forall i :: 0 <= i < n ==> !statementFails(i)
    ensures var db := Synced(urls, probe, statementFails, Db(table, false), n);
      && !db.aborted
      && forall i :: 0 <= i < n ==> urls[i] !in db.table || db.table[urls[i]] == CONFIRMED_DEAD
  {
    if n > 0 {
      SyncedSettlesEveryUrl(urls, probe, statementFails, table, n - 1);
    }
  }

  /** Without a failing statement, a URL the collector was given ends `CONFIRMED_DEAD` or without a row. */
  lemma SyncedSettlesListedUrl(urls: seq<string>, probe: nat -> HeadReply, statementFails: nat -> bool,
                               table: map<string, string>, u: string)
    requires u in urls
    requires forall i :: 0 <= i < |urls| ==> !statementFails(i)
    ensures var t := Synced(urls, probe, statementFails, Db(table, false), |urls|).table;
      u !in t || t[u] == CONFIRMED_DEAD
  {
    SyncedSettlesEveryUrl(urls, probe, statementFails, table, |urls|);
    var i :| 0 <= i < |urls| && urls[i] == u;
  }

  /**
   * The verdict of a URL's last occurrence decides its row: alive deletes
   * it, dead keeps a row that existed just before that occurrence.
   */
  lemma {:induction false} SyncedLastVerdict(urls: seq<string>, probe: nat -> HeadReply,
                                             statementFails: nat -> bool, table: map<string, string>, n: nat, i: nat)
    requires i < n <= |urls|
    requires forall j :: 0 <= j < n ==> !statementFails(j)
    requires forall j :: i < j < n ==> urls[j] != urls[i]
    ensures var t := Synced(urls, probe, statementFails, Db(table, false), n).table;
      var before := Synced(urls, probe, statementFails, Db(table, false), i).table;
      if IsDead(probe(i)) then (urls[i] in t <==> urls[i] in before) else urls[i] !in t
  {
    SyncedSettlesEveryUrl(urls, probe, statementFails, table, n - 1);
    if n - 1 > i {
      SyncedLastVerdict(urls, probe, statementFails, table, n - 1, i);
    }
  }

  /** Without failures, a URL has a row after the loop only if it had one before (deletions only remove). */
  lemma {:induction false} PresenceUnchangedByDead(urls: seq<string>, probe: nat -> HeadReply,
                                                   statementFails: nat -> bool, table: map<string, string>, n: nat, u: string)
    requires n <= |urls|
    requires forall j :: 0 <= j < n ==> !statementFails(j)
    requires forall j :: 0 <= j < n && urls[j] == u ==> IsDead(probe(j))
    ensures (u in Synced(urls, probe, statementFails, Db(table, false), n).table) <==> u in table
  {
    if n > 0 {
      PresenceUnchangedByDead(urls, probe, statementFails, table, n - 1, u);
      SyncedSettlesEveryUrl(urls, probe, statementFails, table, n - 1);
    }
  }

  /**
   * Once a statement has failed, nothing later takes effect: the table after
   * the whole loop is the table before the failing statement.
   */
  lemma {:induction false} FailureFreezesTable(urls: seq<string>, probe: nat -> HeadReply,
                                               statementFails: nat -> bool, db: Db, f: nat, n: nat)
    requires f < n <= |urls| && statementFails(f)
    ensures Synced(urls, probe, statementFails, db, n).aborted
    ensures Synced(urls, probe, statementFails, db, n).table == Synced(urls, probe, statementFails, db, f).table
  {
    if n - 1 > f {
      FailureFreezesTable(urls, probe, statementFails, db, f, n - 1);
    }
  }
}
