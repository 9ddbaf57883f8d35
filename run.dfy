/**
 * The top-level run (scrape-lmarena.mjs, lines 88-120): one timestamp for the
 * whole run, then every arena in turn is scraped, its rows are upserted when
 * there are any, and exactly one outcome is logged for it; a failure in one
 * arena is caught and the loop goes on with the next.
 *
 * The browser and the database are not modelled. What loading an arena's page
 * gives, and what the upsert answers, are inputs (`ArenaEnv`), looked up by
 * the arena's slug.
 */
module Run {
  import opened Extract
  import opened Scrape

  /** Loading and reading an arena's page either throws or yields the rendered rows. */
  datatype PageOutcome = PageThrew | Rendered(rows: seq<PageRow>)

  /** The upsert either succeeds, resolves with an `error`, or throws. */
  datatype UpsertOutcome = Stored | Rejected | UpsertThrew

  /** What the outside world answers for each arena. */
  datatype ArenaEnv = ArenaEnv(page: string -> PageOutcome, upsert: string -> UpsertOutcome)

  /**
   * The one line logged for an arena: `[ARENA FAIL]` (line 113), `[WARN]` for
   * no rows (line 98), `[ERROR] Upsert` (line 108) or `[OK]` with the row count
   * (line 110).
   */
  datatype LogEntry =
    | ArenaFail(slug: string)
    | NoRows(slug: string)
    | UpsertError(slug: string)
    | Ok(slug: string, count: nat)

  /** One call of `upsert` (lines 103-105): the table, the conflict key and the payload. */
  datatype Batch = Batch(table: string, onConflict: string, payload: seq<PayloadRow>)

  /** The rows `scrapeArena` returns for `slug`, when loading the page does not throw. */
  function ArenaRows(slug: string, env: ArenaEnv): (r: seq<ArenaRow>)
    requires env.page(slug).Rendered?
  {
    ScrapeArena(slug, env.page(slug).rows)
  }

  /** The upsert sent for `slug`, if any: only when the page loaded and gave at least one row. */
  function ArenaBatch(slug: string, env: ArenaEnv, scrapedAt: string): (r: seq<Batch>) {
    if env.page(slug).PageThrew? || ArenaRows(slug, env) == [] then []
    else [Batch(Table, ConflictKey, Payload(ArenaRows(slug, env), scrapedAt))]
  }

  /** The outcome logged for `slug`. */
  function ArenaLog(slug: string, env: ArenaEnv): (r: LogEntry) {
    if env.page(slug).PageThrew? then ArenaFail(slug)
    else if ArenaRows(slug, env) == [] then NoRows(slug)
    else match env.upsert(slug)
      case Stored => Ok(slug, |ArenaRows(slug, env)|)
      case Rejected => UpsertError(slug)
      case UpsertThrew => ArenaFail(slug)
  }

  /** The log of a run over `arenas`: one entry per arena, in order. */
  function Logs(arenas: seq<string>, env: ArenaEnv): (log: seq<LogEntry>)
    ensures |log| == |arenas|
  {
    seq(|arenas|, k requires 0 <= k < |arenas| => ArenaLog(arenas[k], env))
  }

  /** The upserts of a run over `arenas`, in order. */
  function Sent(arenas: seq<string>, env: ArenaEnv, scrapedAt: string): (r: seq<Batch>)
    decreases |arenas|
  {
    if arenas == [] then []
    else Sent(arenas[..|arenas| - 1], env, scrapedAt) + ArenaBatch(arenas[|arenas| - 1], env, scrapedAt)
  }

  /**
   * The loop of lines 94-116 over `Arenas`, with the timestamp taken once
   * before it (line 91): returns the log and the upserts sent, in order.
   */
  method ScrapeAll(env: ArenaEnv, scrapedAt: string) returns (log: seq<LogEntry>, sent: seq<Batch>)
    ensures log == Logs(Arenas, env)
    ensures sent == Sent(Arenas, env, scrapedAt)
  {
    log, sent := RunArenas(Arenas, env, scrapedAt);
  }

  /** The loop of lines 94-116 over any list of arenas. */
  method RunArenas(arenas: seq<string>, env: ArenaEnv, scrapedAt: string) returns (log: seq<LogEntry>, sent: seq<Batch>)
    ensures log == Logs(arenas, env)
    ensures sent == Sent(arenas, env, scrapedAt)
  {
    log, sent := [], [];
    for i := 0 to |arenas|
      invariant log == Logs(arenas[..i], env)
      invariant sent == Sent(arenas[..i], env, scrapedAt)
    {
      var slug := arenas[i];
      NextArena(arenas, i, env, scrapedAt);
      var page := env.page(slug);
      if page.PageThrew? {
        log := log + [ArenaFail(slug)];
        continue;
      }
      var rows := ScrapeArena(slug, page.rows);
      if |rows| == 0 {
        log := log + [NoRows(slug)];
        continue;
      }
      var payload := Payload(rows, scrapedAt);
      sent := sent + [Batch(Table, ConflictKey, payload)];
      match env.upsert(slug)
      case Stored =>
        log := log + [Ok(slug, |rows|)];
      case Rejected =>
        log := log + [UpsertError(slug)];
      case UpsertThrew =>
        log := log + [ArenaFail(slug)];
    }
    assert arenas[..|arenas|] == arenas;
  }

  /** Visiting one more arena appends its log entry and its upsert, if any. */
  lemma NextArena(arenas: seq<string>, i: nat, env: ArenaEnv, scrapedAt: string)
    requires i < |arenas|
    ensures Logs(arenas[..i + 1], env) == Logs(arenas[..i], env) + [ArenaLog(arenas[i], env)]
    ensures Sent(arenas[..i + 1], env, scrapedAt) == Sent(arenas[..i], env, scrapedAt) + ArenaBatch(arenas[i], env, scrapedAt)
  {
    assert arenas[..i + 1][..i] == arenas[..i];
  }

  // ---------------------------------------------------------------------------
  // Properties
  // ---------------------------------------------------------------------------

  /** Every arena is visited, in list order, and logs exactly one outcome under its own slug. */
  lemma LogFollowsArenas(arenas: seq<string>, env: ArenaEnv)
    ensures |Logs(arenas, env)| == |arenas|
    ensures forall k :: 0 <= k < |arenas| ==> Logs(arenas, env)[k].slug == arenas[k]
  {
  }

  /**
   * The specification `Logs` is built arena by arena: its entry for one arena
   * depends on nothing but that arena's own page and upsert. This documents
   * the shape of the specification; that the loop meets it is the
   * postcondition of `RunArenas`, together with `LogFollowsArenas`.
   */
  lemma ArenasIsolated(arenas: seq<string>, env1: ArenaEnv, env2: ArenaEnv, k: nat)
    requires k < |arenas|
    requires env1.page(arenas[k]) == env2.page(arenas[k]) && env1.upsert(arenas[k]) == env2.upsert(arenas[k])
    ensures Logs(arenas, env1)[k] == Logs(arenas, env2)[k]
  {
  }

  /** The upserts of a run split at any point into those of the two parts. */
  lemma {:induction false} SentAppend(a: seq<string>, b: seq<string>, env: ArenaEnv, scrapedAt: string)
    ensures Sent(a + b, env, scrapedAt) == Sent(a, env, scrapedAt) + Sent(b, env, scrapedAt)
    decreases |b|
  {
    if b == [] {
      assert a + b == a;
    } else {
      var init := b[..|b| - 1];
      assert (a + b)[..|a + b| - 1] == a + init;
      SentAppend(a, init, env, scrapedAt);
    }
  }

  /**
   * An upsert is sent exactly for the arenas whose page loaded and gave rows:
   * an arena with no rows, or whose page threw, sends nothing.
   */
  lemma {:induction false} SentMembership(arenas: seq<string>, env: ArenaEnv, scrapedAt: string, b: Batch)
    ensures b in Sent(arenas, env, scrapedAt) <==>
              exists k :: 0 <= k < |arenas| && b in ArenaBatch(arenas[k], env, scrapedAt)
    decreases |arenas|
  {
    if arenas != [] {
      var init := arenas[..|arenas| - 1];
      SentMembership(init, env, scrapedAt, b);
      if exists k :: 0 <= k < |arenas| && b in ArenaBatch(arenas[k], env, scrapedAt) {
        var k :| 0 <= k < |arenas| && b in ArenaBatch(arenas[k], env, scrapedAt);
        if k < |arenas| - 1 {
          assert init[k] == arenas[k];
        }
      }
      if exists k :: 0 <= k < |init| && b in ArenaBatch(init[k], env, scrapedAt) {
        var k :| 0 <= k < |init| && b in ArenaBatch(init[k], env, scrapedAt);
        assert arenas[k] == init[k];
      }
    }
  }

  /** As many upserts are sent as arenas log something other than a page failure or no rows. */
  lemma {:induction false} SentCount(arenas: seq<string>, env: ArenaEnv, scrapedAt: string)
    ensures |Sent(arenas, env, scrapedAt)| == |UpsertedArenas(arenas, env)|
    decreases |arenas|
  {
    if arenas != [] {
      SentCount(arenas[..|arenas| - 1], env, scrapedAt);
    }
  }

  /** The arenas whose page loaded and gave at least one row, in order. */
  function UpsertedArenas(arenas: seq<string>, env: ArenaEnv): (r: seq<string>)
    ensures |r| <= |arenas|
    ensures forall a :: a in r <==> a in arenas && env.page(a).Rendered? && ArenaRows(a, env) != []
    decreases |arenas|
  {
    if arenas == [] then []
    else
      var last := arenas[|arenas| - 1];
      UpsertedArenas(arenas[..|arenas| - 1], env)
        + (if env.page(last).Rendered? && ArenaRows(last, env) != [] then [last] else [])
  }

  /** The log tells which arenas were upserted: all but those logged as no rows or failed before the upsert. */
  lemma UpsertedIffLogged(slug: string, env: ArenaEnv)
    ensures (env.page(slug).Rendered? && ArenaRows(slug, env) != []) <==>
              (ArenaLog(slug, env).Ok? || ArenaLog(slug, env).UpsertError?
               || (ArenaLog(slug, env).ArenaFail? && env.upsert(slug) == UpsertThrew && env.page(slug).Rendered?))
  {
  }

  /** An arena logs `[OK]` exactly when its upsert was sent and stored, with the number of rows sent. */
  lemma OkMatchesBatch(slug: string, env: ArenaEnv, scrapedAt: string)
    ensures ArenaLog(slug, env).Ok? <==> |ArenaBatch(slug, env, scrapedAt)| == 1 && env.upsert(slug) == Stored
    ensures ArenaLog(slug, env).Ok? ==> ArenaLog(slug, env).count == |ArenaBatch(slug, env, scrapedAt)[0].payload| > 0
  {
  }

  /**
   * Every upsert of a run goes to the snapshot table with the run's conflict key,
   * is non-empty, and every row in it carries the run's one timestamp, names its
   * arena and page, and has `row_json` equal to its own fields.
   */
  lemma SentBatchesWellFormed(arenas: seq<string>, env: ArenaEnv, scrapedAt: string, b: Batch)
    requires b in Sent(arenas, env, scrapedAt)
    ensures b.table == Table && b.onConflict == ConflictKey && |b.payload| > 0
    ensures exists k :: 0 <= k < |arenas| && forall j :: 0 <= j < |b.payload| ==>
              b.payload[j].scrapedAt == scrapedAt && b.payload[j].rowJson == b.payload[j].fields
              && b.payload[j].fields.arena == arenas[k] && b.payload[j].fields.sourceUrl == ArenaUrl(arenas[k])
  {
    SentMembership(arenas, env, scrapedAt, b);
    var k :| 0 <= k < |arenas| && b in ArenaBatch(arenas[k], env, scrapedAt);
    var slug := arenas[k];
    var rows := ArenaRows(slug, env);
    ScrapeArenaRows(slug, env.page(slug).rows);
    PayloadRows(rows, scrapedAt);
    assert b.payload == Payload(rows, scrapedAt);
    assert forall j :: 0 <= j < |b.payload| ==>
             b.payload[j].scrapedAt == scrapedAt && b.payload[j].rowJson == b.payload[j].fields
             && b.payload[j].fields.arena == slug && b.payload[j].fields.sourceUrl == ArenaUrl(slug);
  }

  /** A run in which every page throws logs nine failures and sends nothing. */
  lemma AllPagesThrow(env: ArenaEnv, scrapedAt: string)
    requires forall slug :: env.page(slug) == PageThrew
    ensures Logs(Arenas, env) == seq(|Arenas|, k requires 0 <= k < |Arenas| => ArenaFail(Arenas[k]))
    ensures Sent(Arenas, env, scrapedAt) == []
  {
    SentCount(Arenas, env, scrapedAt);
    NoneUpserted(Arenas, env);
  }

  lemma {:induction false} NoneUpserted(arenas: seq<string>, env: ArenaEnv)
    requires forall slug :: env.page(slug) == PageThrew
    ensures UpsertedArenas(arenas, env) == []
    decreases |arenas|
  {
    if arenas != [] {
      NoneUpserted(arenas[..|arenas| - 1], env);
    }
  }
}
