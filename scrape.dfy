/**
 * `scrapeArena` (scrape-lmarena.mjs, lines 70-86) after the page has been
 * loaded: the returned records are mapped, in order, onto the rows stored for
 * one arena, and line 101 turns those rows into the upsert payload.
 */
module Scrape {
  import opened Optional
  import opened Extract

  /** The leaderboard's base address (line 12). */
  const Base: string := "https://lmarena.ai/leaderboard"

  /** The arenas visited, in order (lines 8-10). */
  const Arenas: seq<string> := [
    "text", "webdev", "vision", "text-to-image", "image-edit", "search",
    "text-to-video", "image-to-video", "copilot"]

  /** The table written to (line 104). */
  const Table: string := "lm_arena_leaderboard_snapshots"

  /** The `onConflict` column list of line 105, as written. */
  const ConflictKey: string := "arena, scraped_at, model_name, rank_position"

  /** The page of an arena: `${BASE}/${slug}` (line 71). */
  function ArenaUrl(slug: string): (url: string)
    ensures |url| == |Base| + 1 + |slug|
    ensures url[..|Base|] == Base && url[|Base|] == '/' && url[|Base| + 1..] == slug
  {
    Base + "/" + slug
  }

  /** One row for the snapshot table, as built at lines 76-85. */
  datatype ArenaRow = ArenaRow(
    arena: string,
    rankPosition: int,
    modelName: Option<string>,
    organization: Option<string>,
    overallScore: Option<real>,
    votes: Option<int>,
    license: Option<string>,
    sourceUrl: string)

  /** `r.rankUB ?? (i + 1)`: the parsed rank when there is one (zero included), else the 1-based position. */
  function RankPosition(item: Item, i: nat): (r: int) {
    match item.rankUB
    case Some(rank) => rank
    case None => i + 1
  }

  /** The mapping of lines 76-85 for the record at position `i`. */
  function ShapeRow(slug: string, item: Item, i: nat): (r: ArenaRow) {
    ArenaRow(slug, RankPosition(item, i), item.model, item.organization, item.score,
             item.votes, item.license, ArenaUrl(slug))
  }

  /** `rows.map((r, i) => …)`. */
  function Shape(slug: string, items: seq<Item>): (r: seq<ArenaRow>)
    ensures |r| == |items|
  {
    seq(|items|, i requires 0 <= i < |items| => ShapeRow(slug, items[i], i))
  }

  /** What `scrapeArena(page, slug)` returns for a page whose rendered rows are `rows`. */
  function ScrapeArena(slug: string, rows: seq<PageRow>): (r: seq<ArenaRow>) {
    Shape(slug, Survivors(ReadRows(rows)))
  }

  /** One element of the payload of line 101: the row's own fields, the run's timestamp and the row itself. */
  datatype PayloadRow = PayloadRow(fields: ArenaRow, scrapedAt: string, rowJson: ArenaRow)

  /** `rows.map(r => ({ ...r, scraped_at, row_json: r }))`. */
  function Payload(rows: seq<ArenaRow>, scrapedAt: string): (p: seq<PayloadRow>)
    ensures |p| == |rows|
  {
    seq(|rows|, i requires 0 <= i < |rows| => PayloadRow(rows[i], scrapedAt, rows[i]))
  }

  /** The columns the conflict key names, read off a payload row. */
  datatype KeyColumns = KeyColumns(arena: string, scrapedAt: string, modelName: Option<string>, rankPosition: int)

  function KeyOf(p: PayloadRow): (r: KeyColumns) {
    KeyColumns(p.fields.arena, p.scrapedAt, p.fields.modelName, p.fields.rankPosition)
  }

  // ---------------------------------------------------------------------------
  // Properties
  // ---------------------------------------------------------------------------

  /** The slug can be read back from the source URL, so different arenas never share one. */
  lemma ArenaUrlInjective(a: string, b: string)
    ensures ArenaUrl(a) == ArenaUrl(b) <==> a == b
  {
    if ArenaUrl(a) == ArenaUrl(b) {
      assert a == ArenaUrl(a)[|Base| + 1..];
    }
  }

  /**
   * Every stored row of an arena names that arena and its page, and each comes,
   * in order, from the returned record at the same position.
   */
  lemma ScrapeArenaRows(slug: string, rows: seq<PageRow>)
    ensures |ScrapeArena(slug, rows)| == |Survivors(ReadRows(rows))|
    ensures forall k :: 0 <= k < |ScrapeArena(slug, rows)| ==>
              var r := ScrapeArena(slug, rows)[k];
              var item := Survivors(ReadRows(rows))[k];
              r.arena == slug && r.sourceUrl == Base + "/" + slug
              && r.rankPosition == RankPosition(item, k)
              && r.modelName == item.model && r.overallScore == item.score
              && r.organization == item.organization && r.votes == item.votes
              && r.license == item.license
  {
  }

  /** Every stored row has a non-empty model name and a non-zero score. */
  lemma ScrapeArenaTruthy(slug: string, rows: seq<PageRow>)
    ensures forall k :: 0 <= k < |ScrapeArena(slug, rows)| ==>
              var r := ScrapeArena(slug, rows)[k];
              r.modelName.Some? && r.modelName.value != "" && r.overallScore.Some? && r.overallScore.value != 0.0
  {
    var items := Survivors(ReadRows(rows));
    assert forall k :: 0 <= k < |items| ==> Truthy(items[k]);
  }

  /** An arena yields no rows exactly when no record survives extraction. */
  lemma ScrapeArenaEmpty(slug: string, rows: seq<PageRow>)
    ensures ScrapeArena(slug, rows) == [] <==> Survivors(ReadRows(rows)) == []
  {
  }

  /** A parsed rank is kept as it is, zero included: `??` only replaces a missing rank. */
  lemma RankKept(item: Item, i: nat)
    requires item.rankUB.Some?
    ensures RankPosition(item, i) == item.rankUB.value
  {
  }

  /** A record without a parsed rank is ranked by its position among the returned records, counted from 1. */
  lemma RankFallback(slug: string, items: seq<Item>, k: nat)
    requires k < |items| && items[k].rankUB.None?
    ensures Shape(slug, items)[k].rankPosition == k + 1
  {
  }

  /**
   * When no record carries a parsed rank, the rank positions are 1, 2, …, n, so
   * the rows of one payload never collide on the conflict key.
   */
  lemma FallbackKeysDistinct(slug: string, items: seq<Item>, scrapedAt: string)
    requires forall k :: 0 <= k < |items| ==> items[k].rankUB.None?
    ensures forall j, k :: 0 <= j < k < |items| ==>
              KeyOf(Payload(Shape(slug, items), scrapedAt)[j]) != KeyOf(Payload(Shape(slug, items), scrapedAt)[k])
  {
    var p := Payload(Shape(slug, items), scrapedAt);
    forall j, k | 0 <= j < k < |items| ensures KeyOf(p[j]) != KeyOf(p[k]) {
      RankFallback(slug, items, j);
      RankFallback(slug, items, k);
    }
  }

  /** Two records with the same parsed rank and model name collide on the conflict key. */
  lemma SameRankSameKey(slug: string, items: seq<Item>, scrapedAt: string, j: nat, k: nat)
    requires j < |items| && k < |items|
    requires items[j].rankUB.Some? && items[j].rankUB == items[k].rankUB && items[j].model == items[k].model
    ensures KeyOf(Payload(Shape(slug, items), scrapedAt)[j]) == KeyOf(Payload(Shape(slug, items), scrapedAt)[k])
  {
  }

  /** Every payload row carries the shared timestamp, and `row_json` is the mapped row itself. */
  lemma PayloadRows(rows: seq<ArenaRow>, scrapedAt: string)
    ensures forall k :: 0 <= k < |Payload(rows, scrapedAt)| ==>
              Payload(rows, scrapedAt)[k].scrapedAt == scrapedAt
              && Payload(rows, scrapedAt)[k].fields == rows[k]
              && Payload(rows, scrapedAt)[k].rowJson == Payload(rows, scrapedAt)[k].fields
  {
  }
}
