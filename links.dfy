/**
  The two tables of the service and the queries over them: the links table,
  keyed by slug (its unique key), and the append-only click log.
 */
module Links {
  import opened Wrappers
  import opened Seqs
  import Urls

  type Slug = string

  /** Seconds since the epoch; the clock is an input of every operation that reads it. */
  type Timestamp = int

  /** A row of `links`; its slug is the key it is stored under. */
  datatype LinkRow = LinkRow(
    targetUrl: string,
    createdAt: Timestamp,
    updatedAt: Timestamp,
    expiresAt: Option<Timestamp>)

  /** A row of `link_click_tracking`. */
  datatype ClickRow = ClickRow(
    slug: Slug,
    datetime: Timestamp,
    clientIpAddress: string,
    clientBrowser: string,
    expiresAt: Option<Timestamp>)

  /** The JSON shape of a link returned by the management API. */
  datatype Link = Link(
    slug: Slug,
    targetUrl: string,
    createdAt: Timestamp,
    updatedAt: Timestamp,
    clicks: nat,
    expiresAt: Option<Timestamp>,
    shortenedUrl: string)

  /** The stored row under `slug`, with a click count and its shortened URL. */
  function LinkView(slug: Slug, row: LinkRow, clicks: nat, forwardUrl: string): Link
  {
    Link(slug, row.targetUrl, row.createdAt, row.updatedAt, clicks, row.expiresAt,
         Urls.ShortenedUrl(forwardUrl, slug))
  }

  /** `SELECT * FROM link_click_tracking WHERE slug = $1`, in log order. */
  function ClicksFor(clicks: seq<ClickRow>, slug: Slug): (r: seq<ClickRow>)
    ensures forall c :: c in r <==> c in clicks && c.slug == slug
  {
    Filter(clicks, (c: ClickRow) => c.slug == slug)
  }

  /** Every click row of the slug is returned, as often as it is logged, and nothing else. */
  lemma ClicksForExact(clicks: seq<ClickRow>, slug: Slug, c: ClickRow)
    ensures multiset(ClicksFor(clicks, slug))[c] == if c.slug == slug then multiset(clicks)[c] else 0
  {
    FilterMultiplicity(clicks, (c: ClickRow) => c.slug == slug, c);
  }

  /** Appending to the log extends the slug's click list only if the new row is the slug's. */
  lemma ClicksForAppend(clicks: seq<ClickRow>, row: ClickRow, slug: Slug)
    ensures ClicksFor(clicks + [row], slug)
         == ClicksFor(clicks, slug) + (if row.slug == slug then [row] else [])
  {
    FilterAppend(clicks, [row], (c: ClickRow) => c.slug == slug);
  }

  /** `COUNT(t2.datetime)` of the click rows the LEFT JOIN pairs with `slug`. */
  function CountClicks(clicks: seq<ClickRow>, slug: Slug): nat
  {
    if |clicks| == 0 then 0
    else (if clicks[0].slug == slug then 1 else 0) + CountClicks(clicks[1..], slug)
  }

  /** The count in the listing is the length of the slug's click list; 0 without clicks. */
  lemma {:induction false} CountIsClicksForLength(clicks: seq<ClickRow>, slug: Slug)
    ensures CountClicks(clicks, slug) == |ClicksFor(clicks, slug)|
  {
    if |clicks| > 0 {
      CountIsClicksForLength(clicks[1..], slug);
      assert clicks == [clicks[0]] + clicks[1..];
      FilterAppend([clicks[0]], clicks[1..], (c: ClickRow) => c.slug == slug);
    }
  }

  /** Logging one row raises its slug's count by exactly one and no other count. */
  lemma {:induction false} CountClicksAppend(clicks: seq<ClickRow>, row: ClickRow, slug: Slug)
    ensures CountClicks(clicks + [row], slug)
         == CountClicks(clicks, slug) + (if row.slug == slug then 1 else 0)
  {
    if |clicks| > 0 {
      assert (clicks + [row])[1..] == clicks[1..] + [row];
      CountClicksAppend(clicks[1..], row, slug);
    }
  }

  /**
    The sweep's criterion `expires_at < now`. A NULL expiry makes the SQL
    comparison NULL, so such rows never match and survive every sweep.

    The SQL in the source compares with `date('now')`, which is TEXT such as
    '2026-10-14', while `expires_at` holds an integer epoch. SQLite orders
    every INTEGER before every TEXT value, and an epoch stored as text
    ('17...') also sorts before '2026-...', so as written the comparison holds
    for every non-NULL expiry: each cycle, the first one at start-up included,
    deletes every link and click row that has any expiry. This model compares
    against an integer `now`, the evident intent, instead.
   */
  predicate Expired(expiresAt: Option<Timestamp>, now: Timestamp)
  {
    expiresAt.Some? && expiresAt.value < now
  }

  /** `DELETE FROM links WHERE expires_at < now`. */
  function SweptLinks(links: map<Slug, LinkRow>, now: Timestamp): (r: map<Slug, LinkRow>)
    ensures forall s :: s in r <==> s in links && !Expired(links[s].expiresAt, now)
    ensures forall s :: s in r ==> r[s] == links[s]
  {
    map s | s in links && !Expired(links[s].expiresAt, now) :: links[s]
  }

  /** The click log after `DELETE FROM link_click_tracking WHERE expires_at < now`. */
  function UnexpiredClicks(clicks: seq<ClickRow>, now: Timestamp): (r: seq<ClickRow>)
    ensures forall c :: c in r <==> c in clicks && !Expired(c.expiresAt, now)
  {
    Filter(clicks, (c: ClickRow) => !Expired(c.expiresAt, now))
  }

  /** The click sweep removes every copy of an expired row and keeps every copy of the others. */
  lemma UnexpiredClicksExact(clicks: seq<ClickRow>, now: Timestamp, c: ClickRow)
    ensures multiset(UnexpiredClicks(clicks, now))[c]
         == if Expired(c.expiresAt, now) then 0 else multiset(clicks)[c]
  {
    FilterMultiplicity(clicks, (c: ClickRow) => !Expired(c.expiresAt, now), c);
  }

  /**
    Two sweeps, the second no earlier than the first, leave what one sweep at
    the later time leaves; in particular a sweep is idempotent.
   */
  lemma SweepsCompose(links: map<Slug, LinkRow>, clicks: seq<ClickRow>, earlier: Timestamp, later: Timestamp)
    requires earlier <= later
    ensures SweptLinks(SweptLinks(links, earlier), later) == SweptLinks(links, later)
    ensures UnexpiredClicks(UnexpiredClicks(clicks, earlier), later) == UnexpiredClicks(clicks, later)
  {
    FilterCompose(clicks,
      (c: ClickRow) => !Expired(c.expiresAt, earlier),
      (c: ClickRow) => !Expired(c.expiresAt, later),
      (c: ClickRow) => !Expired(c.expiresAt, later));
  }
}
