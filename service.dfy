/**
  The HTTP handlers of backend/src/main.rs as sequential operations on one
  store: `create_link`, `get_links`, `get_link_clicks`, `delete_link`,
  `forward_link` and one cycle of the expiry sweeper.
 */
module Service {
  import opened Wrappers
  import opened Slugs
  import opened Links
  import Headers

  /** The JSON body of `POST /links`; an empty slug asks for a generated one. */
  datatype CreateLinkRequest = CreateLinkRequest(slug: string, targetUrl: string, expiresInSecs: Option<int>)

  /**
    The answer of `create_link`: 201 with the new link, 422 when the insert
    violates the unique key on the slug, or the retry budget ran out before a
    free slug was drawn (the source retries without a bound).
   */
  datatype CreateResponse = Created(link: Link) | UnprocessableEntity | GenerationExhausted

  /** An HTTP response of the redirect server. */
  datatype Response = Response(status: nat, headers: seq<Headers.Header>, body: string)

  const NotFoundResponse: Response := Response(404, [], "Link not found")

  /**
    The answer `.finish()` gives when an appended header value was rejected:
    actix turns the recorded error into a 500. Its body, the error's message,
    is not modelled.
   */
  const InternalErrorResponse: Response := Response(500, [], "")

  /**
    The answer to a hit: 307 with `Location` and `Referrer-Policy`, or 500
    when the target URL cannot be a header value.
   */
  function HitResponse(targetUrl: string): (r: Response)
    ensures r.status == 307 <==> Headers.IsValidHeaderValue(targetUrl)
    ensures r.status == 307 ==> r == RedirectResponse(targetUrl)
    ensures r.status != 307 ==> r == InternalErrorResponse
  {
    if Headers.IsValidHeaderValue(targetUrl) then RedirectResponse(targetUrl) else InternalErrorResponse
  }

  function RedirectResponse(targetUrl: string): Response
  {
    Response(307, [("Location", targetUrl), ("Referrer-Policy", "no-referrer")], "")
  }

  /** `expires_at` of a new link: `now + expires_in_secs`, or NULL without a duration. */
  function ExpiresAt(now: Timestamp, expiresInSecs: Option<int>): Option<Timestamp>
  {
    match expiresInSecs
    case Some(secs) => Some(now + secs)
    case None => None
  }

  /** The slug `create_link` inserts: the caller's, or the first free generated one. */
  function ChosenSlug(req: CreateLinkRequest, taken: set<Slug>, draws: seq<Draw>): Option<Slug>
  {
    if req.slug == "" then FirstFree(taken, draws) else Some(req.slug)
  }

  /** The row `create_link` inserts; the timestamps are the database's defaults. */
  function NewRow(req: CreateLinkRequest, now: Timestamp): LinkRow
  {
    LinkRow(req.targetUrl, now, now, ExpiresAt(now, req.expiresInSecs))
  }

  /** The click row `forward_link` appends for a hit on `slug`. */
  function NewClick(slug: Slug, row: LinkRow, remoteAddr: Option<string>, headers: seq<Headers.Header>,
                    now: Timestamp): ClickRow
  {
    ClickRow(slug, now, Headers.ClientIp(remoteAddr), Headers.GetHeader(headers, "User-Agent"), row.expiresAt)
  }

  /** The choice of slug: a supplied slug is used verbatim; a generated one is free and well-formed. */
  lemma ChosenSlugProperties(req: CreateLinkRequest, taken: set<Slug>, draws: seq<Draw>)
    ensures req.slug != "" ==> ChosenSlug(req, taken, draws) == Some(req.slug)
    ensures req.slug == "" && ChosenSlug(req, taken, draws).Some? ==>
      var s := ChosenSlug(req, taken, draws).value;
      IsGeneratedSlug(s) && s !in taken
    ensures ChosenSlug(req, taken, draws).None?
      <==> req.slug == "" && forall k :: 0 <= k < |draws| ==> Candidate(draws[k]) in taken
  {
  }

  class LinkService {
    /** The links table, keyed by its unique slug. */
    var links: map<Slug, LinkRow>
    /** The click log, oldest row first. */
    var clicks: seq<ClickRow>
    /** `FORWARD_URL`, the base of every shortened URL. */
    const forwardUrl: string

    constructor (forwardUrl: string)
      ensures links == map[] && clicks == [] && this.forwardUrl == forwardUrl
    {
      links := map[];
      clicks := [];
      this.forwardUrl := forwardUrl;
    }

    /** The retry loop: draw candidates until one is not a key of `links`. */
    method GenerateSlug(draws: seq<Draw>) returns (slug: Option<Slug>)
      ensures slug == FirstFree(links.Keys, draws)
    {
      var i := 0;
      while i < |draws|
        invariant 0 <= i <= |draws|
        invariant FirstFree(links.Keys, draws) == FirstFree(links.Keys, draws[i..])
      {
        assert draws[i..][1..] == draws[i + 1..];
        var candidate := Candidate(draws[i]);
        if candidate !in links {
          return Some(candidate);
        }
        i := i + 1;
      }
      return None;
    }

    /** `POST /links`. */
    method CreateLink(req: CreateLinkRequest, draws: seq<Draw>, now: Timestamp) returns (resp: CreateResponse)
      modifies this
      ensures clicks == old(clicks)
      ensures forall s :: s in old(links) ==> s in links && links[s] == old(links)[s]
      ensures match ChosenSlug(req, old(links).Keys, draws)
        case None => resp == GenerationExhausted && links == old(links)
        case Some(slug) =>
          if slug in old(links) then resp == UnprocessableEntity && links == old(links)
          else
            && links == old(links)[slug := NewRow(req, now)]
            && resp == Created(LinkView(slug, NewRow(req, now), 0, forwardUrl))
    {
      var slug := req.slug;
      if slug == "" {
        var generated := GenerateSlug(draws);
        if generated.None? {
          return GenerationExhausted;
        }
        slug := generated.value;
      }
      var row := LinkRow(req.targetUrl, now, now, ExpiresAt(now, req.expiresInSecs));
      if slug in links {
        return UnprocessableEntity;
      }
      links := links[slug := row];
      resp := Created(LinkView(slug, row, 0, forwardUrl));
    }

    /** `row` is the listing entry of its slug: the stored fields, the click count, the shortened URL. */
    ghost predicate Reports(row: Link)
      reads this
    {
      row.slug in links && row == LinkView(row.slug, links[row.slug], CountClicks(clicks, row.slug), forwardUrl)
    }

    /** `rows` lists the slugs of `listed`, one entry per slug. */
    ghost predicate Lists(rows: seq<Link>, listed: set<Slug>)
      reads this
    {
      && |rows| == |listed|
      && listed == (set i | 0 <= i < |rows| :: rows[i].slug)
      && (forall i :: 0 <= i < |rows| ==> Reports(rows[i]))
      && (forall i, j :: 0 <= i < j < |rows| ==> rows[i].slug != rows[j].slug)
    }

    lemma ListsOneMore(rows: seq<Link>, listed: set<Slug>, s: Slug)
      requires Lists(rows, listed) && s in links && s !in listed
      ensures Lists(rows + [LinkView(s, links[s], CountClicks(clicks, s), forwardUrl)], listed + {s})
    {
      var more := rows + [LinkView(s, links[s], CountClicks(clicks, s), forwardUrl)];
      assert forall i :: 0 <= i < |rows| ==> more[i] == rows[i];
      assert (set i | 0 <= i < |more| :: more[i].slug) == listed + {s} by {
        assert more[|rows|].slug == s;
      }
      forall i, j | 0 <= i < j < |more| ensures more[i].slug != more[j].slug {
        assert more[i].slug in listed;
      }
    }

    /**
      `GET /links`: every stored link exactly once, with the number of its
      click rows and its shortened URL. The order of the rows is unspecified.
     */
    method GetLinks() returns (rows: seq<Link>)
      ensures |rows| == |links|
      ensures forall i :: 0 <= i < |rows| ==> Reports(rows[i])
      ensures forall i, j :: 0 <= i < j < |rows| ==> rows[i].slug != rows[j].slug
      ensures forall s :: s in links ==> exists i :: 0 <= i < |rows| && rows[i].slug == s
    {
      rows := [];
      var todo := links.Keys;
      ghost var done: set<Slug> := {};
      while todo != {}
        invariant todo + done == links.Keys && todo !! done
        invariant Lists(rows, done)
        decreases todo
      {
        var s :| s in todo;
        ListsOneMore(rows, done, s);
        rows := rows + [LinkView(s, links[s], CountClicks(clicks, s), forwardUrl)];
        todo := todo - {s};
        done := done + {s};
      }
      assert forall s :: s in links ==> s in (set i | 0 <= i < |rows| :: rows[i].slug);
    }

    /** `GET /links/{slug}/clicks`. */
    method GetLinkClicks(slug: Slug) returns (rows: seq<ClickRow>)
      ensures rows == ClicksFor(clicks, slug)
    {
      rows := ClicksFor(clicks, slug);
    }

    /** `DELETE /links/{slug}`: 204 whether or not the slug existed; the click log is kept. */
    method DeleteLink(slug: Slug) returns (status: nat)
      modifies this
      ensures links == old(links) - {slug}
      ensures clicks == old(clicks)
      ensures status == 204
    {
      links := links - {slug};
      status := 204;
    }

    /**
      `GET /{slug}` on the redirect server. The click row is inserted before
      the response is built, so a hit whose target URL holds a control
      character is logged and then answered with 500.
     */
    method ForwardLink(slug: Slug, remoteAddr: Option<string>, headers: seq<Headers.Header>, now: Timestamp)
      returns (resp: Response)
      modifies this
      ensures links == old(links)
      ensures slug !in links ==> resp == NotFoundResponse && clicks == old(clicks)
      ensures slug in links ==>
        && clicks == old(clicks) + [NewClick(slug, links[slug], remoteAddr, headers, now)]
        && resp == HitResponse(links[slug].targetUrl)
      ensures slug in links ==>
        && ClicksFor(clicks, slug) == ClicksFor(old(clicks), slug) + [clicks[|clicks| - 1]]
        && forall s :: CountClicks(clicks, s) == CountClicks(old(clicks), s) + (if s == slug then 1 else 0)
    {
      if slug !in links {
        return NotFoundResponse;
      }
      var link := links[slug];
      var click := ClickRow(slug, now, Headers.ClientIp(remoteAddr),
                            Headers.GetHeader(headers, "User-Agent"), link.expiresAt);
      ClicksForAppend(clicks, click, slug);
      forall s {
        CountClicksAppend(clicks, click, s);
      }
      clicks := clicks + [click];
      resp := HitResponse(link.targetUrl);
    }

    /** One cycle of the sweeper: expired links first, then expired click rows. */
    method Sweep(now: Timestamp)
      modifies this
      ensures links == SweptLinks(old(links), now)
      ensures clicks == UnexpiredClicks(old(clicks), now)
    {
      links := SweptLinks(links, now);
      clicks := UnexpiredClicks(clicks, now);
    }
  }

  lemma ExampleTargetIsValid()
    ensures Headers.IsValidHeaderValue("https://example.org")
  {
  }

  /**
    The life of a link: created without a slug and with an expiry of an hour,
    resolved once, then gone after a sweep past its expiry.
   */
  method ExpiringLinkLifecycle(draw: Draw, created: Timestamp, later: Timestamp)
    returns (link: Link, firstHit: Response, clickCount: nat, afterSweep: Response)
    requires later > created + 3600
    ensures IsGeneratedSlug(link.slug) && link.clicks == 0 && link.expiresAt == Some(created + 3600)
    ensures link.shortenedUrl == "https://example.com/" + link.slug
    ensures firstHit == RedirectResponse("https://example.org")
    ensures clickCount == 1
    ensures afterSweep == NotFoundResponse
  {
    ExampleTargetIsValid();
    var service := new LinkService("https://example.com/");
    var resp := service.CreateLink(CreateLinkRequest("", "https://example.org", Some(3600)), [draw], created);
    link := resp.link;
    firstHit := service.ForwardLink(link.slug, None, [], created);
    var rows := service.GetLinks();
    assert rows[0].slug == link.slug;
    CountClicksAppend([], service.clicks[0], link.slug);
    clickCount := rows[0].clicks;
    service.Sweep(later);
    afterSweep := service.ForwardLink(link.slug, None, [], later);
  }
}
