/**
 * Handler: serves the requests of one `awses` block. It takes the region and
 * the domain from the block or from the leading path segments, then renders
 * a help or error page or hands the request to the domain's signing proxy.
 */
module Handlers {
  import opened Wrappers
  import opened Aws
  import opened Http
  import Strings
  import Config
  import opened ClientFactory
  import opened EsManager

  /**
   * strings.SplitN(t, "/", 2) as splitNextComponent uses it: the text before
   * the first slash, and the rest from that slash on ("/" when there is none).
   */
  function CutAtSlash(t: string): (r: (string, string))
    ensures '/' !in r.0
    ensures r.1 != "" && r.1[0] == '/'
    ensures '/' in t ==> r.0 + r.1 == t
    ensures '/' !in t ==> r == (t, "/")
    ensures t != "" && t[0] != '/' ==> r.0 != ""
  {
    match Strings.IndexOf(t, '/')
    case None => (t, "/")
    case Some(i) =>
      assert t == t[..i] + "/" + t[i + 1..];
      (t[..i], "/" + t[i + 1..])
  }

  /** splitNextComponent: the first segment of a path and the remainder, which keeps its leading slash. */
  function SplitNextComponent(path: string): (r: (string, string))
    ensures '/' !in r.0
    ensures r.1 != "" && r.1[0] == '/'
    ensures r.0 == "" <==> forall i :: 0 <= i < |path| ==> path[i] == '/'
    ensures var t := Strings.TrimLeft(path, '/');
      && ('/' in t ==> r.0 + r.1 == t)
      && ('/' !in t ==> r == (t, "/"))
  {
    Strings.TrimLeftEmpty(path, '/');
    CutAtSlash(Strings.TrimLeft(path, '/'))
  }

  /** A slash-free text followed by a rest that is empty or starts with a slash is cut back into the two. */
  lemma CutAtSlashInverse(segment: string, rest: string)
    requires '/' !in segment
    requires rest == "" || rest[0] == '/'
    ensures CutAtSlash(segment + rest) == (segment, if rest == "" then "/" else rest)
  {
    var t := segment + rest;
    if rest == "" {
      assert t == segment;
    } else {
      assert t[..|segment|] == segment;
      Strings.IndexOfAt(t, '/', |segment|);
      assert t[|segment| + 1..] == rest[1..];
      assert rest == "/" + rest[1..];
    }
  }

  /** A segment followed by a rest that is empty or starts a new segment splits back into the two. */
  lemma SplitNextComponentInverse(segment: string, rest: string)
    requires segment != "" && '/' !in segment
    requires rest == "" || rest[0] == '/'
    ensures SplitNextComponent("/" + segment + rest) == (segment, if rest == "" then "/" else rest)
  {
    var t := segment + rest;
    assert "/" + segment + rest == ['/'] + t;
    Strings.TrimLeftCons('/', t);
    Strings.TrimLeftNoop(t, '/');
    CutAtSlashInverse(segment, rest);
  }

  /** Where a request goes: the region, the domain and the path left for the domain. */
  datatype Route = Route(region: string, domain: string, rest: string)

  /**
   * The routing step of ServeHTTP: an empty path counts as "/"; the block's
   * fixed region and domain are used when set, otherwise each is taken from
   * the next path segment.
   */
  function ParsePath(c: Config.Config, path: string): (r: Route)
    ensures c.region != "" ==> r.region == c.region
    ensures c.domain != "" ==> r.domain == c.domain
    ensures c.region == "" ==> '/' !in r.region
    ensures c.domain == "" ==> '/' !in r.domain
    ensures r.rest != ""
    ensures c.region == "" || c.domain == "" ==> r.rest[0] == '/'
    ensures (path == "" || path[0] == '/') ==> r.rest[0] == '/'
  {
    var p := if path == "" then "/" else path;
    var (region, p1) := if c.region == "" then SplitNextComponent(p) else (c.region, p);
    var (domain, p2) := if c.domain == "" then SplitNextComponent(p1) else (c.domain, p1);
    Route(region, domain, p2)
  }

  /**
   * Routing undoes the path layout the middleware expects: "/<region>/<domain>"
   * followed by the domain's own path, where the block fixes neither.
   */
  lemma ParsePathInverse(c: Config.Config, region: string, domain: string, rest: string)
    requires c.region == "" && c.domain == ""
    requires region != "" && '/' !in region && domain != "" && '/' !in domain
    requires rest == "" || rest[0] == '/'
    ensures ParsePath(c, "/" + region + ("/" + domain + rest)) == Route(region, domain, if rest == "" then "/" else rest)
  {
    SplitNextComponentInverse(domain, rest);
    SplitNextComponentInverse(region, "/" + domain + rest);
  }

  /** With the region fixed by the block, only the domain is taken from the path. */
  lemma ParsePathInverseFixedRegion(c: Config.Config, domain: string, rest: string)
    requires c.region != "" && c.domain == ""
    requires domain != "" && '/' !in domain
    requires rest == "" || rest[0] == '/'
    ensures ParsePath(c, "/" + domain + rest) == Route(c.region, domain, if rest == "" then "/" else rest)
  {
    SplitNextComponentInverse(domain, rest);
  }

  /** With the domain fixed by the block, only the region is taken from the path. */
  lemma ParsePathInverseFixedDomain(c: Config.Config, region: string, rest: string)
    requires c.region == "" && c.domain != ""
    requires region != "" && '/' !in region
    requires rest == "" || rest[0] == '/'
    ensures ParsePath(c, "/" + region + rest) == Route(region, c.domain, if rest == "" then "/" else rest)
  {
    SplitNextComponentInverse(region, rest);
  }

  /** With both fixed by the block, the whole path is the domain's path. */
  lemma ParsePathFixedBoth(c: Config.Config, rest: string)
    requires c.region != "" && c.domain != ""
    ensures ParsePath(c, rest) == Route(c.region, c.domain, if rest == "" then "/" else rest)
  {
  }

  const RegionRequiredText := "An AWS region must be provided"
  const DomainRequiredText := "An AWS ES domain name must be provided"
  const ListingTitle := DomainRequiredText + ". Available domain names:"
  const ListingHeader := ListingTitle + "\n\n"

  /** The domain names, one per line, each line ended by a newline. */
  function Lines(names: seq<string>): string {
    if names == [] then "" else Lines(names[..|names| - 1]) + names[|names| - 1] + "\n"
  }

  lemma {:induction false} LinesCons(name: string, names: seq<string>)
    ensures Lines([name] + names) == name + "\n" + Lines(names)
    decreases |names|
  {
    if names != [] {
      var init := names[..|names| - 1];
      assert ([name] + names)[..|names|] == [name] + init;
      LinesCons(name, init);
    }
  }

  /** The lines of a text: each ends at a newline; a last line without one still counts. */
  function SplitLines(s: string): (r: seq<string>)
    ensures forall i :: 0 <= i < |r| ==> '\n' !in r[i]
    decreases |s|
  {
    if s == "" then []
    else match Strings.IndexOf(s, '\n')
      case None => [s]
      case Some(i) => [s[..i]] + SplitLines(s[i + 1..])
  }

  /** Reading the listing back line by line gives exactly the names, in order. */
  lemma {:induction false} SplitLinesOfLines(names: seq<string>)
    requires forall i :: 0 <= i < |names| ==> '\n' !in names[i]
    ensures SplitLines(Lines(names)) == names
    decreases |names|
  {
    if names != [] {
      var name, tail := names[0], names[1..];
      assert names == [name] + tail;
      LinesCons(name, tail);
      var s := name + "\n" + Lines(tail);
      assert s[..|name|] == name;
      Strings.IndexOfAt(s, '\n', |name|);
      assert s[|name| + 1..] == Lines(tail);
      SplitLinesOfLines(tail);
    }
  }

  /** The status a resolution error is rendered with. */
  function StatusFor(e: ProxyError): (status: int)
    ensures status == StatusNotFound <==> e.DomainNotFound?
    ensures status == StatusBadRequest <==> e.InvalidDomainName?
    ensures status == StatusBadGateway <==> e.Upstream?
  {
    match e
    case DomainNotFound => StatusNotFound
    case InvalidDomainName => StatusBadRequest
    case Upstream(_) => StatusBadGateway
  }

  /**
   * From the answer of DescribeElasticsearchDomain to the status of the
   * error page: a missing domain or endpoint is 404, a rejected name is 400,
   * any other failure is 502; the 502 page shows the SDK's own message.
   */
  lemma DescribeFailureStatus(out: Result<DescribeOutput, ApiError>)
    requires ResolveEndpoint(out).Err?
    ensures var e := ResolveEndpoint(out).error;
      && (StatusFor(e) == StatusNotFound <==> out.Ok? || out.error.code == Some(NotFoundCode))
      && (StatusFor(e) == StatusBadRequest <==> out.Err? && out.error.code == Some(ValidationCode))
      && (StatusFor(e) == StatusBadGateway ==> out.Err? && ErrorText(e) == out.error.text)
  {
  }

  /** The page for a request that names a region but no domain, given the region's listing. */
  function MissingDomainPage(listed: Result<seq<string>, ApiError>): (resp: Response)
    ensures listed.Err? ==> resp.status == StatusInternalServerError && resp.body == DomainRequiredText + "\n"
    ensures listed.Ok? ==> resp.status == StatusBadRequest && resp.contentType == "text/plain"
  {
    match listed
    case Err(_) => Error(DomainRequiredText, StatusInternalServerError)
    case Ok(names) => Response(StatusBadRequest, "text/plain", ListingHeader + Lines(SortedNames(names)))
  }

  /** A title line, a blank line, then the listing: read back, the lines are the title, "" and the names. */
  lemma {:induction false} TitledListingLines(title: string, names: seq<string>)
    requires '\n' !in title
    requires forall i :: 0 <= i < |names| ==> '\n' !in names[i]
    ensures SplitLines(title + "\n\n" + Lines(names)) == [title, ""] + names
  {
    var s := title + "\n\n" + Lines(names);
    assert s[..|title|] == title;
    Strings.IndexOfAt(s, '\n', |title|);
    var s1 := s[|title| + 1..];
    assert s1 == "\n" + Lines(names);
    assert s1[..0] == "";
    Strings.IndexOfAt(s1, '\n', 0);
    assert s1[1..] == Lines(names);
    SplitLinesOfLines(names);
  }

  /**
   * The 400 page lists exactly the region's domain names, in ascending
   * order, one per line after the title and a blank line.
   */
  lemma MissingDomainPageLists(names: seq<string>)
    requires forall i :: 0 <= i < |names| ==> '\n' !in names[i]
    ensures var lines := SplitLines(MissingDomainPage(Ok(names)).body);
      && |lines| == |names| + 2
      && lines[..2] == [ListingTitle, ""]
      && multiset(lines[2..]) == multiset(names)
      && forall i, j :: 2 <= i < j < |lines| ==> lines[i] == lines[j] || Strings.Less(lines[i], lines[j])
  {
    var title := ListingTitle;
    var sorted := SortedNames(names);
    SortedNamesSpec(names);
    assert '\n' !in title;
    forall i | 0 <= i < |sorted| ensures '\n' !in sorted[i] {
      assert sorted[i] in multiset(names);
    }
    TitledListingLines(title, sorted);
    assert ListingHeader + Lines(sorted) == title + "\n\n" + Lines(sorted);
  }

  /** What serving a request did: rendered a page (with the error returned to Caddy, if any) or forwarded it. */
  datatype Served =
    | Rendered(response: Response, err: Option<ProxyError>)
    | Forwarded(proxy: ReverseProxy)

  /**
   * The outcome of proxyRequest for the cache key `key`, given the proxy map
   * before and after the call, the resolution of the domain, and the request
   * path before and after: an error page (only when nothing was cached and
   * resolution failed; the map is kept), or the request forwarded with the
   * domain-relative path to the cached proxy (the map is kept) or to the newly
   * resolved one (which is then cached under `key`).
   */
  predicate ProxyOutcome(s: Served, before: map<DomainKey, ReverseProxy>, after: map<DomainKey, ReverseProxy>,
                         key: DomainKey, out: Result<string, ProxyError>,
                         oldPath: string, newPath: string, path: string)
  {
    && (s.Rendered? ==>
          && key !in before && out.Err? && s.err == Some(out.error)
          && s.response == Error(ErrorText(out.error), StatusFor(out.error))
          && newPath == oldPath
          && after == before)
    && (s.Forwarded? ==>
          && newPath == path
          && s.proxy.region == key.region
          && (key in before ==> s.proxy == before[key] && after == before)
          && (key !in before ==> out == Ok(s.proxy.endpointHost) && after == before[key := s.proxy]))
  }

  class Handler {
    const config: Config.Config
    const manager: ElasticsearchManager

    constructor (config: Config.Config)
      ensures this.config == config
      ensures fresh(manager) && fresh(manager.factory)
      ensures manager.Valid() && manager.factory.role == config.role
      ensures manager.proxies == None && manager.factory.clients == None
    {
      this.config := config;
      manager := new ElasticsearchManager(config.role);
    }

    /** The 400 page for a request that names no region. */
    method RenderMissingRegion() returns (resp: Response)
      ensures resp.status == StatusBadRequest && resp.body == RegionRequiredText + "\n"
      ensures resp == Error(RegionRequiredText, StatusBadRequest)
    {
      resp := Error(RegionRequiredText, StatusBadRequest);
    }

    /** Lists the region's domains and renders them, one line each, after the title. */
    method RenderMissingDomain(region: string, svc: Service) returns (resp: Response)
      requires manager.Valid()
      modifies manager.factory
      ensures manager.Valid()
      ensures manager.factory.UsedFor(region)
      ensures resp == MissingDomainPage(svc.listDomainNames(region, CredentialsFor(manager.factory.role)))
    {
      var domains := manager.ListDomains(region, svc);
      if domains.Err? {
        return Error(DomainRequiredText, StatusInternalServerError);
      }
      var names := domains.value;
      var body := ListingHeader;
      for i := 0 to |names|
        invariant body == ListingHeader + Lines(names[..i])
      {
        assert names[..i + 1][..i] == names[..i];
        body := body + names[i] + "\n";
      }
      assert names[..|names|] == names;
      return Response(StatusBadRequest, "text/plain", body);
    }

    /**
     * Resolves the domain's proxy; on success the request's path becomes the
     * domain-relative path and the request is forwarded, otherwise the error
     * page is rendered and the error returned.
     */
    method ProxyRequest(r: Request, region: string, domain: string, path: string, svc: Service) returns (s: Served)
      requires manager.Valid()
      modifies r`path, manager, manager.factory
      ensures manager.Valid()
      ensures ProxyOutcome(s, old(manager.ProxyMap()), manager.ProxyMap(), DomainKey(region, domain),
                           ResolveEndpoint(svc.describeDomain(region, CredentialsFor(manager.factory.role), domain)),
                           old(r.path), r.path, path)
      ensures ResolutionEffects(old(manager.State()), DomainKey(region, domain))
    {
      var proxy := manager.GetProxy(region, domain, svc);
      if proxy.Err? {
        var e := proxy.error;
        return Rendered(Error(ErrorText(e), StatusFor(e)), Some(e));
      }
      r.path := path;
      return Forwarded(proxy.value);
    }

    /** The routing steps of ServeHTTP: region, then domain, each fixed or peeled off the path. */
    method RouteRequest(path0: string) returns (region: string, domain: string, path: string)
      ensures Route(region, domain, path) == ParsePath(config, path0)
    {
      path := path0;
      if path == "" {
        path := "/";
      }
      region := config.region;
      if region == "" {
        var split := SplitNextComponent(path);
        region, path := split.0, split.1;
      }
      domain := config.domain;
      if domain == "" {
        var split := SplitNextComponent(path);
        domain, path := split.0, split.1;
      }
    }

    /**
     * The manager's bookkeeping around resolving `key`, against its caches
     * `before`: on a cache hit no DescribeElasticsearchDomain call is made and
     * the client map is kept; on a miss one call is made for `key` and the
     * region's client is used.
     */
    ghost predicate ResolutionEffects(before: ManagerState, key: DomainKey)
      reads manager, manager.factory
    {
      && (key in before.ProxyMap() ==>
            manager.describeCalls == before.describeCalls && manager.factory.clients == before.clients)
      && (key !in before.ProxyMap() ==>
            && manager.describeCalls == before.describeCalls + [key]
            && ClientUsed(before.clients, manager.factory.clients, key.region))
    }

    /**
     * What serving a request that arrived with `path` did, given the manager's
     * caches `before` and the path `newPath` left on the request: routed by
     * ParsePath, then the missing-region page (the manager untouched), the
     * missing-domain page of the region's listing (the path and the proxy
     * cache kept, the region's client used), or the proxy outcome for the
     * routed region, domain and rest.
     */
    ghost predicate ServesAs(path: string, newPath: string, svc: Service, s: Served, before: ManagerState)
      reads manager, manager.factory
    {
      var route := ParsePath(config, path);
      var key := DomainKey(route.region, route.domain);
      && (route.region == "" ==>
            && s == Rendered(Error(RegionRequiredText, StatusBadRequest), None) && newPath == path
            && manager.State() == before)
      && (route.region != "" && route.domain == "" ==>
            && s == Rendered(MissingDomainPage(svc.listDomainNames(route.region, CredentialsFor(manager.factory.role))), None)
            && newPath == path
            && manager.proxies == before.proxies && manager.describeCalls == before.describeCalls
            && ClientUsed(before.clients, manager.factory.clients, route.region))
      && (route.region != "" && route.domain != "" ==>
            && ProxyOutcome(s, before.ProxyMap(), manager.ProxyMap(), key,
                            ResolveEndpoint(svc.describeDomain(route.region, CredentialsFor(manager.factory.role), route.domain)),
                            path, newPath, route.rest)
            && ResolutionEffects(before, key))
    }

    /** Routes the request (its path is relative to the block's prefix) and serves it. */
    method ServeHTTP(r: Request, svc: Service) returns (s: Served)
      requires manager.Valid()
      modifies r`path, manager, manager.factory
      ensures manager.Valid()
      ensures ServesAs(old(r.path), r.path, svc, s, old(manager.State()))
    {
      var region, domain, path := RouteRequest(r.path);

      if region == "" {
        var resp := RenderMissingRegion();
        return Rendered(resp, None);
      } else if domain == "" {
        var resp := RenderMissingDomain(region, svc);
        return Rendered(resp, None);
      } else {
        s := ProxyRequest(r, region, domain, path, svc);
      }
    }
  }
}
