/**
 * ElasticsearchManager: lists a region's domains, resolves a (region, domain)
 * pair to a signing reverse proxy and caches the proxies it builds. The lock
 * around the cache is not modelled; GetProxy runs as one sequential step.
 */
module EsManager {
  import opened Wrappers
  import opened Aws
  import opened Http
  import Strings
  import Sorting
  import opened ClientFactory

  /** The cache key of a proxy. */
  datatype DomainKey = DomainKey(region: string, domain: string)

  /** What resolving a domain can fail with: the two sentinel errors, or the SDK's error unchanged. */
  datatype ProxyError = DomainNotFound | InvalidDomainName | Upstream(cause: ApiError)

  const NotFoundCode := "ResourceNotFoundException"
  const ValidationCode := "ValidationException"

  /** err.Error() of a resolution error. */
  function ErrorText(e: ProxyError): string {
    match e
    case DomainNotFound => "AWS ES domain not found"
    case InvalidDomainName => "The provided AWS ES domain is invalid"
    case Upstream(cause) => cause.text
  }

  /** The sentinel an SDK error from DescribeElasticsearchDomain is turned into. */
  function Classify(e: ApiError): (r: ProxyError)
    ensures r.DomainNotFound? <==> e.code == Some(NotFoundCode)
    ensures r.InvalidDomainName? <==> e.code == Some(ValidationCode)
    ensures r.Upstream? ==> r.cause == e
  {
    if e.code == Some(NotFoundCode) then DomainNotFound
    else if e.code == Some(ValidationCode) then InvalidDomainName
    else Upstream(e)
  }

  /** The endpoint host a DescribeElasticsearchDomain answer resolves to, or why it does not. */
  function ResolveEndpoint(out: Result<DescribeOutput, ApiError>): (r: Result<string, ProxyError>)
    ensures r.Ok? <==>
      out.Ok? && out.value.domainStatus.Some? && out.value.domainStatus.value.endpoint.Some?
    ensures r.Ok? ==> r.value == out.value.domainStatus.value.endpoint.value
    ensures out.Err? ==> r == Err(Classify(out.error))
    ensures out.Ok? && r.Err? ==> r.error == DomainNotFound
  {
    match out
    case Err(e) => Err(Classify(e))
    case Ok(o) =>
      if o.domainStatus.None? || o.domainStatus.value.endpoint.None? then Err(DomainNotFound)
      else Ok(o.domainStatus.value.endpoint.value)
  }

  /** The signing time lies ten seconds (in nanoseconds) before the current time. */
  const SigningSkew := 10 * 1_000_000_000

  /** Go's sort.Strings. */
  function SortedNames(names: seq<string>): seq<string> {
    Sorting.InsertionSort(names, Strings.Less)
  }

  lemma StringOrderIsStrictWeak()
    ensures Sorting.StrictWeakOrder(Strings.Less)
  {
    forall a, b | Strings.Less(a, b) ensures !Strings.Less(b, a) {
      Strings.LessAsymmetric(a, b);
    }
    forall a, b, c | !Strings.Less(a, b) && !Strings.Less(b, c) ensures !Strings.Less(a, c) {
      Strings.LessTotal(a, b);
      Strings.LessTotal(b, c);
      Strings.LessTransitive(c, b, a);
      Strings.LessAsymmetric(a, c);
    }
  }

  /** ListDomains' result: exactly the listed names, in ascending order. */
  lemma SortedNamesSpec(names: seq<string>)
    ensures multiset(SortedNames(names)) == multiset(names)
    ensures forall i, j :: 0 <= i < j < |names| ==>
      SortedNames(names)[i] == SortedNames(names)[j] || Strings.Less(SortedNames(names)[i], SortedNames(names)[j])
  {
    var s := SortedNames(names);
    Sorting.InsertionSortPermutes(names, Strings.Less);
    StringOrderIsStrictWeak();
    Sorting.InsertionSortSorted(names, Strings.Less);
    forall i, j | 0 <= i < j < |names| ensures s[i] == s[j] || Strings.Less(s[i], s[j]) {
      Strings.LessTotal(s[i], s[j]);
    }
  }

  /** The reverse proxy for one domain: its endpoint and the signer's region and credentials. */
  class ReverseProxy {
    const endpointHost: string
    const region: string
    const credentials: Credentials

    constructor (endpointHost: string, region: string, credentials: Credentials)
      ensures this.endpointHost == endpointHost && this.region == region && this.credentials == credentials
    {
      this.endpointHost := endpointHost;
      this.region := region;
      this.credentials := credentials;
    }

    /**
     * The director: rewrites an outbound request for the endpoint, buffers its
     * body and signs it. `now` is the current time in nanoseconds;
     * `credentialsOk` says whether the signer can retrieve its credentials.
     * When it cannot, Sign fails before signing or attaching the body, and the
     * director ignores the error.
     */
    method Direct(req: Request, now: int, credentialsOk: bool)
      modifies req
      ensures req.host == "" && req.scheme == "https" && req.urlHost == endpointHost
      ensures req.path == old(req.path)
      ensures "Connection" in req.header && req.header["Connection"] == ["close"]
      ensures "User-Agent" in req.header
      ensures req.header["User-Agent"] ==
        if "User-Agent" in old(req.header) then old(req.header)["User-Agent"] else [""]
      ensures forall k :: k != "User-Agent" && k != "Connection" ==>
        (k in req.header <==> k in old(req.header)) &&
        (k in req.header ==> req.header[k] == old(req.header)[k])
      ensures old(req.body).NoBody? ==>
        req.body == NoBody &&
        req.signature ==
          if credentialsOk then Some(SignCall(None, "es", region, now - SigningSkew, credentials))
          else old(req.signature)
      ensures !old(req.body).NoBody? && ReadAll(old(req.body)).Ok? && credentialsOk ==>
        req.body == Stream(old(req.body).data, None) &&
        req.signature == Some(SignCall(Some(old(req.body).data), "es", region, now - SigningSkew, credentials))
      ensures !old(req.body).NoBody? && (ReadAll(old(req.body)).Err? || !credentialsOk) ==>
        req.body == Drained && req.signature == old(req.signature)
    {
      req.host := "";
      req.scheme := "https";
      req.urlHost := endpointHost;
      if "User-Agent" !in req.header {
        req.header := req.header["User-Agent" := [""]];
      }
      req.header := req.header["Connection" := ["close"]];

      var body: Option<seq<Byte>> := None;
      if !req.body.NoBody? {
        var read := ReadAll(req.body);
        req.body := Drained;   // read to the end, closed when the director returns
        if read.Err? {
          return;
        }
        body := Some(read.value);
      }

      if !credentialsOk {
        return;   // Sign's error is discarded
      }
      // Sign attaches the signature and sets the request body to the buffered bytes
      req.signature := Some(SignCall(body, "es", region, now - SigningSkew, credentials));
      if body.Some? {
        req.body := Stream(body.value, None);
      }
    }
  }

  /** A snapshot of a manager's caches: its proxy map, its describe calls and its factory's client map. */
  datatype ManagerState = ManagerState(proxies: Option<map<DomainKey, ReverseProxy>>,
                                       describeCalls: seq<DomainKey>,
                                       clients: Option<map<string, Client>>)
  {
    /** The proxy map, reading a nil map as empty. */
    function ProxyMap(): map<DomainKey, ReverseProxy> {
      if proxies.Some? then proxies.value else map[]
    }
  }

  class ElasticsearchManager {
    const factory: ElasticsearchClientFactory
    var proxies: Option<map<DomainKey, ReverseProxy>>   // None: the Go map is still nil
    ghost var describeCalls: seq<DomainKey>             // every DescribeElasticsearchDomain issued

    /** Every cached proxy signs for its key's region with the factory's credentials. */
    ghost predicate Valid()
      reads this, factory
    {
      && factory.Valid()
      && (proxies.Some? ==>
            forall k :: k in proxies.value ==>
              proxies.value[k].region == k.region &&
              proxies.value[k].credentials == CredentialsFor(factory.role))
    }

    constructor (role: string)
      ensures Valid() && fresh(factory)
      ensures factory.role == role && factory.clients == None
      ensures proxies == None && describeCalls == []
    {
      factory := new ElasticsearchClientFactory(role);
      proxies := None;
      describeCalls := [];
    }

    /** The manager's caches as they stand. */
    ghost function State(): (st: ManagerState)
      reads this, factory
      ensures st.proxies == proxies && st.describeCalls == describeCalls && st.clients == factory.clients
      ensures st.ProxyMap() == ProxyMap()
    {
      ManagerState(proxies, describeCalls, factory.clients)
    }

    /** The proxy map, reading a nil map as empty. */
    function ProxyMap(): (m: map<DomainKey, ReverseProxy>)
      reads this
      ensures proxies.Some? ==> m == proxies.value
      ensures proxies.None? ==> m == map[]
    {
      if proxies.Some? then proxies.value else map[]
    }

    /** The cached proxy for (region, domain), if any. */
    function CachedProxy(region: string, domain: string): (p: Option<ReverseProxy>)
      reads this
      ensures p.Some? <==> DomainKey(region, domain) in ProxyMap()
      ensures p.Some? ==> p.value == ProxyMap()[DomainKey(region, domain)]
    {
      var key := DomainKey(region, domain);
      if key in ProxyMap() then Some(ProxyMap()[key]) else None
    }

    /** The domain names of a region, sorted; a listing error is returned unchanged. */
    method ListDomains(region: string, svc: Service) returns (r: Result<seq<string>, ApiError>)
      requires Valid()
      modifies factory
      ensures Valid()
      ensures factory.UsedFor(region)
      ensures var listed := svc.listDomainNames(region, CredentialsFor(factory.role));
        && (listed.Err? ==> r == Err(listed.error))
        && (listed.Ok? ==> r == Ok(SortedNames(listed.value)))
    {
      var client := factory.Get(region);
      var output := svc.listDomainNames(client.region, client.credentials);
      if output.Err? {
        return Err(output.error);
      }
      var domains: seq<string> := [];
      for i := 0 to |output.value|
        invariant domains == output.value[..i]
      {
        domains := domains + [output.value[i]];
      }
      var a := new string[|domains|](i requires 0 <= i < |domains| => domains[i]);
      assert a[..] == domains == output.value;
      Sorting.SortInPlace(a, Strings.Less);
      return Ok(a[..]);
    }

    /** Resolves the domain's endpoint and builds a signing proxy for it (no caching). */
    method NewProxy(region: string, domain: string, svc: Service) returns (r: Result<ReverseProxy, ProxyError>)
      requires factory.Valid()
      modifies factory, this`describeCalls
      ensures factory.Valid()
      ensures factory.UsedFor(region)
      ensures describeCalls == old(describeCalls) + [DomainKey(region, domain)]
      ensures var out := ResolveEndpoint(svc.describeDomain(region, CredentialsFor(factory.role), domain));
        && (r.Ok? <==> out.Ok?)
        && (r.Err? ==> r.error == out.error)
        && (r.Ok? ==> fresh(r.value) && r.value.endpointHost == out.value &&
                      r.value.region == region && r.value.credentials == CredentialsFor(factory.role))
    {
      var client := factory.Get(region);
      describeCalls := describeCalls + [DomainKey(region, domain)];
      var output := svc.describeDomain(client.region, client.credentials, domain);
      var endpoint := ResolveEndpoint(output);
      if endpoint.Err? {
        return Err(endpoint.error);
      }
      var proxy := new ReverseProxy(endpoint.value, region, client.credentials);
      return Ok(proxy);
    }

    /**
     * The cached proxy for (region, domain), or a new one that is then cached.
     * A failed resolution is returned and nothing is cached for it.
     */
    method GetProxy(region: string, domain: string, svc: Service) returns (r: Result<ReverseProxy, ProxyError>)
      requires Valid()
      modifies this, factory
      ensures Valid()
      ensures var key := DomainKey(region, domain);
        && (old(CachedProxy(region, domain)).Some? ==>
              && r == Ok(old(CachedProxy(region, domain)).value)
              && proxies == old(proxies)
              && describeCalls == old(describeCalls)
              && unchanged(factory))
        && (old(CachedProxy(region, domain)).None? ==>
              var out := ResolveEndpoint(svc.describeDomain(region, CredentialsFor(factory.role), domain));
              && describeCalls == old(describeCalls) + [key]
              && factory.UsedFor(region)
              && (r.Ok? <==> out.Ok?)
              && (r.Err? ==> r.error == out.error && ProxyMap() == old(ProxyMap()))
              && (r.Ok? ==> fresh(r.value) && r.value.endpointHost == out.value &&
                            ProxyMap() == old(ProxyMap())[key := r.value]))
      ensures r.Ok? ==> CachedProxy(region, domain) == Some(r.value) && r.value.region == region
      ensures forall k :: k != DomainKey(region, domain) && k in old(ProxyMap()) ==>
        k in ProxyMap() && ProxyMap()[k] == old(ProxyMap())[k]
      ensures forall k :: k in old(ProxyMap()) ==> k in ProxyMap() && ProxyMap()[k] == old(ProxyMap())[k]
      ensures forall k :: k != DomainKey(region, domain) ==> (k in ProxyMap() <==> k in old(ProxyMap()))
    {
      var hit := CachedProxy(region, domain);
      if hit.Some? {
        return Ok(hit.value);
      }
      var key := DomainKey(region, domain);
      if proxies.None? {
        proxies := Some(map[]);
      }
      r := NewProxy(region, domain, svc);
      if r.Err? {
        return;
      }
      proxies := Some(proxies.value[key := r.value]);
    }
  }
}
