/**
 * ElasticsearchClientFactory: one Elasticsearch Service client per region,
 * built on first use and kept for the factory's lifetime. The lock around the
 * map is not modelled; Get runs as one sequential step.
 */
module ClientFactory {
  import opened Wrappers
  import opened Aws

  /**
   * The credentials New gives a client: the role's STS credentials exactly
   * when a role is configured, the root session's default chain otherwise.
   */
  function CredentialsFor(role: string): (c: Credentials)
    ensures c.AssumedRole? <==> role != ""
    ensures c.AssumedRole? ==> c.role == role
  {
    if role != "" then AssumedRole(role) else DefaultChain
  }

  /** The client cached for a region in a client map; a nil map has none. */
  function CachedIn(clients: Option<map<string, Client>>, region: string): (c: Option<Client>)
    ensures c.Some? <==> clients.Some? && region in clients.value
    ensures c.Some? ==> c.value == clients.value[region]
  {
    if clients.None? then None
    else if region in clients.value then Some(clients.value[region])
    else None
  }

  /**
   * The client map after a Get for `region`, against the map before: a client
   * is cached for the region, one cached for it before is kept, and no other
   * region's entry changes.
   */
  ghost predicate ClientUsed(before: Option<map<string, Client>>, after: Option<map<string, Client>>, region: string) {
    && CachedIn(after, region).Some?
    && (CachedIn(before, region).Some? ==> CachedIn(after, region) == CachedIn(before, region))
    && forall other :: other != region ==> CachedIn(after, other) == CachedIn(before, other)
  }

  class ElasticsearchClientFactory {
    const role: string
    var clients: Option<map<string, Client>>   // None: the Go map is still nil

    /** Every cached client is scoped to its key's region and uses the factory's credentials. */
    ghost predicate Valid()
      reads this
    {
      clients.Some? ==>
        forall region :: region in clients.value ==>
          clients.value[region].region == region &&
          clients.value[region].credentials == CredentialsFor(role)
    }

    constructor (role: string)
      ensures Valid() && this.role == role && clients == None
    {
      this.role := role;
      clients := None;
    }

    /** The cached client for a region; nil when the map is nil or has no entry. */
    function Cached(region: string): (c: Option<Client>)
      reads this
      ensures c.Some? <==> clients.Some? && region in clients.value
      ensures c.Some? ==> c.value == clients.value[region]
    {
      CachedIn(clients, region)
    }

    /** The client cache after a Get for `region`, against the cache before it. */
    twostate predicate UsedFor(region: string)
      reads this
    {
      ClientUsed(old(clients), clients, region)
    }

    /** A new client for the region, bypassing the cache. */
    method New(region: string) returns (c: Client)
      ensures fresh(c)
      ensures c.region == region && c.credentials == CredentialsFor(role)
    {
      var credentials := DefaultChain;
      if role != "" {
        credentials := AssumedRole(role);
      }
      c := new Client(region, credentials);
    }

    /** The cached client for a region, or a new one that is then cached. */
    method Get(region: string) returns (c: Client)
      requires Valid()
      modifies this
      ensures Valid()
      ensures c.region == region && c.credentials == CredentialsFor(role)
      ensures old(Cached(region)).Some? ==> c == old(Cached(region)).value && clients == old(clients)
      ensures old(Cached(region)).None? ==> fresh(c)
      ensures Cached(region) == Some(c)
      ensures UsedFor(region)
    {
      var hit := Cached(region);
      if hit.Some? {
        return hit.value;
      }
      if clients.None? {
        clients := Some(map[]);
      }
      c := New(region);
      clients := Some(clients.value[region := c]);
    }
  }
}
