# caddy-awses, modelled in Dafny

This project models the `awses` middleware for the Caddy web server. The
middleware forwards HTTP requests to AWS Elasticsearch Service domains and
signs each outbound request with the server's AWS credentials.

The Caddyfile holds one `awses` block per tenant:
- an optional path prefix;
- optional `domain`, `region` and `role` directives.

The model covers the whole request path:

- **Configuration** (`config.dfy`, module `Config`). Each block becomes a
  `Config` record:
  - the prefix is normalised to `""` or `/x/y`;
  - directive arguments are checked;
  - the records are stably sorted by descending path length, counted in
    bytes as Go's `len` counts it.

  `ParseConfigs` follows the source: it loops over the blocks and assigns
  fields one at a time, then sorts an array in place with `Sorting.SortInPlace`.
- **Dispatch** (`dispatcher.dfy`, module `Dispatch`). The first block whose
  prefix matches the request path on a segment boundary wins. Its prefix is
  stripped and the request goes to that block's `Handler`. Requests nothing
  matches pass to the next middleware.
- **Handling** (`handler.dfy`, module `Handlers`). The region and domain come
  either from the block or from the next path segments. The handler then does
  one of three things:
  - renders the missing-region page;
  - renders the missing-domain page, which lists the region's domains;
  - resolves the domain's proxy, rewrites the path and forwards the request.

  Resolution errors become 404, 400 or 502 pages.
- **Proxies** (`es_manager.dfy`, module `EsManager`).
  - `ElasticsearchManager` caches one `ReverseProxy` per (region, domain) and
    never caches a failure.
  - AWS error codes are classified into the two sentinel errors.
  - Listed domain names are sorted with Go's string order.
  - `ReverseProxy.Direct` is the director. It rewrites the outbound request's
    host, scheme and headers, buffers the body and records the signer call.
- **Clients** (`es_client_factory.dfy`, module `ClientFactory`).
  `ElasticsearchClientFactory` caches one client per region. It uses
  role-assumed credentials exactly when a role is configured.

Supporting modules:
- `Strings`: the `strings` functions that are used, and Go's `<` on strings.
- `Sorting`: an in-place insertion sort proved equal to a stable sort
  specification, with permutation, order and stability lemmas.
- `Http`: the request object, the request body and rendered responses.
- `Aws`: credentials, SDK errors, the two Elasticsearch Service calls and
  signer inputs.
- `Wrappers`: `Option` and `Result`.

The Elasticsearch Service API is a parameter of type `Aws.Service`. It holds
the answers the cloud gives to `ListDomainNames` and
`DescribeElasticsearchDomain` for a region and a set of credentials. The
current time is a parameter of `ReverseProxy.Direct`.

The 502 page shows the SDK error's own text (`err.Error()`, handler.go:82).

An unknown directive in a block is reported by its own name. config.go:76
reports a different token; the model follows the evidently intended
behaviour, and "## Findings" shows the code as written beside it.

## Model

| member | source | states |
|---|---|---|
| Strings.TrimLeft | handler.go:93 | The result is a suffix of the input with no leading `c`, and every dropped character is `c` |
| Strings.TrimRight | config.go:38 | The result is a prefix of the input with no trailing `c`, and every dropped character is `c` |
| Strings.Trim | config.go:38 | No `c` at either end of the result; the result is empty iff the input is all `c` (TrimCut gives the rest) |
| Strings.TrimCut | config.go:38 | The result is one contiguous piece of the input, and every character before and after that piece is `c` |
| Strings.TrimCons | config.go:38 | A leading `c` is trimmed like the rest |
| Strings.TrimNoop | config.go:38 | An input that neither starts nor ends with `c` comes back unchanged |
| Strings.IndexOf | handler.go:93 | None iff `c` does not occur; otherwise the position of the first `c` |
| Strings.IndexOfAt | handler.go:93 | A `c` at `k` with none before it means `IndexOf` is `k` |
| Strings.TrimLeftEmpty | handler.go:93 | Trimming leading slashes leaves nothing iff the path is all slashes |
| Strings.TrimPrefix | dipatcher.go:50 | When `prefix` is a prefix of `s`, `prefix + r == s`; otherwise `s` is returned unchanged |
| Strings.Less | es_manager.go:57 | Go's `<` on strings: a proper prefix is smaller, otherwise the first differing character decides (its order properties are the four lemmas below) |
| Strings.LessAsymmetric | es_manager.go:57 | Go's string `<` is asymmetric |
| Strings.LessTransitive | es_manager.go:57 | Go's string `<` is transitive |
| Strings.LessTotal | es_manager.go:57 | Any two strings are equal or ordered one way |
| Strings.LessIrreflexive | es_manager.go:57 | No string is below itself |
| Strings.CharBytes | config.go:94 | One to four bytes per character, one exactly for ASCII |
| Strings.Utf8Len | config.go:94 | Go's `len` of a string: its UTF-8 byte count, between one and four bytes per character |
| Strings.Utf8LenAscii | config.go:94 | The byte count equals the character count iff every character is ASCII |
| Strings.Utf8LenAppend | config.go:94 | The byte count of a concatenation is the sum of the byte counts |
| Strings.Utf8LenPrefix | config.go:94 | A string that extends another has at least as many bytes, and more exactly when it is longer |
| Sorting.InsertionSortPermutes | config.go:81-82 | The sort result is a permutation of the input (multisets equal) |
| Sorting.InsertionSortSorted | config.go:81-82 | With a strict weak order, no later element is less than an earlier one |
| Sorting.InsertionSortStable | config.go:81-82 | For every equivalence class, its elements keep their input order |
| Sorting.InsertLastSorted | config.go:81-82 | Inserting into a sorted sequence keeps it sorted |
| Sorting.InsertLastStable | config.go:81-82 | Insertion keeps the relative order of equivalent elements |
| Sorting.InsertInPlace | config.go:82 | One pass of the swap loop leaves `InsertLast` of the prefix in the array and leaves the rest untouched |
| Sorting.SortInPlace | config.go:82 | The array ends holding the stable sort of its old contents |
| Config.NormalizePath | config.go:37-42 | The path is normalised; it is `""` iff the argument is all slashes; otherwise it is `"/"` + the slash-trimmed argument |
| Config.NormalizedFixpoint | config.go:37-42 | A normalised path comes back unchanged |
| Config.NormalizePathFixpoints | config.go:37-42 | A path is its own normal form iff it is normalised; normalising is idempotent |
| Config.NormalizePathTrailingSlash | config.go:37-42 | A trailing slash is dropped: `"/a/prefix/"` gives `"/a/prefix"` |
| Config.BlockPath | config.go:35-49 | Succeeds iff there is at most one argument, with TooManyArgs otherwise. The path is `""` without an argument and the normalised argument with one |
| Config.ApplyDirective | config.go:56-77 | Succeeds iff the directive is `domain`, `region` or `role` with one argument. Then the field it names is set to the argument and every other field is kept. Otherwise it fails with that directive's error |
| Config.ApplyDirectives | config.go:52-78 | The directives applied in order, stopping at the first failure (its properties are the ApplyDirectives lemmas below) |
| Config.ParseBlock | config.go:34-78 | The block's path, then its directives over an empty record (its properties are ParseBlockSpec) |
| Config.ParseBlockSpec | config.go:34-78 | More than one argument gives TooManyArgs. Otherwise the block succeeds iff every directive is well formed. The path comes from the argument (`""` without one). Each field is set by the last directive of its name |
| Config.ApplyDirectivesOk | config.go:52-78 | The directives succeed iff each is `domain`, `region` or `role` with exactly one argument |
| Config.ApplyDirectivesErr | config.go:56-77 | On failure, the error belongs to the first malformed directive: SingleDomain, SingleRegion, SingleRole or InvalidDirective |
| Config.ApplyDirectivesFields | config.go:56-73 | The path is kept. Each of domain, region and role is set by its last directive, or keeps its initial value |
| Config.SingleSettingBlocks | config.go:57-73 | A block with one directive under a normalised path sets only that directive's field |
| Config.ReportedTokenAsWritten | config.go:53-76 | The token `c.Val()` holds once the directive's arguments are consumed: the last argument, or the name when there is none |
| Config.UnknownDirectiveMisreported | config.go:75-76 | For the line `foo bar`, the code as written names `bar`; the model names `foo` |
| Config.UnknownDirectiveNamed | config.go:75-76 | An unknown directive after well-formed ones fails with InvalidDirective carrying the directive's name |
| Config.ParseBlocks | config.go:29-32 | The blocks' records in block order, or the first failing block's error (its properties are ParseBlocksSpec) |
| Config.Collect | config.go:29-48 | A step applied to each element in order, stopping at the first error (its properties are CollectOk and CollectErr) |
| Config.CollectOk | config.go:29-48 | Success iff every step succeeds; then one result per element, in order |
| Config.CollectErr | config.go:29-48 | On failure, the error of a failing element with only successful ones before it |
| Config.ParseBlocksSpec | config.go:30-32 | Success iff every block parses; then one record per block, in block order. Otherwise the first failing block's error |
| Config.ParseBlocksPrefixError | config.go:47-48 | Once a block fails, the whole parse fails with that error and returns no records |
| Config.PathLonger | config.go:93-95 | `Less` of sortableConfigs: a path with more bytes sorts first (PathLongerCountsBytes shows bytes, not characters, are compared) |
| Config.PathLongerCountsBytes | config.go:93-95 | `/é` and `/ab` are both three bytes long, so neither sorts before the other, although `/é` has fewer characters |
| Config.PathOrderIsStrictWeak | config.go:93-95 | Longer-path-first is a strict weak order, so the stable sort's lemmas apply |
| Config.SortByPathLength | config.go:81-82 | `sort.Stable` over sortableConfigs (its properties are SortByPathLengthSpec) |
| Config.SortByPathLengthSpec | config.go:81-95 | The result is a permutation with non-increasing path byte lengths; records of equal byte length keep their relative order |
| Config.MultiBlockOrder | config.go:81-82 | `/middle`, `/longest`, `/last` are ordered `/longest`, `/middle`, `/last` |
| Config.SortThree | config.go:81-82 | Three records where the second is longer than the first and the third no longer than the first sort as second, first, third |
| Config.ApplyBlockDirectives | config.go:51-78 | The directive loop ends with exactly `ApplyDirectives` of the record it starts from |
| Config.ParseOneBlock | config.go:30-78 | One pass of the block loop gives exactly `ParseBlock` of the block |
| Config.ParseConfigs | config.go:28-85 | The first failing block's error, or exactly the parsed records stably sorted by descending path byte length |
| Dispatch.Matches | dipatcher.go:35 | The path equals the prefix or starts with the prefix followed by `/` |
| Dispatch.MatchesSegments | dipatcher.go:35 | A prefix matches iff it is a prefix of the path ending at the path's end or before a `/` |
| Dispatch.EmptyPrefixMatches | dipatcher.go:35 | The empty prefix matches `""` and exactly the paths that start with `/` |
| Dispatch.MatchesSameLength | dipatcher.go:35 | Two matching prefixes of equal length are the same prefix |
| Dispatch.MatchingPrefixBytes | dipatcher.go:34-40 | Of two prefixes matching the same path, one has fewer bytes iff it has fewer characters, so the byte order of the sorted blocks is the longest-prefix order |
| Dispatch.PrefixesNest | dipatcher.go:34-40 | Of two prefixes of one path, the shorter is a prefix of the longer |
| Dispatch.StrippedPath | dipatcher.go:50 | After stripping a matching prefix, the rest is `""` or starts with `/`, and prefix + rest is the original path |
| Dispatch.FirstMatch | dipatcher.go:33-41 | None iff no block matches; otherwise the index of a matching block with no matching block before it |
| Dispatch.ConfigForRequest | dipatcher.go:33-41 | The loop returns exactly the first match |
| Dispatch.BestMatchNone | dipatcher.go:34-40 | The longest-prefix choice is empty iff no block matches |
| Dispatch.BestMatchSome | dipatcher.go:34-40 | Otherwise it is a matching block. No matching prefix is longer. Every earlier matching block is shorter |
| Dispatch.InsertLastMatch | dipatcher.go:34-40 | Inserting a block into a length-sorted list changes its first match as the longest-prefix rule says |
| Dispatch.FirstMatchIsBest | dipatcher.go:34-40 | Over the sorted records, the first match is the longest-prefix choice |
| Dispatch.LongestPrefixWins | dipatcher.go:34-40 | Over the parsed blocks, the dispatcher picks nothing iff no block matches. Otherwise it picks a block with the longest matching prefix, the first such in block order |
| Dispatch.Dispatcher.constructor | dipatcher.go:18-31 | Every block gets exactly one handler for that block, whose clients take that block's role. Handlers have distinct fresh managers and factories, with empty proxy and client caches |
| Dispatch.Dispatcher.ServeHTTP | dipatcher.go:43-52 | With no match the path is unchanged, the request is passed on and no handler's caches change. Otherwise the first match's handler gets the stripped path, which is `""` or starts with `/`, and serves it as `Handlers.Handler.ServesAs` describes; every other handler's caches are unchanged |
| Dispatch.Dispatcher.ServeWith | dipatcher.go:49-51 | The stripped path as above; block k's handler serves it as `ServesAs` describes; no other handler's manager or factory changes |
| Dispatch.StripAndServe | dipatcher.go:49-51 | The matching prefix is stripped, leaving `""` or a `/`-path, and the handler serves the rest as `ServesAs` describes |
| Handlers.CutAtSlash | handler.go:93-97 | The head has no `/` and the rest starts with `/`. They concatenate back to the input when it has a `/`; otherwise the result is (input, `"/"`) |
| Handlers.SplitNextComponent | handler.go:92-99 | The component has no `/` and the remainder starts with `/`. The component is empty iff the path is all slashes. Component + remainder rebuilds the slash-trimmed path |
| Handlers.CutAtSlashInverse | handler.go:93-97 | A slash-free head followed by `""` or a `/`-rest is cut back into the two |
| Handlers.SplitNextComponentInverse | handler.go:92-99 | `"/" + segment + rest` splits back into segment and rest (`"/"` for an empty rest) |
| Handlers.ParsePath | handler.go:27-40 | Fixed region and domain are kept; otherwise they are taken from the path and contain no `/`. The remaining path is never empty |
| Handlers.ParsePathInverse | handler.go:27-40 | With nothing fixed, `/region/domain/rest` gives region, domain and rest |
| Handlers.ParsePathInverseFixedRegion | handler.go:27-40 | With the region fixed, `/domain/rest` gives the block's region, the domain and rest |
| Handlers.ParsePathInverseFixedDomain | handler.go:27-40 | With the domain fixed, `/region/rest` gives the region, the block's domain and rest |
| Handlers.ParsePathFixedBoth | handler.go:27-40 | With both fixed, the whole path is forwarded (`"/"` for an empty path) |
| Handlers.Lines | handler.go:67-70 | Each name followed by a newline, in order (read back by SplitLinesOfLines) |
| Handlers.SplitLines | handler.go:67-70 | No line of the result contains a newline |
| Handlers.SplitLinesOfLines | handler.go:67-70 | Reading the listing back line by line gives exactly the names, in order |
| Handlers.TitledListingLines | handler.go:67-70 | Title, blank line and listing read back as `[title, ""] + names` |
| Handlers.MissingDomainPage | handler.go:57-72 | A listing error gives 500 with the generic text; otherwise 400 `text/plain` |
| Handlers.MissingDomainPageLists | handler.go:64-70 | The 400 page's lines are the title, a blank line, and then exactly the listed names in ascending order |
| Handlers.StatusFor | handler.go:76-83 | 404 iff DomainNotFound, 400 iff InvalidDomainName, 502 iff any other error |
| Handlers.DescribeFailureStatus | handler.go:76-83 | From the DescribeElasticsearchDomain answer to the status. Missing domain or endpoint gives 404, ValidationException gives 400. Anything else gives 502 with the SDK's text |
| Handlers.Handler.constructor | handler.go:17-23 | A fresh manager with the block's role and empty caches |
| Handlers.Handler.RenderMissingRegion | handler.go:52-55 | 400 with "An AWS region must be provided" |
| Handlers.Handler.RenderMissingDomain | handler.go:57-72 | The page is the missing-domain page of the region's listing. A client is now cached for the region (one cached before is kept); other regions' clients are unchanged |
| Handlers.Handler.ProxyRequest | handler.go:74-90 | An error page with the classified status only when nothing was cached and resolution failed; the path and the proxy cache are then unchanged. Otherwise the request goes to the cached proxy (cache unchanged) or to the newly resolved one (now cached under its key) with the remaining path. A hit makes no describe call and keeps the clients; a miss makes one call and uses the region's client |
| Handlers.Handler.RouteRequest | handler.go:27-40 | The region, domain and rest the path is split into are those of `ParsePath` for the handler's configuration |
| Handlers.Handler.ServeHTTP | handler.go:25-50 | No region gives the 400 page and leaves the manager's caches as they were. Region without domain gives the listing page, keeps the proxy cache and uses the region's client. Otherwise the proxy outcome and cache effects of ProxyRequest, for the routed region, domain and path |
| EsManager.ErrorText | es_manager.go:21-22 | The text `err.Error()` gives: the two sentinel messages, or the SDK error's own text |
| EsManager.Classify | es_manager.go:65-73 | ResourceNotFoundException iff DomainNotFound; ValidationException iff InvalidDomainName; any other error is returned unchanged |
| EsManager.ResolveEndpoint | es_manager.go:64-80 | Success iff the call succeeded with a status and an endpoint. Call errors are classified. A missing status or endpoint is DomainNotFound |
| EsManager.StringOrderIsStrictWeak | es_manager.go:57 | Go's string order is a strict weak order |
| EsManager.SortedNames | es_manager.go:57 | `sort.Strings` (its properties are SortedNamesSpec) |
| EsManager.SortedNamesSpec | es_manager.go:53-58 | The sorted names are a permutation of the listed ones, in ascending order |
| EsManager.ReverseProxy.constructor | es_manager.go:79-82 | The proxy keeps the endpoint host, the region and the signer's credentials |
| EsManager.ReverseProxy.Direct | es_manager.go:83-111 | Host is cleared, scheme is https, URL host is the endpoint. Connection is close; User-Agent is kept or blanked; other headers are unchanged. The body is read in full and given to the signer with "es", the region and now − 10 s, which attaches the buffered bytes. A read error skips signing; a signer that cannot get its credentials signs nothing and attaches no body |
| EsManager.ElasticsearchManager.constructor | es_manager.go:37-44 | An empty proxy cache and a factory for the role |
| EsManager.ElasticsearchManager.ProxyMap | es_manager.go:144-153 | A nil cache reads as empty |
| EsManager.ElasticsearchManager.CachedProxy | es_manager.go:144-153 | The cached proxy for (region, domain) iff one is stored |
| EsManager.ElasticsearchManager.ListDomains | es_manager.go:46-59 | The listing error unchanged, or exactly the listed names sorted. A client is cached for the region (one cached before is kept); other regions' clients are unchanged |
| EsManager.ElasticsearchManager.NewProxy | es_manager.go:61-113 | Issues one describe call and uses the region's client as ListDomains does. Returns the classified resolution error, or a fresh proxy for the endpoint with the region and the factory's credentials |
| EsManager.ElasticsearchManager.GetProxy | es_manager.go:115-142 | A hit returns the cached proxy with no call and no change. A miss makes one describe call and uses the region's client. A failure caches nothing; a success stores the new proxy under its key only. No stored proxy is ever replaced |
| ClientFactory.CredentialsFor | es_client_factory.go:34-35 | Role-assumed credentials iff the role is non-empty, for that role |
| ClientFactory.ElasticsearchClientFactory.New | es_client_factory.go:29-39 | A fresh client scoped to the region with the role's credentials |
| ClientFactory.CachedIn | es_client_factory.go:65-74 | The client stored for a region in a client map; none for a nil map or a missing entry |
| ClientFactory.ElasticsearchClientFactory.Cached | es_client_factory.go:65-74 | A nil map or a missing entry gives no client |
| ClientFactory.ElasticsearchClientFactory.Get | es_client_factory.go:42-63 | A hit returns the cached client with the map unchanged. A miss stores a fresh client under the region only. No stored client is ever replaced (`UsedFor`) |
| Http.ReadAll | es_manager.go:101-104 | Succeeds iff the body is a readable stream, with exactly its bytes |
| Http.Error | handler.go:53 | The given status, with the message and a newline as the body |

## Left out

- The Caddy tokenizer (`c.Next`, `c.NextBlock`, `c.RemainingArgs`, `c.Val`) is a foreign library. A block's input is given already split into arguments and directive lines (`Config.Block`).
- setup.go (plugin registration and middleware wiring) is not part of this model.
- The AWS SDK is not modelled:
  - sessions, `stscreds` and the HTTP calls behind `ListDomainNames` and `DescribeElasticsearchDomain` are reduced to the `Aws.Service` answers;
  - credentials are reduced to `Aws.Credentials`.
- The Signature Version 4 algorithm is not modelled. The director records what the signer is called with, in `Request.signature`. The headers the signer adds are left out.
- `httputil.ReverseProxy.ServeHTTP` is not modelled: cloning the request, the transport and copying the upstream response. `Handlers.Served.Forwarded` names the proxy that receives the request.
- `http.Error` also sets `X-Content-Type-Options: nosniff`. Response headers other than the content type are left out.
- The next middleware is not modelled. `Dispatch.Dispatched.PassedToNext` says the request went to it.
- `sync.RWMutex` locking is not modelled:
  - `GetProxy` and `Get` run as one sequential step;
  - the recheck of the map under the write lock is therefore the same test as the first lookup and is not modelled separately.
- `time.Now()` is not modelled: the current time is a parameter of `ReverseProxy.Direct`, in nanoseconds.
- Go pointer identity of `*Config` is not modelled. The dispatcher's handler table is indexed by position in the config list instead of by pointer; each config holds exactly one position.
- Go's `sort.Stable` and `sort.Strings` use different algorithms from the insertion sort here. A stable sort's output is unique, so the result agrees for `sort.Stable`. `sort.Strings` is not stable, but equal strings are indistinguishable.
- Closing the request body is not modelled. A body that has been read is `Drained`, or is replaced by the buffered bytes when the body is read in full and the signer gets its credentials.
- EsManager.ReverseProxy.Direct: the signer's credential retrieval is reduced to the parameter `credentialsOk`. Sign's error is ignored, as es_manager.go:110 does; no other way for Sign to fail is modelled.
- Config.ParseConfigs: an unknown directive fails with `InvalidDirective` carrying the directive's name, not the token config.go:76 prints (the last argument when there is one); see "## Findings".
- Config.ApplyDirectivesErr: the unknown-directive error carries the directive's name, not config.go:76's token, for the same reason.
- Strings are sequences of characters. Go compares UTF-8 bytes, which orders code points the same way. Go's `len` is modelled as `Strings.Utf8Len`.
- Config.ApplyDirective: an unknown directive fails with `InvalidDirective` carrying the directive's name, not config.go:76's token; see "## Findings".
- Config.ApplyDirectives: the same unknown-directive error, for the first unknown directive.
- Config.ApplyBlockDirectives: the same unknown-directive error.
- Config.ParseBlock: the same unknown-directive error, for the block's first unknown directive.
- Config.ParseOneBlock: the same unknown-directive error.
- Config.ParseBlocks: the same unknown-directive error, for the first failing block.

## Findings

| source | as written | input that shows it | evidently intended | confidence | as-written member | corrected member |
|---|---|---|---|---|---|---|
| config.go:76 | The unknown-directive error is built from `c.Val()` after `c.RemainingArgs()` has moved the dispenser to the directive's last argument | a block line `foo bar` gives "invalid directive 'bar'" | name the directive: "invalid directive 'foo'" | medium, not executed | Config.UnknownDirectiveMisreported | Config.UnknownDirectiveNamed |
