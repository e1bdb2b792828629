/**
 * Dispatcher: the middleware entry point. It picks the first configured
 * block whose path prefix matches the request path (the blocks arrive longest
 * path first), strips that prefix and hands the request to the block's
 * handler; requests no block matches go to the next middleware.
 */
module Dispatch {
  import opened Wrappers
  import Strings
  import Sorting
  import Config
  import opened Http
  import opened Aws
  import opened Handlers
  import EsManager

  /** A block's prefix matches a path equal to it or continuing it with a new segment. */
  predicate Matches(prefix: string, path: string) {
    path == prefix || prefix + "/" <= path
  }

  /** Matching is prefix matching on whole segments: the path goes on, if at all, with a slash. */
  lemma MatchesSegments(prefix: string, path: string)
    ensures Matches(prefix, path) <==>
      prefix <= path && (|path| == |prefix| || path[|prefix|] == '/')
  {
    if prefix <= path && |path| > |prefix| && path[|prefix|] == '/' {
      assert path[..|prefix| + 1] == prefix + "/";
    }
  }

  /** The empty prefix (a block without a path) takes "" and every path that starts with a slash. */
  lemma EmptyPrefixMatches(path: string)
    ensures Matches("", path) <==> path == "" || path[0] == '/'
  {
    MatchesSegments("", path);
  }

  /** Two prefixes of the same length that match the same path are the same prefix. */
  lemma MatchesSameLength(p: string, q: string, path: string)
    requires Matches(p, path) && Matches(q, path) && |p| == |q|
    ensures p == q
  {
    MatchesSegments(p, path);
    MatchesSegments(q, path);
    assert p == path[..|p|] && q == path[..|q|];
  }

  /**
   * Of two prefixes that match the same path one extends the other, so
   * comparing them in bytes, as the block order does, agrees with comparing
   * them in characters.
   */
  lemma MatchingPrefixBytes(p: string, q: string, path: string)
    requires Matches(p, path) && Matches(q, path)
    ensures Strings.Utf8Len(p) < Strings.Utf8Len(q) <==> |p| < |q|
  {
    MatchesSegments(p, path);
    MatchesSegments(q, path);
    if |p| <= |q| {
      PrefixesNest(p, q, path);
      Strings.Utf8LenPrefix(p, q);
    } else {
      PrefixesNest(q, p, path);
      Strings.Utf8LenPrefix(q, p);
    }
  }

  lemma PrefixesNest(p: string, q: string, path: string)
    requires p <= path && q <= path && |p| <= |q|
    ensures p <= q
  {
    assert forall i :: 0 <= i < |p| ==> p[i] == path[i] == q[i];
  }

  /**
   * Stripping a matching prefix leaves the path the handler sees: "" or a
   * path that starts with a slash, and the prefix put back gives the original.
   */
  lemma StrippedPath(prefix: string, path: string)
    requires Matches(prefix, path)
    ensures var rest := Strings.TrimPrefix(path, prefix);
      && prefix + rest == path
      && (rest == "" || rest[0] == '/')
  {
    MatchesSegments(prefix, path);
    var rest := Strings.TrimPrefix(path, prefix);
    if rest != "" {
      assert rest[0] == path[|prefix|];
    }
  }

  /** The index of the first block that matches the path, if any. */
  function FirstMatch(configs: seq<Config.Config>, path: string): (r: Option<nat>)
    ensures r.None? <==> forall i :: 0 <= i < |configs| ==> !Matches(configs[i].path, path)
    ensures r.Some? ==>
      && r.value < |configs| && Matches(configs[r.value].path, path)
      && forall j :: 0 <= j < r.value ==> !Matches(configs[j].path, path)
    decreases |configs|
  {
    if configs == [] then None
    else if Matches(configs[0].path, path) then Some(0)
    else match FirstMatch(configs[1..], path)
      case None => None
      case Some(i) => Some(i + 1)
  }

  /** The block the first match designates. */
  function MatchOf(configs: seq<Config.Config>, path: string): Option<Config.Config> {
    match FirstMatch(configs, path)
    case None => None
    case Some(i) => Some(configs[i])
  }

  /** The better of the best match so far and a later block: a longer matching prefix wins, ties keep the earlier. */
  function Better(best: Option<Config.Config>, c: Config.Config, path: string): Option<Config.Config> {
    if !Matches(c.path, path) then best
    else if best.None? || |best.value.path| < |c.path| then Some(c)
    else best
  }

  /** Reference definition of the intended choice: the longest matching prefix, the first such block on ties. */
  function BestMatch(configs: seq<Config.Config>, path: string): Option<Config.Config> {
    if configs == [] then None
    else Better(BestMatch(configs[..|configs| - 1], path), configs[|configs| - 1], path)
  }

  /**
   * Block k holds the intended choice: its prefix matches, no matching
   * prefix is longer, and every earlier matching prefix is shorter.
   */
  ghost predicate BestAt(configs: seq<Config.Config>, path: string, k: int) {
    && 0 <= k < |configs|
    && Matches(configs[k].path, path)
    && (forall j :: 0 <= j < |configs| && Matches(configs[j].path, path) ==> |configs[j].path| <= |configs[k].path|)
    && (forall j :: 0 <= j < k && Matches(configs[j].path, path) ==> |configs[j].path| < |configs[k].path|)
  }

  /** BestMatch is nothing exactly when no block matches. */
  lemma {:induction false} BestMatchNone(configs: seq<Config.Config>, path: string)
    ensures BestMatch(configs, path).None? <==> forall i :: 0 <= i < |configs| ==> !Matches(configs[i].path, path)
  {
    if configs != [] {
      var init := configs[..|configs| - 1];
      BestMatchNone(init, path);
      assert forall i :: 0 <= i < |init| ==> configs[i] == init[i];
    }
  }

  /** Otherwise it is the first of the blocks with the longest matching prefix. */
  lemma {:induction false} BestMatchSome(configs: seq<Config.Config>, path: string)
    requires BestMatch(configs, path).Some?
    ensures exists k :: BestAt(configs, path, k) && configs[k] == BestMatch(configs, path).value
  {
    var init, c := configs[..|configs| - 1], configs[|configs| - 1];
    var b := BestMatch(init, path);
    var n := |init|;
    assert forall i :: 0 <= i < n ==> configs[i] == init[i];
    if b.Some? {
      BestMatchSome(init, path);
      var k :| BestAt(init, path, k) && init[k] == b.value;
      if Matches(c.path, path) && |b.value.path| < |c.path| {
        assert BestAt(configs, path, n);
      } else {
        assert BestAt(configs, path, k);
      }
    } else {
      BestMatchNone(init, path);
      assert BestAt(configs, path, n);
    }
  }

  /** The first match in a list extended by one block. */
  lemma MatchOfSnoc(configs: seq<Config.Config>, c: Config.Config, path: string)
    ensures MatchOf(configs + [c], path) ==
      if MatchOf(configs, path).Some? then MatchOf(configs, path)
      else if Matches(c.path, path) then Some(c)
      else None
  {
    var s := configs + [c];
    assert forall i :: 0 <= i < |configs| ==> s[i] == configs[i];
    assert s[|configs|] == c;
    var f, g := FirstMatch(configs, path), FirstMatch(s, path);
    if f.Some? {
      assert g.Some?;
      assert g.value == f.value;
    } else if g.Some? {
      if g.value < |configs| {
        assert false;
      }
    }
  }

  /** Inserting a block into a list sorted by descending path length combines its match with the list's. */
  lemma {:induction false} InsertLastMatch(sorted: seq<Config.Config>, c: Config.Config, path: string)
    requires Sorting.Sorted(sorted, Config.PathLonger)
    ensures MatchOf(Sorting.InsertLast(sorted, c, Config.PathLonger), path) == Better(MatchOf(sorted, path), c, path)
    decreases |sorted|
  {
    if sorted == [] {
      MatchOfSnoc([], c, path);
      assert [] + [c] == [c];
    } else {
      var init, last := sorted[..|sorted| - 1], sorted[|sorted| - 1];
      assert sorted == init + [last];
      MatchOfSnoc(init, last, path);
      if !Config.PathLonger(c, last) {
        MatchOfSnoc(sorted, c, path);
        var m := MatchOf(sorted, path);
        if m.Some? {
          var k := FirstMatch(sorted, path).value;
          if k < |sorted| - 1 {
            assert !Config.PathLonger(sorted[|sorted| - 1], sorted[k]);
          }
          if Matches(c.path, path) {
            MatchingPrefixBytes(sorted[k].path, c.path, path);
          }
        }
      } else {
        assert Sorting.Sorted(init, Config.PathLonger) by {
          forall i, j | 0 <= i < j < |init| ensures !Config.PathLonger(init[j], init[i]) {
            assert init[i] == sorted[i] && init[j] == sorted[j];
          }
        }
        InsertLastMatch(init, c, path);
        var a := Sorting.InsertLast(init, c, Config.PathLonger);
        MatchOfSnoc(a, last, path);
        var m := MatchOf(init, path);
        if m.Some? {
          var k := FirstMatch(init, path).value;
          assert init[k] == sorted[k];
          if k < |init| - 1 {
            assert !Config.PathLonger(sorted[|init| - 1], sorted[k]);
          }
          assert !Config.PathLonger(last, sorted[k]);
        } else if Matches(c.path, path) && Matches(last.path, path) {
          MatchingPrefixBytes(last.path, c.path, path);
        }
      }
    }
  }

  /**
   * Over the blocks as ParseConfigs orders them (stably, longest path
   * first), the first match is the reference choice: the longest matching
   * prefix, the earliest block among equals.
   */
  lemma {:induction false} FirstMatchIsBest(configs: seq<Config.Config>, path: string)
    ensures MatchOf(Config.SortByPathLength(configs), path) == BestMatch(configs, path)
    decreases |configs|
  {
    if configs != [] {
      var init, c := configs[..|configs| - 1], configs[|configs| - 1];
      FirstMatchIsBest(init, path);
      Config.PathOrderIsStrictWeak();
      Sorting.InsertionSortSorted(init, Config.PathLonger);
      InsertLastMatch(Config.SortByPathLength(init), c, path);
    }
  }

  /**
   * The dispatcher's choice over parsed blocks, stated outright: nothing
   * exactly when no block's prefix matches; otherwise a matching block whose
   * prefix is at least as long as every other matching prefix, and the first
   * in block order among those of its length.
   */
  lemma LongestPrefixWins(configs: seq<Config.Config>, path: string)
    ensures var m := MatchOf(Config.SortByPathLength(configs), path);
      && (m.None? <==> forall i :: 0 <= i < |configs| ==> !Matches(configs[i].path, path))
      && (m.Some? ==> exists k :: BestAt(configs, path, k) && configs[k] == m.value)
  {
    FirstMatchIsBest(configs, path);
    BestMatchNone(configs, path);
    if BestMatch(configs, path).Some? {
      BestMatchSome(configs, path);
    }
  }

  /** Strips a matching prefix from the request path and lets the handler serve what is left. */
  method StripAndServe(h: Handler, prefix: string, r: Request, svc: Service, ghost before: EsManager.ManagerState)
      returns (stripped: string, served: Served)
    requires h.manager.Valid() && Matches(prefix, r.path) && h.manager.State() == before
    modifies r`path, h.manager, h.manager.factory
    ensures h.manager.Valid()
    ensures stripped == Strings.TrimPrefix(old(r.path), prefix)
    ensures prefix + stripped == old(r.path) && (stripped == "" || stripped[0] == '/')
    ensures h.ServesAs(stripped, r.path, svc, served, before)
  {
    StrippedPath(prefix, r.path);
    r.path := Strings.TrimPrefix(r.path, prefix);
    stripped := r.path;
    assert h.manager.State() == before;
    served := h.ServeHTTP(r, svc);
  }

  /** A manager whose fields and client factory were left alone keeps its state. */
  twostate lemma StateKept(m: EsManager.ElasticsearchManager)
    requires unchanged(m, m.factory)
    ensures m.State() == old(m.State())
  {
  }

  /** What the dispatcher did with a request. */
  datatype Dispatched =
    | PassedToNext                                     // no block matched: the next middleware serves it
    | Dispatched(index: nat, path: string, served: Served)  // block `index` served it, seeing `path`

  /** ConfigForRequest: the first block, in configured order, whose prefix matches. */
  method ConfigForRequest(configs: seq<Config.Config>, path: string) returns (r: Option<nat>)
    ensures r == FirstMatch(configs, path)
  {
    for i := 0 to |configs|
      invariant forall j :: 0 <= j < i ==> !Matches(configs[j].path, path)
    {
      if path == configs[i].path || configs[i].path + "/" <= path {
        return Some(i);
      }
    }
    return None;
  }

  class Dispatcher {
    const configs: seq<Config.Config>
    const handlers: seq<Handler>   // handlers[i] serves configs[i]
    ghost const Repr: set<object>  // the handlers' managers and client factories

    /** Repr holds every handler's manager and client factory. */
    ghost predicate Owns() {
      forall i :: 0 <= i < |handlers| ==> handlers[i].manager in Repr && handlers[i].manager.factory in Repr
    }

    /**
     * One handler per block, for that block, whose clients take the block's
     * role, each with its own manager and client factory, all held in Repr.
     * Every part of it is fixed once the dispatcher is built.
     */
    ghost predicate Shape() {
      && |handlers| == |configs|
      && Owns()
      && (forall i :: 0 <= i < |handlers| ==> handlers[i].config == configs[i])
      && (forall i :: 0 <= i < |handlers| ==> handlers[i].manager.factory.role == configs[i].role)
      && (forall i, j :: 0 <= i < j < |handlers| ==>
            handlers[i].manager != handlers[j].manager &&
            handlers[i].manager.factory != handlers[j].manager.factory)
    }

    /** The fixed shape, and every handler's manager is valid. */
    ghost predicate Valid()
      reads Repr
    {
      Shape() && forall i :: 0 <= i < |handlers| ==> handlers[i].manager.Valid()
    }

    /** NewDispatcher: a fresh handler for every block. */
    constructor (configs: seq<Config.Config>)
      ensures this.configs == configs
      ensures Valid()
      ensures forall i :: 0 <= i < |handlers| ==> handlers[i].manager.factory.role == configs[i].role
      ensures forall i :: 0 <= i < |handlers| ==> fresh(handlers[i].manager) && fresh(handlers[i].manager.factory)
      ensures forall i :: 0 <= i < |handlers| ==>
        handlers[i].manager.proxies == None && handlers[i].manager.factory.clients == None
    {
      var hs: seq<Handler> := [];
      for i := 0 to |configs|
        invariant |hs| == i
        invariant forall j :: 0 <= j < i ==>
          && hs[j].config == configs[j] && hs[j].manager.Valid()
          && hs[j].manager.factory.role == configs[j].role
          && fresh(hs[j].manager) && fresh(hs[j].manager.factory)
          && hs[j].manager.proxies == None && hs[j].manager.factory.clients == None
        invariant forall j, k :: 0 <= j < k < i ==>
          hs[j].manager != hs[k].manager && hs[j].manager.factory != hs[k].manager.factory
      {
        var h := new Handler(configs[i]);
        hs := hs + [h];
      }
      this.configs := configs;
      handlers := hs;
      Repr := (set j | 0 <= j < |hs| :: hs[j].manager) + (set j | 0 <= j < |hs| :: hs[j].manager.factory);
    }

    /** Every handler but the one at `except` kept its manager and client factory as they were. */
    twostate predicate HandlersUntouched(except: int)
      requires Owns()
      reads Repr
    {
      forall i :: 0 <= i < |handlers| && i != except ==>
        handlers[i].manager.State() == old(handlers[i].manager.State())
    }

    /**
     * Serves a request: strips the matching block's prefix from the path and
     * lets that block's handler serve it, or passes it on untouched.
     */
    method ServeHTTP(r: Request, svc: Service) returns (d: Dispatched)
      requires Valid()
      modifies r`path, Repr
      ensures Valid()
      ensures var m := FirstMatch(configs, old(r.path));
        && (m.None? ==> d == PassedToNext && r.path == old(r.path) && HandlersUntouched(-1))
        && (m.Some? ==>
              && d.Dispatched? && d.index == m.value
              && d.path == Strings.TrimPrefix(old(r.path), configs[m.value].path)
              && configs[m.value].path + d.path == old(r.path)
              && (d.path == "" || d.path[0] == '/')
              && handlers[m.value].ServesAs(d.path, r.path, svc, d.served, old(handlers[m.value].manager.State()))
              && HandlersUntouched(m.value))
    {
      var m := ConfigForRequest(configs, r.path);
      if m.None? {
        return PassedToNext;
      }
      var k := m.value;
      assert handlers[k].manager.State() == old(handlers[k].manager.State());
      var stripped, served := ServeWith(k, r, svc, handlers[k].manager.State());
      return Dispatched(k, stripped, served);
    }

    /** Strips block k's prefix from the path and lets block k's handler serve the request. */
    method ServeWith(k: nat, r: Request, svc: Service, ghost before: EsManager.ManagerState) returns (stripped: string, served: Served)
      requires Valid() && k < |handlers| && Matches(configs[k].path, r.path) && handlers[k].manager.State() == before
      modifies r`path, handlers[k].manager, handlers[k].manager.factory
      ensures Valid()
      ensures stripped == Strings.TrimPrefix(old(r.path), configs[k].path)
      ensures configs[k].path + stripped == old(r.path) && (stripped == "" || stripped[0] == '/')
      ensures handlers[k].ServesAs(stripped, r.path, svc, served, before)
      ensures HandlersUntouched(k)
    {
      var handler := handlers[k];
      assert handler.manager.Valid();
      stripped, served := StripAndServe(handler, configs[k].path, r, svc, before);
      forall i | 0 <= i < |handlers| && i != k
        ensures unchanged(handlers[i].manager, handlers[i].manager.factory)
      {
        assert handlers[i].manager != handler.manager && handlers[i].manager.factory != handler.manager.factory;
      }
      forall i | 0 <= i < |handlers| && i != k
        ensures handlers[i].manager.State() == old(handlers[i].manager.State())
      {
        StateKept(handlers[i].manager);
      }
      ValidKept(k);
    }

    /** Valid survives a step that only changed handler k's manager and factory and kept that manager valid. */
    twostate lemma ValidKept(k: nat)
      requires old(Valid()) && k < |handlers|
      requires HandlersUntouched(k) && handlers[k].manager.Valid()
      ensures Valid()
    {
      forall i | 0 <= i < |handlers| && i != k
        ensures handlers[i].manager.Valid()
      {
        assert old(handlers[i].manager.Valid());
      }
    }
  }
}
