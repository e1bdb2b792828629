/**
 * The `awses` directive: turning each pre-tokenised block into a Config
 * record, then ordering the records by descending path length with a stable
 * sort, so that the dispatcher's first match is the longest prefix.
 */
module Config {
  import opened Wrappers
  import Strings
  import Sorting

  /** One `awses` block: a path prefix and the optional fixed region, domain and role. */
  datatype Config = Config(path: string, role: string, region: string, domain: string)

  /** A line inside the block: a directive name and its arguments. */
  datatype Directive = Directive(name: string, args: seq<string>)

  /** One `awses` occurrence as the tokenizer delivers it: its arguments and its block lines. */
  datatype Block = Block(args: seq<string>, directives: seq<Directive>)

  datatype ParseError =
    | TooManyArgs                     // "[awses] too many arguments provided"
    | SingleDomain                    // "[awses] a single domain must be provided ..."
    | SingleRegion                    // "[awses] a single region must be provided ..."
    | SingleRole                      // "[awses] a single role must be provided ..."
    | InvalidDirective(token: string) // "[awses] invalid directive '<token>'"

  /** The shape of a normalised prefix: empty, or "/x..." with no doubled leading and no trailing slash. */
  predicate Normalized(p: string) {
    p == "" || (|p| >= 2 && p[0] == '/' && p[1] != '/' && p[|p| - 1] != '/')
  }

  /** The path of a block with one argument: "" if it is only slashes, else "/" + the slash-trimmed argument. */
  function NormalizePath(arg: string): (p: string)
    ensures Normalized(p)
    ensures p == "" <==> forall i :: 0 <= i < |arg| ==> arg[i] == '/'
    ensures p != "" ==> p == "/" + Strings.Trim(arg, '/')
  {
    var t := Strings.Trim(arg, '/');
    if t == "" then "" else
      var p := "/" + t;
      assert p[1] == t[0] && p[|p| - 1] == t[|t| - 1];
      p
  }

  /** A normalised path is its own normal form. */
  lemma NormalizedFixpoint(p: string)
    requires Normalized(p)
    ensures NormalizePath(p) == p
  {
    if p != "" {
      var t := p[1..];
      assert p == ['/'] + t;
      Strings.TrimCons('/', t);
      assert t[|t| - 1] == p[|p| - 1];
      Strings.TrimNoop(t, '/');
      assert Strings.Trim(p, '/') == t;
      assert "/" + t == p;
    }
  }

  /** Normalising is idempotent: a normalised path is its own normal form, and only those are. */
  lemma NormalizePathFixpoints(p: string)
    ensures NormalizePath(p) == p <==> Normalized(p)
    ensures NormalizePath(NormalizePath(p)) == NormalizePath(p)
  {
    if Normalized(p) {
      NormalizedFixpoint(p);
    }
    NormalizedFixpoint(NormalizePath(p));
  }

  /** A trailing slash is dropped: "/a/prefix/" normalises to "/a/prefix". */
  lemma NormalizePathTrailingSlash(p: string)
    requires Normalized(p) && p != ""
    ensures NormalizePath(p + "/") == p
  {
    var t := p[1..];
    assert p + "/" == ['/'] + (t + "/");
    Strings.TrimLeftCons('/', t + "/");
    Strings.TrimLeftNoop(t + "/", '/');
    Strings.TrimRightSnoc(t, '/');
    Strings.TrimRightNoop(t, '/');
    assert Strings.Trim(p + "/", '/') == t;
    assert p == "/" + t;
  }

  /** The path of a block, from its arguments. */
  function BlockPath(args: seq<string>): (r: Result<string, ParseError>)
    ensures r.Ok? <==> |args| <= 1
    ensures r.Err? ==> r.error == TooManyArgs
    ensures r.Ok? ==> Normalized(r.value)
    ensures |args| == 0 ==> r == Ok("")
    ensures |args| == 1 ==> r == Ok(NormalizePath(args[0]))
  {
    if |args| == 0 then Ok("")
    else if |args| == 1 then Ok(NormalizePath(args[0]))
    else Err(TooManyArgs)
  }

  /** One block directive applied to the record being built (the directive name is reported when unknown). */
  function ApplyDirective(c: Config, d: Directive): (r: Result<Config, ParseError>)
    ensures r.Ok? <==> WellFormed(d)
    ensures r.Err? ==> r.error == DirectiveError(d)
    ensures r.Ok? ==> r.value.path == c.path
    ensures r.Ok? ==>
      && r.value.domain == (if d.name == "domain" then d.args[0] else c.domain)
      && r.value.region == (if d.name == "region" then d.args[0] else c.region)
      && r.value.role == (if d.name == "role" then d.args[0] else c.role)
  {
    if d.name == "domain" then
      if |d.args| != 1 then Err(SingleDomain) else Ok(c.(domain := d.args[0]))
    else if d.name == "region" then
      if |d.args| != 1 then Err(SingleRegion) else Ok(c.(region := d.args[0]))
    else if d.name == "role" then
      if |d.args| != 1 then Err(SingleRole) else Ok(c.(role := d.args[0]))
    else Err(InvalidDirective(d.name))
  }

  /** The directives applied in order; the first failing one decides the error. */
  function ApplyDirectives(c: Config, ds: seq<Directive>): Result<Config, ParseError>
    decreases |ds|
  {
    if ds == [] then Ok(c)
    else match ApplyDirective(c, ds[0])
      case Err(e) => Err(e)
      case Ok(c') => ApplyDirectives(c', ds[1..])
  }

  function ParseBlock(b: Block): Result<Config, ParseError> {
    match BlockPath(b.args)
    case Err(e) => Err(e)
    case Ok(path) => ApplyDirectives(Config(path, "", "", ""), b.directives)
  }

  /** The records of all blocks, in block order, or the error of the first failing block. */
  function ParseBlocks(bs: seq<Block>): Result<seq<Config>, ParseError> {
    Collect(ParseBlock, bs)
  }

  /** f applied to every element in order, stopping at the first error. */
  function Collect<A, B>(f: A -> Result<B, ParseError>, xs: seq<A>): Result<seq<B>, ParseError> {
    if xs == [] then Ok([])
    else match Collect(f, xs[..|xs| - 1])
      case Err(e) => Err(e)
      case Ok(ys) =>
        match f(xs[|xs| - 1])
        case Err(e) => Err(e)
        case Ok(y) => Ok(ys + [y])
  }

  /** A directive the parser accepts. */
  predicate WellFormed(d: Directive) {
    d.name in {"domain", "region", "role"} && |d.args| == 1
  }

  /** The error the parser reports for a directive it does not accept. */
  function DirectiveError(d: Directive): ParseError {
    if d.name == "domain" then SingleDomain
    else if d.name == "region" then SingleRegion
    else if d.name == "role" then SingleRole
    else InvalidDirective(d.name)
  }

  /**
   * The token the unknown-directive message names in the code as written:
   * after the arguments are consumed the dispenser sits on the last argument,
   * or still on the directive name when it has none.
   */
  function ReportedTokenAsWritten(d: Directive): string {
    if |d.args| > 0 then d.args[|d.args| - 1] else d.name
  }

  /** A block line `foo bar`: the code as written names 'bar', the parser here names 'foo'. */
  lemma UnknownDirectiveMisreported()
    ensures ReportedTokenAsWritten(Directive("foo", ["bar"])) == "bar"
    ensures ParseBlock(Block([], [Directive("foo", ["bar"])])) == Err(InvalidDirective("foo"))
  {
    var d := Directive("foo", ["bar"]);
    assert [d][1..] == [];
    assert ApplyDirective(Config("", "", "", ""), d) == Err(InvalidDirective("foo"));
  }

  /** An unknown directive after well-formed ones fails the block with its own name. */
  lemma {:induction false} UnknownDirectiveNamed(c: Config, ds: seq<Directive>, i: nat)
    requires i < |ds| && ds[i].name !in {"domain", "region", "role"}
    requires forall j :: 0 <= j < i ==> WellFormed(ds[j])
    ensures ApplyDirectives(c, ds) == Err(InvalidDirective(ds[i].name))
    decreases i
  {
    if i > 0 {
      assert WellFormed(ds[0]);
      var c1 := ApplyDirective(c, ds[0]).value;
      forall j | 0 <= j < i - 1 ensures WellFormed(ds[1..][j]) {
        assert ds[1..][j] == ds[j + 1];
      }
      UnknownDirectiveNamed(c1, ds[1..], i - 1);
    }
  }

  /**
   * Field `name` of a record after the directives ds: the argument of the last
   * directive called `name`, or the initial value if there is none.
   */
  ghost predicate SetByLast(ds: seq<Directive>, name: string, initial: string, value: string) {
    || ((forall i :: 0 <= i < |ds| ==> ds[i].name != name) && value == initial)
    || (exists i :: 0 <= i < |ds| && ds[i].name == name && |ds[i].args| == 1 && ds[i].args[0] == value &&
                    forall j :: i < j < |ds| ==> ds[j].name != name)
  }

  /** The block directives succeed exactly when every one is well formed. */
  lemma {:induction false} ApplyDirectivesOk(c: Config, ds: seq<Directive>)
    ensures ApplyDirectives(c, ds).Ok? <==> forall i :: 0 <= i < |ds| ==> WellFormed(ds[i])
    decreases |ds|
  {
    if ds != [] && ApplyDirective(c, ds[0]).Ok? {
      ApplyDirectivesOk(ApplyDirective(c, ds[0]).value, ds[1..]);
      assert forall i :: 0 < i < |ds| ==> ds[i] == ds[1..][i - 1];
    }
  }

  /** On failure, the first malformed directive decides the error. */
  lemma {:induction false} ApplyDirectivesErr(c: Config, ds: seq<Directive>)
    requires ApplyDirectives(c, ds).Err?
    ensures exists i ::
              && 0 <= i < |ds| && !WellFormed(ds[i])
              && ApplyDirectives(c, ds).error == DirectiveError(ds[i])
              && forall j :: 0 <= j < i ==> WellFormed(ds[j])
    decreases |ds|
  {
    var d, tail := ds[0], ds[1..];
    match ApplyDirective(c, d)
    case Err(e) =>
      assert !WellFormed(ds[0]) && e == DirectiveError(ds[0]);
    case Ok(c1) =>
      ApplyDirectivesErr(c1, tail);
      var i :| 0 <= i < |tail| && !WellFormed(tail[i]) && ApplyDirectives(c1, tail).error == DirectiveError(tail[i]) &&
               forall j :: 0 <= j < i ==> WellFormed(tail[j]);
      assert ds[i + 1] == tail[i];
      forall j | 0 <= j < i + 1 ensures WellFormed(ds[j]) {
        if j > 0 { assert ds[j] == tail[j - 1]; }
      }
  }

  /**
   * On success the path is kept and each of domain, region and role is set by
   * the last directive of its name.
   */
  lemma {:induction false} ApplyDirectivesFields(c: Config, ds: seq<Directive>)
    requires ApplyDirectives(c, ds).Ok?
    ensures var c' := ApplyDirectives(c, ds).value;
      && c'.path == c.path
      && SetByLast(ds, "domain", c.domain, c'.domain)
      && SetByLast(ds, "region", c.region, c'.region)
      && SetByLast(ds, "role", c.role, c'.role)
    decreases |ds|
  {
    if ds != [] {
      var d, tail := ds[0], ds[1..];
      var c1 := ApplyDirective(c, d).value;
      assert WellFormed(d);
      ApplyDirectivesFields(c1, tail);
      var c' := ApplyDirectives(c, ds).value;
      assert ds == [d] + tail;
      SetByLastCons(d, tail, "domain", c.domain, c1.domain, c'.domain);
      SetByLastCons(d, tail, "region", c.region, c1.region, c'.region);
      SetByLastCons(d, tail, "role", c.role, c1.role, c'.role);
    }
  }

  lemma SetByLastCons(d: Directive, tail: seq<Directive>, name: string, initial: string, afterFirst: string, value: string)
    requires WellFormed(d)
    requires afterFirst == if d.name == name then d.args[0] else initial
    requires SetByLast(tail, name, afterFirst, value)
    ensures SetByLast([d] + tail, name, initial, value)
  {
    var ds := [d] + tail;
    if forall i :: 0 <= i < |tail| ==> tail[i].name != name {
      if d.name == name {
        assert ds[0].name == name && ds[0].args[0] == value;
        assert forall j :: 0 < j < |ds| ==> ds[j] == tail[j - 1];
      } else {
        assert forall i :: 0 <= i < |ds| ==> ds[i] == d || ds[i] == tail[i - 1];
      }
    } else {
      var i :| 0 <= i < |tail| && tail[i].name == name && |tail[i].args| == 1 && tail[i].args[0] == value &&
               forall j :: i < j < |tail| ==> tail[j].name != name;
      assert ds[i + 1] == tail[i];
      assert forall j :: i + 1 < j < |ds| ==> ds[j] == tail[j - 1];
    }
  }

  /**
   * A block: more than one argument fails with TooManyArgs; otherwise it
   * succeeds exactly when all its directives are well formed, with the path
   * from its argument ("" without one) and each field set by the last
   * directive of its name ("" without one).
   */
  lemma ParseBlockSpec(b: Block)
    ensures |b.args| > 1 ==> ParseBlock(b) == Err(TooManyArgs)
    ensures |b.args| <= 1 ==>
      (ParseBlock(b).Ok? <==> forall i :: 0 <= i < |b.directives| ==> WellFormed(b.directives[i]))
    ensures ParseBlock(b).Ok? ==>
      var c := ParseBlock(b).value;
      && c.path == (if |b.args| == 0 then "" else NormalizePath(b.args[0]))
      && SetByLast(b.directives, "domain", "", c.domain)
      && SetByLast(b.directives, "region", "", c.region)
      && SetByLast(b.directives, "role", "", c.role)
  {
    if |b.args| <= 1 {
      var start := Config(BlockPath(b.args).value, "", "", "");
      ApplyDirectivesOk(start, b.directives);
      if ParseBlock(b).Ok? {
        ApplyDirectivesFields(start, b.directives);
      }
    }
  }

  /** A block with a normalised path argument and a single directive. */
  lemma SingleDirectiveBlock(path: string, d: Directive)
    requires Normalized(path)
    ensures ParseBlock(Block([path], [d])) == ApplyDirective(Config(path, "", "", ""), d)
  {
    NormalizedFixpoint(path);
    assert BlockPath([path]) == Ok(path);
    ApplyOneDirective(Config(path, "", "", ""), d);
  }

  lemma ApplyOneDirective(c: Config, d: Directive)
    ensures ApplyDirectives(c, [d]) == ApplyDirective(c, d)
  {
    assert [d][1..] == [];
  }

  /** Blocks like those of the parser's "Multi" test: one directive under a normalised path sets that one field. */
  lemma SingleSettingBlocks(path: string, value: string)
    requires Normalized(path)
    ensures ParseBlock(Block([path], [Directive("domain", [value])])) == Ok(Config(path, "", "", value))
    ensures ParseBlock(Block([path], [Directive("region", [value])])) == Ok(Config(path, "", value, ""))
    ensures ParseBlock(Block([path], [Directive("role", [value])])) == Ok(Config(path, value, "", ""))
  {
    SingleDirectiveBlock(path, Directive("domain", [value]));
    SingleDirectiveBlock(path, Directive("region", [value]));
    SingleDirectiveBlock(path, Directive("role", [value]));
  }

  /** The "Multi" test's three paths come out longest first, then in block order. */
  lemma MultiBlockOrder(middle: Config, longest: Config, last: Config)
    requires middle.path == "/middle" && longest.path == "/longest" && last.path == "/last"
    ensures SortByPathLength([middle, longest, last]) == [longest, middle, last]
  {
    Strings.Utf8LenAscii(middle.path);
    Strings.Utf8LenAscii(longest.path);
    Strings.Utf8LenAscii(last.path);
    SortThree(middle, longest, last);
  }

  /** Three records where the second is longer than the first and the third is no longer than the first. */
  lemma SortThree(a: Config, b: Config, c: Config)
    requires PathLonger(b, a) && !PathLonger(c, a)
    ensures SortByPathLength([a, b, c]) == [b, a, c]
  {
    assert Sorting.InsertLast([], a, PathLonger) == [a];
    SortSnoc([], a, []);
    assert Sorting.InsertLast([], b, PathLonger) == [b];
    assert Sorting.InsertLast([a], b, PathLonger) == [b, a];
    SortSnoc([a], b, [a]);
    assert [a] + [b] == [a, b];
    assert Sorting.InsertLast([b, a], c, PathLonger) == [b, a, c];
    SortSnoc([a, b], c, [b, a]);
    assert [a, b] + [c] == [a, b, c];
  }

  lemma ParseBlocksSnoc(bs: seq<Block>, b: Block, cs: seq<Config>, c: Config)
    requires ParseBlocks(bs) == Ok(cs) && ParseBlock(b) == Ok(c)
    ensures ParseBlocks(bs + [b]) == Ok(cs + [c])
  {
    assert (bs + [b])[..|bs|] == bs;
  }

  lemma ParseBlocksSnocErr(bs: seq<Block>, b: Block)
    requires ParseBlocks(bs).Ok? && ParseBlock(b).Err?
    ensures ParseBlocks(bs + [b]) == Err(ParseBlock(b).error)
  {
    assert (bs + [b])[..|bs|] == bs;
  }

  lemma SortSnoc(cs: seq<Config>, c: Config, sorted: seq<Config>)
    requires SortByPathLength(cs) == sorted
    ensures SortByPathLength(cs + [c]) == Sorting.InsertLast(sorted, c, PathLonger)
  {
    assert (cs + [c])[..|cs|] == cs;
  }

  /** Exactly one record per block, in block order; the first failing block's error otherwise. */
  lemma ParseBlocksSpec(bs: seq<Block>)
    ensures ParseBlocks(bs).Ok? <==> forall i :: 0 <= i < |bs| ==> ParseBlock(bs[i]).Ok?
    ensures ParseBlocks(bs).Ok? ==>
      |ParseBlocks(bs).value| == |bs| &&
      forall i :: 0 <= i < |bs| ==> ParseBlock(bs[i]) == Ok(ParseBlocks(bs).value[i])
    ensures ParseBlocks(bs).Err? ==>
      exists i :: 0 <= i < |bs| && ParseBlock(bs[i]) == Err(ParseBlocks(bs).error) &&
                  forall j :: 0 <= j < i ==> ParseBlock(bs[j]).Ok?
  {
    CollectOk(ParseBlock, bs);
    CollectErr(ParseBlock, bs);
  }

  /** Collect succeeds exactly when f succeeds on every element, with f's results one per element in order. */
  lemma {:induction false} CollectOk<A, B>(f: A -> Result<B, ParseError>, xs: seq<A>)
    ensures Collect(f, xs).Ok? ==> forall i :: 0 <= i < |xs| ==> f(xs[i]).Ok?
    ensures (forall i :: 0 <= i < |xs| ==> f(xs[i]).Ok?) ==>
      && Collect(f, xs).Ok? && |Collect(f, xs).value| == |xs|
      && forall i :: 0 <= i < |xs| ==> f(xs[i]) == Ok(Collect(f, xs).value[i])
  {
    if xs != [] {
      var init, last := xs[..|xs| - 1], xs[|xs| - 1];
      CollectOk(f, init);
      assert forall i :: 0 <= i < |init| ==> init[i] == xs[i];
      if Collect(f, init).Ok? && f(last).Ok? {
        var ys, y := Collect(f, init).value, f(last).value;
        assert Collect(f, xs) == Ok(ys + [y]);
        forall i | 0 <= i < |xs| ensures f(xs[i]) == Ok((ys + [y])[i]) {
          if i < |init| {
            assert f(init[i]) == Ok(ys[i]);
          }
        }
      }
    }
  }

  /** When Collect fails, its error is that of an element f fails on, with f succeeding on every element before it. */
  lemma {:induction false} CollectErr<A, B>(f: A -> Result<B, ParseError>, xs: seq<A>)
    ensures Collect(f, xs).Err? ==>
      exists i :: 0 <= i < |xs| && f(xs[i]) == Err(Collect(f, xs).error) &&
                  forall j :: 0 <= j < i ==> f(xs[j]).Ok?
  {
    if xs != [] {
      var init, last := xs[..|xs| - 1], xs[|xs| - 1];
      assert forall i :: 0 <= i < |init| ==> init[i] == xs[i];
      match Collect(f, init)
      case Err(e) =>
        CollectErr(f, init);
        var i :| 0 <= i < |init| && f(init[i]) == Err(e) && forall j :: 0 <= j < i ==> f(init[j]).Ok?;
        assert f(xs[i]) == Err(e);
      case Ok(ys) =>
        CollectOk(f, init);
        assert f(xs[|xs| - 1]) == f(last);
    }
  }

  lemma {:induction false} ParseBlocksPrefixError(bs: seq<Block>, n: nat)
    requires n <= |bs| && ParseBlocks(bs[..n]).Err?
    ensures ParseBlocks(bs) == ParseBlocks(bs[..n])
    decreases |bs| - n
  {
    if n < |bs| {
      assert bs[..n + 1][..n] == bs[..n];
      ParseBlocksPrefixError(bs, n + 1);
    } else {
      assert bs[..n] == bs;
    }
  }

  /** Less of sortableConfigs: a path longer in bytes (Go's len) sorts first. */
  function PathLonger(a: Config, b: Config): bool {
    Strings.Utf8Len(a.path) > Strings.Utf8Len(b.path)
  }

  /** Lengths are compared in bytes: "/é" and "/ab" are both three bytes long, so neither sorts first. */
  lemma PathLongerCountsBytes(a: Config, b: Config)
    requires a.path == "/\U{e9}" && b.path == "/ab"
    ensures !PathLonger(a, b) && !PathLonger(b, a)
    ensures |a.path| < |b.path|
  {
    assert Strings.Utf8Len(a.path) == 1 + Strings.Utf8Len(a.path[1..]);
    assert Strings.Utf8Len(b.path) == 1 + Strings.Utf8Len(b.path[1..]);
  }

  /** sort.Stable over sortableConfigs. */
  function SortByPathLength(cs: seq<Config>): seq<Config> {
    Sorting.InsertionSort(cs, PathLonger)
  }

  lemma PathOrderIsStrictWeak()
    ensures Sorting.StrictWeakOrder(PathLonger)
  {
  }

  /**
   * The ordered records are a permutation of the parsed ones, by
   * non-increasing path length, and records of equal path length keep their
   * relative order.
   */
  lemma SortByPathLengthSpec(cs: seq<Config>)
    ensures multiset(SortByPathLength(cs)) == multiset(cs)
    ensures forall i, j :: 0 <= i < j < |cs| ==>
      Strings.Utf8Len(SortByPathLength(cs)[i].path) >= Strings.Utf8Len(SortByPathLength(cs)[j].path)
    ensures forall e :: Sorting.Class(SortByPathLength(cs), e, PathLonger) == Sorting.Class(cs, e, PathLonger)
  {
    PathOrderIsStrictWeak();
    Sorting.InsertionSortPermutes(cs, PathLonger);
    Sorting.InsertionSortSorted(cs, PathLonger);
    forall e {
      Sorting.InsertionSortStable(cs, e, PathLonger);
    }
  }

  /** The block-directive loop of ParseConfigs: each directive sets its field in turn, the first bad one ends the loop. */
  method ApplyBlockDirectives(start: Config, ds: seq<Directive>) returns (r: Result<Config, ParseError>)
    ensures r == ApplyDirectives(start, ds)
  {
    var config := start;
    var d := 0;
    while d < |ds|
      invariant 0 <= d <= |ds|
      invariant ApplyDirectives(start, ds) == ApplyDirectives(config, ds[d..])
    {
      var directive := ds[d];
      var args := directive.args;
      assert ds[d..][1..] == ds[d + 1..];
      if directive.name == "domain" {
        if |args| != 1 {
          return Err(SingleDomain);
        }
        config := config.(domain := args[0]);
      } else if directive.name == "region" {
        if |args| != 1 {
          return Err(SingleRegion);
        }
        config := config.(region := args[0]);
      } else if directive.name == "role" {
        if |args| != 1 {
          return Err(SingleRole);
        }
        config := config.(role := args[0]);
      } else {
        return Err(InvalidDirective(directive.name));
      }
      d := d + 1;
    }
    return Ok(config);
  }

  /** The body of ParseConfigs' block loop: the block's path, then its directives. */
  method ParseOneBlock(block: Block) returns (r: Result<Config, ParseError>)
    ensures r == ParseBlock(block)
  {
    var config := Config("", "", "", "");
    if |block.args| == 1 {
      config := config.(path := NormalizePath(block.args[0]));
    } else if |block.args| != 0 {
      return Err(TooManyArgs);
    }
    r := ApplyBlockDirectives(config, block.directives);
  }

  /** ParseConfigs: one record per block, field by field, then sorted in place. */
  method ParseConfigs(blocks: seq<Block>) returns (r: Result<seq<Config>, ParseError>)
    ensures ParseBlocks(blocks).Err? ==> r == Err(ParseBlocks(blocks).error)
    ensures ParseBlocks(blocks).Ok? ==> r == Ok(SortByPathLength(ParseBlocks(blocks).value))
  {
    var configs: seq<Config> := [];
    var b := 0;
    while b < |blocks|
      invariant 0 <= b <= |blocks|
      invariant ParseBlocks(blocks[..b]) == Ok(configs)
    {
      assert blocks[..b + 1] == blocks[..b] + [blocks[b]];
      var parsed := ParseOneBlock(blocks[b]);
      if parsed.Err? {
        ParseBlocksSnocErr(blocks[..b], blocks[b]);
        ParseBlocksPrefixError(blocks, b + 1);
        return Err(parsed.error);
      }
      ParseBlocksSnoc(blocks[..b], blocks[b], configs, parsed.value);
      configs := configs + [parsed.value];
      b := b + 1;
    }
    assert blocks[..b] == blocks;
    var a := new Config[|configs|](i requires 0 <= i < |configs| => configs[i]);
    assert a[..] == configs;
    Sorting.SortInPlace(a, PathLonger);
    return Ok(a[..]);
  }
}
