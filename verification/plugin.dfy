/** The middleware's configuration and its construction (`CreateConfig` and
    `New` in main.go): the excluded status codes arrive as strings, each a
    single code `"N"` or a range `"N-M"`, and are parsed once into inclusive
    ranges; a token that is not a number fails construction. */
module Plugin {
  import opened Wrappers
  import opened Text
  import opened Decimal

  /** The three settings the host supplies. */
  datatype Config = Config(value: string, override: bool, excludedStatusCodes: seq<string>)

  const DefaultValue: string := "public, max-age=3600"

  /** The defaults: set `Cache-Control: public, max-age=3600`, overriding any
      value the handler chose, and exclude no status. */
  function CreateConfig(): (c: Config)
    ensures c.value == DefaultValue && c.override && |c.excludedStatusCodes| == 0
  {
    Config(DefaultValue, true, [])
  }

  /** An inclusive status interval. `min <= max` is not required; an inverted
      interval simply contains nothing. */
  datatype StatusRange = StatusRange(min: int, max: int) {
    predicate Contains(status: int) {
      min <= status && status <= max
    }
  }

  /** Why construction failed, with the offending token. */
  datatype ConfigError =
    | InvalidStatusCode(token: string)
    | InvalidStatusCodeRange(token: string)
  {
    /** The text of the error `New` returns. */
    function Message(): (m: string)
      ensures |m| >= |token| && m[|m| - |token|..] == token
    {
      match this
      case InvalidStatusCode(v) => "invalid status code: " + v
      case InvalidStatusCodeRange(v) => "invalid status code range: " + v
    }
  }

  /** The parsed middleware: its configuration and the excluded ranges, in
      configuration order. */
  datatype Middleware = Middleware(config: Config, excluded: seq<StatusRange>)

  /** One excluded-status token. Split on `-`: one part is a single code,
      two parts are a range, three or more parts are dropped without an
      error (`Success(None)`). Since every part is free of `-`, a successful
      parse never yields a negative bound. */
  function ParseToken(v: string): (r: Result<Option<StatusRange>, ConfigError>)
    ensures r.Failure? ==> r.error.token == v
    ensures r.Failure? ==> (r.error.InvalidStatusCode? <==> '-' !in v)
    ensures r == Success(None) <==> Count(v, '-') >= 2
    ensures r.Success? && r.value.Some? ==> r.value.value.min >= 0 && r.value.value.max >= 0
    ensures r.Success? && '-' !in v ==> r.value.Some? && r.value.value.min == r.value.value.max
  {
    CountZero(v, '-');
    var parts := Split(v, '-');
    if |parts| == 1 then
      match Atoi(parts[0])
      case Some(code) => Success(Some(StatusRange(code, code)))
      case None => Failure(InvalidStatusCode(v))
    else if |parts| == 2 then
      var lo := Atoi(parts[0]);
      var hi := Atoi(parts[1]);
      if lo.None? || hi.None? then Failure(InvalidStatusCodeRange(v))
      else Success(Some(StatusRange(lo.value, hi.value)))
    else
      Success(None)
  }

  /** The parsing loop of `New`, for any per-token parser: tokens are read
      in order, the first bad one aborts with its error, and every accepted
      token contributes its ranges in its configuration position. */
  function ParseAll(parse: string -> Result<Option<StatusRange>, ConfigError>, tokens: seq<string>)
    : (r: Result<seq<StatusRange>, ConfigError>)
    ensures r.Success? ==> |r.value| <= |tokens|
    decreases |tokens|
  {
    if |tokens| == 0 then Success([])
    else
      var first :- parse(tokens[0]);
      var rest :- ParseAll(parse, tokens[1..]);
      Success(Kept(first) + rest)
  }

  /** The loop of `New` with `ParseToken` as the per-token parser (see the
      lemmas below). */
  function ParseExcluded(tokens: seq<string>): (r: Result<seq<StatusRange>, ConfigError>)
    ensures r.Success? ==> |r.value| <= |tokens|
  {
    ParseAll(ParseToken, tokens)
  }

  /** The ranges one parsed token contributes: none for a dropped token. */
  function Kept(o: Option<StatusRange>): (rs: seq<StatusRange>)
    ensures |rs| <= 1
  {
    if o.Some? then [o.value] else []
  }

  /** Unfolding `ParseExcluded` at its first token. */
  lemma ParseExcludedCons(tokens: seq<string>)
    requires |tokens| > 0
    ensures ParseToken(tokens[0]).Failure? ==>
      ParseExcluded(tokens) == Failure(ParseToken(tokens[0]).error)
    ensures ParseToken(tokens[0]).Success? ==>
      ParseExcluded(tokens) == match ParseExcluded(tokens[1..])
        case Success(rest) => Success(Kept(ParseToken(tokens[0]).value) + rest)
        case Failure(e) => Failure(e)
  {
  }

  /** One more parsed token in front of a list that parses. */
  lemma ConsSuccess(t: seq<string>, o: Option<StatusRange>, rs: seq<StatusRange>)
    requires |t| > 0 && ParseToken(t[0]) == Success(o)
    requires ParseExcluded(t[1..]) == Success(rs)
    ensures ParseExcluded(t) == Success(Kept(o) + rs)
  {
    ParseExcludedCons(t);
  }

  /** Construction succeeds exactly when every token parses. */
  lemma {:induction false} ParseExcludedSucceeds(tokens: seq<string>)
    ensures ParseExcluded(tokens).Success? <==>
      forall i :: 0 <= i < |tokens| ==> ParseToken(tokens[i]).Success?
    decreases |tokens|
  {
    if |tokens| > 0 {
      ParseExcludedCons(tokens);
      ParseExcludedSucceeds(tokens[1..]);
      assert forall i :: 1 <= i < |tokens| ==> tokens[i] == tokens[1..][i - 1];
    }
  }

  /** A failure reports the first token that does not parse. */
  lemma {:induction false} ParseExcludedFirstError(tokens: seq<string>)
    requires ParseExcluded(tokens).Failure?
    ensures exists i ::
              && 0 <= i < |tokens|
              && ParseToken(tokens[i]) == Failure(ParseExcluded(tokens).error)
              && forall j :: 0 <= j < i ==> ParseToken(tokens[j]).Success?
    decreases |tokens|
  {
    ParseExcludedCons(tokens);
    if ParseToken(tokens[0]).Success? {
      ParseExcludedFirstError(tokens[1..]);
      var i :| 0 <= i < |tokens[1..]|
        && ParseToken(tokens[1..][i]) == Failure(ParseExcluded(tokens[1..]).error)
        && forall j :: 0 <= j < i ==> ParseToken(tokens[1..][j]).Success?;
      assert forall j :: 1 <= j < i + 1 ==> tokens[j] == tokens[1..][j - 1];
      assert ParseToken(tokens[i + 1]) == Failure(ParseExcluded(tokens).error);
    }
  }

  /** Bounds read from a configuration are never negative: a `-` can only
      be a separator. */
  lemma {:induction false} ParseExcludedNonNegative(tokens: seq<string>)
    requires ParseExcluded(tokens).Success?
    ensures forall k :: 0 <= k < |ParseExcluded(tokens).value| ==>
      ParseExcluded(tokens).value[k].min >= 0 && ParseExcluded(tokens).value[k].max >= 0
    decreases |tokens|
  {
    if |tokens| > 0 {
      ParseExcludedCons(tokens);
      ParseExcludedNonNegative(tokens[1..]);
    }
  }

  /** Without multi-hyphen tokens, every token contributes exactly one
      range. */
  lemma {:induction false} ParseExcludedOnePerToken(tokens: seq<string>)
    requires ParseExcluded(tokens).Success?
    requires forall i :: 0 <= i < |tokens| ==> Count(tokens[i], '-') < 2
    ensures |ParseExcluded(tokens).value| == |tokens|
    decreases |tokens|
  {
    if |tokens| > 0 {
      ParseExcludedCons(tokens);
      assert forall i :: 0 <= i < |tokens[1..]| ==> tokens[1..][i] == tokens[i + 1];
      ParseExcludedOnePerToken(tokens[1..]);
    }
  }

  /** `New`: build the middleware, or report the first invalid token. */
  function New(config: Config): (r: Result<Middleware, ConfigError>)
    ensures r.Success? <==> forall i :: 0 <= i < |config.excludedStatusCodes| ==>
      ParseToken(config.excludedStatusCodes[i]).Success?
    ensures r.Success? ==> r.value.config == config
    ensures r.Success? ==> |r.value.excluded| <= |config.excludedStatusCodes|
  {
    ParseExcludedSucceeds(config.excludedStatusCodes);
    var excluded :- ParseExcluded(config.excludedStatusCodes);
    Success(Middleware(config, excluded))
  }

  /** A token without `-` is a single code: `(n, n)` when it is a number,
      otherwise an "invalid status code" error. */
  lemma ParseSingleCode(v: string)
    requires '-' !in v
    ensures ParseToken(v).Success? <==> Atoi(v).Some?
    ensures Atoi(v).Some? ==> ParseToken(v) == Success(Some(StatusRange(Atoi(v).value, Atoi(v).value)))
    ensures Atoi(v).None? ==> ParseToken(v) == Failure(InvalidStatusCode(v))
  {
    SplitNoSeparator(v, '-');
  }

  /** A token `a-b` is the range `(a, b)` exactly as written, with no check
      that `a <= b`; if either side is not a number the whole token is an
      "invalid status code range" error (so `-5` and `5-` both fail). */
  lemma ParsePair(a: string, b: string)
    requires '-' !in a && '-' !in b
    ensures var v := a + "-" + b;
      if Atoi(a).Some? && Atoi(b).Some? then
        ParseToken(v) == Success(Some(StatusRange(Atoi(a).value, Atoi(b).value)))
      else
        ParseToken(v) == Failure(InvalidStatusCodeRange(v))
  {
    var parts := [a, b];
    JoinCons(a, [b], '-');
    assert Join(parts, '-') == a + "-" + b;
    SplitJoin(parts, '-');
  }

  /** The token a range is written as in a configuration. */
  function FormatRange(r: StatusRange): string {
    if r.min == r.max then FormatInt(r.min)
    else FormatInt(r.min) + "-" + FormatInt(r.max)
  }

  function FormatRanges(rs: seq<StatusRange>): seq<string> {
    seq(|rs|, i requires 0 <= i < |rs| => FormatRange(rs[i]))
  }

  /** Every range with non-negative bounds, inverted or not, reads back from
      its token. */
  lemma ParseFormatRange(r: StatusRange)
    requires r.min >= 0 && r.max >= 0
    ensures ParseToken(FormatRange(r)) == Success(Some(r))
  {
    AtoiFormatInt(r.min);
    AtoiFormatInt(r.max);
    if r.min == r.max {
      ParseSingleCode(FormatInt(r.min));
    } else {
      ParsePair(FormatInt(r.min), FormatInt(r.max));
    }
  }

  /** Parsing the tokens of a list of ranges gives back the same list, in
      the same order. */
  lemma {:induction false} ParseFormatRanges(rs: seq<StatusRange>)
    requires forall k :: 0 <= k < |rs| ==> rs[k].min >= 0 && rs[k].max >= 0
    ensures ParseExcluded(FormatRanges(rs)) == Success(rs)
    decreases |rs|
  {
    if |rs| > 0 {
      var tokens := FormatRanges(rs);
      ParseFormatRange(rs[0]);
      assert tokens[1..] == FormatRanges(rs[1..]);
      ParseFormatRanges(rs[1..]);
      assert rs == [rs[0]] + rs[1..];
    }
  }

  /** Parsing distributes over concatenation of configurations: each list
      contributes its ranges in place. */
  lemma ParseExcludedAppend(a: seq<string>, b: seq<string>)
    requires ParseExcluded(a).Success? && ParseExcluded(b).Success?
    ensures ParseExcluded(a + b) == Success(ParseExcluded(a).value + ParseExcluded(b).value)
  {
    ParseAllAppend(ParseToken, a, b);
  }

  /** `ParseAll` distributes over concatenation, whatever the parser. */
  lemma {:induction false} ParseAllAppend(parse: string -> Result<Option<StatusRange>, ConfigError>,
                                          a: seq<string>, b: seq<string>)
    requires ParseAll(parse, a).Success? && ParseAll(parse, b).Success?
    ensures ParseAll(parse, a + b) == Success(ParseAll(parse, a).value + ParseAll(parse, b).value)
    decreases |a|
  {
    if |a| == 0 {
      assert a + b == b;
      assert ParseAll(parse, a).value == [];
      assert [] + ParseAll(parse, b).value == ParseAll(parse, b).value;
    } else {
      TailOfAppend(a, b);
      ParseAllAppend(parse, a[1..], b);
      var head := Kept(parse(a[0]).value);
      var ra, rb := ParseAll(parse, a[1..]).value, ParseAll(parse, b).value;
      assert head + (ra + rb) == (head + ra) + rb;
    }
  }

  /** A token with two or more hyphens is skipped without an error, and the
      tokens around it contribute their ranges as if it were not there. */
  lemma SkippedTokenKeepsNeighbours(before: seq<string>, dropped: string, after: seq<string>)
    requires Count(dropped, '-') >= 2
    requires ParseExcluded(before).Success? && ParseExcluded(after).Success?
    ensures ParseExcluded(before + [dropped] + after)
            == Success(ParseExcluded(before).value + ParseExcluded(after).value)
  {
    var single := [dropped];
    assert single[1..] == [];
    ParseExcludedCons(single);
    assert ParseExcluded(single) == Success([]);
    ParseExcludedAppend(before, single);
    assert ParseExcluded(before).value + [] == ParseExcluded(before).value;
    ParseExcludedAppend(before + single, after);
  }

  lemma TailOfAppend<T>(a: seq<T>, b: seq<T>)
    requires |a| > 0
    ensures (a + b)[0] == a[0] && (a + b)[1..] == a[1..] + b
  {
  }

  /** Construction succeeds on the default configuration, with no excluded
      range. */
  lemma NewDefault()
    ensures New(CreateConfig()) == Success(Middleware(CreateConfig(), []))
  {
  }
}
