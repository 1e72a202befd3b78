/** Concrete configurations and handler runs: the token forms the parser
    accepts, drops and rejects, and whole requests through `Serve`. */
module Scenarios {
  import opened Wrappers
  import opened Text
  import opened Decimal
  import opened Headers
  import opened Plugin
  import opened Policy
  import opened Writer

  lemma Atoi404()
    ensures Atoi("404") == Some(404)
  {
    assert DecimalValue("404") == DecimalValue("40") * 10 + 4;
    assert DecimalValue("40") == DecimalValue("4") * 10;
  }

  lemma Atoi500And599()
    ensures Atoi("500") == Some(500) && Atoi("599") == Some(599)
  {
    assert DecimalValue("500") == DecimalValue("50") * 10;
    assert DecimalValue("599") == DecimalValue("59") * 10 + 9;
  }

  /** The token forms of an `excludedStatusCodes` list: a single code, a
      range, an inverted range kept as written, a non-number, halves of a
      range missing, and a token with two hyphens. */
  lemma SingleCodeExample()
    ensures ParseToken("404") == Success(Some(StatusRange(404, 404)))
  {
    Atoi404();
    ParseSingleCode("404");
  }

  lemma RangeExample()
    ensures ParseToken("500-599") == Success(Some(StatusRange(500, 599)))
  {
    Atoi500And599();
    ParsePair("500", "599");
    assert "500" + "-" + "599" == "500-599";
  }

  lemma InvertedRangeExample()
    ensures ParseToken("599-500") == Success(Some(StatusRange(599, 500)))
  {
    Atoi500And599();
    ParsePair("599", "500");
    assert "599" + "-" + "500" == "599-500";
  }

  lemma NotANumberExample()
    ensures ParseToken("abc") == Failure(InvalidStatusCode("abc"))
  {
    assert Atoi("abc") == None by {
      AtoiRejects("abc");
    }
    ParseSingleCode("abc");
  }

  lemma MissingHalfExamples()
    ensures ParseToken("-5") == Failure(InvalidStatusCodeRange("-5"))
    ensures ParseToken("5-") == Failure(InvalidStatusCodeRange("5-"))
  {
    assert Atoi("") == None;
    ParsePair("", "5");
    assert "" + "-" + "5" == "-5";
    ParsePair("5", "");
    assert "5" + "-" + "" == "5-";
  }

  lemma TwoHyphensExample()
    ensures ParseToken("1-2-3") == Success(None)
  {
    var v := "1-2-3";
    CountAppend("1-", "2-3", '-');
    assert "1-" + "2-3" == v;
    CountAppend("2-", "3", '-');
    assert "2-" + "3" == "2-3";
    assert Count("1-", '-') == 1 by {
      assert "1-"[1..] == "-";
      assert "-"[1..] == "";
    }
    assert Count("2-", '-') == 1 by {
      assert "2-"[1..] == "-";
      assert "-"[1..] == "";
    }
  }

  /** The first bad token aborts construction; its message names it. */
  lemma BadTokenExample()
    ensures ParseExcluded(["404", "abc"]) == Failure(InvalidStatusCode("abc"))
    ensures InvalidStatusCode("abc").Message() == "invalid status code: abc"
  {
    var u := ["404", "abc"];
    NotANumberExample();
    ParseExcludedCons(["abc"]);
    SingleCodeExample();
    assert u[1..] == ["abc"];
    ParseExcludedCons(u);
  }

  /** A list of one token that parses to a range. */
  lemma OneToken(v: string, r: StatusRange)
    requires ParseToken(v) == Success(Some(r))
    ensures ParseExcluded([v]) == Success([r])
  {
    var t := [v];
    assert t[0] == v && t[1..] == [];
    assert ParseExcluded(t[1..]) == Success([]);
    ParseExcludedCons(t);
    assert Kept(Some(r)) + [] == [r];
  }

  /** The middleware of a configuration that is known to build. */
  function Build(c: Config): (m: Middleware)
    requires New(c).Success?
    ensures m.config == c
  {
    New(c).value
  }

  /** The repository's test: default configuration, empty recorder, the
      handler calls `WriteHeader(200)`; the recorder's `Cache-Control` is
      `public, max-age=3600`, and it received exactly that one call. */
  lemma RecorderScenario()
    ensures New(CreateConfig()).Success?
    ensures var r := Serve(Build(CreateConfig()), Sink(map[], []), [StatusWrite(200)]).0;
      && Get(r.sink.header, CacheControl) == "public, max-age=3600"
      && r.sink.calls == [HeaderWritten(200, r.sink.header)]
  {
    NewDefault();
    var m := Build(CreateConfig());
    ServeBehaviour(m, Sink(map[], []), [StatusWrite(200)]);
    assert [StatusWrite(200)][..0] == [];
    DefaultPolicy(map[]);
  }

  /** `no-store` without overriding, excluding `500-599`. */
  function NoStoreConfig(): Config {
    Config("no-store", false, ["500-599"])
  }

  lemma NoStoreBuilds()
    ensures New(NoStoreConfig()) == Success(Middleware(NoStoreConfig(), [StatusRange(500, 599)]))
  {
    RangeExample();
    OneToken("500-599", StatusRange(500, 599));
  }

  /** An excluded status wins over the override logic: whatever the handler
      set under `Cache-Control` (here `values`) is what the real writer
      gets. */
  lemma ExcludedStatusScenario(values: seq<string>)
    ensures New(NoStoreConfig()).Success?
    ensures var r := Serve(Build(NoStoreConfig()), Sink(map[], []),
                           [HeaderAssign(CacheControl, values), StatusWrite(503)]).0;
      CacheControl in r.sink.header && r.sink.header[CacheControl] == values
  {
    NoStoreBuilds();
    var m := Build(NoStoreConfig());
    var events := [HeaderAssign(CacheControl, values), StatusWrite(503)];
    ServeBehaviour(m, Sink(map[], []), events);
    assert FirstCommit(events) == Some(1) by {
      assert events[1..] == [StatusWrite(503)];
    }
    assert events[..1] == [HeaderAssign(CacheControl, values)];
    assert m.excluded[0].Contains(503);
  }

  /** Not excluded and not overriding: the handler's `private` stays. */
  lemma KeptValueScenario()
    ensures New(NoStoreConfig()).Success?
    ensures var r := Serve(Build(NoStoreConfig()), Sink(map[], []),
                           [HeaderAssign(CacheControl, ["private"]), StatusWrite(200)]).0;
      Get(r.sink.header, CacheControl) == "private"
  {
    NoStoreBuilds();
    var m := Build(NoStoreConfig());
    var events := [HeaderAssign(CacheControl, ["private"]), StatusWrite(200)];
    ServeBehaviour(m, Sink(map[], []), events);
    assert FirstCommit(events) == Some(1) by {
      assert events[1..] == [StatusWrite(200)];
    }
    assert events[..1] == [HeaderAssign(CacheControl, ["private"])];
  }

  /** A handler that only writes a body commits implicitly with 200: with
      the default configuration the real writer gets the default
      `Cache-Control`, then the bytes, and the handler gets the transport's
      answer back. */
  lemma ImplicitCommitScenario(chunk: seq<byte>, transport: WriteResult)
    ensures New(CreateConfig()).Success?
    ensures var (r, answers) := Serve(Build(CreateConfig()), Sink(map[], []), [BodyWrite(chunk, transport)]);
      && Get(r.sink.header, CacheControl) == "public, max-age=3600"
      && r.sink.calls == [HeaderWritten(200, r.sink.header), BodyWritten(chunk)]
      && answers == [transport]
  {
    NewDefault();
    var m := Build(CreateConfig());
    var events := [BodyWrite(chunk, transport)];
    ServeBehaviour(m, Sink(map[], []), events);
    assert events[..0] == [];
    assert Chunks(events) == [BodyWritten(chunk)] by {
      assert events[1..] == [];
    }
    assert Answers(events) == [transport] by {
      assert events[1..] == [];
    }
    DefaultPolicy(map[]);
  }
}
