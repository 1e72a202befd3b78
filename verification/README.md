# Response Cache-Control middleware — Dafny model

This project models the core of a Traefik plugin that rewrites the
`Cache-Control` header of HTTP responses (`main.go`). It has three parts:

- **Construction.** `CreateConfig` supplies the defaults. `New` parses the
  `excludedStatusCodes` tokens into inclusive status ranges. A token is split
  on `-`: one part is a single code, two parts are a range, and three or more
  parts are dropped silently. Any part of a one- or two-part token that is
  not a decimal integer fails construction.
- **Policy.** `applyCacheControlHeader` leaves the headers alone when the
  status (0 counts as 200) lies in an excluded range. It also leaves them
  alone when overriding is off and `Cache-Control` already has a non-empty
  first value. Otherwise it sets `Cache-Control` to exactly the configured
  value.
- **Intercepting writer.** `ServeHTTP` seeds a working header map from the
  real writer. The first `WriteHeader` fixes the status, runs the policy,
  copies every working entry into the real header map and calls the real
  `WriteHeader` once. Later `WriteHeader` calls do nothing. `Write` commits
  with 200 when needed, then forwards the bytes and returns the real writer's
  answer unchanged.

Modules, one file each:

| file | module | models |
|---|---|---|
| `wrappers.dfy` | `Wrappers` | `Option` and `Result` |
| `text.dfy` | `Text` | `strings.Split` on one character, and its inverse `Join` |
| `decimal.dfy` | `Decimal` | `strconv.Atoi`, and `strconv.Itoa` as its partner |
| `plugin.dfy` | `Plugin` | `Config`, `CreateConfig`, token parsing, `New` |
| `headers.dfy` | `Headers` | `http.Header` `Get` and `Set`, and the header copy loop |
| `policy.dfy` | `Policy` | `applyCacheControlHeader` |
| `writer.dfy` | `Writer` | `responseWriter` as a `Pending`/`Committed` state machine, and `ServeHTTP` |
| `scenarios.dfy` | `Scenarios` | concrete tokens and whole requests |

The real writer is a value, `Sink`. It holds its header map and the ordered
list of calls it received. A `WriteHeader` call is recorded with the header
map as it was at that moment. The downstream handler is a list of events:

- assign or delete a key of `Header()`;
- call `WriteHeader`;
- call `Write`, carrying the answer the transport gives.

`Writer.RunPending` and `Writer.ServeBehaviour` describe a whole run
declaratively. That description is the partner of the step-by-step `Run`.

## Model

| member | source | states |
|---|---|---|
| `Text.Split` | main.go:43 | `k` separators give `k + 1` parts, no part contains the separator, and joining the parts gives back the token |
| `Text.SplitJoin` | main.go:43 | splitting the join of separator-free parts gives back exactly those parts |
| `Decimal.Atoi` | main.go:45 | without a `-` the value is never negative; for a sign-free string it succeeds exactly on non-empty digit strings, with their decimal value (the signed case is in `Decimal.AtoiPlus`) |
| `Decimal.AtoiPlus` | main.go:45 | a leading `+` before a digit string is accepted and changes nothing |
| `Decimal.FormatNat` | main.go:45 | the digits written for `n` have decimal value `n`, with no leading zero |
| `Decimal.AtoiFormatInt` | main.go:45 | `Atoi` reads back every integer its formatter writes |
| `Decimal.AtoiRejects` | main.go:45-47 | the empty string, a bare sign, and any non-digit after the sign are syntax errors |
| `Plugin.CreateConfig` | main.go:19-24 | default value `public, max-age=3600`, override on, no excluded codes |
| `Plugin.ParseToken` | main.go:43-57 | errors name the token; "invalid status code" exactly for tokens without `-`; dropped exactly when there are two or more hyphens; parsed bounds are never negative; a single code yields `(n, n)` |
| `Plugin.ParseSingleCode` | main.go:44-49 | a token without `-` succeeds exactly when it is an integer, giving `(n, n)`; otherwise it fails with "invalid status code" |
| `Plugin.ParsePair` | main.go:50-56 | `a-b` gives `(a, b)` as written, with no `a <= b` check; if either side is not an integer it fails with "invalid status code range" |
| `Plugin.ParseExcludedSucceeds` | main.go:42-58 | construction succeeds exactly when every token parses |
| `Plugin.ParseExcludedFirstError` | main.go:42-58 | a failure carries the error of the first bad token; every earlier token parsed |
| `Plugin.ParseExcludedNonNegative` | main.go:42-58 | no parsed bound is negative |
| `Plugin.ParseExcludedOnePerToken` | main.go:42-58 | without multi-hyphen tokens, each token contributes exactly one range |
| `Plugin.ParseExcludedAppend` | main.go:42-58 | the ranges of concatenated token lists are the concatenation of their ranges, in configuration order |
| `Plugin.ParseAllAppend` | main.go:42-58 | for any per-token parser, the loop over concatenated token lists yields the concatenation of their ranges |
| `Plugin.SkippedTokenKeepsNeighbours` | main.go:42-58 | a token with two or more hyphens is skipped without error; the tokens around it keep their ranges and order |
| `Plugin.ParseFormatRanges` | main.go:42-58 | every list of ranges with non-negative bounds, inverted ones included, is read back from its tokens |
| `Plugin.ConfigError.Message` | main.go:47-54 | the error text ends with the offending token |
| `Plugin.New` | main.go:34-61 | succeeds exactly when every token parses; the middleware keeps the given configuration |
| `Plugin.NewDefault` | main.go:19-24 | the default configuration builds, with no excluded range |
| `Headers.Get` | main.go:132 | the first value under the key, or "" when the key is missing or empty |
| `Headers.Set` | main.go:138 | the key holds exactly one value afterwards; no other key changes |
| `Headers.CopyInto` | main.go:103-105 | every source entry replaces the destination's; destination keys absent from the source keep their values |
| `Policy.EffectiveStatus` | main.go:119-122 | status 0 is treated as 200; every other status is kept |
| `Policy.IsExcluded` | main.go:124-128 | true exactly when some configured range contains the status, bounds included |
| `Policy.ApplyCacheControl` | main.go:117-139 | an excluded status leaves the headers unchanged; so does override off with a non-empty value; otherwise `Cache-Control` holds exactly the configured value and no other key changes |
| `Policy.FinalCacheControl` | main.go:117-139 | the final `Cache-Control` value in each case: excluded keeps the handler's value; override gives the configured value; no override keeps a non-empty value, else gives the configured value |
| `Policy.ApplyCacheControlIdempotent` | main.go:117-139 | running the policy again on its own result changes nothing |
| `Policy.ZeroStatusIsOK` | main.go:119-122 | status 0 is decided exactly as 200 |
| `Policy.ExcludedOrderIrrelevant` | main.go:124-128 | only which ranges are configured matters, not their order or repetition |
| `Policy.InvertedRangeInert` | main.go:124-128 | adding an inverted range such as `599-500` changes no decision |
| `Policy.DefaultPolicy` | main.go:138 | with the default configuration, a 200 response gets `public, max-age=3600` whatever the handler set |
| `Writer.Wrap` | main.go:65-74 | the working map starts as a copy of the real header map, uncommitted |
| `Writer.Mutate` | main.go:88-90 | an assignment or deletion through `Header()` changes only its key |
| `Writer.WriteHeader` | main.go:92-108 | once committed, a no-op; otherwise commits the status, runs the policy, copies every working entry into the real map (others keep their values), then records one real `WriteHeader` |
| `Writer.Write` | main.go:110-115 | commits with 200 if still pending; appends the bytes unchanged to the real writer; returns the transport's answer unchanged |
| `Writer.Step` | main.go:88-115 | only `Write` returns a value; header edits never reach the real writer |
| `Writer.RunAnswers` | main.go:110-115 | the handler gets back exactly the transport's answers to its writes, in order |
| `Writer.RunCommitted` | main.go:92-95 | after the commit the status stays; the real header map never changes again; the real writer only receives later body chunks |
| `Writer.RunPending` | main.go:92-115 | from a pending wrapper: with no commit, nothing reaches the real writer; otherwise the first committing event fixes the status (200 for `Write`), and the real writer gets one `WriteHeader`, then every chunk |
| `Writer.RunFromCommit` | main.go:92-115 | when the first event commits, the status it fixes stands, and the real writer gets the policy's headers merged into its map, one `WriteHeader`, then every chunk |
| `Writer.ServeBehaviour` | main.go:63-77 | the whole request, for any prior call list of the real writer: the handler's answers, and the real writer's final header map and call list |
| `Writer.StepConsistent` | main.go:92-115 | every event keeps the real writer's call list in step with the phase: no calls while pending, then one `WriteHeader` with the committed status, then body chunks only |
| `Writer.RunConsistent` | main.go:92-115 | that agreement holds across any event sequence |
| `Writer.ServeWritesHeaderAtMostOnce` | main.go:92-108 | the real writer receives at most one `WriteHeader`, and exactly one when the handler commits at all |
| `Writer.SecondWriteHeaderIgnored` | main.go:92-95 | a second `WriteHeader` is a no-op; the first call's status and policy outcome stand |
| `Writer.CommitThenWriteKeepsHeaders` | main.go:110-113 | an explicit status and then a body write leave the same real headers as the status alone |
| `Writer.DeletedSeededHeaderSurvives` | main.go:71-105 | a header the real writer already had still reaches it, even if the handler deleted it from `Header()` |
| `Scenarios.SingleCodeExample` | main.go:44-49 | `404` gives `(404, 404)` |
| `Scenarios.RangeExample` | main.go:50-56 | `500-599` gives `(500, 599)` |
| `Scenarios.InvertedRangeExample` | main.go:50-56 | `599-500` is accepted as `(599, 500)` |
| `Scenarios.NotANumberExample` | main.go:44-48 | `abc` fails with "invalid status code" |
| `Scenarios.MissingHalfExamples` | main.go:50-55 | `-5` and `5-` fail with "invalid status code range" |
| `Scenarios.TwoHyphensExample` | main.go:43-57 | `1-2-3` is dropped without an error |
| `Scenarios.BadTokenExample` | main.go:42-48 | a bad token after a good one aborts construction with "invalid status code: abc" |
| `Scenarios.RecorderScenario` | main_test.go:12-38 | default configuration, empty recorder, handler calls `WriteHeader(200)`: the recorder gets `Cache-Control: public, max-age=3600` and exactly one call |
| `Scenarios.ExcludedStatusScenario` | main.go:119-128 | with `500-599` excluded and override off, a 503 keeps whatever the handler set |
| `Scenarios.KeptValueScenario` | main.go:131-135 | with override off, a 200 keeps the handler's `private` |
| `Scenarios.ImplicitCommitScenario` | main.go:110-115 | a handler that only writes a body commits with 200, gets the default header, then the bytes, and the transport's answer |

## Left out

- The `net/http` and `context` plumbing is not modelled: `http.Handler`, the request, and the downstream `next.ServeHTTP` call. The handler is a list of header, `WriteHeader` and `Write` events.
- The plugin `name` field and the JSON struct tags are not modelled; the logic does not use them.
- Header-key canonicalisation in `http.Header.Get` and `Set` is not modelled. Keys are taken as already canonical.
- Slice aliasing between the working and real header maps is not modelled. Maps and value lists are values.
- The real writer's `Write` is opaque. Its answer (byte count, error) arrives with the event and is returned unchanged.
- What `net/http` does after a handler that never commits is outside this code. The model shows only that the policy never ran and nothing reached the real writer.
- The real writer's own checks on the status code are not modelled. An example is the panic in `net/http` for a code below 100. The code is recorded as passed.
- Decimal.Atoi: overflow is not modelled. `strconv.Atoi` reports a range error for values beyond the platform `int`; the model accepts every integer.
- Plugin.ParseToken: a token with two or more hyphens is dropped without an error, as main.go:44-57 does; it is neither added nor reported.
