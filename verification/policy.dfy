/** The policy `applyCacheControlHeader` runs once per response: leave the
    headers alone for an excluded status, or when overriding is off and a
    `Cache-Control` value is already there; otherwise set `Cache-Control` to
    the configured value. */
module Policy {
  import opened Headers
  import opened Plugin

  const StatusOK: int := 200

  /** A status never set explicitly (0) counts as 200. */
  function EffectiveStatus(status: int): (s: int)
    ensures status == 0 ==> s == StatusOK
    ensures status != 0 ==> s == status
  {
    if status == 0 then StatusOK else status
  }

  /** The loop over the excluded ranges: does any of them contain `status`,
      bounds included? */
  function IsExcluded(status: int, ranges: seq<StatusRange>): (b: bool)
    ensures b <==> exists i :: 0 <= i < |ranges| && ranges[i].Contains(status)
    decreases |ranges|
  {
    if |ranges| == 0 then false
    else if ranges[0].Contains(status) then true
    else IsExcluded(status, ranges[1..])
  }

  /** The headers after the policy has run for a response with `status`. */
  function ApplyCacheControl(status: int, h: Header, m: Middleware): (r: Header)
    ensures IsExcluded(EffectiveStatus(status), m.excluded) ==> r == h
    ensures !m.config.override && Get(h, CacheControl) != "" ==> r == h
    ensures !IsExcluded(EffectiveStatus(status), m.excluded)
            && (m.config.override || Get(h, CacheControl) == "") ==>
              && r.Keys == h.Keys + {CacheControl}
              && r[CacheControl] == [m.config.value]
              && forall k :: k in h && k != CacheControl ==> r[k] == h[k]
  {
    if IsExcluded(EffectiveStatus(status), m.excluded) then h
    else if !m.config.override && Get(h, CacheControl) != "" then h
    else Set(h, CacheControl, m.config.value)
  }

  /** The `Cache-Control` value a client sees after the policy, case by case:
      excluded statuses keep the handler's value (possibly none); otherwise
      overriding, or an empty or missing value, yields the configured value;
      otherwise the handler's non-empty value stays. */
  lemma FinalCacheControl(status: int, h: Header, m: Middleware)
    ensures var v := Get(ApplyCacheControl(status, h, m), CacheControl);
      && (IsExcluded(EffectiveStatus(status), m.excluded) ==> v == Get(h, CacheControl))
      && (!IsExcluded(EffectiveStatus(status), m.excluded) && m.config.override ==> v == m.config.value)
      && (!IsExcluded(EffectiveStatus(status), m.excluded) && !m.config.override ==>
            v == if Get(h, CacheControl) == "" then m.config.value else Get(h, CacheControl))
  {
  }

  /** Running the policy a second time changes nothing. */
  lemma ApplyCacheControlIdempotent(status: int, h: Header, m: Middleware)
    ensures ApplyCacheControl(status, ApplyCacheControl(status, h, m), m) == ApplyCacheControl(status, h, m)
  {
  }

  /** Status 0 is decided exactly as status 200. */
  lemma ZeroStatusIsOK(h: Header, m: Middleware)
    ensures ApplyCacheControl(0, h, m) == ApplyCacheControl(StatusOK, h, m)
  {
  }

  /** Only membership matters: the order in which ranges were configured,
      and repetitions, do not change the decision. */
  lemma ExcludedOrderIrrelevant(status: int, a: seq<StatusRange>, b: seq<StatusRange>)
    requires forall r :: r in a <==> r in b
    ensures IsExcluded(status, a) == IsExcluded(status, b)
  {
    if IsExcluded(status, a) {
      var i :| 0 <= i < |a| && a[i].Contains(status);
      assert a[i] in b;
      var j :| 0 <= j < |b| && b[j] == a[i];
    }
    if IsExcluded(status, b) {
      var i :| 0 <= i < |b| && b[i].Contains(status);
      assert b[i] in a;
      var j :| 0 <= j < |a| && a[j] == b[i];
    }
  }

  /** An inverted range such as `599-500` is inert: adding it to the
      configuration changes no decision. */
  lemma InvertedRangeInert(status: int, h: Header, m: Middleware, inverted: StatusRange)
    requires inverted.min > inverted.max
    ensures ApplyCacheControl(status, h, Middleware(m.config, m.excluded + [inverted]))
            == ApplyCacheControl(status, h, m)
  {
    var s := EffectiveStatus(status);
    var ext := m.excluded + [inverted];
    if IsExcluded(s, ext) {
      var i :| 0 <= i < |ext| && ext[i].Contains(s);
      assert i < |m.excluded| && m.excluded[i] == ext[i];
    }
    if IsExcluded(s, m.excluded) {
      var i :| 0 <= i < |m.excluded| && m.excluded[i].Contains(s);
      assert ext[i] == m.excluded[i];
    }
  }

  /** With the default configuration a 200 response always ends up with
      `Cache-Control: public, max-age=3600`, whatever the handler set. */
  lemma DefaultPolicy(h: Header)
    ensures New(CreateConfig()).Success?
    ensures Get(ApplyCacheControl(StatusOK, h, New(CreateConfig()).value), CacheControl)
            == "public, max-age=3600"
  {
    NewDefault();
  }
}
