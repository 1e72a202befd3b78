/** Go's `http.Header`: a map from header name to its list of values. Names
    are taken to be already canonical, so `Get` and `Set` use them as given. */
module Headers {

  type Header = map<string, seq<string>>

  const CacheControl: string := "Cache-Control"

  /** `Header.Get`: the first value stored under `key`, or "" when the key
      is missing or holds no value. */
  function Get(h: Header, key: string): (v: string)
    ensures key !in h || |h[key]| == 0 ==> v == ""
    ensures key in h && |h[key]| > 0 ==> v == h[key][0]
  {
    if key in h && |h[key]| > 0 then h[key][0] else ""
  }

  /** `Header.Set`: `key` holds exactly the one value `value` afterwards, and
      no other key changes. */
  function Set(h: Header, key: string, value: string): (r: Header)
    ensures r.Keys == h.Keys + {key}
    ensures r[key] == [value] && Get(r, key) == value
    ensures forall k :: k in h && k != key ==> r[k] == h[k]
  {
    h[key := [value]]
  }

  /** The loop `for k, v := range src { dst[k] = v }`: every entry of `src`
      lands in `dst`, replacing what `dst` held under that key; keys of `dst`
      that `src` lacks keep their values. Keys are distinct, so the loop's
      visiting order does not matter. */
  function CopyInto(dst: Header, src: Header): (r: Header)
    ensures r.Keys == dst.Keys + src.Keys
    ensures forall k :: k in src ==> r[k] == src[k]
    ensures forall k :: k in dst && k !in src ==> r[k] == dst[k]
  {
    dst + src
  }

  /** Copying into an empty map gives an equal map, as the seeding loop of
      `ServeHTTP` does. */
  lemma CopyIntoEmpty(src: Header)
    ensures CopyInto(map[], src) == src
  {
  }
}
