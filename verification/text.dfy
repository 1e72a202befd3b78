/** Splitting a string on a one-character separator, as Go's
    `strings.Split(s, sep)` does, together with its inverse `Join`. */
module Text {

  /** Number of occurrences of `c` in `s`. */
  function Count(s: string, c: char): nat
    decreases |s|
  {
    if |s| == 0 then 0
    else (if s[0] == c then 1 else 0) + Count(s[1..], c)
  }

  lemma CountAppend(a: string, b: string, c: char)
    ensures Count(a + b, c) == Count(a, c) + Count(b, c)
    decreases |a|
  {
    if |a| > 0 {
      assert (a + b)[1..] == a[1..] + b;
      CountAppend(a[1..], b, c);
    } else {
      assert a + b == b;
    }
  }

  lemma CountZero(s: string, c: char)
    ensures Count(s, c) == 0 <==> c !in s
    decreases |s|
  {
    if |s| > 0 {
      CountZero(s[1..], c);
      assert s == [s[0]] + s[1..];
    }
  }

  /** The parts of `s` between consecutive occurrences of `sep`. Like Go's
      `strings.Split` with a non-empty separator, the empty string yields one
      empty part and `k` separators always yield `k + 1` parts. */
  function Split(s: string, sep: char): (parts: seq<string>)
    ensures |parts| == Count(s, sep) + 1
    ensures forall i :: 0 <= i < |parts| ==> sep !in parts[i]
    ensures Join(parts, sep) == s
    decreases |s|
  {
    if |s| == 0 then [""]
    else
      var rest := Split(s[1..], sep);
      if s[0] == sep then
        assert Join([""] + rest, sep) == [sep] + Join(rest, sep) by {
          JoinCons("", rest, sep);
        }
        assert s == [sep] + s[1..];
        [""] + rest
      else
        var head := [s[0]] + rest[0];
        assert Join([head] + rest[1..], sep) == s by {
          JoinCons(head, rest[1..], sep);
          if |rest| > 1 {
            JoinCons(rest[0], rest[1..][1..], sep);
            assert rest == [rest[0]] + rest[1..];
          } else {
            assert rest == [rest[0]];
          }
          assert s == [s[0]] + s[1..];
        }
        [head] + rest[1..]
  }

  /** Concatenation of `parts` with `sep` between neighbours (Go's
      `strings.Join`). */
  function Join(parts: seq<string>, sep: char): string
    decreases |parts|
  {
    if |parts| == 0 then ""
    else if |parts| == 1 then parts[0]
    else parts[0] + [sep] + Join(parts[1..], sep)
  }

  /** Unfolding `Join` at the front of a non-empty list of parts. */
  lemma JoinCons(p: string, rest: seq<string>, sep: char)
    ensures Join([p] + rest, sep) == if |rest| == 0 then p else p + [sep] + Join(rest, sep)
  {
    if |rest| > 0 {
      assert ([p] + rest)[1..] == rest;
    }
  }

  /** A string without the separator is split into itself. */
  lemma {:induction false} SplitNoSeparator(s: string, sep: char)
    requires sep !in s
    ensures Split(s, sep) == [s]
  {
    CountZero(s, sep);
  }

  /** Splitting `p + [sep] + t` where `p` holds no separator peels off `p`. */
  lemma {:induction false} SplitAfterPart(p: string, t: string, sep: char)
    requires sep !in p
    ensures Split(p + [sep] + t, sep) == [p] + Split(t, sep)
    decreases |p|
  {
    var s := p + [sep] + t;
    if |p| == 0 {
      assert s[1..] == t;
    } else {
      assert s[1..] == p[1..] + [sep] + t;
      SplitAfterPart(p[1..], t, sep);
      assert p == [p[0]] + p[1..];
    }
  }

  /** `Split` inverts `Join` on every list of separator-free parts. */
  lemma {:induction false} SplitJoin(parts: seq<string>, sep: char)
    requires |parts| >= 1
    requires forall i :: 0 <= i < |parts| ==> sep !in parts[i]
    ensures Split(Join(parts, sep), sep) == parts
    decreases |parts|
  {
    if |parts| == 1 {
      SplitNoSeparator(parts[0], sep);
    } else {
      SplitAfterPart(parts[0], Join(parts[1..], sep), sep);
      SplitJoin(parts[1..], sep);
      assert parts == [parts[0]] + parts[1..];
    }
  }
}
