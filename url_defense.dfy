/**
 * `HtmlProcessor.parseUrl`: recover the real destination from a link that a
 * mail security gateway wrapped as
 * `https://urldefense.com/[v<digits>/]__<destination>__...`.
 *
 * The pattern is `/https:\/\/urldefense\.com\/(?:v\d+\/)?__([^_]+)__/`, used
 * with `String.prototype.match`: it is NOT anchored, so the first wrapper
 * anywhere in the string counts, and the destination is returned as it is.
 */
module UrlDefense {
  import opened JsText
  import opened Dom

  const WrapperPrefix: string := "https://urldefense.com/"

  /** The optional version segment `v<digits>/`, or nothing. */
  predicate IsVersion(v: string) {
    v == [] || (|v| >= 3 && v[0] == 'v' && v[|v| - 1] == '/' && forall k :: 1 <= k < |v| - 1 ==> IsDigit(v[k]))
  }

  /** What `([^_]+)` captures. */
  predicate IsDestination(p: string) {
    p != [] && '_' !in p
  }

  /** The text the pattern matches when the version segment is `v` and the
      destination `p`. */
  function Wrapped(v: string, p: string): string {
    WrapperPrefix + (v + ("__" + (p + "__")))
  }

  /** The pattern matches at index `i` of `url` and captures `p`: the
      declarative reading of the regular expression. */
  ghost predicate WrapperAt(url: string, i: int, p: string) {
    0 <= i <= |url| && IsDestination(p) &&
    exists v :: IsVersion(v) && StartsWith(url[i..], Wrapped(v, p))
  }

  // ---------------------------------------------------------------------
  // The matcher, read left to right as the regular-expression engine does
  // ---------------------------------------------------------------------

  /** Length of the leading run of characters satisfying `\d`. */
  function DigitRun(s: string): (n: nat)
    ensures n <= |s| && (forall k :: 0 <= k < n ==> IsDigit(s[k])) && (n < |s| ==> !IsDigit(s[n]))
  {
    if s != [] && IsDigit(s[0]) then 1 + DigitRun(s[1..]) else 0
  }

  /** Length of the leading run of characters other than `_`. */
  function NonUnderscoreRun(s: string): (n: nat)
    ensures n <= |s| && '_' !in s[..n] && (n < |s| ==> s[n] == '_')
  {
    if s != [] && s[0] != '_' then
      var n := 1 + NonUnderscoreRun(s[1..]);
      assert s[..n] == [s[0]] + s[1..][..n - 1];
      n
    else 0
  }

  /** Length of the version segment `v\d+/` at the start of `t`, or 0. */
  function VersionLength(t: string): (n: nat)
    ensures n <= |t|
  {
    if t != [] && t[0] == 'v' then
      var d := DigitRun(t[1..]);
      if d > 0 && 1 + d < |t| && t[1 + d] == '/' then d + 2 else 0
    else 0
  }

  /** `__([^_]+)__` at the start of `u`: the captured text, if it matches. */
  function Capture(u: string): Option<string> {
    if StartsWith(u, "__") then
      var n := NonUnderscoreRun(u[2..]);
      if n > 0 && StartsWith(u[2 + n..], "__") then Some(u[2..2 + n]) else None
    else None
  }

  /** The match starting at index `i`, if any. */
  function MatchAt(url: string, i: nat): Option<string>
    requires i <= |url|
  {
    var rest := url[i..];
    if StartsWith(rest, WrapperPrefix) then
      var t := rest[|WrapperPrefix|..];
      Capture(t[VersionLength(t)..])
    else None
  }

  /** The leftmost match at index `i` or later. */
  function FirstMatch(url: string, i: nat): (r: Option<string>)
    requires i <= |url|
    decreases |url| - i
  {
    var m := MatchAt(url, i);
    if m.Some? then m else if i == |url| then None else FirstMatch(url, i + 1)
  }

  // ---------------------------------------------------------------------
  // The matcher agrees with the pattern
  // ---------------------------------------------------------------------

  lemma MatchAtSound(url: string, i: nat)
    requires i <= |url| && MatchAt(url, i).Some?
    ensures WrapperAt(url, i, MatchAt(url, i).value)
  {
    var rest := url[i..];
    assert StartsWith(rest, WrapperPrefix);
    var t := rest[|WrapperPrefix|..];
    var vl := VersionLength(t);
    var u := t[vl..];
    assert MatchAt(url, i) == Capture(u);
    VersionSound(t);
    CaptureSound(u);
    WrapperJoin(rest, t[..vl], Capture(u).value);
  }

  // The pieces read one after the other make up a wrapper.
  lemma WrapperJoin(rest: string, v: string, p: string)
    requires StartsWith(rest, WrapperPrefix)
    requires StartsWith(rest[|WrapperPrefix|..], v)
    requires StartsWith(rest[|WrapperPrefix|..][|v|..], "__" + (p + "__"))
    ensures StartsWith(rest, Wrapped(v, p))
  {
    var t := rest[|WrapperPrefix|..];
    StartsWithJoin(t, v, "__" + (p + "__"));
    StartsWithJoin(rest, WrapperPrefix, v + ("__" + (p + "__")));
  }

  // The version segment the matcher read is one the pattern allows.
  lemma VersionSound(t: string)
    ensures IsVersion(t[..VersionLength(t)])
  {
    var vl := VersionLength(t);
    var v := t[..vl];
    if vl > 0 {
      forall k | 1 <= k < |v| - 1 ensures IsDigit(v[k]) {
        assert v[k] == t[1..][k - 1];
      }
    }
  }

  // The captured text is a destination between two `__`.
  lemma CaptureSound(u: string)
    requires Capture(u).Some?
    ensures IsDestination(Capture(u).value) && StartsWith(u, "__" + (Capture(u).value + "__"))
  {
    var n := NonUnderscoreRun(u[2..]);
    var p := u[2..2 + n];
    assert p == u[2..][..n];
    assert u[2..][n..] == u[2 + n..];
    StartsWithJoin(u[2..], p, "__");
    StartsWithJoin(u, "__", p + "__");
  }

  lemma MatchAtComplete(url: string, i: nat, p: string)
    requires WrapperAt(url, i, p)
    ensures MatchAt(url, i) == Some(p)
  {
    var v :| IsVersion(v) && StartsWith(url[i..], Wrapped(v, p));
    var rest := url[i..];
    StartsWithSplit(rest, WrapperPrefix, v + ("__" + (p + "__")));
    var t := rest[|WrapperPrefix|..];
    StartsWithSplit(t, v, "__" + (p + "__"));
    var u := t[|v|..];
    VersionComplete(t, v, u);
    CaptureComplete(u, p);
  }

  // A version segment the pattern allows, followed by `_`, is read whole.
  lemma VersionComplete(t: string, v: string, u: string)
    requires IsVersion(v) && StartsWith(t, v) && u == t[|v|..]
    requires StartsWith(u, "__")
    ensures VersionLength(t) == |v|
  {
    assert u[0] == u[..2][0] == '_';
    if v == [] {
      assert t[0] == u[0];
    } else {
      assert t[0] == t[..|v|][0] == v[0];
      forall k | 0 <= k < |v| - 2 ensures IsDigit(t[1..][k]) {
        assert t[1..][k] == t[..|v|][k + 1];
      }
      assert t[1..][|v| - 2] == t[..|v|][|v| - 1];
      var d := DigitRun(t[1..]);
      assert d == |v| - 2;
    }
  }

  // `__`, a destination and `__` are captured as that destination.
  lemma CaptureComplete(u: string, p: string)
    requires IsDestination(p) && StartsWith(u, "__" + (p + "__"))
    ensures Capture(u) == Some(p)
  {
    StartsWithSplit(u, "__", p + "__");
    StartsWithSplit(u[2..], p, "__");
    var n := NonUnderscoreRun(u[2..]);
    assert n == |p| by {
      assert forall k :: 0 <= k < |p| ==> u[2..][k] == p[k];
      var tail := u[2..][|p|..];
      assert tail[0] == tail[..2][0] == '_';
      assert u[2..][|p|] == tail[0];
    }
    assert u[2..2 + n] == u[2..][..n];
    assert u[2 + n..] == u[2..][|p|..];
  }

  /** At a given index the pattern captures at most one destination. */
  lemma WrapperAtUnique(url: string, i: nat, p: string, q: string)
    requires WrapperAt(url, i, p) && WrapperAt(url, i, q)
    ensures p == q
  {
    MatchAtComplete(url, i, p);
    MatchAtComplete(url, i, q);
  }

  lemma FirstMatchSpec(url: string, i: nat)
    requires i <= |url|
    ensures FirstMatch(url, i).None? ==> forall j, p :: i <= j <= |url| ==> !WrapperAt(url, j, p)
    ensures FirstMatch(url, i).Some? ==>
      exists j :: i <= j <= |url| && WrapperAt(url, j, FirstMatch(url, i).value) &&
        forall k, p :: i <= k < j ==> !WrapperAt(url, k, p)
    decreases |url| - i
  {
    var m := MatchAt(url, i);
    if m.Some? {
      MatchAtSound(url, i);
      assert FirstMatch(url, i) == m;
    } else {
      NoMatchHere(url, i);
      if i < |url| {
        FirstMatchSpec(url, i + 1);
        var r := FirstMatch(url, i + 1);
        assert FirstMatch(url, i) == r;
        if r.Some? {
          var j :| i + 1 <= j <= |url| && WrapperAt(url, j, r.value) &&
            forall k, p :: i + 1 <= k < j ==> !WrapperAt(url, k, p);
          assert forall k, p :: i <= k < j ==> !WrapperAt(url, k, p);
        }
      } else {
        assert FirstMatch(url, i) == None;
      }
    }
  }

  // Where the matcher finds nothing, the pattern matches nothing.
  lemma NoMatchHere(url: string, i: nat)
    requires i <= |url| && MatchAt(url, i).None?
    ensures forall p :: !WrapperAt(url, i, p)
  {
    forall p | WrapperAt(url, i, p) ensures false {
      MatchAtComplete(url, i, p);
    }
  }

  /** `parseUrl(url)`: the destination of the leftmost wrapper in `url`, or
      `url` itself when it is empty or holds no wrapper. */
  function ParseUrl(url: string): (r: string)
    ensures url == [] ==> r == url
    ensures (forall i, p :: !WrapperAt(url, i, p)) <==> r == url
    ensures r != url ==>
      exists i :: WrapperAt(url, i, r) && forall j, p :: j < i ==> !WrapperAt(url, j, p)
  {
    FirstMatchSpec(url, 0);
    if url == [] then url
    else
      match FirstMatch(url, 0)
      case Some(p) =>
        NotDestination(url, p);
        p
      case None => url
  }

  /** Every wrapper contains `__`, so a string holding one contains `_`. */
  lemma WrapperHasUnderscore(url: string, i: int, p: string)
    requires WrapperAt(url, i, p)
    ensures '_' in url
  {
    var v :| IsVersion(v) && StartsWith(url[i..], Wrapped(v, p));
    var w := Wrapped(v, p);
    var k := |WrapperPrefix| + |v|;
    assert w[k] == '_';
    assert url[i..][..|w|] == w;
    assert url[i + k] == url[i..][..|w|][k];
  }

  // The destination has no `_`, so it is never the wrapped string itself.
  lemma NotDestination(url: string, p: string)
    requires exists i :: WrapperAt(url, i, p)
    ensures p != url
  {
    var i :| WrapperAt(url, i, p);
    WrapperHasUnderscore(url, i, p);
  }

  /** A string without `_` holds no wrapper. */
  lemma NoUnderscoreNoWrapper(s: string)
    requires '_' !in s
    ensures forall i, p :: !WrapperAt(s, i, p)
  {
    forall i, p | WrapperAt(s, i, p) ensures false {
      WrapperHasUnderscore(s, i, p);
    }
  }

  /** The destination is a non-empty, underscore-free piece of the input. */
  lemma ParseUrlDestination(url: string)
    requires ParseUrl(url) != url
    ensures IsDestination(ParseUrl(url))
    ensures exists k :: 0 <= k <= |url| - |ParseUrl(url)| && StartsWith(url[k..], ParseUrl(url))
  {
    var r := ParseUrl(url);
    var i :| WrapperAt(url, i, r) && forall j, p :: j < i ==> !WrapperAt(url, j, p);
    var v :| IsVersion(v) && StartsWith(url[i..], Wrapped(v, r));
    DestinationInside(url, i, v, r);
  }

  // Where the destination sits inside a wrapper.
  lemma DestinationInside(url: string, i: int, v: string, p: string)
    requires 0 <= i <= |url| && StartsWith(url[i..], Wrapped(v, p))
    ensures var k := i + |WrapperPrefix| + |v| + 2;
      0 <= k <= |url| - |p| && StartsWith(url[k..], p)
  {
    var w := Wrapped(v, p);
    var k := |WrapperPrefix| + |v| + 2;
    assert |w| == k + |p| + 2;
    forall j | 0 <= j < |p| ensures url[i + k..][j] == p[j] {
      assert w[k + j] == p[j];
      assert url[i..][..|w|][k + j] == w[k + j];
    }
  }

  /** The match may start anywhere: the leftmost wrapper wins, whatever
      precedes it. */
  lemma ParseUrlLeftmost(url: string, i: nat, p: string)
    requires WrapperAt(url, i, p)
    requires forall j, q :: j < i ==> !WrapperAt(url, j, q)
    ensures ParseUrl(url) == p
  {
    var r := ParseUrl(url);
    assert r != url;
    var i' :| WrapperAt(url, i', r) && forall j, q :: j < i' ==> !WrapperAt(url, j, q);
    WrapperAtUnique(url, i, p, r);
  }

  /** Unwrapping is idempotent: a destination holds no further wrapper. */
  lemma ParseUrlIdempotent(url: string)
    ensures ParseUrl(ParseUrl(url)) == ParseUrl(url)
  {
    var r := ParseUrl(url);
    if r != url {
      ParseUrlDestination(url);
      NoUnderscoreNoWrapper(r);
    }
  }

  /** Round trip: a destination wrapped by the gateway, with or without a
      version segment, unwraps to that destination. */
  lemma ParseUrlWrapped(v: string, p: string)
    requires IsVersion(v) && IsDestination(p)
    ensures ParseUrl(Wrapped(v, p)) == p
  {
    WrapperAtStart(v, p);
    ParseUrlLeftmost(Wrapped(v, p), 0, p);
  }

  /** A wrapper on its own is matched at its start. */
  lemma WrapperAtStart(v: string, p: string)
    requires IsVersion(v) && IsDestination(p)
    ensures WrapperAt(Wrapped(v, p), 0, p)
  {
    var w := Wrapped(v, p);
    assert w[0..] == w && w[..|w|] == w;
  }
}
