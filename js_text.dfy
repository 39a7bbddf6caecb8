/**
 * The few JavaScript string primitives the sanitiser relies on: the `\s`
 * character class (which `String.prototype.trim` shares), `trim`,
 * `startsWith`, `split('\n')` / `join('\n')`, `' '.repeat(n)` and the global
 * replace `/[\s]+/g -> ' '`.
 */
module JsText {

  /** The characters matched by the JavaScript regular-expression class `\s`
      (WhiteSpace and LineTerminator); `trim()` removes exactly these. */
  predicate IsSpace(c: char) {
    c == '\t' || c == '\n' || c == '\U{B}' || c == '\U{C}' || c == '\r' || c == ' ' ||
    c == '\U{A0}' || c == '\U{1680}' || ('\U{2000}' <= c <= '\U{200A}') ||
    c == '\U{2028}' || c == '\U{2029}' || c == '\U{202F}' || c == '\U{205F}' ||
    c == '\U{3000}' || c == '\U{FEFF}'
  }

  /** The characters matched by `\w`. */
  predicate IsWordChar(c: char) {
    ('a' <= c <= 'z') || ('A' <= c <= 'Z') || ('0' <= c <= '9') || c == '_'
  }

  /** The characters matched by `\d`. */
  predicate IsDigit(c: char) {
    '0' <= c <= '9'
  }

  predicate AllSpace(s: string) {
    forall k :: 0 <= k < |s| ==> IsSpace(s[k])
  }

  /** No leading and no trailing whitespace. */
  predicate IsTrimmed(s: string) {
    s == [] || (!IsSpace(s[0]) && !IsSpace(s[|s| - 1]))
  }

  /** No two adjacent whitespace characters, and the only whitespace is ' '. */
  predicate IsCollapsed(s: string) {
    (forall k :: 0 <= k < |s| && IsSpace(s[k]) ==> s[k] == ' ') &&
    (forall i, j :: 0 <= i < |s| && 0 <= j < |s| && j == i + 1 && IsSpace(s[i]) ==> !IsSpace(s[j]))
  }

  predicate StartsWith(s: string, prefix: string) {
    |prefix| <= |s| && s[..|prefix|] == prefix
  }

  lemma AppendAssoc<T>(a: seq<T>, b: seq<T>, c: seq<T>)
    ensures a + (b + c) == (a + b) + c
  {
  }

  lemma AppendEmpty<T>(a: seq<T>)
    ensures a + [] == a && [] + a == a
  {
  }

  lemma StartsWithJoin(s: string, a: string, b: string)
    requires StartsWith(s, a) && StartsWith(s[|a|..], b)
    ensures StartsWith(s, a + b)
  {
    assert s[..|a| + |b|] == s[..|a|] + s[|a|..][..|b|];
  }

  lemma StartsWithSplit(s: string, a: string, b: string)
    requires StartsWith(s, a + b)
    ensures StartsWith(s, a) && StartsWith(s[|a|..], b)
  {
    assert s[..|a|] == (a + b)[..|a|];
    assert s[|a|..][..|b|] == s[..|a| + |b|][|a|..];
  }

  /** `s` with every whitespace character deleted: what whitespace rewriting
      must leave alone. */
  function NonSpace(s: string): (r: string)
    ensures |r| <= |s|
    ensures forall k :: 0 <= k < |r| ==> !IsSpace(r[k])
  {
    if s == [] then []
    else if IsSpace(s[0]) then NonSpace(s[1..])
    else [s[0]] + NonSpace(s[1..])
  }

  lemma {:induction false} NonSpaceAppend(a: string, b: string)
    ensures NonSpace(a + b) == NonSpace(a) + NonSpace(b)
  {
    if a != [] {
      assert (a + b)[0] == a[0];
      assert (a + b)[1..] == a[1..] + b;
      NonSpaceAppend(a[1..], b);
      if IsSpace(a[0]) {
        assert NonSpace(a + b) == NonSpace(a[1..] + b);
      } else {
        assert NonSpace(a + b) == [a[0]] + NonSpace(a[1..] + b);
      }
    } else {
      assert a + b == b;
    }
  }

  /** Number of leading whitespace characters. */
  function LeadingSpaces(s: string): (n: nat)
    ensures n <= |s| && forall k :: 0 <= k < n ==> IsSpace(s[k])
    ensures n < |s| ==> !IsSpace(s[n])
  {
    if s == [] || !IsSpace(s[0]) then 0 else 1 + LeadingSpaces(s[1..])
  }

  /** The leading whitespace run ends at the first other character. */
  lemma {:induction false} LeadingSpacesIs(s: string, l: nat)
    requires l < |s| && !IsSpace(s[l]) && AllSpace(s[..l])
    ensures LeadingSpaces(s) == l
  {
    if l > 0 {
      assert s[0] == s[..l][0];
      assert s[1..][..l - 1] == s[..l][1..];
      LeadingSpacesIs(s[1..], l - 1);
    }
  }

  /** Number of trailing whitespace characters. */
  function TrailingSpaces(s: string): (n: nat)
    ensures n <= |s| && forall k :: |s| - n <= k < |s| ==> IsSpace(s[k])
    ensures n < |s| ==> !IsSpace(s[|s| - 1 - n])
  {
    if s == [] || !IsSpace(s[|s| - 1]) then 0 else 1 + TrailingSpaces(s[..|s| - 1])
  }

  /** `String.prototype.trim`: the stretch of `s` between its leading and
      its trailing whitespace. */
  function Trim(s: string): (r: string)
    ensures IsTrimmed(r)
    ensures |r| <= |s|
    ensures r == [] <==> AllSpace(s)
    ensures LeadingSpaces(s) + |r| <= |s| && r == s[LeadingSpaces(s)..LeadingSpaces(s) + |r|]
    ensures AllSpace(s[..LeadingSpaces(s)]) && AllSpace(s[LeadingSpaces(s) + |r|..])
  {
    var i := LeadingSpaces(s);
    if i == |s| then
      TrimBlank(s);
      []
    else
      var j := TrailingSpaces(s);
      TrimFacts(s, i, j);
      s[i..|s| - j]
  }

  // An all-whitespace string trims to nothing.
  lemma TrimBlank(s: string)
    requires LeadingSpaces(s) == |s|
    ensures AllSpace(s) && s[|s|..|s|] == [] && AllSpace(s[..|s|]) && AllSpace(s[|s|..])
  {
    assert s[..|s|] == s;
  }

  // Otherwise the trailing whitespace ends after the first other character.
  lemma TrimFacts(s: string, i: nat, j: nat)
    requires i == LeadingSpaces(s) && i < |s| && j == TrailingSpaces(s)
    ensures i + j < |s|
    ensures var r := s[i..|s| - j];
      IsTrimmed(r) && r != [] && !AllSpace(s) &&
      i + |r| <= |s| && r == s[i..i + |r|] && AllSpace(s[..i]) && AllSpace(s[i + |r|..])
  {
    assert !IsSpace(s[i]);
    assert i + j < |s|;
    var r := s[i..|s| - j];
    assert r[0] == s[i];
    assert r[|r| - 1] == s[|s| - 1 - j];
    assert i + |r| == |s| - j;
    var head := s[..i];
    forall k | 0 <= k < |head| ensures IsSpace(head[k]) {
      assert head[k] == s[k];
    }
    var tail := s[|s| - j..];
    forall k | 0 <= k < |tail| ensures IsSpace(tail[k]) {
      assert tail[k] == s[|s| - j + k];
    }
  }

  /** A trimmed string is its own trim. */
  lemma TrimTrimmed(s: string)
    requires IsTrimmed(s)
    ensures Trim(s) == s
  {
    if s != [] {
      assert LeadingSpaces(s) == 0;
      assert TrailingSpaces(s) == 0;
    }
  }

  /** Trimming keeps a collapsed string collapsed. */
  lemma TrimCollapsed(s: string)
    requires IsCollapsed(s)
    ensures IsCollapsed(Trim(s))
  {
    var r := Trim(s);
    var i := LeadingSpaces(s);
    forall k, l | 0 <= k < |r| && 0 <= l < |r| && l == k + 1 && IsSpace(r[k]) ensures !IsSpace(r[l]) {
      assert r[k] == s[i + k] && r[l] == s[i + l];
    }
    forall k | 0 <= k < |r| && IsSpace(r[k]) ensures r[k] == ' ' {
      assert r[k] == s[i + k];
    }
  }

  /** Deleting whitespace from an all-whitespace string leaves nothing. */
  lemma {:induction false} NonSpaceAllSpace(s: string)
    requires AllSpace(s)
    ensures NonSpace(s) == []
  {
    if s != [] {
      assert AllSpace(s[1..]);
      NonSpaceAllSpace(s[1..]);
    }
  }

  /** `s.replace(/[\s]+/g, ' ')`: every maximal whitespace run becomes one space. */
  function CollapseSpaces(s: string): (r: string)
    ensures IsCollapsed(r)
    ensures r != [] && IsSpace(r[0]) ==> s != [] && IsSpace(s[0])
    ensures r != [] && IsSpace(r[|r| - 1]) ==> s != [] && IsSpace(s[|s| - 1])
    ensures |r| <= |s|
    ensures r == [] <==> s == []
    decreases |s|
  {
    if s == [] then []
    else if IsSpace(s[0]) then
      var n := LeadingSpaces(s);
      var tail := CollapseSpaces(s[n..]);
      CollapsedCons(' ', tail);
      CollapseRunEnd(s, n, tail);
      " " + tail
    else
      var tail := CollapseSpaces(s[1..]);
      CollapsedCons(s[0], tail);
      [s[0]] + tail
  }

  /** A whitespace run on its own becomes one space. */
  lemma CollapseRunOne(w: string)
    requires w != [] && AllSpace(w)
    ensures CollapseSpaces(w) == " "
  {
    assert LeadingSpaces(w) == |w|;
    assert w[|w|..] == [];
  }

  /** A character other than whitespace is kept as it is. */
  lemma CollapseChar(c: char)
    requires !IsSpace(c)
    ensures CollapseSpaces([c]) == [c]
  {
    assert [c][1..] == [];
  }

  /** Collapsing works piece by piece wherever the pieces do not split a
      whitespace run; with CollapseRunOne and CollapseChar this fixes the
      result of every string: each maximal run becomes one space, everything
      else is copied. */
  lemma {:induction false} CollapseAppend(a: string, b: string)
    requires a == [] || b == [] || !IsSpace(a[|a| - 1]) || !IsSpace(b[0])
    ensures CollapseSpaces(a + b) == CollapseSpaces(a) + CollapseSpaces(b)
    decreases |a|, 1
  {
    if a == [] {
      assert a + b == b;
    } else if b == [] {
      assert a + b == a;
    } else if !IsSpace(a[0]) {
      CollapseAppendCopy(a, b);
    } else if LeadingSpaces(a) < |a| {
      CollapseAppendRun(a, b);
    } else {
      CollapseRunBefore(a, b);
    }
  }

  // CollapseAppend when `a` starts with a character that is copied.
  lemma {:induction false} CollapseAppendCopy(a: string, b: string)
    requires a != [] && b != [] && !IsSpace(a[0]) && (!IsSpace(a[|a| - 1]) || !IsSpace(b[0]))
    ensures CollapseSpaces(a + b) == CollapseSpaces(a) + CollapseSpaces(b)
    decreases |a|, 0
  {
    if |a| > 1 {
      SameLast(a, 1);
    }
    CollapseAppend(a[1..], b);
    CollapseCopyJoin(a, b);
  }

  // CollapseAppend when `a` starts with a run that ends inside it.
  lemma {:induction false} CollapseAppendRun(a: string, b: string)
    requires a != [] && b != [] && IsSpace(a[0]) && LeadingSpaces(a) < |a|
    requires !IsSpace(a[|a| - 1]) || !IsSpace(b[0])
    ensures CollapseSpaces(a + b) == CollapseSpaces(a) + CollapseSpaces(b)
    decreases |a|, 0
  {
    var m := LeadingSpaces(a);
    SameLast(a, m);
    CollapseAppend(a[m..], b);
    CollapseRunJoin(a, b, m);
  }

  lemma SameLast(a: string, k: nat)
    requires k < |a|
    ensures a[k..] != [] && a[k..][|a[k..]| - 1] == a[|a| - 1]
  {
  }

  // The copying case of CollapseAppend.
  lemma CollapseCopyJoin(a: string, b: string)
    requires a != [] && !IsSpace(a[0])
    requires CollapseSpaces(a[1..] + b) == CollapseSpaces(a[1..]) + CollapseSpaces(b)
    ensures CollapseSpaces(a + b) == CollapseSpaces(a) + CollapseSpaces(b)
  {
    SplitHead(a, b);
    CollapseCopyUnfold(a + b, a[0], a[1..] + b);
    CollapseCopyUnfold(a, a[0], a[1..]);
    Rejoin(CollapseSpaces(a + b), CollapseSpaces(a), [a[0]], CollapseSpaces(a[1..] + b),
      CollapseSpaces(a[1..]), CollapseSpaces(b));
  }

  // Regroups `h + (p + q)` as `(h + p) + q` through named parts.
  lemma Rejoin<T>(x: seq<T>, y: seq<T>, h: seq<T>, m: seq<T>, p: seq<T>, q: seq<T>)
    requires x == h + m && m == p + q && y == h + p
    ensures x == y + q
  {
    AppendAssoc(h, p, q);
  }

  lemma SplitHead(a: string, b: string)
    requires a != []
    ensures a == [a[0]] + a[1..] && a + b == [a[0]] + (a[1..] + b)
  {
    AppendAssoc([a[0]], a[1..], b);
  }

  // One unfolding of CollapseSpaces at a copied character.
  lemma CollapseCopyUnfold(s: string, c: char, rest: string)
    requires s == [c] + rest && !IsSpace(c)
    ensures CollapseSpaces(s) == [c] + CollapseSpaces(rest)
  {
    assert s[0] == c && s[1..] == rest;
  }

  // The whitespace-run case of CollapseAppend, when the run ends inside `a`.
  lemma CollapseRunJoin(a: string, b: string, m: nat)
    requires a != [] && IsSpace(a[0]) && m == LeadingSpaces(a) && m < |a|
    requires CollapseSpaces(a[m..] + b) == CollapseSpaces(a[m..]) + CollapseSpaces(b)
    ensures CollapseSpaces(a + b) == CollapseSpaces(a) + CollapseSpaces(b)
  {
    CollapseRunInside(a, b, m);
    AppendAssoc(" ", CollapseSpaces(a[m..]), CollapseSpaces(b));
  }

  // A leading run that ends inside `a`.
  lemma CollapseRunInside(a: string, b: string, m: nat)
    requires a != [] && IsSpace(a[0]) && m == LeadingSpaces(a) && m < |a|
    ensures CollapseSpaces(a + b) == " " + CollapseSpaces(a[m..] + b)
    ensures CollapseSpaces(a) == " " + CollapseSpaces(a[m..])
  {
    var ab := a + b;
    assert ab[m] == a[m] && ab[..m] == a[..m] && ab[0] == a[0];
    LeadingSpacesIs(ab, m);
    assert ab[m..] == a[m..] + b;
    CollapseRunUnfold(ab, m);
    CollapseRunUnfold(a, m);
  }

  // `a` is all whitespace and `b` starts with another character.
  lemma CollapseRunBefore(a: string, b: string)
    requires a != [] && LeadingSpaces(a) == |a|
    requires b == [] || !IsSpace(a[|a| - 1]) || !IsSpace(b[0])
    ensures CollapseSpaces(a + b) == CollapseSpaces(a) + CollapseSpaces(b)
  {
    assert AllSpace(a);
    CollapseRunOne(a);
    if b == [] {
      assert a + b == a;
    } else {
      var ab := a + b;
      assert ab[|a|] == b[0] && ab[..|a|] == a && ab[0] == a[0];
      LeadingSpacesIs(ab, |a|);
      assert ab[|a|..] == b;
      CollapseRunUnfold(ab, |a|);
    }
  }

  /** Collapsing whitespace never touches a non-whitespace character. */
  lemma {:induction false} CollapseKeepsText(s: string)
    ensures NonSpace(CollapseSpaces(s)) == NonSpace(s)
    decreases |s|
  {
    if s != [] {
      if IsSpace(s[0]) {
        var n := LeadingSpaces(s);
        CollapseKeepsText(s[n..]);
        CollapseRunUnfold(s, n);
        CollapseRunStep(s, n, CollapseSpaces(s[n..]));
      } else {
        CollapseKeepsText(s[1..]);
        CollapseCopyStep(s);
      }
    }
  }

  lemma CollapseRunUnfold(s: string, n: nat)
    requires s != [] && IsSpace(s[0]) && n == LeadingSpaces(s)
    ensures CollapseSpaces(s) == " " + CollapseSpaces(s[n..])
  {
  }

  // The copying case of CollapseSpaces.
  lemma CollapseCopyStep(s: string)
    requires s != [] && !IsSpace(s[0])
    requires NonSpace(CollapseSpaces(s[1..])) == NonSpace(s[1..])
    ensures NonSpace(CollapseSpaces(s)) == NonSpace(s)
  {
    var tail := CollapseSpaces(s[1..]);
    var u := [s[0]] + tail;
    assert CollapseSpaces(s) == u;
    assert u[0] == s[0] && u[1..] == tail;
    assert NonSpace(u) == [s[0]] + NonSpace(tail);
  }

  // The whitespace-run case of CollapseSpaces: what the run keeps.
  lemma CollapseRunStep(s: string, n: nat, tail: string)
    requires s != [] && IsSpace(s[0]) && n == LeadingSpaces(s)
    requires NonSpace(tail) == NonSpace(s[n..])
    ensures NonSpace(" " + tail) == NonSpace(s)
  {
    NonSpaceAppend(" ", tail);
    assert NonSpace(" ") == [];
    assert s == s[..n] + s[n..];
    NonSpaceAppend(s[..n], s[n..]);
    NonSpaceAllSpace(s[..n]);
  }

  // The whitespace-run case of CollapseSpaces: where it ends.
  lemma CollapseRunEnd(s: string, n: nat, tail: string)
    requires s != [] && IsSpace(s[0]) && n == LeadingSpaces(s)
    requires tail != [] && IsSpace(tail[|tail| - 1]) ==> s[n..] != [] && IsSpace(s[n..][|s[n..]| - 1])
    requires tail == [] <==> s[n..] == []
    ensures tail == [] || IsSpace(tail[|tail| - 1]) ==> IsSpace(s[|s| - 1])
  {
    if n == |s| {
      assert s[..n][|s| - 1] == s[|s| - 1];
    }
  }

  lemma CollapsedCons(c: char, tail: string)
    requires IsCollapsed(tail)
    requires IsSpace(c) ==> c == ' ' && (tail == [] || !IsSpace(tail[0]))
    ensures IsCollapsed([c] + tail)
  {
    var r := [c] + tail;
    forall k, l | 0 <= k < |r| && 0 <= l < |r| && l == k + 1 && IsSpace(r[k]) ensures !IsSpace(r[l]) {
      if k > 0 { assert r[k] == tail[k - 1] && r[l] == tail[k]; }
    }
  }

  /** A collapsed string is a fixed point of CollapseSpaces. */
  lemma {:induction false} CollapseCollapsed(s: string)
    requires IsCollapsed(s)
    ensures CollapseSpaces(s) == s
  {
    if s != [] {
      CollapsedTail(s);
      CollapseCollapsed(s[1..]);
      if IsSpace(s[0]) {
        CollapsedRun(s);
        CollapseRunUnfold(s, 1);
      }
      ConsTail(s, CollapseSpaces(s));
    }
  }

  // A string that agrees with `s` on its first character and on the rest
  // is `s`.
  lemma ConsTail(s: string, r: string)
    requires s != [] && r == [s[0]] + s[1..]
    ensures r == s
  {
  }

  lemma CollapsedTail(s: string)
    requires s != [] && IsCollapsed(s)
    ensures IsCollapsed(s[1..])
  {
    var t := s[1..];
    forall k | 0 <= k < |t| && IsSpace(t[k]) ensures t[k] == ' ' {
      assert t[k] == s[k + 1];
    }
    forall k, l | 0 <= k < |t| && 0 <= l < |t| && l == k + 1 && IsSpace(t[k]) ensures !IsSpace(t[l]) {
      assert t[k] == s[k + 1] && t[l] == s[l + 1];
    }
  }

  // A whitespace character in a collapsed string is a single space.
  lemma CollapsedRun(s: string)
    requires s != [] && IsCollapsed(s) && IsSpace(s[0])
    ensures s[0] == ' ' && LeadingSpaces(s) == 1
  {
    if |s| > 1 {
      assert !IsSpace(s[1]);
      assert s[1..][0] == s[1];
    }
  }

  /** `strings.join('')`. */
  function Concat(parts: seq<string>): string {
    if parts == [] then "" else parts[0] + Concat(parts[1..])
  }

  lemma {:induction false} ConcatAppend(a: seq<string>, b: seq<string>)
    ensures Concat(a + b) == Concat(a) + Concat(b)
  {
    if a == [] {
      assert a + b == b;
    } else {
      var ab := a + b;
      assert ab != [] && ab[0] == a[0] && ab[1..] == a[1..] + b;
      ConcatAppend(a[1..], b);
      assert a[0] + (Concat(a[1..]) + Concat(b)) == (a[0] + Concat(a[1..])) + Concat(b);
    }
  }

  /** `' '.repeat(n)`. */
  function Spaces(n: nat): (r: string)
    ensures |r| == n && forall k :: 0 <= k < n ==> r[k] == ' '
  {
    if n == 0 then [] else [' '] + Spaces(n - 1)
  }

  /** `s.split(sep)`: the pieces between separators, always at least one. */
  function Split(s: string, sep: char): (parts: seq<string>)
    ensures |parts| >= 1
    ensures forall p :: p in parts ==> sep !in p
  {
    SplitFrom(s, sep, [])
  }

  // `cur` is the piece being built from the characters already read.
  function SplitFrom(s: string, sep: char, cur: string): (parts: seq<string>)
    requires sep !in cur
    ensures |parts| >= 1
    ensures forall p :: p in parts ==> sep !in p
  {
    if s == [] then [cur]
    else if s[0] == sep then [cur] + SplitFrom(s[1..], sep, [])
    else SplitFrom(s[1..], sep, cur + [s[0]])
  }

  /** `parts.join(sep)`. */
  function Join(parts: seq<string>, sep: char): string {
    if parts == [] then []
    else if |parts| == 1 then parts[0]
    else parts[0] + [sep] + Join(parts[1..], sep)
  }

  lemma {:induction false} JoinSplitFrom(s: string, sep: char, cur: string)
    requires sep !in cur
    ensures Join(SplitFrom(s, sep, cur), sep) == cur + s
  {
    if s == [] {
    } else if s[0] == sep {
      JoinSplitFrom(s[1..], sep, []);
      var tail := SplitFrom(s[1..], sep, []);
      assert ([cur] + tail)[1..] == tail;
      assert cur + s == cur + [sep] + s[1..];
    } else {
      JoinSplitFrom(s[1..], sep, cur + [s[0]]);
      assert cur + s == cur + [s[0]] + s[1..];
    }
  }

  /** Splitting at a separator and joining with it gives the string back. */
  lemma JoinSplit(s: string, sep: char)
    ensures Join(Split(s, sep), sep) == s
  {
    JoinSplitFrom(s, sep, []);
  }
}
