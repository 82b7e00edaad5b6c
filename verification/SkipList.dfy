/** The debugger's skip list: greedy leftmost matching of `*` patterns against a URL. */
module SkipList {
  import opened Wrappers
  import opened Strings

  /** The loop over the parts, from position `pos`. */
  predicate Greedy(parts: seq<string>, url: string, pos: nat)
    requires pos <= |url|
    decreases |parts|
  {
    parts == [] ||
    if parts[0] == "" then Greedy(parts[1..], url, pos)
    else
      var found := Find(url, pos, parts[0]);
      found.Some? && Greedy(parts[1..], url, found.value + |parts[0]|)
  }

  predicate Skips(pattern: string, url: string) {
    if '*' in pattern then Greedy(Split(pattern, '*'), url, 0) else url == pattern
  }

  method ShouldSkip(skipList: seq<string>, url: string) returns (skip: bool)
    ensures skip <==> exists i :: 0 <= i < |skipList| && Skips(skipList[i], url)
  {
    for i := 0 to |skipList|
      invariant forall j :: 0 <= j < i ==> !Skips(skipList[j], url)
    {
      var pattern := skipList[i];
      if '*' in pattern {
        var parts := Split(pattern, '*');
        var pos: nat, matched := 0, true;
        var k := 0;
        assert parts[0..] == parts;
        while k < |parts| && matched
          invariant k <= |parts| && pos <= |url|
          invariant Greedy(parts, url, 0) == (matched && Greedy(parts[k..], url, pos))
        {
          assert parts[k..][0] == parts[k] && parts[k..][1..] == parts[k + 1..];
          if parts[k] != "" {
            var found := Find(url, pos, parts[k]);
            if found.Some? {
              pos := found.value + |parts[k]|;
            } else {
              matched := false;
            }
          }
          k := k + 1;
        }
        if matched {
          return true;
        }
      } else if url == pattern {
        return true;
      }
    }
    return false;
  }

  // ----- ordered, non-overlapping placements -----

  function NonEmpty(parts: seq<string>): seq<string> {
    if parts == [] then []
    else if parts[0] == "" then NonEmpty(parts[1..])
    else [parts[0]] + NonEmpty(parts[1..])
  }

  /** Part `i` stands at `at[i]`, each one at or after the end of the one before. */
  ghost predicate Places(parts: seq<string>, url: string, from: nat, at: seq<nat>)
    decreases |parts|
  {
    |at| == |parts| &&
    (parts == [] ||
     (from <= at[0] && OccursAt(url, at[0], parts[0]) && Places(parts[1..], url, at[0] + |parts[0]|, at[1..])))
  }

  ghost predicate Placeable(parts: seq<string>, url: string, from: nat) {
    exists at :: Places(parts, url, from, at)
  }

  /** The exchange step: starting earlier never hurts. */
  lemma PlaceableEarlier(parts: seq<string>, url: string, from: nat, later: nat)
    requires from <= later && Placeable(parts, url, later)
    ensures Placeable(parts, url, from)
  {
    var at :| Places(parts, url, later, at);
    assert Places(parts, url, from, at);
  }

  /** Greedy leftmost search succeeds exactly when some placement exists. */
  lemma {:induction false} GreedyIffPlaceable(parts: seq<string>, url: string, pos: nat)
    requires pos <= |url|
    ensures Greedy(parts, url, pos) <==> Placeable(NonEmpty(parts), url, pos)
    decreases |parts|
  {
    var ps := NonEmpty(parts);
    if parts == [] {
      assert Places(ps, url, pos, []);
    } else if parts[0] == "" {
      GreedyIffPlaceable(parts[1..], url, pos);
    } else {
      var found := Find(url, pos, parts[0]);
      assert ps[0] == parts[0] && ps[1..] == NonEmpty(parts[1..]);
      if found.Some? {
        var next := found.value + |parts[0]|;
        GreedyIffPlaceable(parts[1..], url, next);
        if Placeable(ps[1..], url, next) {
          var at :| Places(ps[1..], url, next, at);
          var all := [found.value] + at;
          assert all[1..] == at;
          assert Places(ps, url, pos, all);
        }
        if Placeable(ps, url, pos) {
          var at :| Places(ps, url, pos, at);
          assert Places(ps[1..], url, at[0] + |ps[0]|, at[1..]);
          PlaceableEarlier(ps[1..], url, next, at[0] + |ps[0]|);
        }
      } else {
        forall at ensures !Places(ps, url, pos, at) { }
      }
    }
  }

  lemma SkipsIffPlaceable(pattern: string, url: string)
    requires '*' in pattern
    ensures Skips(pattern, url) <==> Placeable(NonEmpty(Split(pattern, '*')), url, 0)
  {
    GreedyIffPlaceable(Split(pattern, '*'), url, 0);
  }

  // ----- against the usual meaning of a glob -----

  /** `*` stands for any string; everything else for itself; the whole URL is matched. */
  predicate Glob(p: string, u: string)
    decreases |p| + |u|
  {
    if p == "" then u == ""
    else if p[0] == '*' then Glob(p[1..], u) || (u != "" && Glob(p, u[1..]))
    else u != "" && u[0] == p[0] && Glob(p[1..], u[1..])
  }

  lemma {:induction false} GlobStar(q: string, u: string)
    ensures Glob("*" + q, u) <==> exists k :: 0 <= k <= |u| && Glob(q, u[k..])
    decreases |u|
  {
    var p := "*" + q;
    assert p[0] == '*' && p[1..] == q && u[0..] == u;
    if u != "" {
      GlobStar(q, u[1..]);
      if Glob(p, u[1..]) {
        var k :| 0 <= k <= |u[1..]| && Glob(q, u[1..][k..]);
        assert u[1..][k..] == u[k + 1..];
      }
      if k :| 1 <= k <= |u| && Glob(q, u[k..]) {
        assert u[1..][k - 1..] == u[k..];
      }
    }
    if k :| 0 <= k <= |u| && Glob(q, u[k..]) {
      if k == 0 { assert Glob(q, u); }
    }
  }

  lemma {:induction false} GlobLiteral(lit: string, q: string, u: string)
    requires '*' !in lit
    ensures Glob(lit + q, u) <==> OccursAt(u, 0, lit) && Glob(q, u[|lit|..])
  {
    var p := lit + q;
    if lit == "" {
      assert p == q && u[0..] == u;
    } else {
      assert p[0] == lit[0] && lit[0] in lit && p[1..] == lit[1..] + q;
      if u != "" && u[0] == lit[0] {
        GlobLiteral(lit[1..], q, u[1..]);
        if |lit| <= |u| {
          assert u[1..][|lit| - 1..] == u[|lit|..];
          assert u[0..|lit|] == [u[0]] + u[1..][0..|lit| - 1];
          assert lit == [lit[0]] + lit[1..];
          assert lit[1..] == u[1..][0..|lit| - 1] <==> lit == u[0..|lit|];
        }
      }
    }
  }

  function StarJoin(parts: seq<string>): string {
    if parts == [] then "*" else "*" + (parts[0] + StarJoin(parts[1..]))
  }

  lemma {:induction false} StarJoinIsJoin(parts: seq<string>)
    requires parts != []
    ensures StarJoin(parts) == "*" + Join(parts, '*') + "*"
  {
    if |parts| > 1 { StarJoinIsJoin(parts[1..]); }
  }

  lemma {:induction false} GlobAnything(u: string)
    ensures Glob("*", u)
  {
    if u != "" { GlobAnything(u[1..]); } else { assert "*"[1..] == ""; }
  }

  /** One `*part` of the pattern: the part occurs somewhere, and the rest matches what follows. */
  lemma GlobPart(part: string, q: string, url: string, from: nat)
    requires '*' !in part && from <= |url|
    ensures Glob("*" + (part + q), url[from..])
       <==> exists k :: from <= k && OccursAt(url, k, part) && Glob(q, url[k + |part|..])
  {
    var u := url[from..];
    GlobStar(part + q, u);
    if j :| 0 <= j <= |u| && Glob(part + q, u[j..]) {
      assert u[j..] == url[from + j..];
      GlobLiteral(part, q, url[from + j..]);
      assert url[from + j..][0..|part|] == url[from + j..from + j + |part|];
      assert url[from + j..][|part|..] == url[from + j + |part|..];
      assert OccursAt(url, from + j, part) && Glob(q, url[from + j + |part|..]);
    }
    if k :| from <= k && OccursAt(url, k, part) && Glob(q, url[k + |part|..]) {
      assert url[k..][0..|part|] == url[k..k + |part|];
      assert url[k..][|part|..] == url[k + |part|..];
      GlobLiteral(part, q, url[k..]);
      assert u[k - from..] == url[k..];
    }
  }

  lemma {:induction false} GlobIffPlaceable(parts: seq<string>, url: string, from: nat)
    requires from <= |url| && forall p :: p in parts ==> '*' !in p
    ensures Glob(StarJoin(parts), url[from..]) <==> Placeable(NonEmpty(parts), url, from)
    decreases |parts|
  {
    var ps := NonEmpty(parts);
    if parts == [] {
      GlobAnything(url[from..]);
      assert Places(ps, url, from, []);
    } else {
      var part, rest := parts[0], parts[1..];
      assert part in parts;
      GlobPart(part, StarJoin(rest), url, from);
      if k :| from <= k && OccursAt(url, k, part) && Glob(StarJoin(rest), url[k + |part|..]) {
        GlobIffPlaceable(rest, url, k + |part|);
        PlaceFirst(part, rest, url, from, k);
      }
      if Placeable(ps, url, from) {
        var k := FirstPlace(part, rest, url, from);
        GlobIffPlaceable(rest, url, k + |part|);
      }
    }
  }

  lemma PlaceFirst(part: string, rest: seq<string>, url: string, from: nat, k: nat)
    requires from <= k && OccursAt(url, k, part) && Placeable(NonEmpty(rest), url, k + |part|)
    ensures Placeable(NonEmpty([part] + rest), url, from)
  {
    assert ([part] + rest)[1..] == rest;
    if part == "" {
      PlaceableEarlier(NonEmpty(rest), url, from, k);
    } else {
      var at :| Places(NonEmpty(rest), url, k + |part|, at);
      var all := [k] + at;
      assert all[1..] == at && NonEmpty([part] + rest)[1..] == NonEmpty(rest);
      assert Places(NonEmpty([part] + rest), url, from, all);
    }
  }

  lemma FirstPlace(part: string, rest: seq<string>, url: string, from: nat) returns (k: nat)
    requires from <= |url| && Placeable(NonEmpty([part] + rest), url, from)
    ensures from <= k && OccursAt(url, k, part) && Placeable(NonEmpty(rest), url, k + |part|)
  {
    assert ([part] + rest)[1..] == rest;
    if part == "" {
      k := from;
    } else {
      var ps := NonEmpty([part] + rest);
      var at :| Places(ps, url, from, at);
      assert ps[1..] == NonEmpty(rest);
      assert Places(NonEmpty(rest), url, at[0] + |part|, at[1..]);
      k := at[0];
    }
  }

  /** A pattern with `*` is matched as if it also began and ended with `*`: it is not anchored. */
  lemma SkipsIffUnanchoredGlob(pattern: string, url: string)
    requires '*' in pattern
    ensures Skips(pattern, url) <==> Glob("*" + pattern + "*", url)
  {
    var parts := Split(pattern, '*');
    JoinSplit(pattern, '*');
    StarJoinIsJoin(parts);
    SkipsIffPlaceable(pattern, url);
    GlobIffPlaceable(parts, url, 0);
    assert url[0..] == url;
  }

  // ----- exactly which patterns are read as anchored globs -----

  function WithoutStars(p: string): string {
    if p == "" then "" else (if p[0] == '*' then "" else [p[0]]) + WithoutStars(p[1..])
  }

  lemma {:induction false} GlobOwnText(p: string)
    ensures Glob(p, WithoutStars(p))
  {
    if p != "" {
      var w := WithoutStars(p[1..]);
      GlobOwnText(p[1..]);
      assert "" + w == w && ([p[0]] + w)[1..] == w;
    }
  }

  lemma {:induction false} GlobLastChar(p: string, u: string)
    requires p != "" && p[|p| - 1] != '*' && Glob(p, u)
    ensures u != "" && u[|u| - 1] == p[|p| - 1]
    decreases |p| + |u|
  {
    if p[0] == '*' {
      if Glob(p[1..], u) { GlobLastChar(p[1..], u); } else { GlobLastChar(p, u[1..]); }
    } else if |p| > 1 {
      GlobLastChar(p[1..], u[1..]);
    }
  }

  /** A final `*` also matches a longer URL. */
  lemma {:induction false} GlobLonger(p: string, u: string, t: string)
    requires Glob(p, u)
    ensures Glob(p + "*", u + t)
    decreases |p| + |u|
  {
    var q, v := p + "*", u + t;
    if p == "" {
      assert q == "*";
      GlobAnything(v);
    } else if p[0] == '*' {
      assert q[0] == '*' && q[1..] == p[1..] + "*";
      if Glob(p[1..], u) {
        GlobLonger(p[1..], u, t);
      } else {
        GlobLonger(p, u[1..], t);
        assert v[1..] == u[1..] + t;
      }
    } else {
      assert q[1..] == p[1..] + "*" && v[1..] == u[1..] + t;
      GlobLonger(p[1..], u[1..], t);
    }
  }

  lemma {:induction false} GlobDoubleTail(q: string, u: string)
    ensures Glob(q + "**", u) ==> Glob(q + "*", u)
    decreases |q| + |u|
  {
    var p, r := q + "**", q + "*";
    if q == "" {
      GlobAnything(u);
      assert r == "*";
    } else {
      assert p[0] == r[0] == q[0] && p[1..] == q[1..] + "**" && r[1..] == q[1..] + "*";
      GlobDoubleTail(q[1..], u);
      if u != "" {
        GlobDoubleTail(q[1..], u[1..]);
        GlobDoubleTail(q, u[1..]);
      }
    }
  }

  lemma GlobDoubleHead(q: string, u: string)
    ensures Glob("**" + q, u) ==> Glob("*" + q, u)
  {
    assert "**" + q == "*" + ("*" + q);
    GlobStar("*" + q, u);
    if k :| 0 <= k <= |u| && Glob("*" + q, u[k..]) {
      GlobStar(q, u[k..]);
      var j :| 0 <= j <= |u[k..]| && Glob(q, u[k..][j..]);
      assert u[k..][j..] == u[k + j..];
      GlobStar(q, u);
    }
  }

  predicate Starred(p: string) {
    p != "" && p[0] == '*' && p[|p| - 1] == '*'
  }

  /** Any glob match is found by the skip list, whatever the pattern. */
  lemma GlobIsSkipped(p: string, u: string)
    requires '*' in p && Glob(p, u)
    ensures Skips(p, u)
  {
    GlobLonger(p, u, "");
    assert u + "" == u && u[0..] == u;
    GlobStar(p + "*", u);
    assert "*" + (p + "*") == "*" + p + "*";
    SkipsIffUnanchoredGlob(p, u);
  }

  lemma StarredAgrees(p: string, u: string)
    requires Starred(p)
    ensures Skips(p, u) <==> Glob(p, u)
  {
    hide Glob, Skips;
    SkipsIffUnanchoredGlob(p, u);
    if Glob(p, u) { GlobIsSkipped(p, u); }
    if Skips(p, u) {
      var q := StarredForm(p);
      GlobDoubleHead(p[1..] + "*", u);
      GlobDoubleTail(q, u);
    }
  }

  lemma StarredForm(p: string) returns (q: string)
    requires Starred(p)
    ensures "*" + p + "*" == "**" + (p[1..] + "*") && "*" + (p[1..] + "*") == q + "**" && p == q + "*"
  {
    q := p[..|p| - 1];
    var m := p[1..];
    Surround(m, p);
    TailStars(p, q);
    assert ("*" + m) + "*" == "*" + (m + "*");
  }

  lemma Surround(m: string, p: string)
    requires p == "*" + m
    ensures "*" + p + "*" == "**" + (m + "*")
  {
    var s, t := "*" + p + "*", "**" + (m + "*");
    assert |s| == |t|;
    forall i | 0 <= i < |s| ensures s[i] == t[i] {
      if 2 <= i < |s| - 1 { assert s[i] == p[i - 1] == m[i - 2]; }
    }
  }

  lemma TailStars(p: string, q: string)
    requires p != "" && p[|p| - 1] == '*' && q == p[..|p| - 1]
    ensures p == q + "*" && p + "*" == q + "**"
  {
  }

  /** A URL that a pattern anchored at one end skips although the glob does not match it. */
  lemma UnanchoredWitness(p: string) returns (u: string)
    requires '*' in p && !Starred(p)
    ensures Skips(p, u) && !Glob(p, u)
  {
    var w := WithoutStars(p);
    GlobOwnText(p);
    if p[0] != '*' {
      var d := if p[0] == 'a' then 'b' else 'a';
      u := [d] + w;
      GlobLonger(p, w, "");
      assert w + "" == w && u[1..] == w;
      GlobStar(p + "*", u);
      assert "*" + (p + "*") == "*" + p + "*";
      SkipsIffUnanchoredGlob(p, u);
    } else {
      var d := if p[|p| - 1] == 'a' then 'b' else 'a';
      u := w + [d];
      GlobLonger(p, w, [d]);
      assert u[0..] == u;
      GlobStar(p + "*", u);
      assert "*" + (p + "*") == "*" + p + "*";
      SkipsIffUnanchoredGlob(p, u);
      if Glob(p, u) { GlobLastChar(p, u); }
    }
  }

  /** A pattern without `*` stands for itself alone. */
  lemma PlainAgrees(p: string, u: string)
    requires '*' !in p
    ensures (Skips(p, u) <==> Glob(p, u)) && (Skips(p, u) <==> u == p)
  {
    GlobLiteral(p, "", u);
    assert p + "" == p;
    if OccursAt(u, 0, p) && u[|p|..] == "" { assert u == u[0..|p|] + u[|p|..]; }
    if u == p { assert u[0..|p|] == p && u[|p|..] == ""; }
  }

  /** A pattern is read as the usual glob exactly when it has no `*`, or both begins and ends with one. */
  lemma AnchoredIff(p: string)
    ensures (forall u :: Skips(p, u) <==> Glob(p, u)) <==> '*' !in p || Starred(p)
  {
    if '*' !in p {
      forall u ensures Skips(p, u) <==> Glob(p, u) { PlainAgrees(p, u); }
    } else if Starred(p) {
      forall u ensures Skips(p, u) <==> Glob(p, u) { StarredAgrees(p, u); }
    } else {
      var u := UnanchoredWitness(p);
    }
  }
}
