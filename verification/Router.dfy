/** Routing of a request path: trim the separators at both ends, split at the rest,
    and read a resource name and a mode off the parts. */
module Router {

  const SEP: char := '/'

  datatype Target = List | Resource(name: string, extended: bool)

  function Slashes(n: nat): string { seq(n, _ => SEP) }

  /** Parts put back together with single separators. */
  function Join(parts: seq<string>): string {
    if |parts| == 0 then ""
    else if |parts| == 1 then parts[0]
    else Join(parts[..|parts| - 1]) + [SEP] + parts[|parts| - 1]
  }

  predicate SlashFree(s: string) { SEP !in s }

  predicate Trimmed(s: string) { s == "" || (s[0] != SEP && s[|s| - 1] != SEP) }

  /** t is path without the separators at its ends. */
  ghost predicate IsTrimOf(path: string, t: string) {
    Trimmed(t) && exists a: nat, b: nat :: path == Slashes(a) + t + Slashes(b)
  }

  ghost predicate IsSplitOf(s: string, parts: seq<string>) {
    |parts| >= 1 && Join(parts) == s && forall i :: 0 <= i < |parts| ==> SlashFree(parts[i])
  }

  method Trim(path: string) returns (t: string)
    ensures IsTrimOf(path, t)
  {
    var lo, hi := 0, |path|;
    while lo < hi && path[lo] == SEP
      invariant lo <= hi && path[..lo] == Slashes(lo)
    {
      lo := lo + 1;
    }
    while lo < hi && path[hi - 1] == SEP
      invariant lo <= hi <= |path| && path[hi..] == Slashes(|path| - hi)
    {
      hi := hi - 1;
    }
    t := path[lo..hi];
    assert path == Slashes(lo) + t + Slashes(|path| - hi);
  }

  /** The parts found so far cover s up to start, separators included. */
  ghost predicate Reached(s: string, parts: seq<string>, start: nat) {
    start <= |s| && if |parts| == 0 then start == 0 else Join(parts) + [SEP] == s[..start]
  }

  lemma JoinPiece(s: string, parts: seq<string>, start: nat, i: nat)
    requires start <= i <= |s| && Reached(s, parts, start)
    ensures Join(parts + [s[start..i]]) == s[..i]
  {
    JoinMore(parts, s[start..i]);
    assert s[..i] == s[..start] + s[start..i];
  }

  method Split(s: string) returns (parts: seq<string>)
    ensures IsSplitOf(s, parts)
  {
    parts := [];
    var start := 0;
    for i := 0 to |s|
      invariant start <= i && SlashFree(s[start..i])
      invariant forall j :: 0 <= j < |parts| ==> SlashFree(parts[j])
      invariant Reached(s, parts, start)
    {
      if s[i] == SEP {
        JoinPiece(s, parts, start, i);
        parts := parts + [s[start..i]];
        assert s[..i + 1] == s[..i] + [SEP];
        start := i + 1;
      }
    }
    JoinPiece(s, parts, start, |s|);
    parts := parts + [s[start..]];
    assert s[..|s|] == s && s[start..|s|] == s[start..];
  }

  lemma JoinMore(parts: seq<string>, last: string)
    ensures Join(parts + [last]) == if |parts| == 0 then last else Join(parts) + [SEP] + last
  {
    assert (parts + [last])[..|parts|] == parts;
  }

  /** Where a nonempty trimmed form sits in its path. */
  lemma TrimEnds(path: string, a: nat, t: string, b: nat)
    requires path == Slashes(a) + t + Slashes(b) && t != "" && Trimmed(t)
    ensures a + |t| <= |path| && path[a..a + |t|] == t
    ensures path[a] != SEP && path[a + |t| - 1] != SEP
    ensures forall i :: 0 <= i < |path| && !(a <= i < a + |t|) ==> path[i] == SEP
  {
    assert path[a] == t[0] && path[a + |t| - 1] == t[|t| - 1];
  }

  /** A path has only one trimmed form. */
  lemma TrimUnique(path: string, t: string, u: string)
    requires IsTrimOf(path, t) && IsTrimOf(path, u)
    ensures t == u
  {
    var a: nat, b: nat :| path == Slashes(a) + t + Slashes(b);
    var c: nat, d: nat :| path == Slashes(c) + u + Slashes(d);
    if t != "" { TrimEnds(path, a, t, b); }
    if u != "" { TrimEnds(path, c, u, d); }
  }

  /** A joined string ends in its last part, after a separator unless there is only one. */
  lemma JoinTail(p: seq<string>)
    requires |p| >= 1 && SlashFree(p[|p| - 1])
    ensures var s, last := Join(p), p[|p| - 1];
            var cut := |s| - |last|;
            && 0 <= cut && s[cut..] == last
            && (forall i :: cut <= i < |s| ==> s[i] != SEP)
            && (|p| == 1 <==> cut == 0)
            && (|p| > 1 ==> s[cut - 1] == SEP && s[..cut - 1] == Join(p[..|p| - 1]))
  {
    assert forall i :: |Join(p)| - |p[|p| - 1]| <= i < |Join(p)| ==> Join(p)[i] in p[|p| - 1];
  }

  /** A string splits in only one way: joining is injective on slash-free parts. */
  lemma {:induction false} SplitUnique(p: seq<string>, q: seq<string>)
    requires |p| >= 1 && |q| >= 1 && Join(p) == Join(q)
    requires forall i :: 0 <= i < |p| ==> SlashFree(p[i])
    requires forall i :: 0 <= i < |q| ==> SlashFree(q[i])
    ensures p == q
    decreases |p|
  {
    var m, n := |p| - 1, |q| - 1;
    JoinTail(p);
    JoinTail(q);
    assert |p[m]| == |q[n]|;
    assert p == p[..m] + [p[m]] && q == q[..n] + [q[n]];
    if m > 0 {
      SplitUnique(p[..m], q[..n]);
    }
  }

  /** The target read off the parts; the first part is not looked at. */
  function TargetOf(parts: seq<string>): Target {
    if |parts| <= 1 then List
    else Resource(parts[1], |parts| >= 3 && parts[2] == "extended")
  }

  /** What a path may lead to: by uniqueness of trim and split, exactly one target. */
  ghost predicate Routes(path: string, target: Target) {
    exists t, parts :: IsTrimOf(path, t) && IsSplitOf(t, parts) && target == TargetOf(parts)
  }

  method Handle(path: string) returns (target: Target)
    ensures Routes(path, target)
  {
    var trimmed := Trim(path);
    var parts := Split(trimmed);
    var resourceName, fetchEntries := "", "normal";
    if |parts| >= 2 {
      resourceName := parts[1];
    }
    if |parts| >= 3 && parts[2] == "extended" {
      fetchEntries := parts[2];
    }
    if |parts| == 1 {
      return List;
    }
    target := Resource(resourceName, fetchEntries == "extended");
  }

  lemma RoutesOnce(path: string, x: Target, y: Target)
    requires Routes(path, x) && Routes(path, y)
    ensures x == y
  {
    var t, p :| IsTrimOf(path, t) && IsSplitOf(t, p) && x == TargetOf(p);
    var u, q :| IsTrimOf(path, u) && IsSplitOf(u, q) && y == TargetOf(q);
    TrimUnique(path, t, u);
    SplitUnique(p, q);
  }

  /** Read off the parts of a trimmed path: a resource is named by the second part, and
      asked for in the extended mode exactly when there is a third part that says so,
      whatever follows it. */
  lemma PartsDecide(path: string, t: string, parts: seq<string>, name: string, extended: bool)
    requires IsTrimOf(path, t) && IsSplitOf(t, parts)
    ensures Routes(path, Resource(name, extended)) <==>
              |parts| >= 2 && parts[1] == name && (extended <==> |parts| >= 3 && parts[2] == "extended")
    ensures Routes(path, List) <==> |parts| == 1
  {
    assert Routes(path, TargetOf(parts));
    if Routes(path, Resource(name, extended)) { RoutesOnce(path, TargetOf(parts), Resource(name, extended)); }
    if Routes(path, List) { RoutesOnce(path, TargetOf(parts), List); }
  }

  lemma PartsRoute(parts: seq<string>, a: nat, b: nat)
    requires |parts| >= 1 && Trimmed(Join(parts)) && forall i :: 0 <= i < |parts| ==> SlashFree(parts[i])
    ensures Routes(Slashes(a) + Join(parts) + Slashes(b), TargetOf(parts))
  {
    var path := Slashes(a) + Join(parts) + Slashes(b);
    assert IsTrimOf(path, Join(parts));
    assert IsSplitOf(Join(parts), parts);
  }

  lemma PlainPath(name: string)
    requires name != "" && SlashFree(name)
    ensures Join(["apis", name]) == "apis/" + name && Trimmed("apis/" + name)
  {
    JoinMore([], "apis");
    JoinMore(["apis"], name);
    var path := "apis/" + name;
    assert [] + ["apis"] == ["apis"] && ["apis"] + [name] == ["apis", name];
    assert path[0] == 'a' && path[|path| - 1] == name[|name| - 1];
  }

  lemma ExtendedPath(name: string)
    requires name != "" && SlashFree(name)
    ensures Join(["apis", name, "extended"]) == "apis/" + name + "/extended"
    ensures Trimmed("apis/" + name + "/extended")
  {
    PlainPath(name);
    JoinMore(["apis", name], "extended");
    var path := "apis/" + name + "/extended";
    assert ["apis", name] + ["extended"] == ["apis", name, "extended"];
    assert path[0] == 'a' && path[|path| - 1] == 'd';
  }

  /** Any printed path routes back: apis/name, with /extended or not, between any
      numbers of separators. */
  lemma RouteRoundTrip(name: string, a: nat, b: nat)
    requires name != "" && SlashFree(name)
    ensures Routes(Slashes(a) + ("apis/" + name) + Slashes(b), Resource(name, false))
    ensures Routes(Slashes(a) + ("apis/" + name + "/extended") + Slashes(b), Resource(name, true))
  {
    PlainPath(name);
    ExtendedPath(name);
    PartsRoute(["apis", name], a, b);
    PartsRoute(["apis", name, "extended"], a, b);
  }

  /** LIST is chosen exactly when nothing but separators at the ends divides the path. */
  lemma ListExactly(path: string, t: string)
    requires IsTrimOf(path, t)
    ensures Routes(path, List) <==> SlashFree(t)
  {
    if SlashFree(t) {
      assert IsSplitOf(t, [t]) && TargetOf([t]) == List;
    }
    if Routes(path, List) {
      var u, parts :| IsTrimOf(path, u) && IsSplitOf(u, parts) && List == TargetOf(parts);
      TrimUnique(path, t, u);
    }
  }
}
