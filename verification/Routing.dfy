/** Registry path resolution: which route a request path selects and what is asked of the upstream. */
module Routing {
  import opened Collections

  const MANIFESTS: string := "/manifests/"
  const BLOBS: string := "/blobs/"
  const TAGS: string := "/tags/"
  const API: string := "/v2/"
  const LIBRARY: string := "library"

  datatype Route = Route(key: nat, prefix: Option<string>, library: bool, enabled: bool)

  datatype Routes = Routes(defaultRoute: Option<Route>, byPrefix: map<string, Route>) {
    /** Only the default route has no prefix; prefixes are non-empty single path components. */
    ghost predicate Valid() {
      && (defaultRoute.Some? ==> defaultRoute.value.prefix.None?)
      && forall p :: p in byPrefix ==> byPrefix[p].prefix == Some(p) && p != "" && '/' !in p
    }
  }

  datatype Resolution = Resolved(path: string, route: Route) | NoDefault | Disabled | NoRepository | EmptyRepository

  // ------------------------------------------------------------------ finding the operation marker

  predicate At(s: string, m: string, i: nat) { i + |m| <= |s| && s[i..i + |m|] == m }

  /** `str::rfind`, looking at positions below `n`. */
  function LastBefore(s: string, m: string, n: nat): (r: Option<nat>)
    ensures r.Some? ==> r.value < n && At(s, m, r.value) && forall k :: r.value < k < n ==> !At(s, m, k)
    ensures r.None? ==> forall k :: 0 <= k < n ==> !At(s, m, k)
  {
    if n == 0 then None else if At(s, m, n - 1) then Some(n - 1) else LastBefore(s, m, n - 1)
  }

  function LastIndex(s: string, m: string): Option<nat> { LastBefore(s, m, |s| + 1) }

  function Later(a: Option<nat>, b: Option<nat>): Option<nat> {
    if a.None? then b else if b.None? then a else Some(Max(a.value, b.value))
  }

  predicate MarkerAt(s: string, i: nat) { At(s, MANIFESTS, i) || At(s, BLOBS, i) || At(s, TAGS, i) }

  /** Where the repository name ends: the last place any marker starts. */
  function LastMarker(s: string): (r: Option<nat>)
    ensures r.Some? ==> r.value <= |s|
  {
    Later(Later(LastIndex(s, MANIFESTS), LastIndex(s, BLOBS)), LastIndex(s, TAGS))
  }

  lemma LastMarkerIs(s: string, i: nat)
    ensures LastMarker(s) == Some(i) <==> MarkerAt(s, i) && forall k :: i < k <= |s| ==> !MarkerAt(s, k)
  {
    var r := LastMarker(s);
    if MarkerAt(s, i) && forall k :: i < k <= |s| ==> !MarkerAt(s, k) {
      assert r.Some? && MarkerAt(s, r.value);
      assert r.value >= i;
    }
  }

  lemma MarkerShape(s: string, k: nat)
    ensures MarkerAt(s, k) ==> exists e :: k < e < |s| && s[k] == '/' && s[e] == '/'
  {
    if MarkerAt(s, k) {
      var m := if At(s, MANIFESTS, k) then MANIFESTS else if At(s, BLOBS, k) then BLOBS else TAGS;
      assert At(s, m, k);
      assert s[k] == s[k..k + |m|][0] && s[k + |m| - 1] == s[k..k + |m|][|m| - 1];
    }
  }

  /** Whatever the repository name contains, a slash-free reference leaves its own marker the last. */
  lemma MarkerOfRequest(name: string, marker: string, reference: string)
    requires marker in {MANIFESTS, BLOBS, TAGS} && '/' !in reference
    ensures LastMarker(name + marker + reference) == Some(|name|)
  {
    var s := name + marker + reference;
    assert s[|name|..|name| + |marker|] == marker;
    OneSlashLeft(name, marker, reference);
    forall k | |name| < k <= |s| ensures !MarkerAt(s, k) {
      MarkerShape(s, k);
    }
    LastMarkerIs(s, |name|);
  }

  lemma OneSlashLeft(name: string, marker: string, reference: string)
    requires marker in {MANIFESTS, BLOBS, TAGS} && '/' !in reference
    ensures var s := name + marker + reference;
            forall k :: |name| < k < |s| && s[k] == '/' ==> k == |name| + |marker| - 1
  {
    var s := name + marker + reference;
    forall k | |name| < k < |s| ensures s[k] == '/' ==> k == |name| + |marker| - 1 {
      if k < |name| + |marker| {
        assert s[k] == marker[k - |name|];
      } else {
        assert s[k] == reference[k - |name| - |marker|];
      }
    }
  }

  /** Renaming the repository keeps the marker where the name ends. */
  lemma MarkerAfterRename(s: string, i: nat, name: string)
    requires LastMarker(s) == Some(i) && i <= |s|
    ensures LastMarker(name + s[i..]) == Some(|name|)
  {
    var t := name + s[i..];
    LastMarkerIs(s, i);
    SameMarker(s, i, name, 0);
    forall k | |name| < k <= |t| ensures !MarkerAt(t, k) {
      SameMarker(s, i, name, k - |name|);
      assert !MarkerAt(s, i + (k - |name|));
    }
    LastMarkerIs(t, |name|);
  }

  lemma SameMarker(s: string, i: nat, name: string, k: nat)
    requires i + k <= |s|
    ensures MarkerAt(name + s[i..], |name| + k) <==> MarkerAt(s, i + k)
  {
    SameFrom(s, i, name, k, MANIFESTS);
    SameFrom(s, i, name, k, BLOBS);
    SameFrom(s, i, name, k, TAGS);
  }

  lemma SameFrom(s: string, i: nat, name: string, k: nat, m: string)
    requires i + k <= |s|
    ensures At(name + s[i..], m, |name| + k) <==> At(s, m, i + k)
  {
    var t := name + s[i..];
    if i + k + |m| <= |s| { assert t[|name| + k..|name| + k + |m|] == s[i + k..i + k + |m|]; }
  }

  // ------------------------------------------------------------------ resolving

  /** The text before the first slash. */
  function First(s: string): (r: string)
    ensures '/' !in r && r <= s
  {
    if s == "" || s[0] == '/' then "" else [s[0]] + First(s[1..])
  }

  lemma {:induction false} FirstOf(p: string, rest: string)
    requires '/' !in p
    ensures First(p + "/" + rest) == p
  {
    if p == "" {
      assert (p + "/" + rest)[0] == '/';
    } else {
      assert (p + "/" + rest)[1..] == p[1..] + "/" + rest;
      FirstOf(p[1..], rest);
    }
  }

  /** The repository name asked of the upstream: Docker Hub's official images live under `library/`. */
  function Named(route: Route, name: string): string {
    if route.library && '/' !in name then LIBRARY + "/" + name else name
  }

  function Enabled(route: Option<Route>, path: string): Resolution {
    if route.None? then NoDefault else if route.value.enabled then Resolved(path, route.value) else Disabled
  }

  function Finish(route: Route, name: string, suffix: string): Resolution {
    if !route.enabled then Disabled
    else if Named(route, name) == "" then EmptyRepository
    else Resolved(API + Named(route, name) + suffix, route)
  }

  /** The specification: a prefixed name goes to its route without the prefix, any other to the default. */
  function Resolve(routes: Routes, path: string): Resolution {
    if !(API <= path) then Enabled(routes.defaultRoute, path)
    else
      var rest := path[|API|..];
      var marker := LastMarker(rest);
      if marker.None? then Enabled(routes.defaultRoute, path)
      else
        ResolveName(routes, rest[..marker.value], rest[marker.value..])
  }

  function ResolveName(routes: Routes, name: string, suffix: string): Resolution {
    var first := First(name);
    if first in routes.byPrefix then
      if first + "/" <= name then Finish(routes.byPrefix[first], name[|first| + 1..], suffix) else NoRepository
    else if routes.defaultRoute.None? then NoDefault
    else Finish(routes.defaultRoute.value, name, suffix)
  }

  lemma ResolveSplit(routes: Routes, name: string, suffix: string)
    requires LastMarker(name + suffix) == Some(|name|)
    ensures Resolve(routes, API + name + suffix) == ResolveName(routes, name, suffix)
  {
    var path := API + name + suffix;
    assert path[|API|..] == name + suffix;
    assert (name + suffix)[..|name|] == name && (name + suffix)[|name|..] == suffix;
  }

  /** Resolution as it is done, rewriting the repository name step by step. */
  method RouteRegistryPath(routes: Routes, path: string) returns (r: Resolution)
    requires routes.Valid()
    ensures r == Resolve(routes, path)
  {
    if !(API <= path) { return Enabled(routes.defaultRoute, path); }
    var rest := path[|API|..];
    var marker := LastMarker(rest);
    if marker.None? { return Enabled(routes.defaultRoute, path); }
    var repository := rest[..marker.value];
    var suffix := rest[marker.value..];
    var first := First(repository);
    var route;
    if first in routes.byPrefix {
      route := routes.byPrefix[first];
      var prefix := route.prefix.value;
      if !(prefix <= repository) { return NoRepository; }
      repository := repository[|prefix|..];
      if !("/" <= repository) { return NoRepository; }
      repository := repository[1..];
    } else {
      if routes.defaultRoute.None? { return NoDefault; }
      route := routes.defaultRoute.value;
    }
    if !route.enabled { return Disabled; }
    if route.library && '/' !in repository { repository := LIBRARY + "/" + repository; }
    if repository == "" { return EmptyRepository; }
    r := Resolved(API + repository + suffix, route);
  }

  // ------------------------------------------------------------------ what requests get

  function Request(name: string, marker: string, reference: string): string { API + name + marker + reference }

  lemma ResolveRequest(routes: Routes, name: string, marker: string, reference: string)
    requires marker in {MANIFESTS, BLOBS, TAGS} && '/' !in reference
    ensures Resolve(routes, Request(name, marker, reference)) == ResolveName(routes, name, marker + reference)
  {
    MarkerOfRequest(name, marker, reference);
    assert name + marker + reference == name + (marker + reference);
    assert Request(name, marker, reference) == API + name + (marker + reference);
    ResolveSplit(routes, name, marker + reference);
  }

  lemma FinishRequest(route: Route, name: string, marker: string, reference: string)
    requires route.enabled && name != ""
    ensures Finish(route, name, marker + reference) == Resolved(Request(Named(route, name), marker, reference), route)
  {
    var named := Named(route, name);
    assert |named| > 0;
    assert API + named + (marker + reference) == API + named + marker + reference;
  }

  /** A request under a route's prefix goes to that route, without the prefix, whatever the name holds. */
  lemma PrefixedRequest(routes: Routes, prefix: string, name: string, marker: string, reference: string)
    requires routes.Valid() && prefix in routes.byPrefix && routes.byPrefix[prefix].enabled && name != ""
    requires marker in {MANIFESTS, BLOBS, TAGS} && '/' !in reference
    ensures var route := routes.byPrefix[prefix];
            Resolve(routes, Request(prefix + "/" + name, marker, reference))
            == Resolved(Request(Named(route, name), marker, reference), route)
  {
    ResolveRequest(routes, prefix + "/" + name, marker, reference);
    FirstOf(prefix, name);
    assert (prefix + "/" + name)[|prefix| + 1..] == name;
    assert prefix + "/" <= prefix + "/" + name;
    FinishRequest(routes.byPrefix[prefix], name, marker, reference);
  }

  /** Any other request goes to the default route. */
  lemma DefaultRequest(routes: Routes, name: string, marker: string, reference: string)
    requires routes.Valid() && First(name) !in routes.byPrefix && name != ""
    requires routes.defaultRoute.Some? && routes.defaultRoute.value.enabled
    requires marker in {MANIFESTS, BLOBS, TAGS} && '/' !in reference
    ensures var route := routes.defaultRoute.value;
            Resolve(routes, Request(name, marker, reference))
            == Resolved(Request(Named(route, name), marker, reference), route)
  {
    ResolveRequest(routes, name, marker, reference);
    FinishRequest(routes.defaultRoute.value, name, marker, reference);
  }

  /** A path with a repository name that the default route serves. */
  ghost predicate DefaultPath(routes: Routes, path: string) {
    && API <= path && LastMarker(path[|API|..]).Some?
    && First(NameOf(path)) !in routes.byPrefix
    && Resolve(routes, path).Resolved?
  }

  ghost function NameOf(path: string): string
    requires API <= path && LastMarker(path[|API|..]).Some?
  {
    path[|API|..][..LastMarker(path[|API|..]).value]
  }

  /** Resolving an already resolved default-route path changes nothing, unless `library/` was just
      added and a route has claimed `library` as its prefix. */
  lemma ResolvingTwice(routes: Routes, path: string)
    requires routes.Valid() && DefaultPath(routes, path)
    ensures var once := Resolve(routes, path);
            Resolve(routes, once.path) == once <==>
            !(once.route.library && '/' !in NameOf(path) && LIBRARY in routes.byPrefix)
  {
    var name, rest := NameOf(path), path[|API|..];
    var suffix := rest[|name|..];
    var route := routes.defaultRoute.value;
    MarkerAfterRename(rest, |name|, Named(route, name));
    ResolveSplit(routes, Named(route, name), suffix);
    FinishTwice(routes, name, suffix);
  }

  lemma FinishTwice(routes: Routes, name: string, suffix: string)
    requires routes.Valid() && routes.defaultRoute.Some? && routes.defaultRoute.value.enabled
    requires First(name) !in routes.byPrefix
    requires Named(routes.defaultRoute.value, name) != ""
    ensures var route := routes.defaultRoute.value;
            ResolveName(routes, Named(route, name), suffix) == Finish(route, name, suffix) <==>
            !(route.library && '/' !in name && LIBRARY in routes.byPrefix)
  {
    var route := routes.defaultRoute.value;
    if route.library && '/' !in name {
      LibraryTwice(routes, name, suffix);
    }
  }

  lemma LibraryTwice(routes: Routes, name: string, suffix: string)
    requires routes.Valid() && routes.defaultRoute.Some? && routes.defaultRoute.value.enabled
    requires routes.defaultRoute.value.library && '/' !in name
    ensures var route := routes.defaultRoute.value;
            ResolveName(routes, Named(route, name), suffix) == Finish(route, name, suffix) <==> LIBRARY !in routes.byPrefix
  {
    var route, named := routes.defaultRoute.value, LIBRARY + "/" + name;
    assert First(named) == LIBRARY by { FirstOf(LIBRARY, name); }
    assert named[|LIBRARY|] == '/';
    assert '/' in named;
    assert Named(route, named) == named && named != "";
    assert Finish(route, name, suffix) == Resolved(API + named + suffix, route) == Finish(route, named, suffix);
    if LIBRARY in routes.byPrefix {
      assert routes.byPrefix[LIBRARY] != route;
    }
  }

  /** Such a route can be configured, and then every second resolution goes to it instead. */
  lemma LibraryPrefixGoesAstray(name: string)
    requires name != "" && '/' !in name && name != LIBRARY
    ensures var hub, other := Route(0, None, true, true), Route(1, Some(LIBRARY), false, true);
            var routes := Routes(Some(hub), map[LIBRARY := other]);
            && routes.Valid()
            && Resolve(routes, Request(name, MANIFESTS, "latest")) == Resolved(Request(LIBRARY + "/" + name, MANIFESTS, "latest"), hub)
            && Resolve(routes, Request(LIBRARY + "/" + name, MANIFESTS, "latest")) == Resolved(Request(name, MANIFESTS, "latest"), other)
  {
    var hub, other := Route(0, None, true, true), Route(1, Some(LIBRARY), false, true);
    var routes := Routes(Some(hub), map[LIBRARY := other]);
    FirstWhole(name);
    DefaultRequest(routes, name, MANIFESTS, "latest");
    PrefixedRequest(routes, LIBRARY, name, MANIFESTS, "latest");
  }

  lemma {:induction false} FirstWhole(s: string)
    requires '/' !in s
    ensures First(s) == s
  {
    if s != "" { FirstWhole(s[1..]); }
  }
}
