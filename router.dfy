/** The hash router (src/router.js): reading the route from the location's
    hash and writing the link to a route under the site's base path. The
    hash and the base path are parameters; navigation and the
    `hashchange` listener are not modelled. */
module Router {

  import opened Wrappers
  import opened Text

  /** `ROUTES`. */
  datatype Route = Landing | Classes | Siblings | Schedule

  function Name(r: Route): string {
    match r
    case Landing => "landing"
    case Classes => "classes"
    case Siblings => "siblings"
    case Schedule => "schedule"
  }

  /** `VALID_ROUTES.has(name) ? name : ...`. */
  function RouteNamed(name: string): (r: Option<Route>)
    ensures forall x :: Name(x) == name <==> r == Some(x)
  {
    if name == "landing" then Some(Landing)
    else if name == "classes" then Some(Classes)
    else if name == "siblings" then Some(Siblings)
    else if name == "schedule" then Some(Schedule)
    else None
  }

  /** `.replace(/^\/+/, '')`. */
  function DropSlashes(s: string): (r: string)
    ensures |r| <= |s| && r == s[|s| - |r|..]
    ensures r == [] || r[0] != '/'
    ensures forall i :: 0 <= i < |s| - |r| ==> s[i] == '/'
  {
    if s != [] && s[0] == '/' then DropSlashes(s[1..]) else s
  }

  /** `.split('/')[0]`. */
  function FirstSegment(s: string): string {
    SplitOn(s, "/")[0]
  }

  /** The text after the leading '#' and slashes, up to the next '/'. */
  function Segment(hash: string): string {
    var h := if hash == "" then "#/" else hash;
    FirstSegment(DropSlashes(h[1..]))
  }

  /** `getRoute`: `hash` is `window.location.hash`. The route read is the
      one the segment names, `app` reads as the class list, and anything
      else reads as the landing page. */
  function GetRoute(hash: string): (r: Route)
    ensures Segment(hash) == "app" ==> r == Classes
    ensures forall x :: Name(x) == Segment(hash) ==> r == x
    ensures r != Landing ==> Name(r) == Segment(hash) || (Segment(hash) == "app" && r == Classes)
  {
    var name := Segment(hash);
    if name == "app" then Classes
    else match RouteNamed(name)
      case Some(r) => r
      case None => Landing
  }

  /** The first segment of a text ends before its first '/'. */
  lemma FirstSegmentSpec(s: string)
    ensures '/' !in FirstSegment(s)
    ensures '/' !in s ==> FirstSegment(s) == s
  {
    SplitPiecesFree(s, "/");
    var first := SplitOn(s, "/")[0];
    forall j | 0 <= j < |first| ensures first[j] != '/' {
      OccursAtChar(first, '/', j);
    }
    if '/' !in s {
      IndexOfAbsentChar(s, '/');
    }
  }

  /** Whatever follows the first '/' is cut off. */
  lemma FirstSegmentCut(t: string, s: string)
    requires '/' !in t
    ensures FirstSegment(t + "/" + s) == t
  {
    var u := t + "/" + s;
    OccursAtChar(u, '/', |t|);
    forall j: nat | j < |t| ensures !OccursAt(u, "/", j) {
      OccursAtChar(u, '/', j);
      assert u[j] == t[j];
    }
    IndexOfFirst(u, "/", |t|);
    assert u[..|t|] == t;
  }

  /** No route name holds '/' or '#', and none is `app`. */
  lemma NameShape(r: Route)
    ensures Name(r) != [] && Name(r) != "app" && '/' !in Name(r) && '#' !in Name(r)
  {
  }

  /** Any number of slashes after the '#', and anything after the next
      '/', leave the segment unchanged. */
  lemma SegmentAfterSlashes(slashes: nat, name: string, tail: string)
    requires name != [] && '/' !in name
    requires tail == [] || tail[0] == '/'
    ensures Segment("#" + seq(slashes, _ => '/') + name + tail) == name
  {
    var pad := seq(slashes, _ => '/');
    var rest := name + tail;
    assert "#" + pad + name + tail == "#" + pad + rest;
    assert rest[0] == name[0] && name[0] in name;
    SlashesDropped(pad, rest);
    NameBeforeTail(name, tail);
  }

  /** The slashes between the '#' and a segment are dropped. */
  lemma SlashesDropped(pad: string, rest: string)
    requires forall i :: 0 <= i < |pad| ==> pad[i] == '/'
    requires rest == [] || rest[0] != '/'
    ensures DropSlashes(("#" + pad + rest)[1..]) == rest
  {
    assert ("#" + pad + rest)[1..] == pad + rest;
    DropSlashesOver(pad, rest);
  }

  /** A name without '/' is the first segment of itself followed by a tail
      that is empty or starts with '/'. */
  lemma NameBeforeTail(name: string, tail: string)
    requires '/' !in name
    requires tail == [] || tail[0] == '/'
    ensures FirstSegment(name + tail) == name
  {
    if tail == [] {
      assert name + tail == name;
      FirstSegmentSpec(name);
    } else {
      assert name + tail == name + "/" + tail[1..];
      FirstSegmentCut(name, tail[1..]);
    }
  }

  /** Any number of slashes after the '#', and anything after the next
      '/', leave the route unchanged. */
  lemma GetRouteIgnoresSlashes(slashes: nat, r: Route, tail: string)
    requires tail == [] || tail[0] == '/'
    ensures GetRoute("#" + seq(slashes, _ => '/') + Name(r) + tail) == r
  {
    NameShape(r);
    SegmentAfterSlashes(slashes, Name(r), tail);
  }

  lemma {:induction false} DropSlashesOver(pad: string, s: string)
    requires forall i :: 0 <= i < |pad| ==> pad[i] == '/'
    requires s == [] || s[0] != '/'
    ensures DropSlashes(pad + s) == s
  {
    if pad != [] {
      assert (pad + s)[1..] == pad[1..] + s;
      DropSlashesOver(pad[1..], s);
    } else {
      assert pad + s == s;
    }
  }

  /** The base path as `getHashHref` uses it: `BASE_URL` when it is a
      string, else '/', with one trailing '/' removed. */
  function Base(baseUrl: Option<string>): string {
    var b := if baseUrl.Some? then baseUrl.value else "/";
    if b != [] && b[|b| - 1] == '/' then b[..|b| - 1] else b
  }

  /** `base || '/'`. */
  function Prefix(baseUrl: Option<string>): string {
    var base := Base(baseUrl);
    if base == "" then "/" else base
  }

  /** `getHashHref`. */
  function GetHashHref(baseUrl: Option<string>, r: Route): string {
    if r == Landing then Prefix(baseUrl) + "#/" else Prefix(baseUrl) + "#/" + Name(r)
  }

  /** The path before the hash holds no '#' when the base path holds none. */
  lemma PrefixNoHash(baseUrl: Option<string>)
    requires baseUrl.Some? ==> '#' !in baseUrl.value
    ensures '#' !in Prefix(baseUrl)
  {
    var b := if baseUrl.Some? then baseUrl.value else "/";
    if b != [] && b[|b| - 1] == '/' {
      assert forall c :: c in b[..|b| - 1] ==> c in b;
    }
  }

  /** An empty hash and the bare `#/` both read as the landing page. */
  lemma LandingHash()
    ensures GetRoute("") == Landing && GetRoute("#/") == Landing
  {
    assert "#/"[1..] == "/";
    DropSlashesOver("/", "");
    FirstSegmentSpec([]);
  }

  /** `location.hash` of a link: from its first '#' on, or nothing. */
  function HashPart(url: string): string {
    match IndexOf(url, "#", 0)
    case Some(i) => url[i..]
    case None => ""
  }

  /** The hash of a link starts at its first '#'. */
  lemma HashPartAt(url: string, i: nat)
    requires i < |url| && url[i] == '#' && '#' !in url[..i]
    ensures HashPart(url) == url[i..]
  {
    OccursAtChar(url, '#', i);
    forall j: nat | j < i ensures !OccursAt(url, "#", j) {
      OccursAtChar(url, '#', j);
      assert url[..i][j] == url[j];
    }
    IndexOfFirst(url, "#", i);
  }

  /** The hash of a link to a route, under a base path without '#'. */
  lemma HrefHash(baseUrl: Option<string>, r: Route)
    requires baseUrl.Some? ==> '#' !in baseUrl.value
    ensures HashPart(GetHashHref(baseUrl, r)) == if r == Landing then "#/" else "#/" + Name(r)
  {
    PrefixNoHash(baseUrl);
    var url, prefix := GetHashHref(baseUrl, r), Prefix(baseUrl);
    var hash := if r == Landing then "#/" else "#/" + Name(r);
    assert url == prefix + hash;
    assert url[..|prefix|] == prefix;
    assert url[|prefix|..] == hash;
    HashPartAt(url, |prefix|);
  }

  /** Following the link to a route, under a base path without '#', reads
      that route back. */
  lemma HrefRoundTrip(baseUrl: Option<string>, r: Route)
    requires baseUrl.Some? ==> '#' !in baseUrl.value
    ensures GetRoute(HashPart(GetHashHref(baseUrl, r))) == r
  {
    HrefHash(baseUrl, r);
    if r == Landing {
      LandingHash();
    } else {
      assert "#/" + Name(r) == "#" + seq(1, _ => '/') + Name(r) + "";
      GetRouteIgnoresSlashes(1, r, "");
    }
  }
}
