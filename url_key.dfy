/** The comparison key of a URL (`getNormalizedUrlHref` in background.js).
    Two tabs are duplicates exactly when their keys are equal. */
module UrlKey {
  import opened Wrappers
  import opened JsStrings

  /** The parts of a parsed URL that the key reads. The host name carries no
      port and the scheme is not kept at all. The query is the list of decoded
      name/value pairs, in order, that `URLSearchParams` would see. */
  datatype Url = Url(hostname: string, pathname: string, query: seq<(string, string)>)

  /** The two library routines the key relies on, both partial: the URL
      constructor (`None` where it throws) and `decodeURIComponent` (`None`
      where it throws on a malformed escape). */
  datatype UrlLib = UrlLib(parse: string -> Option<Url>, decode: string -> Option<string>)

  const WatchPrefix: string := "youtube.com/watch?v="
  const ShortsPrefix: string := "youtube.com/shorts/"
  const ShortsPath: string := "/shorts/"

  /** The subdomain labels stripped from the front of a host name, dot included. */
  const Labels: seq<string> := ["www.", "new.", "old.", "sh."]

  /** `hostname.includes('youtube.com') || hostname === 'youtu.be'`. */
  predicate IsYouTubeHost(hostname: string)
  {
    Includes(hostname, "youtube.com") || hostname == "youtu.be"
  }

  /** `new URLSearchParams(search).get(name)`: the value of the first pair
      with that name. */
  function SearchParam(query: seq<(string, string)>, name: string): (r: Option<string>)
    ensures r.None? <==> forall i :: 0 <= i < |query| ==> query[i].0 != name
    ensures r.Some? ==> exists i :: 0 <= i < |query| && query[i] == (name, r.value) &&
                                    forall j :: 0 <= j < i ==> query[j].0 != name
    decreases |query|
  {
    if |query| == 0 then None
    else if query[0].0 == name then Some(query[0].1)
    else
      var r := SearchParam(query[1..], name);
      assert r.Some? ==> exists i :: 0 < i < |query| && query[i] == (name, r.value) &&
                                     forall j :: 0 <= j < i ==> query[j].0 != name by {
        if r.Some? {
          var i :| 0 <= i < |query[1..]| && query[1..][i] == (name, r.value) &&
                   forall j :: 0 <= j < i ==> query[1..][j].0 != name;
          assert forall j :: 0 < j < i + 1 ==> query[j].0 == query[1..][j - 1].0;
        }
      }
      assert r.None? ==> forall i :: 0 < i < |query| ==> query[i].0 != name by {
        if r.None? {
          forall i | 0 < i < |query| ensures query[i].0 != name {
            assert query[i] == query[1..][i - 1];
          }
        }
      }
      r
  }

  /** `hostname.replace(/^(www|new|old|sh)\./, '')`: at most one leading label
      is removed. */
  function StripLabel(hostname: string): (r: string)
    ensures (forall l :: l in Labels ==> !(l <= hostname)) ==> r == hostname
    ensures forall l :: l in Labels && l <= hostname ==> hostname == l + r
  {
    assert forall l :: l in Labels ==> l == "www." || l == "new." || l == "old." || l == "sh.";
    assert "www." in Labels && "new." in Labels && "old." in Labels && "sh." in Labels;
    if "www." <= hostname then
      assert hostname[0] == 'w' && hostname == "www." + hostname[4..];
      hostname[4..]
    else if "new." <= hostname then
      assert hostname[0] == 'n' && hostname == "new." + hostname[4..];
      hostname[4..]
    else if "old." <= hostname then
      assert hostname[0] == 'o' && hostname == "old." + hostname[4..];
      hostname[4..]
    else if "sh." <= hostname then
      assert hostname[0] == 's' && hostname == "sh." + hostname[3..];
      hostname[3..]
    else hostname
  }

  /** The path after `decodeURIComponent`, or the raw path where that throws. */
  function DecodedPath(lib: UrlLib, pathname: string): (r: string)
    ensures lib.decode(pathname).None? ==> r == pathname
    ensures lib.decode(pathname).Some? ==> r == lib.decode(pathname).value
  {
    lib.decode(pathname).GetOr(pathname)
  }

  /** One trailing `/` removed, unless the path is `/` itself (or empty). */
  function TrimSlash(path: string): (r: string)
    ensures |path| > 1 && path[|path| - 1] == '/' ==> r + "/" == path
    ensures !(|path| > 1 && path[|path| - 1] == '/') ==> r == path
  {
    if |path| > 1 && path[|path| - 1] == '/' then path[..|path| - 1] else path
  }

  /** The YouTube special case: a watch page keyed on its first non-empty
      `v` value, a short keyed on the path piece after `/shorts/`. `None`
      where the generic key applies. */
  function YouTubeKey(u: Url): (r: Option<string>)
    ensures r.Some? ==> IsYouTubeHost(u.hostname)
    ensures r.Some? ==> (WatchPrefix <= r.value && |r.value| > |WatchPrefix|) ||
                        (ShortsPrefix <= r.value && |r.value| > |ShortsPrefix|)
    ensures u.pathname != "/watch" && !(ShortsPath <= u.pathname) ==> r.None?
  {
    if !IsYouTubeHost(u.hostname) then None
    else
      var v := SearchParam(u.query, "v");
      if u.pathname == "/watch" && v.Some? && v.value != "" then Some(WatchPrefix + v.value)
      else if ShortsPath <= u.pathname then
        var id := PieceAt(Split(u.pathname, '/'), 2);
        if id != "" then Some(ShortsPrefix + id) else None
      else None
  }

  /** The generic key: host name without one leading label, then the decoded
      path without one trailing slash. */
  function GenericKey(lib: UrlLib, u: Url): (r: string)
    ensures var path := DecodedPath(lib, u.pathname);
            exists p :: r == StripLabel(u.hostname) + p && (p == path || p + "/" == path)
  {
    var path := DecodedPath(lib, u.pathname);
    StripLabel(u.hostname) + TrimSlash(path)
  }

  /** The key of a URL that parsed. */
  function ParsedKey(lib: UrlLib, u: Url): (r: string)
    ensures !IsYouTubeHost(u.hostname) ==> r == GenericKey(lib, u)
    ensures r != GenericKey(lib, u) ==> IsYouTubeHost(u.hostname) && (WatchPrefix <= r || ShortsPrefix <= r)
  {
    match YouTubeKey(u)
    case Some(k) => k
    case None => GenericKey(lib, u)
  }

  /** `getNormalizedUrlHref(raw)`; a string the parser refuses is its own key. */
  function Normalize(lib: UrlLib, raw: string): (r: string)
    ensures lib.parse(raw).None? ==> r == raw
    ensures lib.parse(raw).Some? ==> r == ParsedKey(lib, lib.parse(raw).value)
  {
    match lib.parse(raw)
    case None => raw
    case Some(u) => ParsedKey(lib, u)
  }

  // ---------------------------------------------------------------------
  // YouTube watch pages

  /** A watch page is keyed on the value of its first `v` pair whenever that
      value is non-empty. */
  lemma WatchKey(lib: UrlLib, u: Url, i: nat)
    requires IsYouTubeHost(u.hostname) && u.pathname == "/watch"
    requires i < |u.query| && u.query[i].0 == "v" && u.query[i].1 != ""
    requires forall j :: 0 <= j < i ==> u.query[j].0 != "v"
    ensures ParsedKey(lib, u) == WatchPrefix + u.query[i].1
  {
    var v := SearchParam(u.query, "v");
    var k :| 0 <= k < |u.query| && u.query[k] == ("v", v.value) &&
             forall j :: 0 <= j < k ==> u.query[j].0 != "v";
    assert !(k < i) && !(i < k);
  }

  /** Two watch pages with the same first `v` value have the same key,
      whatever their YouTube host name and their other query pairs. */
  lemma WatchKeyIgnoresHostAndOtherParams(lib: UrlLib, u1: Url, u2: Url)
    requires IsYouTubeHost(u1.hostname) && IsYouTubeHost(u2.hostname)
    requires u1.pathname == "/watch" == u2.pathname
    requires SearchParam(u1.query, "v") == SearchParam(u2.query, "v")
    requires SearchParam(u1.query, "v").Some? && SearchParam(u1.query, "v").value != ""
    ensures ParsedKey(lib, u1) == ParsedKey(lib, u2)
    ensures ParsedKey(lib, u1) == WatchPrefix + SearchParam(u1.query, "v").value
  {
  }

  // ---------------------------------------------------------------------
  // YouTube shorts

  /** The piece at index 2 of a `/shorts/...` path split on `/` is the text
      after `/shorts/` up to the next slash. */
  lemma ShortsPiece(path: string)
    requires ShortsPath <= path
    ensures PieceAt(Split(path, '/'), 2) == FirstPiece(path[|ShortsPath|..], '/')
  {
    var rest := path[|ShortsPath|..];
    assert path == "" + ['/'] + ("shorts" + ['/'] + rest);
    SplitAfterPiece("", '/', "shorts" + ['/'] + rest);
    SplitAfterPiece("shorts", '/', rest);
    SplitHead(rest, '/');
  }

  /** A short whose id is non-empty is keyed on that id alone. */
  lemma ShortsKey(lib: UrlLib, u: Url)
    requires IsYouTubeHost(u.hostname) && ShortsPath <= u.pathname
    requires FirstPiece(u.pathname[|ShortsPath|..], '/') != ""
    ensures ParsedKey(lib, u) == ShortsPrefix + FirstPiece(u.pathname[|ShortsPath|..], '/')
  {
    ShortsPiece(u.pathname);
    assert u.pathname != "/watch" by {
      assert u.pathname[1] == 's';
    }
  }

  /** Path pieces after the id do not reach the key. */
  lemma ShortsKeyIgnoresLaterPieces(lib: UrlLib, host: string, id: string,
                                    tail1: string, tail2: string,
                                    q1: seq<(string, string)>, q2: seq<(string, string)>)
    requires IsYouTubeHost(host) && id != "" && '/' !in id
    ensures ParsedKey(lib, Url(host, ShortsPath + id + "/" + tail1, q1)) == ShortsPrefix + id
    ensures ParsedKey(lib, Url(host, ShortsPath + id + "/" + tail1, q1)) ==
            ParsedKey(lib, Url(host, ShortsPath + id + "/" + tail2, q2))
  {
    forall tail: string, q: seq<(string, string)>
      ensures ParsedKey(lib, Url(host, ShortsPath + id + "/" + tail, q)) == ShortsPrefix + id
    {
      var p := ShortsPath + id + "/" + tail;
      assert p[|ShortsPath|..] == id + ['/'] + tail;
      FirstPieceOfPiece(id, tail);
      ShortsKey(lib, Url(host, p, q));
    }
  }

  lemma {:induction false} FirstPieceOfPiece(a: string, b: string)
    requires '/' !in a
    ensures FirstPiece(a + ['/'] + b, '/') == a
    decreases |a|
  {
    if |a| > 0 {
      assert '/' !in a[1..] by {
        forall k | 0 <= k < |a[1..]| ensures a[1..][k] != '/' {
          assert a[1..][k] == a[k + 1];
        }
      }
      FirstPieceOfPiece(a[1..], b);
      assert (a + ['/'] + b)[1..] == a[1..] + ['/'] + b;
    }
  }

  /** A short with an empty id (`/shorts/` or `/shorts//x`) gets the generic key. */
  lemma ShortsWithoutIdIsGeneric(lib: UrlLib, u: Url)
    requires ShortsPath <= u.pathname
    requires FirstPiece(u.pathname[|ShortsPath|..], '/') == ""
    ensures ParsedKey(lib, u) == GenericKey(lib, u)
  {
    ShortsPiece(u.pathname);
    assert u.pathname != "/watch" by {
      assert u.pathname[1] == 's';
    }
  }

  /** On a YouTube host the generic key applies to every page that is not a
      watch page with a non-empty first `v` and not under `/shorts/`: a watch
      page with a missing or empty `v`, a `youtu.be/<id>` link, any other path. */
  lemma YouTubeFallThrough(lib: UrlLib, u: Url)
    requires IsYouTubeHost(u.hostname)
    requires !(u.pathname == "/watch" && SearchParam(u.query, "v").Some? && SearchParam(u.query, "v").value != "")
    requires !(ShortsPath <= u.pathname)
    ensures ParsedKey(lib, u) == GenericKey(lib, u)
  {
  }

  /** A YouTube page outside the special cases, on a host with no label to
      strip and a path that is its own decoding without a trailing slash,
      keys as host and path. */
  lemma PlainYouTubeKey(lib: UrlLib, host: string, path: string)
    requires IsYouTubeHost(host) && forall l :: l in Labels ==> !(l <= host)
    requires !(ShortsPath <= path)
    requires lib.decode(path) == Some(path) && |path| > 1 && path[|path| - 1] != '/'
    ensures ParsedKey(lib, Url(host, path, [])) == host + path
  {
    YouTubeFallThrough(lib, Url(host, path, []));
  }

  /** A `youtu.be/<id>` short link keys as the host and the id. */
  lemma ShortLinkKey(lib: UrlLib, host: string, id: string)
    requires host == "youtu.be" && id != "" && '/' !in id
    requires lib.decode("/" + id) == Some("/" + id)
    ensures ParsedKey(lib, Url(host, "/" + id, [])) == host + "/" + id
  {
    var path := "/" + id;
    assert |path| < 8 || path[7] != '/' by {
      if |path| >= 8 {
        assert path[7] == id[6];
      }
    }
    assert ShortsPath[7] == '/';
    assert path[|path| - 1] == id[|id| - 1];
    NoLabelPrefix(host);
    PlainYouTubeKey(lib, host, path);
  }

  /** So a short link never matches the watch page of its video. */
  lemma ShortLinkIsNotWatchPage(lib: UrlLib, host: string, id: string)
    requires host == "youtu.be" && id != "" && '/' !in id
    requires lib.decode("/" + id) == Some("/" + id)
    ensures ParsedKey(lib, Url(host, "/" + id, [])) != WatchPrefix + id
  {
    ShortLinkKey(lib, host, id);
    assert (host + "/" + id)[5] == '.' && (WatchPrefix + id)[5] == 'b';
  }

  /** Any host name that contains `youtube.com` counts as YouTube, whatever
      surrounds it. */
  lemma ContainingHostIsYouTube(before: string, after: string)
    ensures IsYouTubeHost(before + "youtube.com" + after)
  {
    var h := before + "youtube.com" + after;
    assert OccursAt(h, "youtube.com", |before|) by {
      assert h[|before|..|before| + |"youtube.com"|] == "youtube.com";
    }
    IncludesIffOccurs(h, "youtube.com");
  }

  // ---------------------------------------------------------------------
  // The generic key

  /** Off YouTube the key is the host name without one leading label followed
      by the decoded path without one trailing slash; the query never
      contributes. */
  lemma GenericKeyShape(lib: UrlLib, u: Url)
    requires !IsYouTubeHost(u.hostname)
    ensures ParsedKey(lib, u) == StripLabel(u.hostname) + TrimSlash(DecodedPath(lib, u.pathname))
    ensures forall q :: ParsedKey(lib, Url(u.hostname, u.pathname, q)) == ParsedKey(lib, u)
  {
  }

  /** A mirror with one of the stripped labels keys like the bare host, and a
      single trailing slash on the decoded path makes no difference. */
  lemma MirrorAndTrailingSlash(lib: UrlLib, prefix: string, host: string,
                               path1: string, path2: string,
                               q1: seq<(string, string)>, q2: seq<(string, string)>)
    requires prefix in Labels && forall l :: l in Labels ==> !(l <= host)
    requires !IsYouTubeHost(host) && !IsYouTubeHost(prefix + host)
    requires |DecodedPath(lib, path2)| >= 1
    requires DecodedPath(lib, path2) == "/" || DecodedPath(lib, path2)[|DecodedPath(lib, path2)| - 1] != '/'
    requires DecodedPath(lib, path1) == DecodedPath(lib, path2) + "/"
    ensures ParsedKey(lib, Url(prefix + host, path1, q1)) == ParsedKey(lib, Url(host, path2, q2))
    ensures ParsedKey(lib, Url(host, path2, q2)) == host + DecodedPath(lib, path2)
  {
    assert prefix <= prefix + host;
  }

  /** `TrimSlash` removes at most one slash and keeps the root path. */
  lemma TrimSlashAtMostOnce(path: string)
    ensures TrimSlash("/") == "/"
    ensures TrimSlash(path) == path || TrimSlash(path) + "/" == path
    ensures |path| >= 2 && path[|path| - 2..] == "//" ==> TrimSlash(path) == path[..|path| - 1]
  {
  }

  // ---------------------------------------------------------------------
  // Worked examples, for a parser and decoder that behave as the WHATWG URL
  // standard and ECMAScript do on these inputs

  /** A host name without the needle's first character cannot include it. */
  lemma {:induction false} NotIncludes(s: string, sub: string)
    requires |sub| > 0 && sub[0] !in s
    ensures !Includes(s, sub)
    decreases |s|
  {
    if |s| > 0 {
      assert sub[0] !in s[1..] by {
        forall k | 0 <= k < |s[1..]| ensures s[1..][k] != sub[0] {
          assert s[1..][k] == s[k + 1];
        }
      }
      NotIncludes(s[1..], sub);
    }
  }

  /** A host name whose first letter starts no label keeps all of itself. */
  lemma NoLabelPrefix(host: string)
    requires |host| > 0 && host[0] !in "wnos"
    ensures forall l :: l in Labels ==> !(l <= host)
  {
    assert forall l :: l in Labels ==> |l| > 0 && l[0] in "wnos";
  }

  /** A `www.` mirror and a trailing slash do not separate two pages (the
      scheme never reaches a parsed `Url`). */
  lemma ExampleMirrorSlash(lib: UrlLib, host: string, mirror: string)
    requires host == "example.com" && mirror == "www.example.com"
    requires lib.decode("/a/") == Some("/a/") && lib.decode("/a") == Some("/a")
    ensures ParsedKey(lib, Url(mirror, "/a/", [])) == ParsedKey(lib, Url(host, "/a", [])) == host + "/a"
  {
    assert mirror == "www." + host;
    assert !IsYouTubeHost(host) && !IsYouTubeHost(mirror) by {
      NotIncludes(host, "youtube.com");
      NotIncludes(mirror, "youtube.com");
    }
    NoLabelPrefix(host);
    assert "www." in Labels;
    assert "/a"[1] == 'a' && "/a" + "/" == "/a/";
    MirrorAndTrailingSlash(lib, "www.", host, "/a/", "/a", [], []);
  }

  /** The same pages through the parser: `http://www.example.com/a/` and
      `https://example.com/a` share a key. */
  lemma ExampleSchemeMirrorSlash(lib: UrlLib)
    requires lib.parse("http://www.example.com/a/") == Some(Url("www.example.com", "/a/", []))
    requires lib.parse("https://example.com/a") == Some(Url("example.com", "/a", []))
    requires lib.decode("/a/") == Some("/a/") && lib.decode("/a") == Some("/a")
    ensures Normalize(lib, "http://www.example.com/a/") == Normalize(lib, "https://example.com/a") == "example.com/a"
  {
    ExampleMirrorSlash(lib, "example.com", "www.example.com");
  }

  /** A parsed watch page whose first pair is a non-empty `v` keys on it. */
  lemma WatchFirstParam(lib: UrlLib, raw: string, u: Url)
    requires lib.parse(raw) == Some(u)
    requires IsYouTubeHost(u.hostname) && u.pathname == "/watch"
    requires |u.query| > 0 && u.query[0].0 == "v" && u.query[0].1 != ""
    ensures Normalize(lib, raw) == WatchPrefix + u.query[0].1
  {
    WatchKey(lib, u, 0);
  }

  /** Two watch pages of one video match despite other query parameters. */
  lemma ExampleWatchParams(lib: UrlLib)
    requires lib.parse("https://www.youtube.com/watch?v=XYZ&t=10") ==
             Some(Url("www.youtube.com", "/watch", [("v", "XYZ"), ("t", "10")]))
    requires lib.parse("https://youtube.com/watch?v=XYZ") ==
             Some(Url("youtube.com", "/watch", [("v", "XYZ")]))
    ensures Normalize(lib, "https://www.youtube.com/watch?v=XYZ&t=10") == WatchPrefix + "XYZ"
    ensures Normalize(lib, "https://youtube.com/watch?v=XYZ") == WatchPrefix + "XYZ"
  {
    assert "www." + "youtube.com" == "www.youtube.com";
    assert Includes("youtube.com", "youtube.com");
    assert Includes("www.youtube.com", "youtube.com");
    WatchFirstParam(lib, "https://www.youtube.com/watch?v=XYZ&t=10",
                    Url("www.youtube.com", "/watch", [("v", "XYZ"), ("t", "10")]));
    WatchFirstParam(lib, "https://youtube.com/watch?v=XYZ", Url("youtube.com", "/watch", [("v", "XYZ")]));
  }

  lemma ShortsExample(lib: UrlLib, host: string, id: string)
    requires IsYouTubeHost(host) && id != "" && '/' !in id
    ensures ParsedKey(lib, Url(host, ShortsPath + id, [])) == ShortsPrefix + id
  {
    var u := Url(host, ShortsPath + id, []);
    assert u.pathname[|ShortsPath|..] == id;
    SplitPiece(id, '/');
    SplitHead(id, '/');
    ShortsKey(lib, u);
  }

  /** Shorts with different ids do not match. */
  lemma ExampleShortsDiffer(lib: UrlLib)
    requires lib.parse("https://www.youtube.com/shorts/abc") == Some(Url("www.youtube.com", ShortsPath + "abc", []))
    requires lib.parse("https://www.youtube.com/shorts/def") == Some(Url("www.youtube.com", ShortsPath + "def", []))
    ensures Normalize(lib, "https://www.youtube.com/shorts/abc") == ShortsPrefix + "abc"
    ensures Normalize(lib, "https://www.youtube.com/shorts/def") == ShortsPrefix + "def"
    ensures Normalize(lib, "https://www.youtube.com/shorts/abc") != Normalize(lib, "https://www.youtube.com/shorts/def")
  {
    assert "www." + "youtube.com" == "www.youtube.com";
    assert Includes("youtube.com", "youtube.com");
    assert Includes("www.youtube.com", "youtube.com");
    ShortsExample(lib, "www.youtube.com", "abc");
    ShortsExample(lib, "www.youtube.com", "def");
    assert (ShortsPrefix + "abc")[|ShortsPrefix|] != (ShortsPrefix + "def")[|ShortsPrefix|];
  }
}
