/** The URL builders of utils.py: the upstream FHIR server's base URL, its
    conformance URL, the default path for a resource type and the part of
    this server's own URL that precedes the resource type. Settings are a
    `ServerConf` record and the `ResourceRouter` table a map from resource
    name to path. Python's `None + str` and `str + None` raise `TypeError`;
    that outcome is `Result.TypeError`. */
module ServerUrls {
  import opened Wrappers
  import opened Strings
  import opened Models

  /** `notNone(value, default)`: the value unless it is `None`. */
  function NotNone<T>(value: Option<T>, default: Option<T>): (r: Option<T>)
    ensures value.Some? ==> r == value
    ensures value.None? ==> r == default
  {
    if value.None? then default else value
  }

  /** Python `a += b` on two optional strings. */
  function Append(a: Option<string>, b: Option<string>): Result<string>
    requires a.Some?
  {
    if b.None? then TypeError else Ok(a.value + b.value)
  }

  /** The release with `/` forced at its end. */
  function Slashed(release: string): (r: string)
    ensures EndsWith(r, "/")
    ensures r == release || r == release + "/"
    ensures EndsWith(release, "/") ==> r == release
  {
    if EndsWith(release, "/") then release else release + "/"
  }

  /** What `FhirServerUrl(server, path, release)` returns: the explicit
      arguments win over the settings; no server gives `""`; a server with a
      missing path or release raises `TypeError`. */
  function ServerUrl(server: Option<string>, path: Option<string>, release: Option<string>,
                     conf: ServerConf): Result<string>
  {
    var s := NotNone(server, conf.server);
    var p := NotNone(path, conf.path);
    var rel := NotNone(release, conf.release);
    if s.None? then Ok("")
    else if p.None? || rel.None? then TypeError
    else Ok(s.value + p.value + Slashed(rel.value))
  }

  /** `FhirServerUrl`, accumulating the URL step by step. */
  method FhirServerUrl(server: Option<string>, path: Option<string>, release: Option<string>,
                       conf: ServerConf) returns (result: Result<string>)
    ensures result == ServerUrl(server, path, release, conf)
  {
    var fhirServer := NotNone(server, conf.server);
    var fhirPath := NotNone(path, conf.path);
    var fhirRelease := NotNone(release, conf.release);
    if fhirRelease.Some? {
      if !EndsWith(fhirRelease.value, "/") {
        fhirRelease := Some(fhirRelease.value + "/");
      }
    }
    var acc := fhirServer;
    if acc.Some? {
      var r := Append(acc, fhirPath);
      if r.TypeError? {
        return TypeError;
      }
      acc := Some(r.value);
    }
    if acc.Some? {
      var r := Append(acc, fhirRelease);
      if r.TypeError? {
        return TypeError;
      }
      acc := Some(r.value);
    }
    if acc.None? {
      return Ok("");
    }
    result := Ok(acc.value);
  }

  /** A built base URL starts with the server, is followed by the path, and
      ends with `/`; it is `""` exactly when no server is known; a release
      given without its trailing `/` gives the same URL as with it. */
  lemma ServerUrlShape(server: Option<string>, path: Option<string>, release: Option<string>,
                       conf: ServerConf)
    ensures var r := ServerUrl(server, path, release, conf);
      var s := NotNone(server, conf.server);
      r.Ok? && r.value != "" ==>
        s.Some? && StartsWith(r.value, s.value + NotNone(path, conf.path).value) && EndsWith(r.value, "/")
    ensures (ServerUrl(server, path, release, conf) == Ok("")) <==> NotNone(server, conf.server).None?
    ensures release.Some? && !EndsWith(release.value, "/") ==>
      ServerUrl(server, path, release, conf) == ServerUrl(server, path, Some(release.value + "/"), conf)
  {
    var s := NotNone(server, conf.server);
    var p := NotNone(path, conf.path);
    var rel := NotNone(release, conf.release);
    if s.Some? && p.Some? && rel.Some? {
      BaseUrlShape(s.value, p.value, rel.value);
    }
    if release.Some? && !EndsWith(release.value, "/") {
      SlashedAdds(release.value);
    }
  }

  /** The explicit arguments win over the settings: with all three given,
      the settings play no part; a missing argument is filled in from the
      settings; and the URL is `""` exactly when neither the argument nor the
      settings name a server. */
  lemma ArgumentsWin(server: Option<string>, path: Option<string>, release: Option<string>,
                     conf: ServerConf)
    ensures server.Some? && path.Some? && release.Some? ==>
      ServerUrl(server, path, release, conf) == Ok(server.value + path.value + Slashed(release.value))
    ensures ServerUrl(None, path, release, conf) == ServerUrl(conf.server, path, release, conf)
    ensures ServerUrl(server, None, release, conf) == ServerUrl(server, conf.path, release, conf)
    ensures ServerUrl(server, path, None, conf) == ServerUrl(server, path, conf.release, conf)
    ensures ServerUrl(server, path, release, conf) == Ok("") <==> server.None? && conf.server.None?
  {
    ServerUrlShape(server, path, release, conf);
  }

  /** Server, path and slashed release: starts with server and path, ends
      with `/`, never empty. */
  lemma BaseUrlShape(s: string, p: string, rel: string)
    ensures var u := s + p + Slashed(rel);
      u != "" && StartsWith(u, s + p) && EndsWith(u, "/")
  {
    var t := Slashed(rel);
    var u := s + p + t;
    assert u[..|s + p|] == s + p;
    assert u[|u| - 1..] == t[|t| - 1..];
  }

  /** A release without its `/` and the same release with it are slashed
      alike. */
  lemma SlashedAdds(rel: string)
    requires !EndsWith(rel, "/")
    ensures Slashed(rel + "/") == rel + "/" == Slashed(rel)
  {
    var r' := rel + "/";
    assert r'[|r'| - 1..] == "/";
  }

  /** `build_conformance_url()`: server, path, release and `/metadata`,
      with no slash handling; a missing setting raises `TypeError`. */
  function BuildConformanceUrl(conf: ServerConf): (r: Result<string>)
    ensures r.Ok? <==> conf.server.Some? && conf.path.Some? && conf.release.Some?
  {
    if conf.server.None? || conf.path.None? || conf.release.None? then TypeError
    else Ok(conf.server.value + conf.path.value + conf.release.value + "/metadata")
  }

  /** The conformance URL always ends in `/metadata`. It is the base URL
      followed by `/metadata` when the release already ends in `/` (giving a
      doubled slash), and the base URL without its forced slash followed by
      `/metadata` otherwise. */
  lemma ConformanceFromBase(conf: ServerConf)
    requires conf.server.Some? && conf.path.Some? && conf.release.Some?
    ensures EndsWith(BuildConformanceUrl(conf).value, "/metadata")
    ensures var base := ServerUrl(None, None, None, conf).value;
      |base| >= 1 &&
      BuildConformanceUrl(conf).value ==
        (if EndsWith(conf.release.value, "/") then base else base[..|base| - 1]) + "/metadata"
  {
    var head := conf.server.value + conf.path.value + conf.release.value;
    EndsWithSuffix(head, "/metadata");
    if !EndsWith(conf.release.value, "/") {
      DropLast(head, "/");
    }
  }

  /** A string ends with what was appended to it. */
  lemma EndsWithSuffix(a: string, b: string)
    ensures EndsWith(a + b, b)
  {
    assert (a + b)[|a + b| - |b|..] == b;
  }

  /** Cutting the last character undoes appending one. */
  lemma DropLast(a: string, b: string)
    requires |b| == 1
    ensures (a + b)[..|a + b| - 1] == a
  {
  }

  /** `get_default_path(resource_name, crosswalk_source)`: a non-empty
      crosswalk source, else the router's path for the resource, else the
      default server URL. */
  function GetDefaultPath(resourceName: string, crosswalkSource: Option<string>,
                          routers: map<string, string>, conf: ServerConf): Result<string>
  {
    if crosswalkSource.Some? && crosswalkSource.value != "" then Ok(crosswalkSource.value)
    else if resourceName in routers then Ok(routers[resourceName])
    else ServerUrl(None, None, None, conf)
  }

  /** The three sources are tried in order, and only the last can fail. */
  lemma DefaultPathPriority(resourceName: string, crosswalkSource: Option<string>,
                            routers: map<string, string>, conf: ServerConf)
    ensures crosswalkSource.Some? && crosswalkSource.value != "" ==>
      GetDefaultPath(resourceName, crosswalkSource, routers, conf) == Ok(crosswalkSource.value)
    ensures (crosswalkSource.None? || crosswalkSource.value == "") && resourceName in routers ==>
      GetDefaultPath(resourceName, crosswalkSource, routers, conf) == Ok(routers[resourceName])
    ensures (crosswalkSource.None? || crosswalkSource.value == "") && resourceName !in routers ==>
      GetDefaultPath(resourceName, crosswalkSource, routers, conf) == ServerUrl(None, None, None, conf)
    ensures GetDefaultPath(resourceName, crosswalkSource, routers, conf).TypeError? ==>
      resourceName !in routers && conf.server.Some? && (conf.path.None? || conf.release.None?)
  {
  }

  /** `s.split(p)[0]` for a non-empty `p`: the text before the first
      occurrence of `p`, or all of `s` when there is none. */
  function PrefixBefore(s: string, p: string): (r: string)
    requires p != ""
    ensures |r| <= |s|
    decreases |s|
  {
    if s == [] || StartsWith(s, p) then "" else [s[0]] + PrefixBefore(s[1..], p)
  }

  /** The prefix is a prefix of `s`; `p` occurs right after it when it occurs
      at all, and nowhere earlier; without an occurrence it is all of `s`. */
  lemma PrefixBeforeFirst(s: string, p: string)
    requires p != ""
    ensures StartsWith(s, PrefixBefore(s, p))
    ensures Contains(s, p) ==> OccursAt(s, p, |PrefixBefore(s, p)|)
    ensures !Contains(s, p) ==> PrefixBefore(s, p) == s
    ensures forall i :: 0 <= i < |PrefixBefore(s, p)| ==> !OccursAt(s, p, i)
  {
    PrefixBeforeStarts(s, p);
    if Contains(s, p) {
      PrefixBeforeOccurs(s, p);
    }
    forall i | 0 <= i < |PrefixBefore(s, p)| ensures !OccursAt(s, p, i) {
      PrefixBeforeNoEarlier(s, p, i);
    }
  }

  lemma {:induction false} PrefixBeforeStarts(s: string, p: string)
    requires p != ""
    ensures StartsWith(s, PrefixBefore(s, p))
    ensures !Contains(s, p) ==> PrefixBefore(s, p) == s
    decreases |s|
  {
    if s != [] && !StartsWith(s, p) {
      PrefixBeforeStarts(s[1..], p);
      assert s == [s[0]] + s[1..];
    }
  }

  lemma {:induction false} PrefixBeforeOccurs(s: string, p: string)
    requires p != "" && Contains(s, p)
    ensures OccursAt(s, p, |PrefixBefore(s, p)|)
    decreases |s|
  {
    if !StartsWith(s, p) {
      var r := PrefixBefore(s[1..], p);
      PrefixBeforeOccurs(s[1..], p);
      assert PrefixBefore(s, p) == [s[0]] + r;
      var k := |r| + 1;
      assert k + |p| <= |s|;
      forall j | 0 <= j < |p| ensures s[k + j] == p[j] {
        assert s[1..][|r| + j] == s[k + j];
      }
    }
  }

  lemma {:induction false} PrefixBeforeNoEarlier(s: string, p: string, i: int)
    requires p != "" && 0 <= i < |PrefixBefore(s, p)|
    ensures !OccursAt(s, p, i)
    decreases |s|
  {
    if i > 0 {
      PrefixBeforeNoEarlier(s[1..], p, i - 1);
    }
  }

  /** `get_host_url(request, resource_type)`: the scheme chosen by
      `is_secure()`, the host and the full path, cut before the first
      occurrence of the resource type when one is given. */
  function GetHostUrl(isSecure: bool, host: string, fullPath: string, resourceType: string): string {
    var httpMode := if isSecure then "https://" else "http://";
    var fullUrl := httpMode + host + fullPath;
    if resourceType == "" then fullUrl else PrefixBefore(fullUrl, resourceType)
  }

  /** The host URL is a prefix of the request's full URL, which starts with
      the scheme; the resource type follows it directly when the full URL
      mentions the type, and never appears inside it. */
  lemma HostUrlIsPrefix(isSecure: bool, host: string, fullPath: string, resourceType: string)
    ensures var fullUrl := (if isSecure then "https://" else "http://") + host + fullPath;
      var r := GetHostUrl(isSecure, host, fullPath, resourceType);
      StartsWith(fullUrl, r) &&
      (resourceType == "" ==> r == fullUrl) &&
      (resourceType != "" && Contains(fullUrl, resourceType) ==> OccursAt(fullUrl, resourceType, |r|)) &&
      (resourceType != "" ==> forall i :: 0 <= i < |r| ==> !OccursAt(fullUrl, resourceType, i))
  {
    var fullUrl := (if isSecure then "https://" else "http://") + host + fullPath;
    if resourceType != "" {
      PrefixBeforeFirst(fullUrl, resourceType);
    }
  }
}
