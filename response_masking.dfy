/** The response side of utils.py: replacing the upstream server's URLs in a
    response body by this server's URL, choosing how the body is handed on,
    and filling the output dictionary. `settings.FHIR_SERVER_CONF
    ['REWRITE_FROM']` is a `RewriteFrom` value passed in. */
module ResponseMasking {
  import opened Wrappers
  import opened Strings
  import opened OrderedDicts
  import opened Models

  /** `u[:-1]` when `u` ends with `/`. */
  function DropTrailingSlash(u: string): (r: string)
    ensures !EndsWith(u, "/") ==> r == u
    ensures EndsWith(u, "/") ==> r + "/" == u
  {
    if EndsWith(u, "/") then u[..|u| - 1] else u
  }

  /** `mask_with_this_url(request, host_path, in_text, find_url)`: every
      occurrence of `find_url` replaced by the host path without its
      trailing `/`; nothing to do for an empty text or an empty URL. */
  function MaskWithThisUrl(hostPath: string, inText: string, findUrl: string): (outText: string)
    ensures inText == "" || findUrl == "" || !Contains(inText, findUrl) ==> outText == inText
  {
    if inText == "" then inText
    else if findUrl == "" then inText
    else ReplaceAll(inText, findUrl, DropTrailingSlash(hostPath))
  }

  /** Masking a URL that already is this host's path changes nothing. */
  lemma MaskWithOwnUrl(hostPath: string, inText: string)
    ensures MaskWithThisUrl(hostPath, inText, DropTrailingSlash(hostPath)) == inText
  {
    if inText != "" && DropTrailingSlash(hostPath) != "" {
      ReplaceBySelf(inText, DropTrailingSlash(hostPath));
    }
  }

  /** `urls` extended by each entry of `extra` it does not yet hold, in
      order. */
  function AppendMissing(urls: seq<string>, extra: seq<string>): seq<string>
    decreases |extra|
  {
    if extra == [] then urls
    else
      var before := AppendMissing(urls, extra[..|extra| - 1]);
      var u := extra[|extra| - 1];
      if u in before then before else before + [u]
  }

  /** The list `mask_list_with_host` ends with: the `REWRITE_FROM` entries
      the caller's list lacks are appended. */
  function WithRewriteFrom(urls: seq<string>, rewriteFrom: RewriteFrom): seq<string> {
    match rewriteFrom
    case RewriteList(l) => AppendMissing(urls, l)
    case RewriteUrl(u) => if u in urls then urls else urls + [u]
    case NoRewrite => urls
  }

  /** The caller's list stays a prefix; every entry of the result comes from
      one list or the other; every extra entry ends up present; and a list
      without duplicates stays without duplicates. */
  lemma {:induction false} AppendMissingFacts(urls: seq<string>, extra: seq<string>)
    ensures urls <= AppendMissing(urls, extra)
    ensures forall u :: u in AppendMissing(urls, extra) <==> u in urls || u in extra
    ensures NoDuplicates(urls) ==> NoDuplicates(AppendMissing(urls, extra))
    decreases |extra|
  {
    if extra != [] {
      var init := extra[..|extra| - 1];
      AppendMissingFacts(urls, init);
      assert extra == init + [extra[|extra| - 1]];
    }
  }

  /** What is appended to the caller's list: exactly the entries of `extra`
      the list lacks, each once, whether or not the list itself holds
      duplicates. */
  lemma {:induction false} AppendMissingTail(urls: seq<string>, extra: seq<string>)
    ensures urls <= AppendMissing(urls, extra)
    ensures NoDuplicates(AppendMissing(urls, extra)[|urls|..])
    ensures forall u :: u in AppendMissing(urls, extra)[|urls|..] <==> u in extra && u !in urls
    decreases |extra|
  {
    AppendMissingFacts(urls, extra);
    if extra != [] {
      var init := extra[..|extra| - 1];
      var u := extra[|extra| - 1];
      var before := AppendMissing(urls, init);
      AppendMissingTail(urls, init);
      AppendMissingFacts(urls, init);
      assert extra == init + [u];
      if u !in before {
        assert (before + [u])[|urls|..] == before[|urls|..] + [u];
      }
    }
  }

  /** Appending the missing entries of `a + b` is appending those of `a`,
      then those of `b`: the entries are taken one at a time, in list
      order. */
  lemma {:induction false} AppendMissingConcat(urls: seq<string>, a: seq<string>, b: seq<string>)
    ensures AppendMissing(urls, a + b) == AppendMissing(AppendMissing(urls, a), b)
    decreases |b|
  {
    if b == [] {
      assert a + b == a;
    } else {
      assert (a + b)[..|a + b| - 1] == a + b[..|b| - 1];
      assert (a + b)[|a + b| - 1] == b[|b| - 1];
      AppendMissingConcat(urls, a, b[..|b| - 1]);
    }
  }

  /** No URL is listed twice. */
  predicate NoDuplicates(urls: seq<string>) {
    forall i, j :: 0 <= i < j < |urls| ==> urls[i] != urls[j]
  }

  /** The same facts for every shape of `REWRITE_FROM`. */
  lemma WithRewriteFromFacts(urls: seq<string>, rewriteFrom: RewriteFrom)
    ensures urls <= WithRewriteFrom(urls, rewriteFrom)
    ensures rewriteFrom.RewriteList? ==>
      forall u :: u in WithRewriteFrom(urls, rewriteFrom) <==> u in urls || u in rewriteFrom.urls
    ensures rewriteFrom.RewriteUrl? ==>
      forall u :: u in WithRewriteFrom(urls, rewriteFrom) <==> u in urls || u == rewriteFrom.url
    ensures rewriteFrom.NoRewrite? ==> WithRewriteFrom(urls, rewriteFrom) == urls
    ensures NoDuplicates(urls) ==> NoDuplicates(WithRewriteFrom(urls, rewriteFrom))
    ensures rewriteFrom.RewriteList? ==>
      NoDuplicates(WithRewriteFrom(urls, rewriteFrom)[|urls|..]) &&
      forall u :: u in WithRewriteFrom(urls, rewriteFrom)[|urls|..] <==> u in rewriteFrom.urls && u !in urls
    ensures rewriteFrom.RewriteUrl? ==>
      WithRewriteFrom(urls, rewriteFrom)[|urls|..] == if rewriteFrom.url in urls then [] else [rewriteFrom.url]
  {
    if rewriteFrom.RewriteList? {
      AppendMissingFacts(urls, rewriteFrom.urls);
      AppendMissingTail(urls, rewriteFrom.urls);
    }
  }

  /** The replacements of `urls` applied to `text` one after another, in
      list order, each URL without its trailing `/`. */
  function MaskAll(text: string, hostPath: string, urls: seq<string>): string
    decreases |urls|
  {
    if urls == [] then text
    else MaskWithThisUrl(hostPath, MaskAll(text, hostPath, urls[..|urls| - 1]), DropTrailingSlash(urls[|urls| - 1]))
  }

  /** Masking by a longer list is masking by its first part, then by the
      rest. */
  lemma {:induction false} MaskAllAppend(text: string, hostPath: string, a: seq<string>, b: seq<string>)
    ensures MaskAll(text, hostPath, a + b) == MaskAll(MaskAll(text, hostPath, a), hostPath, b)
    decreases |b|
  {
    if b == [] {
      assert a + b == a;
    } else {
      assert (a + b)[..|a + b| - 1] == a + b[..|b| - 1];
      assert (a + b)[|a + b| - 1] == b[|b| - 1];
      MaskAllAppend(text, hostPath, a, b[..|b| - 1]);
    }
  }

  /** A text in which no listed URL (without its trailing `/`) occurs is
      left alone. */
  lemma {:induction false} MaskAllUnchanged(text: string, hostPath: string, urls: seq<string>)
    requires forall u :: u in urls ==> !Contains(text, DropTrailingSlash(u))
    ensures MaskAll(text, hostPath, urls) == text
    decreases |urls|
  {
    if urls != [] {
      MaskAllUnchanged(text, hostPath, urls[..|urls| - 1]);
      assert urls[|urls| - 1] in urls;
    }
  }

  /** The text `mask_list_with_host` returns. */
  function MaskedText(hostPath: string, inText: string, urls: seq<string>, rewriteFrom: RewriteFrom): string {
    if inText == "" || urls == [] then inText
    else MaskAll(inText, hostPath, WithRewriteFrom(urls, rewriteFrom))
  }

  /** The caller's list after `mask_list_with_host`: extended only when there
      was text and a non-empty list. */
  function UrlsAfter(inText: string, urls: seq<string>, rewriteFrom: RewriteFrom): seq<string> {
    if inText == "" || urls == [] then urls else WithRewriteFrom(urls, rewriteFrom)
  }

  /** The text is unchanged when it is empty, when the list is empty, or
      when no URL of the extended list occurs in it. */
  lemma MaskedTextUnchanged(hostPath: string, inText: string, urls: seq<string>, rewriteFrom: RewriteFrom)
    requires inText == "" || urls == [] ||
      forall u :: u in UrlsAfter(inText, urls, rewriteFrom) ==> !Contains(inText, DropTrailingSlash(u))
    ensures MaskedText(hostPath, inText, urls, rewriteFrom) == inText
  {
    if inText != "" && urls != [] {
      MaskAllUnchanged(inText, hostPath, WithRewriteFrom(urls, rewriteFrom));
    }
  }

  /** The `urls_be_gone` list a caller hands to `mask_list_with_host`, which
      extends it in place. */
  class UrlList {
    var urls: seq<string>

    constructor (urls: seq<string>)
      ensures this.urls == urls
    {
      this.urls := urls;
    }
  }

  /** `mask_list_with_host(request, host_path, in_text, urls_be_gone)` */
  method MaskListWithHost(hostPath: string, inText: string, urlsBeGone: UrlList, rewriteFrom: RewriteFrom)
    returns (outText: string)
    modifies urlsBeGone
    ensures urlsBeGone.urls == UrlsAfter(inText, old(urlsBeGone.urls), rewriteFrom)
    ensures outText == MaskedText(hostPath, inText, old(urlsBeGone.urls), rewriteFrom)
  {
    if inText == "" {
      return inText;
    }
    if |urlsBeGone.urls| == 0 {
      return inText;
    }
    AddRewriteFrom(urlsBeGone, rewriteFrom);
    outText := MaskEach(hostPath, inText, urlsBeGone.urls);
  }

  /** The first loop of `mask_list_with_host`: each `REWRITE_FROM` entry the
      list lacks is appended to it. */
  method AddRewriteFrom(urlsBeGone: UrlList, rewriteFrom: RewriteFrom)
    modifies urlsBeGone
    ensures urlsBeGone.urls == WithRewriteFrom(old(urlsBeGone.urls), rewriteFrom)
  {
    var start := urlsBeGone.urls;
    match rewriteFrom {
      case RewriteList(l) =>
        for i := 0 to |l|
          invariant urlsBeGone.urls == AppendMissing(start, l[..i])
        {
          assert l[..i + 1][..i] == l[..i];
          var u := l[i];
          if u !in urlsBeGone.urls {
            urlsBeGone.urls := urlsBeGone.urls + [u];
          }
        }
        assert l[..|l|] == l;
      case RewriteUrl(u) =>
        if !(u in urlsBeGone.urls) {
          urlsBeGone.urls := urlsBeGone.urls + [u];
        }
      case NoRewrite =>
    }
  }

  /** The second loop of `mask_list_with_host`: each URL, without its
      trailing `/`, masked in turn. */
  method MaskEach(hostPath: string, inText: string, kills: seq<string>) returns (outText: string)
    ensures outText == MaskAll(inText, hostPath, kills)
  {
    outText := inText;
    for i := 0 to |kills|
      invariant outText == MaskAll(inText, hostPath, kills[..i])
    {
      assert kills[..i + 1][..i] == kills[..i];
      var killUrl := kills[i];
      if EndsWith(killUrl, "/") {
        killUrl := killUrl[..|killUrl| - 1];
      }
      outText := MaskWithThisUrl(hostPath, outText, killUrl);
    }
    assert kills[..|kills|] == kills;
  }

  /** The text `post_process_request` hands on: the masked XML text as it
      is, or the masked JSON text that `json.loads` then parses. */
  datatype Body = XmlText(text: string) | JsonText(text: string)

  /** What `post_process_request` hands on for the format `fmt`. */
  function Processed(fmt: string, text: string): Body {
    if Lower(fmt) == "xml" then XmlText(text) else JsonText(text)
  }

  /** `post_process_request(request, fmt, host_path, r_text,
      rewrite_url_list)` up to the JSON parse. */
  method PostProcessRequest(fmt: string, hostPath: string, rText: string, rewriteUrlList: UrlList,
                            rewriteFrom: RewriteFrom) returns (textOut: Body)
    modifies rewriteUrlList
    ensures rewriteUrlList.urls == UrlsAfter(rText, old(rewriteUrlList.urls), rewriteFrom)
    ensures textOut == Processed(fmt, MaskedText(hostPath, rText, old(rewriteUrlList.urls), rewriteFrom))
  {
    if Lower(fmt) == "xml" {
      var t := MaskListWithHost(hostPath, rText, rewriteUrlList, rewriteFrom);
      textOut := XmlText(t);
    } else {
      var preText := MaskListWithHost(hostPath, rText, rewriteUrlList, rewriteFrom);
      textOut := JsonText(preText);
    }
  }

  /** Both formats get the same masking; only XML (in any case) keeps the
      text as it is. */
  lemma ProcessedFormats(fmt: string, text: string)
    ensures Processed(fmt, text).text == text
    ensures Processed(fmt, text).XmlText? <==> Lower(fmt) == "xml"
    ensures Processed(Lower(fmt), text) == Processed(fmt, text)
  {
    LowerIdempotent(fmt);
  }

  /** A value in the output dictionary. */
  datatype OutValue = Str(s: string) | Content(body: Body)

  /** The items of `od` after `build_output_dict(..., od, resource_type, key,
      vid, ..., text_out)`, with the diagnostic branch off. */
  function OutputEntries(od: Entries<OutValue>, resourceType: string, key: string, vid: Option<string>,
                         textOut: Body): Entries<OutValue>
  {
    var e := Put(Put(od, "resource_type", Str(resourceType)), "id", Str(key));
    var e' := if vid.Some? then Put(e, "vid", Str(vid.value)) else e;
    Put(e', "bundle", Content(textOut))
  }

  /** `build_output_dict`, filling the caller's dictionary in place. */
  method BuildOutputDict(od: Dict<OutValue>, resourceType: string, key: string, vid: Option<string>,
                         textOut: Body) returns (r: Dict<OutValue>)
    requires od.Valid()
    modifies od
    ensures r == od && od.Valid()
    ensures od.entries == OutputEntries(old(od.entries), resourceType, key, vid, textOut)
  {
    od.Set("resource_type", Str(resourceType));
    od.Set("id", Str(key));
    if vid.Some? {
      od.Set("vid", Str(vid.value));
    }
    od.Set("bundle", Content(textOut));
    r := od;
  }

  /** An empty dictionary ends up with exactly `resource_type`, `id`, `vid`
      when one is given, and `bundle`, in that order. */
  lemma OutputEntriesFromEmpty(resourceType: string, key: string, vid: Option<string>, textOut: Body)
    ensures OutputEntries([], resourceType, key, vid, textOut) ==
      [("resource_type", Str(resourceType)), ("id", Str(key))]
      + (if vid.Some? then [("vid", Str(vid.value))] else [])
      + [("bundle", Content(textOut))]
  {
  }

  /** Whatever the dictionary held, the four keys read back the values just
      written, `vid` keeps its old value when none is given, and every other
      key keeps its value. */
  lemma OutputEntriesGet(od: Entries<OutValue>, resourceType: string, key: string, vid: Option<string>,
                         textOut: Body, k: string)
    ensures var r := OutputEntries(od, resourceType, key, vid, textOut);
      Get(r, "resource_type") == Some(Str(resourceType)) &&
      Get(r, "id") == Some(Str(key)) &&
      Get(r, "bundle") == Some(Content(textOut)) &&
      Get(r, "vid") == (if vid.Some? then Some(Str(vid.value)) else Get(od, "vid")) &&
      (k !in ["resource_type", "id", "vid", "bundle"] ==> Get(r, k) == Get(od, k))
  {
    OutputEntriesGetOne(od, resourceType, key, vid, textOut, "resource_type");
    OutputEntriesGetOne(od, resourceType, key, vid, textOut, "id");
    OutputEntriesGetOne(od, resourceType, key, vid, textOut, "vid");
    OutputEntriesGetOne(od, resourceType, key, vid, textOut, "bundle");
    OutputEntriesGetOne(od, resourceType, key, vid, textOut, k);
  }

  /** One key of the output dictionary, by the writes that touch it. */
  lemma OutputEntriesGetOne(od: Entries<OutValue>, resourceType: string, key: string, vid: Option<string>,
                            textOut: Body, k: string)
    ensures Get(OutputEntries(od, resourceType, key, vid, textOut), k) ==
      if k == "bundle" then Some(Content(textOut))
      else if k == "vid" && vid.Some? then Some(Str(vid.value))
      else if k == "id" then Some(Str(key))
      else if k == "resource_type" then Some(Str(resourceType))
      else Get(od, k)
  {
    var e0 := Put(od, "resource_type", Str(resourceType));
    var e1 := Put(e0, "id", Str(key));
    var e2 := if vid.Some? then Put(e1, "vid", Str(vid.value)) else e1;
    PutGet(od, "resource_type", Str(resourceType), k);
    PutGet(e0, "id", Str(key), k);
    if vid.Some? {
      PutGet(e1, "vid", Str(vid.value), k);
    }
    PutGet(e2, "bundle", Content(textOut), k);
  }
}
