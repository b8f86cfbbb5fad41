/** The outbound query-parameter pipeline of utils.py: filtering the inbound
    parameters, applying a resource type's block and add lists, merging the
    parts into one urlencoded query string and making sure it asks for a
    format. */
module QueryParams {
  import opened Wrappers
  import opened Strings
  import opened OrderedDicts
  import opened Urlencoding
  import opened Models

  /** The parameter containers that reach the pipeline: a dictionary
      (`request.GET` or an `OrderedDict`), a list of `k=v` strings, or a
      plain string (`block_params` returns `''` for empty input). */
  datatype QueryArg = Mapping(entries: Entries<string>) | PairList(items: seq<string>) | Text(text: string)

  /** Python truthiness of the container, which is also `len(...) > 0`. */
  predicate NonEmpty(a: QueryArg) {
    match a
    case Mapping(e) => e != []
    case PairList(l) => l != []
    case Text(t) => t != ""
  }

  /** A dictionary never lists a key twice. */
  predicate WellFormed(a: QueryArg) {
    a.Mapping? ==> DistinctKeys(a.entries)
  }

  // ---------------------------------------------------------------------
  // get_url_query_string and strip_oauth

  /** What `get_url_query_string(get, skip)` returns: the items of a
      dictionary whose key is not in `skip`; nothing for anything else. */
  function QueryString(get: QueryArg, skip: seq<string>): Entries<string> {
    if get.Mapping? then Without(get.entries, skip) else []
  }

  /** The filter keeps exactly the keys of `get` that are not skipped, with
      their values, and never repeats a key. */
  lemma QueryStringKeeps(get: QueryArg, skip: seq<string>, k: string)
    ensures k in Keys(QueryString(get, skip)) <==> get.Mapping? && k in Keys(get.entries) && k !in skip
    ensures get.Mapping? && k !in skip ==> Get(QueryString(get, skip), k) == Get(get.entries, k)
    ensures WellFormed(get) ==> DistinctKeys(QueryString(get, skip))
  {
    if get.Mapping? {
      WithoutKeeps(get.entries, skip, k);
      if WellFormed(get) {
        WithoutDistinct(get.entries, skip);
      }
    }
  }

  /** `get_url_query_string`: walks the items of `get` and copies the ones
      whose key is not skipped into a fresh ordered dictionary. */
  method GetUrlQueryString(get: QueryArg, skip: seq<string>) returns (filtered: Entries<string>)
    requires WellFormed(get)
    ensures filtered == QueryString(get, skip)
  {
    filtered := [];
    if !NonEmpty(get) {
      return;
    }
    if !get.Mapping? {
      return;
    }
    var items := get.entries;
    for i := 0 to |items|
      invariant filtered == Without(items[..i], skip)
    {
      var (k, v) := items[i];
      assert items[..i + 1] == items[..i] + [items[i]];
      WithoutConcat(items[..i], [items[i]], skip);
      if k !in skip {
        WithoutKeeps(items[..i], skip, k);
        assert k !in Keys(items[..i]);
        filtered := Put(filtered, k, v);
      }
    }
    assert items[..|items|] == items;
  }

  /** The OAuth parameters a client may send that must not reach the
      upstream server. */
  const OAuthParams: seq<string> := ["access_token", "state", "response_type", "client_id"]

  /** `strip_oauth(get)` */
  function StripOAuth(get: QueryArg): Entries<string> {
    if get == Mapping([]) then [] else QueryString(get, OAuthParams)
  }

  /** No OAuth parameter survives `strip_oauth`; every other parameter of a
      dictionary does, with its value. */
  lemma StripOAuthRemoves(get: QueryArg, k: string)
    ensures k in OAuthParams ==> k !in Keys(StripOAuth(get))
    ensures get.Mapping? && k !in OAuthParams ==> Get(StripOAuth(get), k) == Get(get.entries, k)
  {
    QueryStringKeeps(get, OAuthParams, k);
  }

  // ---------------------------------------------------------------------
  // block_params

  /** The policy asks for its block and add lists to be applied. */
  predicate Overrides(srtc: Option<Policy>) {
    srtc.Some? && srtc.value.overrideSearch
  }

  /** `block_params(get, srtc)` */
  function BlockParams(get: QueryArg, srtc: Option<Policy>): QueryArg {
    if !NonEmpty(get) then Text("")
    else if srtc.Some? && srtc.value.overrideSearch then Mapping(QueryString(get, srtc.value.searchBlock))
    else get
  }

  /** Empty input gives `''`; without an overriding policy the parameters
      pass unchanged; with one, exactly the blocked keys (matched as given)
      are removed from a dictionary and the rest keep their values. */
  lemma BlockParamsRemovesBlocked(get: QueryArg, srtc: Option<Policy>, k: string)
    ensures !NonEmpty(get) ==> BlockParams(get, srtc) == Text("")
    ensures NonEmpty(get) && !Overrides(srtc) ==> BlockParams(get, srtc) == get
    ensures NonEmpty(get) && Overrides(srtc) ==>
      BlockParams(get, srtc).Mapping? &&
      (k in Keys(BlockParams(get, srtc).entries) <==>
        get.Mapping? && k in Keys(get.entries) && k !in srtc.value.searchBlock)
    ensures NonEmpty(get) && Overrides(srtc) && get.Mapping? && k !in srtc.value.searchBlock ==>
      Get(BlockParams(get, srtc).entries, k) == Get(get.entries, k)
  {
    if NonEmpty(get) && Overrides(srtc) {
      QueryStringKeeps(get, srtc.value.searchBlock, k);
    }
  }

  // ---------------------------------------------------------------------
  // add_params

  /** The placeholder a template may hold for the user's patient id. */
  const PatientToken: string := "%PATIENT%"

  /** `get_search_add()` as a list: a single template is wrapped. */
  function TemplatesOf(t: Templates): seq<string> {
    match t
    case TemplateList(l) => l
    case SingleTemplate(s) => [s]
  }

  /** A template naming the resource type itself (lower-cased) is skipped. */
  predicate Skipped(item: string, resourceName: string) {
    Contains(item, Lower(resourceName))
  }

  /** `%PATIENT%` replaced by the key (by `''` when there is none), then any
      placeholder the first pass left replaced by `''`. */
  function Substituted(item: string, key: Option<string>): (r: string)
    ensures !Contains(item, PatientToken) ==> r == item
  {
    if Contains(item, PatientToken) then
      var keyStr := if key.None? then "" else key.value;
      var once := ReplaceAll(item, PatientToken, keyStr);
      if Contains(once, PatientToken) then ReplaceAll(once, PatientToken, "") else once
    else item
  }

  /** For a template `pre%PATIENT%post` whose other text holds no `%`, the
      placeholder becomes the key, or `''` when there is none. */
  lemma SubstitutedPlaceholder(pre: string, post: string, key: Option<string>)
    requires '%' !in pre && '%' !in post
    requires key.Some? ==> '%' !in key.value
    ensures Substituted(pre + PatientToken + post, key) ==
      pre + (if key.None? then "" else key.value) + post
  {
    var item := pre + PatientToken + post;
    var keyStr := if key.None? then "" else key.value;
    ContainsSuffix(pre, PatientToken);
    ContainsExtend([], pre + PatientToken, post, PatientToken);
    assert [] + (pre + PatientToken) + post == item;
    forall i | 0 <= i < |pre| ensures !OccursAt(pre + PatientToken, PatientToken, i) {
      var t := pre + PatientToken;
      assert t[i] == pre[i] != '%';
      assert i + |PatientToken| <= |t| ==> t[i..i + |PatientToken|][0] == t[i];
    }
    ReplaceFirst(pre, PatientToken, post, keyStr);
    MissingHead(post, PatientToken);
    var once := pre + keyStr + post;
    assert '%' !in once;
    MissingHead(once, PatientToken);
  }

  /** The templates that are kept, substituted, in their order. */
  function Added(templates: seq<string>, resourceName: string, key: Option<string>): seq<string>
    decreases |templates|
  {
    if templates == [] then []
    else
      var last := templates[|templates| - 1];
      Added(templates[..|templates| - 1], resourceName, key)
        + (if Skipped(last, resourceName) then [] else [Substituted(last, key)])
  }

  /** What `add_params(srtc, key)` returns. */
  function AddedParams(srtc: Option<Policy>, key: Option<string>): seq<string> {
    if Overrides(srtc) then Added(TemplatesOf(srtc.value.searchAdd), srtc.value.resourceName, key) else []
  }

  /** `add_params`: walks the templates, skipping those that name the
      resource type and substituting the rest. */
  method AddParams(srtc: Option<Policy>, key: Option<string>) returns (addParams: seq<string>)
    ensures addParams == AddedParams(srtc, key)
  {
    addParams := [];
    if srtc.Some? {
      if srtc.value.overrideSearch {
        var paramsList := TemplatesOf(srtc.value.searchAdd);
        var name := srtc.value.resourceName;
        for i := 0 to |paramsList|
          invariant addParams == Added(paramsList[..i], name, key)
        {
          var item := paramsList[i];
          assert paramsList[..i + 1][..i] == paramsList[..i];
          if !Contains(item, Lower(name)) {
            if Contains(item, PatientToken) {
              var keyStr := if key.None? then "" else key.value;
              item := ReplaceAll(item, PatientToken, keyStr);
              if Contains(item, PatientToken) {
                item := ReplaceAll(item, PatientToken, "");
              }
            }
            addParams := addParams + [item];
          }
        }
        assert paramsList[..|paramsList|] == paramsList;
      }
    }
  }

  /** Templates are handled one by one: the output for a list is the output
      for its first part followed by the output for the rest. */
  lemma {:induction false} AddedConcat(a: seq<string>, b: seq<string>, resourceName: string, key: Option<string>)
    ensures Added(a + b, resourceName, key) == Added(a, resourceName, key) + Added(b, resourceName, key)
    decreases |b|
  {
    if b == [] {
      assert a + b == a;
    } else {
      var b' := b[..|b| - 1];
      assert (a + b)[..|a + b| - 1] == a + b';
      assert (a + b)[|a + b| - 1] == b[|b| - 1];
      AddedConcat(a, b', resourceName, key);
    }
  }

  /** A parameter is added exactly when some template that does not name
      the resource type substitutes to it. */
  lemma {:induction false} AddedMembers(templates: seq<string>, resourceName: string, key: Option<string>, x: string)
    ensures x in Added(templates, resourceName, key) <==>
      exists t :: t in templates && !Skipped(t, resourceName) && x == Substituted(t, key)
    decreases |templates|
  {
    if templates != [] {
      var init := templates[..|templates| - 1];
      var last := templates[|templates| - 1];
      assert templates == init + [last];
      AddedMembers(init, resourceName, key, x);
      if !Skipped(last, resourceName) && x == Substituted(last, key) {
        assert last in templates;
      }
      forall t | t in init ensures t in templates {
      }
    }
  }

  /** At most one parameter per template. */
  lemma {:induction false} AddedLength(templates: seq<string>, resourceName: string, key: Option<string>)
    ensures |Added(templates, resourceName, key)| <= |templates|
    decreases |templates|
  {
    if templates != [] {
      AddedLength(templates[..|templates| - 1], resourceName, key);
    }
  }

  /** Without an overriding policy nothing is added; with one, a single
      template behaves as a one-item list. */
  lemma AddedParamsCases(srtc: Option<Policy>, key: Option<string>)
    ensures !Overrides(srtc) ==> AddedParams(srtc, key) == []
    ensures Overrides(srtc) && srtc.value.searchAdd.SingleTemplate? ==>
      AddedParams(srtc, key) ==
        if Skipped(srtc.value.searchAdd.item, srtc.value.resourceName) then []
        else [Substituted(srtc.value.searchAdd.item, key)]
  {
    if Overrides(srtc) && srtc.value.searchAdd.SingleTemplate? {
      var ts := [srtc.value.searchAdd.item];
      var name := srtc.value.resourceName;
      assert ts[..0] == [];
      assert Added(ts, name, key) == Added([], name, key)
        + (if Skipped(ts[0], name) then [] else [Substituted(ts[0], key)]);
    }
  }

  // ---------------------------------------------------------------------
  // concat_parms

  /** A list item split on every `=`; fields 0 and 1 become key and value,
      and an item without `=` gets the empty value. */
  function ItemPair(item: string): (string, string) {
    var fields := Split(item, '=');
    if |fields| > 1 then (fields[0], fields[1]) else (fields[0], "")
  }

  /** An item without `=` is a key with the empty value; an item with one
      is cut at its first `=`, and the value runs to the next `=` or to the
      end of the item. */
  lemma ItemPairSplits(item: string)
    ensures '=' !in item ==> ItemPair(item) == (item, "")
    ensures '=' in item ==>
      var (k, v) := ItemPair(item);
      '=' !in k && '=' !in v && StartsWith(item, k + "=" + v) &&
      (|k| + 1 + |v| == |item| || item[|k| + 1 + |v|] == '=')
  {
    var fields := Split(item, '=');
    if '=' !in item {
      SplitNoSeparator(item, '=');
    } else {
      assert |fields| > 1;
      assert '=' !in fields[0] && '=' !in fields[1];
      assert item == fields[0] + "=" + Join(fields[1..], '=');
      if |fields| == 2 {
        assert Join(fields[1..], '=') == fields[1];
        assert item == fields[0] + "=" + fields[1];
      } else {
        assert fields[1..][1..] == fields[2..];
        assert Join(fields[1..], '=') == fields[1] + "=" + Join(fields[2..], '=');
        assert item == fields[0] + "=" + fields[1] + ("=" + Join(fields[2..], '='));
        assert item[..|fields[0] + "=" + fields[1]|] == fields[0] + "=" + fields[1];
        assert item[|fields[0]| + 1 + |fields[1]|] == '=';
      }
    }
  }

  /** `k=v` with no `=` in either half reads back as `(k, v)`. */
  lemma ItemPairRoundTrip(k: string, v: string)
    requires '=' !in k && '=' !in v
    ensures ItemPair(k + "=" + v) == (k, v)
  {
    assert Join([k, v], '=') == k + "=" + v;
    SplitJoin([k, v], '=');
  }

  /** The key/value items of a list of `k=v` strings. */
  function ItemPairs(items: seq<string>): (d: Entries<string>)
    ensures |d| == |items|
  {
    seq(|items|, i requires 0 <= i < |items| => ItemPair(items[i]))
  }

  /** The key/value items a part contributes; an empty part (or a plain
      string) contributes none. */
  function PartItems(part: QueryArg): Entries<string> {
    if !NonEmpty(part) then []
    else match part
      case Mapping(e) => e
      case PairList(l) => ItemPairs(l)
      case Text(_) => []
  }

  /** `d[k] = v` for each item of `e` in turn. */
  function PutAll(d: Entries<string>, e: Entries<string>): Entries<string>
    decreases |e|
  {
    if e == [] then d
    else Put(PutAll(d, e[..|e| - 1]), e[|e| - 1].0, e[|e| - 1].1)
  }

  /** The value the last item with key `k` gives it, if any. */
  function LastValue(e: Entries<string>, k: string): (r: Option<string>)
    ensures r.Some? <==> k in Keys(e)
    decreases |e|
  {
    if e == [] then None
    else if e[|e| - 1].0 == k then
      assert Keys(e)[|e| - 1] == k;
      Some(e[|e| - 1].1)
    else
      KeysLast(e, k);
      LastValue(e[..|e| - 1], k)
  }

  /** Merging item by item never moves a key already present (the old key
      list is a prefix of the new one), and the keys are those of either
      side. */
  lemma PutAllKeys(d: Entries<string>, e: Entries<string>, k: string)
    ensures Keys(d) <= Keys(PutAll(d, e))
    ensures k in Keys(PutAll(d, e)) <==> k in Keys(d) || k in Keys(e)
  {
    PutAllPrefix(d, e);
    PutAllMember(d, e, k);
  }

  lemma {:induction false} PutAllPrefix(d: Entries<string>, e: Entries<string>)
    ensures Keys(d) <= Keys(PutAll(d, e))
    decreases |e|
  {
    if e != [] {
      var init := e[..|e| - 1];
      PutAllPrefix(d, init);
      PutKeys(PutAll(d, init), e[|e| - 1].0, e[|e| - 1].1);
    }
  }

  lemma {:induction false} PutAllMember(d: Entries<string>, e: Entries<string>, k: string)
    ensures k in Keys(PutAll(d, e)) <==> k in Keys(d) || k in Keys(e)
    decreases |e|
  {
    if e != [] {
      var init := e[..|e| - 1];
      PutAllMember(d, init, k);
      PutKeys(PutAll(d, init), e[|e| - 1].0, e[|e| - 1].1);
      KeysLast(e, k);
    }
  }

  /** A key set by `e` ends with the last value `e` gives it; any other key
      keeps its value. */
  lemma {:induction false} PutAllGet(d: Entries<string>, e: Entries<string>, k: string)
    ensures Get(PutAll(d, e), k) == if k in Keys(e) then LastValue(e, k) else Get(d, k)
    decreases |e|
  {
    if e != [] {
      var init := e[..|e| - 1];
      var k1 := e[|e| - 1].0;
      var v1 := e[|e| - 1].1;
      var m := PutAll(d, init);
      assert PutAll(d, e) == Put(m, k1, v1);
      PutAllGet(d, init, k);
      PutGet(m, k1, v1, k);
      KeysLast(e, k);
    }
  }

  /** Merging keeps the keys distinct. */
  lemma {:induction false} PutAllDistinct(d: Entries<string>, e: Entries<string>)
    requires DistinctKeys(d)
    ensures DistinctKeys(PutAll(d, e))
    decreases |e|
  {
    if e != [] {
      var init := e[..|e| - 1];
      PutAllDistinct(d, init);
      PutDistinct(PutAll(d, init), e[|e| - 1].0, e[|e| - 1].1);
    }
  }

  /** Merging a dictionary's own items into an empty one gives the
      dictionary back: same keys, same values, same order. */
  lemma {:induction false} PutAllFresh(e: Entries<string>)
    requires DistinctKeys(e)
    ensures PutAll([], e) == e
    decreases |e|
  {
    if e != [] {
      var init := e[..|e| - 1];
      var last := e[|e| - 1];
      assert DistinctKeys(init);
      PutAllFresh(init);
      assert last.0 !in Keys(init) by {
        forall i | 0 <= i < |init| ensures Keys(init)[i] != last.0 {
          assert e[i].0 != e[|e| - 1].0;
        }
      }
      assert e == init + [last];
    }
  }

  /** Merging two lists one after the other is merging their concatenation. */
  lemma {:induction false} PutAllAppend(d: Entries<string>, a: Entries<string>, b: Entries<string>)
    ensures PutAll(PutAll(d, a), b) == PutAll(d, a + b)
    decreases |b|
  {
    if b == [] {
      assert a + b == a;
    } else {
      assert (a + b)[..|a + b| - 1] == a + b[..|b| - 1];
      assert (a + b)[|a + b| - 1] == b[|b| - 1];
      PutAllAppend(d, a, b[..|b| - 1]);
    }
  }

  /** The ordered dictionary `concat_parms` builds: the front part's items,
      then the back part's. */
  function Joined(front: QueryArg, back: QueryArg): Entries<string> {
    PutAll(PutAll([], PartItems(front)), PartItems(back))
  }

  /** `concat_parms(front, back)`: `?` and the urlencoded dictionary; when
      the encoding starts with `=`, that `=` and the character after it are
      dropped. */
  function Concatenated(front: QueryArg, back: QueryArg): string {
    QueryOf(Joined(front, back))
  }

  /** `?` and the urlencoded dictionary; when the encoding starts with `=`,
      the text is cut after its first three characters (`?`, `=` and one
      more) and `?` is put back, so the `=` and the character after it are
      lost. */
  function QueryOf(joined: Entries<string>): string {
    var concat := "?" + Urlencode(joined);
    if StartsWith(concat, "?=") then "?" + (if |concat| >= 3 then concat[3..] else "")
    else concat
  }

  /** The loop body of `concat_parms` for one part: `joined[k] = v` for each
      item of a dictionary, or for each `k=v` string of a list. */
  method JoinPart(joined: Entries<string>, part: QueryArg) returns (r: Entries<string>)
    ensures r == PutAll(joined, PartItems(part))
  {
    r := joined;
    if NonEmpty(part) {
      match part {
        case Mapping(e) =>
          for i := 0 to |e|
            invariant r == PutAll(joined, e[..i])
          {
            assert e[..i + 1][..i] == e[..i];
            var (k, v) := e[i];
            r := Put(r, k, v);
          }
          assert e[..|e|] == e;
        case PairList(items) =>
          for i := 0 to |items|
            invariant r == PutAll(joined, ItemPairs(items[..i]))
          {
            assert ItemPairs(items[..i + 1])[..i] == ItemPairs(items[..i]);
            var itemSplit := Split(items[i], '=');
            if |itemSplit| > 1 {
              r := Put(r, itemSplit[0], itemSplit[1]);
            } else {
              r := Put(r, itemSplit[0], "");
            }
          }
          assert items[..|items|] == items;
        case Text(_) =>
      }
    }
  }

  /** `concat_parms` */
  method ConcatParms(front: QueryArg, back: QueryArg) returns (concatParms: string)
    ensures concatParms == Concatenated(front, back)
  {
    var joinedParms: Entries<string> := [];
    joinedParms := JoinPart(joinedParms, front);
    joinedParms := JoinPart(joinedParms, back);
    var concatParm := "?" + Urlencode(joinedParms);
    if StartsWith(concatParm, "?=") {
      concatParms := "?" + (if |concatParm| >= 3 then concatParm[3..] else "");
    } else {
      concatParms := concatParm;
    }
  }

  /** The merged dictionary lists each key once; the front part's keys come
      first and keep their places; a key the back part sets takes the back
      part's (last) value; any other key keeps the front part's value; an
      empty part contributes nothing. */
  lemma JoinedFacts(front: QueryArg, back: QueryArg, k: string)
    ensures DistinctKeys(Joined(front, back))
    ensures Keys(PutAll([], PartItems(front))) <= Keys(Joined(front, back))
    ensures k in Keys(Joined(front, back)) <==> k in Keys(PartItems(front)) || k in Keys(PartItems(back))
    ensures k in Keys(PartItems(back)) ==> Get(Joined(front, back), k) == LastValue(PartItems(back), k)
    ensures k !in Keys(PartItems(back)) ==> Get(Joined(front, back), k) == LastValue(PartItems(front), k)
    ensures !NonEmpty(front) ==> Joined(front, back) == PutAll([], PartItems(back))
    ensures !NonEmpty(back) ==> Joined(front, back) == PutAll([], PartItems(front))
    ensures front.Mapping? && WellFormed(front) ==> PutAll([], PartItems(front)) == front.entries
    ensures front.Mapping? && WellFormed(front) ==> Keys(front.entries) <= Keys(Joined(front, back))
  {
    if front.Mapping? && WellFormed(front) {
      PutAllFresh(front.entries);
    }
    var f := PutAll([], PartItems(front));
    PutAllKeys([], PartItems(front), k);
    PutAllKeys(f, PartItems(back), k);
    PutAllGet([], PartItems(front), k);
    PutAllGet(f, PartItems(back), k);
    PutAllDistinct([], PartItems(front));
    PutAllDistinct(f, PartItems(back));
    if !NonEmpty(front) {
      assert f == [];
    }
  }

  /** The query string starts with `?`. When the first key is not empty it is
      `?` and the urlencoded dictionary, and parsing what follows the `?`
      gives the merged dictionary back. */
  lemma QueryOfPlain(j: Entries<string>)
    requires j == [] || j[0].0 != ""
    ensures QueryOf(j) == "?" + Urlencode(j)
    ensures ParseQuery(QueryOf(j)[1..]) == j
  {
    QueryOfNoTrim(j);
    var q := "?" + Urlencode(j);
    assert q[1..] == Urlencode(j);
    UrlencodeRoundTrip(j);
  }

  /** With a non-empty first key the encoding does not start with `=`. */
  lemma QueryOfNoTrim(j: Entries<string>)
    requires j == [] || j[0].0 != ""
    ensures QueryOf(j) == "?" + Urlencode(j)
  {
    var enc := Urlencode(j);
    assert enc == "" || enc[0] != '=' by {
      if j != [] {
        var first := EncodeItem(j[0]);
        assert StartsWith(enc, first) by { UrlencodeShape(j); }
        NamedItemStart(j[0]);
        assert enc[0] == first[0];
      }
    }
    QueryOfNoLeadingEquals(j, enc);
  }

  /** An item with a non-empty key does not encode to text starting with
      `=`. */
  lemma NamedItemStart(item: (string, string))
    requires item.0 != ""
    ensures EncodeItem(item) != "" && EncodeItem(item)[0] != '='
  {
    var k := QuotePlus(item.0);
    assert k != "" && '=' !in k;
    assert EncodeItem(item)[0] == k[0];
  }

  /** An encoding that does not start with `=` is kept whole behind `?`. */
  lemma QueryOfNoLeadingEquals(j: Entries<string>, enc: string)
    requires enc == Urlencode(j) && (enc == "" || enc[0] != '=')
    ensures QueryOf(j) == "?" + enc
  {
    var concat := "?" + enc;
    if enc != "" {
      assert concat[1] == enc[0];
    }
    assert !StartsWith(concat, "?=");
  }

  /** A leading empty key with an empty value is dropped with its `&`. */
  lemma QueryOfEmptyFirst(j: Entries<string>)
    requires j != [] && j[0] == ("", "")
    ensures QueryOf(j) == "?" + Urlencode(j[1..])
  {
    var tail := Urlencode(j[1..]);
    var after := if |j| > 1 then "&" + tail else "";
    UrlencodeHead(j);
    assert EncodeItem(j[0]) == "=";
    QueryOfLeadingEquals(j, after);
    if |j| == 1 {
      UrlencodeShape(j[1..]);
    }
  }

  /** A leading empty key with a non-empty value loses the `=` and the first
      character of its encoded value. */
  lemma QueryOfLostChar(j: Entries<string>)
    requires j != [] && j[0].0 == "" && j[0].1 != ""
    ensures QueryOf(j) == "?" + QuotePlus(j[0].1)[1..] + (if |j| > 1 then "&" + Urlencode(j[1..]) else "")
  {
    var rest := if |j| > 1 then "&" + Urlencode(j[1..]) else "";
    var v := QuotePlus(j[0].1);
    EmptyKeyEncoding(j, v, rest);
    QueryOfLostValueChar(j, v, rest);
  }

  /** The encoding of a list whose first key is empty: `=`, the first
      value's encoding, then the rest. */
  lemma EmptyKeyEncoding(j: Entries<string>, v: string, rest: string)
    requires j != [] && j[0].0 == ""
    requires v == QuotePlus(j[0].1)
    requires rest == if |j| > 1 then "&" + Urlencode(j[1..]) else ""
    ensures Urlencode(j) == "=" + (v + rest)
  {
    var e := EncodeItem(j[0]);
    var x := Urlencode(j);
    assert x == e + rest by { UrlencodeHead(j); }
    assert e == "=" + v by { EmptyKeyItem(j[0], v); }
    Reassociate(x, e, v, rest);
  }

  /** `("=" + v) + rest` regrouped. */
  lemma Reassociate(x: string, e: string, v: string, rest: string)
    requires x == e + rest && e == "=" + v
    ensures x == "=" + (v + rest)
  {
  }

  /** An item with an empty key encodes as `=` and its value's encoding. */
  lemma EmptyKeyItem(item: (string, string), v: string)
    requires item.0 == "" && v == QuotePlus(item.1)
    ensures EncodeItem(item) == "=" + v
  {
    assert QuotePlus(item.0) == "";
  }

  /** An encoding `=`, `v`, `rest` with `v` non-empty gives the query `?`,
      `v` without its first character, then `rest`. */
  lemma QueryOfLostValueChar(j: Entries<string>, v: string, rest: string)
    requires v != "" && Urlencode(j) == "=" + (v + rest)
    ensures QueryOf(j) == "?" + v[1..] + rest
  {
    QueryOfLeadingEquals(j, v + rest);
    assert (v + rest)[1..] == v[1..] + rest;
  }

  /** The encoding is the first item's, then `&` and the rest when there is
      more. */
  lemma UrlencodeHead(j: Entries<string>)
    requires j != []
    ensures Urlencode(j) == EncodeItem(j[0]) + (if |j| > 1 then "&" + Urlencode(j[1..]) else "")
  {
    UrlencodeShape(j);
  }

  /** When the encoding starts with `=`, cutting `?=` and one more character
      off and putting `?` back leaves `?` and what followed that character. */
  lemma QueryOfLeadingEquals(j: Entries<string>, after: string)
    requires Urlencode(j) == "=" + after
    ensures QueryOf(j) == "?" + (if after == "" then "" else after[1..])
  {
    var concat := "?" + Urlencode(j);
    assert concat == ['?', '='] + after;
    assert StartsWith(concat, "?=");
    if after != "" {
      assert concat[3..] == after[1..];
    }
  }

  /** The merged query string always starts with `?`. */
  lemma ConcatenatedStartsWithQ(front: QueryArg, back: QueryArg)
    ensures |Concatenated(front, back)| >= 1 && Concatenated(front, back)[0] == '?'
  {
  }

  // ---------------------------------------------------------------------
  // add_format and build_params

  /** The query already asks for JSON or XML: it mentions `_format`, and
      lower-cased it holds `_format=json` or `_format=xml`. */
  predicate HasFormat(allParam: string) {
    Contains(allParam, "_format")
      && (Contains(Lower(allParam), "_format=json") || Contains(Lower(allParam), "_format=xml"))
  }

  /** What `add_format(all_param)` returns. */
  function FormatAdded(allParam: string): string {
    if HasFormat(allParam) then allParam
    else (if allParam != "" then allParam + "&" else "?") + "_format=json"
  }

  /** `add_format` */
  method AddFormat(allParam: string) returns (r: string)
    ensures r == FormatAdded(allParam)
  {
    r := allParam;
    if Contains(r, "_format") {
      if Contains(Lower(r), "_format=json") {
        return;
      } else if Contains(Lower(r), "_format=xml") {
        return;
      }
    }
    if r != "" {
      r := r + "&";
    } else {
      r := "?";
    }
    r := r + "_format=json";
  }

  /** The result always asks for JSON or XML, and only extends its input:
      either it is the input, or the input followed by `&_format=json`, or
      `?_format=json` for the empty string. */
  lemma FormatAddedAsks(allParam: string)
    ensures HasFormat(FormatAdded(allParam))
    ensures var r := FormatAdded(allParam);
      r == allParam || r == allParam + "&_format=json" || (allParam == "" && r == "?_format=json")
  {
    if !HasFormat(allParam) {
      var head := if allParam != "" then allParam + "&" else "?";
      assert FormatAdded(allParam) == head + "_format=json";
      FormatSuffixAsks(head);
      if allParam != "" {
        assert head + "_format=json" == allParam + "&_format=json";
      }
    }
  }

  /** Anything followed by `_format=json` asks for JSON. */
  lemma FormatSuffixAsks(head: string)
    ensures HasFormat(head + "_format=json")
  {
    FormatSuffixMentions(head);
    FormatSuffixLower(head);
  }

  /** `_format` occurs in anything ending with `_format=json`. */
  lemma FormatSuffixMentions(head: string)
    ensures Contains(head + "_format=json", "_format")
  {
    ContainsSuffix(head, "_format");
    ContainsExtend([], head + "_format", "=json", "_format");
    assert [] + (head + "_format") + "=json" == head + "_format=json";
  }

  /** `_format=json` survives lower-casing. */
  lemma FormatSuffixLower(head: string)
    ensures Contains(Lower(head + "_format=json"), "_format=json")
  {
    LowerFormatJson();
    ContainsLowerSuffix(head, "_format=json");
  }

  lemma LowerFormatJson()
    ensures Lower("_format=json") == "_format=json"
  {
    LowerFixed("_format=json");
  }

  /** A suffix that lower-casing leaves alone occurs in the lower-cased
      string. */
  lemma ContainsLowerSuffix(head: string, t: string)
    requires Lower(t) == t
    ensures Contains(Lower(head + t), t)
  {
    LowerConcat(head, t);
    ContainsSuffix(Lower(head), t);
  }

  /** A query that never mentions `_format` gets `_format=json` appended
      after `&`, or after `?` when it is empty. */
  lemma FormatAddedAppends(allParam: string)
    requires !Contains(allParam, "_format")
    ensures FormatAdded(allParam) == (if allParam != "" then allParam + "&" else "?") + "_format=json"
  {
  }

  /** Adding the format twice is adding it once. */
  lemma FormatAddedIdempotent(allParam: string)
    ensures FormatAdded(FormatAdded(allParam)) == FormatAdded(allParam)
  {
    FormatAddedAsks(allParam);
  }

  /** What `build_params(get, srtc, key)` returns: block, then add, then
      merge and encode, then make sure a format is asked for. */
  function OutboundQuery(get: QueryArg, srtc: Option<Policy>, key: Option<string>): string {
    FormatAdded(Concatenated(BlockParams(get, srtc), PairList(AddedParams(srtc, key))))
  }

  /** The ordered dictionary behind the outbound query, before encoding. */
  function OutboundParams(get: QueryArg, srtc: Option<Policy>, key: Option<string>): Entries<string> {
    Joined(BlockParams(get, srtc), PairList(AddedParams(srtc, key)))
  }

  /** `build_params` */
  method BuildParams(get: QueryArg, srtc: Option<Policy>, key: Option<string>) returns (allParam: string)
    ensures allParam == OutboundQuery(get, srtc, key)
  {
    var urlParam := BlockParams(get, srtc);
    var addParam := AddParams(srtc, key);
    allParam := ConcatParms(urlParam, PairList(addParam));
    allParam := AddFormat(allParam);
  }

  /** Without a policy that overrides search, the block and add lists and
      the key play no part. */
  lemma OutboundWithoutOverride(get: QueryArg, srtc: Option<Policy>, key: Option<string>)
    requires !Overrides(srtc)
    ensures OutboundQuery(get, srtc, key) == OutboundQuery(get, None, None)
    ensures OutboundParams(get, srtc, key) == PutAll([], PartItems(get))
    ensures get.Mapping? && WellFormed(get) ==> OutboundParams(get, srtc, key) == get.entries
    ensures get.Mapping? && WellFormed(get) && (get.entries == [] || get.entries[0].0 != "") ==>
      OutboundQuery(get, srtc, key) == FormatAdded("?" + Urlencode(get.entries))
  {
    assert PartItems(PairList([])) == [];
    if get.Mapping? && WellFormed(get) {
      OwnRequestParams(get, srtc, key);
      if get.entries == [] || get.entries[0].0 != "" {
        OwnRequestQuery(get, srtc, key);
      }
    }
  }

  /** Without an overriding policy a dictionary request is merged into
      itself. */
  lemma OwnRequestParams(get: QueryArg, srtc: Option<Policy>, key: Option<string>)
    requires !Overrides(srtc) && get.Mapping? && WellFormed(get)
    ensures OutboundParams(get, srtc, key) == get.entries
  {
    assert PartItems(PairList([])) == [];
    PutAllFresh(get.entries);
  }

  /** ... and, its first key not being empty, encoded whole behind `?`. */
  lemma OwnRequestQuery(get: QueryArg, srtc: Option<Policy>, key: Option<string>)
    requires !Overrides(srtc) && get.Mapping? && WellFormed(get)
    requires get.entries == [] || get.entries[0].0 != ""
    ensures OutboundQuery(get, srtc, key) == FormatAdded("?" + Urlencode(get.entries))
  {
    OwnRequestParams(get, srtc, key);
    QueryOfNoTrim(get.entries);
  }

  /** With a policy that overrides search and a dictionary of parameters
      (empty or not):
      every parameter the add list injects is present with the value its last
      template gives (blocking cannot strip it); every key present is either
      an unblocked key of the request or an injected one; and an unblocked,
      not injected key keeps the request's value. */
  lemma OutboundWithOverride(get: QueryArg, srtc: Option<Policy>, key: Option<string>, k: string)
    requires Overrides(srtc) && get.Mapping?
    ensures var added := ItemPairs(AddedParams(srtc, key));
      k in Keys(added) ==> Get(OutboundParams(get, srtc, key), k) == LastValue(added, k)
    ensures var added := ItemPairs(AddedParams(srtc, key));
      k in Keys(OutboundParams(get, srtc, key)) <==>
        (k in Keys(get.entries) && k !in srtc.value.searchBlock) || k in Keys(added)
    ensures var added := ItemPairs(AddedParams(srtc, key));
      WellFormed(get) && k !in Keys(added) && k !in srtc.value.searchBlock ==>
        Get(OutboundParams(get, srtc, key), k) == Get(get.entries, k)
  {
    var added := AddedParams(srtc, key);
    assert PartItems(PairList(added)) == ItemPairs(added) by {
      if added == [] {
        assert ItemPairs(added) == [];
      }
    }
    if get.entries == [] {
      assert BlockParams(get, srtc) == Text("");
      JoinedFacts(Text(""), PairList(added), k);
    } else {
      var blocked := BlockParams(get, srtc);
      var front := QueryString(get, srtc.value.searchBlock);
      assert blocked == Mapping(front);
      QueryStringKeeps(get, srtc.value.searchBlock, k);
      JoinedFacts(blocked, PairList(added), k);
      if front == [] {
        assert PartItems(blocked) == [];
      } else {
        assert PartItems(blocked) == front;
      }
      if WellFormed(get) && k !in srtc.value.searchBlock && k in Keys(front) {
        LastValueDistinct(front, k);
      }
    }
  }

  /** In a dictionary whose keys are distinct the last value of a key is its
      only value. */
  lemma {:induction false} LastValueDistinct(e: Entries<string>, k: string)
    requires DistinctKeys(e)
    ensures LastValue(e, k) == Get(e, k)
    decreases |e|
  {
    if e != [] {
      var init := e[..|e| - 1];
      var last := e[|e| - 1];
      LastValueDistinct(init, k);
      GetAppend(init, last, k);
      assert init + [last] == e;
      if last.0 == k {
        assert k !in Keys(init);
      }
    }
  }

  /** Looking a key up after appending one item. */
  lemma {:induction false} GetAppend(d: Entries<string>, item: (string, string), k: string)
    ensures Get(d + [item], k) == if k in Keys(d) then Get(d, k) else if item.0 == k then Some(item.1) else None
    decreases |d|
  {
    if d == [] {
      assert d + [item] == [item];
    } else {
      assert (d + [item])[1..] == d[1..] + [item];
      assert Keys(d) == [d[0].0] + Keys(d[1..]);
      GetAppend(d[1..], item, k);
    }
  }

  /** A request carrying an access token and `_count=10`, with the OAuth
      keys stripped and no policy: the upstream query is
      `?_count=10&_format=json`. */
  lemma OutboundScenario()
    ensures OutboundQuery(Mapping(StripOAuth(Mapping([("access_token", "abc"), ("_count", "10")]))), None, None)
      == "?_count=10&_format=json"
  {
    ScenarioStripped();
    ScenarioQuery();
    ScenarioFormat();
  }

  /** The steps of the scenario above, one fact each. */
  lemma ScenarioStripped()
    ensures StripOAuth(Mapping([("access_token", "abc"), ("_count", "10")])) == [("_count", "10")]
  {
  }

  lemma ScenarioQuery()
    ensures Concatenated(BlockParams(Mapping([("_count", "10")]), None), PairList(AddedParams(None, None))) == "?_count=10"
  {
    ScenarioJoined();
    ScenarioQueryOf([("_count", "10")]);
  }

  lemma ScenarioQueryOf(e: Entries<string>)
    requires e == [("_count", "10")]
    ensures QueryOf(e) == "?_count=10"
  {
    QueryOfPlain(e);
    ScenarioEncoded();
    ScenarioPrefixed(Urlencode(e));
  }

  /** Literal concatenations, kept as their own lemmas so that the solver
      does not unfold the functions above on these literals. */
  lemma ScenarioPrefixed(u: string)
    requires u == "_count=10"
    ensures "?" + u == "?_count=10"
  {
  }

  lemma ScenarioJoined()
    ensures Joined(BlockParams(Mapping([("_count", "10")]), None), PairList(AddedParams(None, None))) == [("_count", "10")]
  {
    assert PartItems(PairList([])) == [];
  }

  lemma ScenarioEncoded()
    ensures Urlencode([("_count", "10")]) == "_count=10"
  {
    ScenarioItem("_count", "10");
    ScenarioSingle([("_count", "10")], "_count=10");
  }

  lemma ScenarioItem(k: string, v: string)
    requires k == "_count" && v == "10"
    ensures EncodeItem((k, v)) == "_count=10"
  {
    QuotePlusSafe(k);
    QuotePlusSafe(v);
  }

  lemma ScenarioSingle(j: Entries<string>, e: string)
    requires |j| == 1 && EncodeItem(j[0]) == e
    ensures Urlencode(j) == e
  {
    UrlencodeShape(j);
  }

  lemma ScenarioNoFormat()
    ensures !Contains("?_count=10", "_format")
  {
    if Contains("?_count=10", "_format") {
      ContainsChar("?_count=10", "_format", 1);
      assert false;
    }
  }

  lemma ScenarioFormat()
    ensures FormatAdded("?_count=10") == "?_count=10&_format=json"
  {
    ScenarioNoFormat();
    FormatAddedAppends("?_count=10");
    ScenarioAppended();
  }

  lemma ScenarioAppended()
    ensures "?_count=10" + "&" + "_format=json" == "?_count=10&_format=json"
  {
  }

  // ---------------------------------------------------------------------
  // prepend_q

  /** `prepend_q(pass_params)`: a `?` in front of a non-empty string that
      lacks one. */
  function PrependQ(passParams: string): (r: string)
    ensures passParams == "" ==> r == ""
    ensures passParams != "" ==> StartsWith(r, "?") && (r == passParams || r == "?" + passParams)
    ensures StartsWith(passParams, "?") ==> r == passParams
  {
    if |passParams| > 0 && !StartsWith(passParams, "?") then "?" + passParams else passParams
  }

  /** Prepending twice is prepending once. */
  lemma PrependQIdempotent(passParams: string)
    ensures PrependQ(PrependQ(passParams)) == PrependQ(passParams)
  {
  }
}
