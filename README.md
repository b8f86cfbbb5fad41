# Blue Button FHIR proxy: request and response rewriting

This project is a Dafny model of the helpers in `apps/fhir/bluebutton/utils.py`
that sit between an OAuth2-authenticated client and an upstream FHIR server.
It covers:

- **Outbound query parameters** (`query_params.dfy`):
  - OAuth keys are stripped;
  - a resource type's block list is applied, then its add list with the
    `%PATIENT%` template filled in;
  - the parts are merged into one ordered dictionary, urlencoded behind a `?`;
  - `_format=json` is added when the query does not ask for a format.
- **Access control** (`access_control.dfy`): the 404/403/allow decision on
  the resource type and interaction, the policy lookup, and the `masked` flag.
- **Identifiers** (`crosswalks.dfy`): `masked_id`, and the patient id and
  reference read from a user's crosswalk.
- **Upstream URLs** (`server_urls.dfy`): `notNone`, `FhirServerUrl`, the
  conformance URL, the default path, and this server's URL prefix.
- **Responses** (`response_masking.dfy`):
  - upstream URLs in a response body are replaced by this server's host path;
  - the caller's URL list is extended in place;
  - the text is handed on by format;
  - the output dictionary is filled in place.

Supporting modules:

- `strings.dfy`: the Python `str` operations used.
- `ordered_dicts.dfy`: `OrderedDict` as a list of items with distinct keys,
  plus a `Dict` object for code that fills a dictionary it was handed.
- `urlencoding.dfy`: `urlencode`/`quote_plus` as Python 3.7 and later compute them, with
  a decoder and a proof that decoding undoes encoding.
- `models.dfy`: the records read, which are the policy, the crosswalk and the
  server settings.

Database lookups become explicit maps:

- `SupportedResourceType` is a map from resource name to policy.
- `ResourceRouter` is a map from resource name to path.
- `Crosswalk` is a map from user to crosswalk entry.

`settings.FHIR_SERVER_CONF` is a `ServerConf` record. A Python `None` is
`Option.None`. A `TypeError` raised by `None + str` is `Result.TypeError`.
`kickout_403`/`kickout_404` are the `Kickout` datatype.

The code that loops or updates state is written as methods proved against
specification functions: `GetUrlQueryString`, `AddParams`, `ConcatParms`,
`AddFormat`, `BuildParams`, `FhirServerUrl`, `MaskListWithHost`,
`PostProcessRequest` and `BuildOutputDict`. The properties are proved as
lemmas about those functions.

Some behaviour of the code is worth noting, and the model keeps it:

- `add_format` appends `&_format=json` when `_format` is present with a value
  other than `json`/`xml`. It does not leave that query untouched.
- `concat_parms` cuts `?`, `=` and one more character off whenever the
  encoding starts with `=`, then puts the `?` back. So the `=` and the
  character after it are lost. For an empty key with a non-empty value, this
  loses the first character of the encoded value. That is a plain
  character of the value, or the `%` of an escaped one, which corrupts the
  value (`{'': 'é'}` gives `?C3%A9`). It does not only drop an empty leading
  pair.
- The 403 message reads `... FHIR resources on this FHIR sever.`
- `build_params` does not strip OAuth keys. `strip_oauth` does that, and the
  scenario lemma composes the two.

## Model

| member | source | states |
|---|---|---|
| ServerUrls.NotNone | apps/fhir/bluebutton/utils.py:55-64 | the value when present, the default otherwise; its role in `FhirServerUrl` is stated by `ServerUrls.ArgumentsWin` |
| ServerUrls.ArgumentsWin | apps/fhir/bluebutton/utils.py:380-385 | explicit server, path and release decide the URL whatever the settings say; a missing argument is filled in from the settings; the URL is `''` iff neither the argument nor the settings give a server |
| QueryParams.QueryStringKeeps | apps/fhir/bluebutton/utils.py:284-326 | keeps exactly the keys of a dictionary not in the skip list, with their values, never repeating a key; nothing for a non-dictionary |
| QueryParams.GetUrlQueryString | apps/fhir/bluebutton/utils.py:284-326 | the loop builds exactly the filtered dictionary |
| OrderedDicts.WithoutKeeps | apps/fhir/bluebutton/utils.py:311-319 | filtering keeps a key iff it was present and not skipped, with its value |
| OrderedDicts.WithoutConcat | apps/fhir/bluebutton/utils.py:311-319 | filtering item by item preserves order across concatenation |
| QueryParams.StripOAuthRemoves | apps/fhir/bluebutton/utils.py:67-85 | no OAuth key survives; every other key keeps its value |
| QueryParams.BlockParamsRemovesBlocked | apps/fhir/bluebutton/utils.py:88-112 | `''` for empty input; unchanged without an overriding policy; otherwise exactly the blocked keys removed, others kept with their values |
| QueryParams.Substituted | apps/fhir/bluebutton/utils.py:148-157 | a template without `%PATIENT%` is left as it is |
| QueryParams.SubstitutedPlaceholder | apps/fhir/bluebutton/utils.py:148-157 | in `pre%PATIENT%post` (no other `%`) the placeholder becomes the key, or `''` without one |
| Strings.ReplaceFirst | apps/fhir/bluebutton/utils.py:154 | `str.replace` replaces the first occurrence, keeps the text before it and goes on after it |
| QueryParams.AddParams | apps/fhir/bluebutton/utils.py:115-163 | the loop yields exactly the kept, substituted templates in order |
| QueryParams.AddedMembers | apps/fhir/bluebutton/utils.py:144-159 | a parameter is added iff some template not naming the resource type substitutes to it |
| QueryParams.AddedConcat | apps/fhir/bluebutton/utils.py:144-159 | templates are handled one by one, in order |
| QueryParams.AddedLength | apps/fhir/bluebutton/utils.py:144-159 | at most one parameter per template |
| QueryParams.AddedParamsCases | apps/fhir/bluebutton/utils.py:132-138 | nothing without an overriding policy; a single template acts as a one-item list |
| QueryParams.ItemPairSplits | apps/fhir/bluebutton/utils.py:183-187 | an item without `=` maps to the empty value; otherwise the key is the text before the first `=` and the value runs from there to the second `=` or to the end |
| QueryParams.ItemPairRoundTrip | apps/fhir/bluebutton/utils.py:183-187 | `k=v` reads back as `(k, v)` |
| QueryParams.JoinPart | apps/fhir/bluebutton/utils.py:175-201 | the loops over one part set each of its items in turn |
| QueryParams.ConcatParms | apps/fhir/bluebutton/utils.py:166-223 | the result is the merged dictionary urlencoded behind `?`, with the `?=` trim |
| QueryParams.PutAllKeys | apps/fhir/bluebutton/utils.py:177-201 | merging never moves a key; keys are those of either side |
| QueryParams.PutAllGet | apps/fhir/bluebutton/utils.py:177-201 | a key set later takes its last value, others keep theirs |
| QueryParams.PutAllDistinct | apps/fhir/bluebutton/utils.py:177-201 | each key appears once |
| QueryParams.PutAllAppend | apps/fhir/bluebutton/utils.py:175-201 | merging two lists in turn is merging their concatenation |
| QueryParams.PutAllFresh | apps/fhir/bluebutton/utils.py:175-179 | copying a dictionary's items into an empty `OrderedDict` gives the same items in the same order |
| QueryParams.JoinedFacts | apps/fhir/bluebutton/utils.py:172-201 | each key once; front keys keep their positions, and a front dictionary's own keys come first in its own order; the back part's value wins; an empty part contributes nothing |
| QueryParams.QueryOfPlain | apps/fhir/bluebutton/utils.py:203-208 | with a non-empty first key the result is `?` and the encoding, and parsing it gives the dictionary back |
| QueryParams.QueryOfEmptyFirst | apps/fhir/bluebutton/utils.py:205-206 | a leading empty pair is dropped with its `&` |
| QueryParams.QueryOfLostChar | apps/fhir/bluebutton/utils.py:205-206 | a leading empty key with a value loses `=` and the first character of the encoded value (`QuotePlus(v)[1..]` remains) |
| QueryParams.ConcatenatedStartsWithQ | apps/fhir/bluebutton/utils.py:203-208 | the result starts with `?` |
| Urlencoding.UrlencodeRoundTrip | apps/fhir/bluebutton/utils.py:203 | parsing the urlencoded dictionary gives the dictionary back |
| Urlencoding.UnquoteQuote | apps/fhir/bluebutton/utils.py:203 | decoding `quote_plus(s)` gives `s` |
| Urlencoding.QuotePlus | apps/fhir/bluebutton/utils.py:203 | the encoding holds no `&` or `=` and is empty iff its input is |
| Urlencoding.UrlencodeShape | apps/fhir/bluebutton/utils.py:203 | items joined as `k=v` with `&`, empty iff no items |
| QueryParams.AddFormat | apps/fhir/bluebutton/utils.py:261-281 | the step-by-step string equals the specified result |
| QueryParams.FormatAddedAsks | apps/fhir/bluebutton/utils.py:263-279 | the output always asks for json or xml; it is the input, the input plus `&_format=json`, or `?_format=json` for `''` |
| QueryParams.FormatAddedAppends | apps/fhir/bluebutton/utils.py:272-279 | a query not mentioning `_format` gets `_format=json` after `&`, or after `?` when empty |
| QueryParams.FormatAddedIdempotent | apps/fhir/bluebutton/utils.py:261-281 | adding the format twice is adding it once |
| QueryParams.BuildParams | apps/fhir/bluebutton/utils.py:226-258 | block, then add, then merge, then format |
| QueryParams.OutboundWithoutOverride | apps/fhir/bluebutton/utils.py:240-247 | without an overriding policy, policy and key have no effect, the merged dictionary is the request's own, same items in the same order, and (first key not empty) the query is `?`, the urlencoded request, then the format |
| QueryParams.OutboundWithOverride | apps/fhir/bluebutton/utils.py:240-247 | for any request dictionary, empty included: injected keys are always present with their last template value; present keys are unblocked request keys or injected ones; other keys keep the request's value |
| QueryParams.LastValueDistinct | apps/fhir/bluebutton/utils.py:177-179 | with distinct keys the last value is the only value |
| QueryParams.OutboundScenario | apps/fhir/bluebutton/utils.py:67-85 | `{access_token: abc, _count: 10}` with OAuth stripped and no policy gives `?_count=10&_format=json` |
| QueryParams.PrependQ | apps/fhir/bluebutton/utils.py:607-615 | `''` stays empty; otherwise the result starts with `?`, adding one only when missing |
| QueryParams.PrependQIdempotent | apps/fhir/bluebutton/utils.py:607-615 | prepending twice is prepending once |
| AccessControl.CheckAccess | apps/fhir/bluebutton/utils.py:402-420 | the 404 answer with its message exactly when the type has no policy |
| AccessControl.CheckAccessDecides | apps/fhir/bluebutton/utils.py:406-420 | allowed iff a policy exists and a supported interaction equals the requested one ignoring case; otherwise 403 with its message for a known type |
| AccessControl.CheckAccessIgnoresCase | apps/fhir/bluebutton/utils.py:409-410 | the requested interaction's case does not matter |
| AccessControl.CheckRtControls | apps/fhir/bluebutton/utils.py:423-431 | the type's policy iff it has one, filed under its own name |
| AccessControl.ControlsOfAllowedType | apps/fhir/bluebutton/utils.py:423-441 | an allowed type has controls; masking iff its policy overrides URL ids |
| Crosswalks.MaskedId | apps/fhir/bluebutton/utils.py:444-465 | with `slash` the id ends with `/` |
| Crosswalks.MaskedIdCases | apps/fhir/bluebutton/utils.py:453-465 | the crosswalk id only under the three-way condition, `str(orig_id)` otherwise; `/` appended exactly when asked |
| Crosswalks.MaskedIdIgnoresCase | apps/fhir/bluebutton/utils.py:457 | the resource type is matched ignoring case |
| Crosswalks.CrosswalkPatientId | apps/fhir/bluebutton/utils.py:656-668 | the user's `fhir_id` iff they have a crosswalk with a non-empty id |
| Crosswalks.DtPatientReferenceIff | apps/fhir/bluebutton/utils.py:645-653 | a reference iff the user is present and has a patient id, referring to that id |
| ServerUrls.FhirServerUrl | apps/fhir/bluebutton/utils.py:368-399 | the accumulated URL equals the specified one, including its `TypeError` cases |
| ServerUrls.ServerUrlShape | apps/fhir/bluebutton/utils.py:380-399 | server then path, ending with `/`; `''` iff no server; a release without its `/` gives the same URL |
| ServerUrls.Slashed | apps/fhir/bluebutton/utils.py:386-388 | the release ends with `/` and only gains one when missing |
| ServerUrls.BuildConformanceUrl | apps/fhir/bluebutton/utils.py:542-550 | a URL iff server, path and release are all set |
| ServerUrls.ConformanceFromBase | apps/fhir/bluebutton/utils.py:542-550 | ends in `/metadata`; relation to the base URL with and without the forced slash |
| ServerUrls.DefaultPathPriority | apps/fhir/bluebutton/utils.py:624-642 | crosswalk source, else router path, else the default URL; only the last can fail |
| ServerUrls.PrefixBeforeFirst | apps/fhir/bluebutton/utils.py:535-539 | `split(p)[0]` is the prefix before the first occurrence, or everything |
| ServerUrls.HostUrlIsPrefix | apps/fhir/bluebutton/utils.py:523-539 | a prefix of the full URL, followed by the resource type when it occurs, with no earlier occurrence |
| ResponseMasking.DropTrailingSlash | apps/fhir/bluebutton/utils.py:482-483 | one trailing `/` removed, nothing else changed |
| ResponseMasking.MaskWithThisUrl | apps/fhir/bluebutton/utils.py:468-489 | unchanged for empty text, empty URL, or no occurrence |
| ResponseMasking.MaskWithOwnUrl | apps/fhir/bluebutton/utils.py:482-485 | masking this host's own URL changes nothing |
| ResponseMasking.AppendMissingFacts | apps/fhir/bluebutton/utils.py:503-506 | the list stays a prefix, holds exactly the old entries and the extra ones, and a duplicate-free list stays duplicate-free |
| ResponseMasking.AppendMissingTail | apps/fhir/bluebutton/utils.py:503-506 | the appended part holds exactly the extra entries the caller's list lacked, each once, even when the caller's list holds duplicates |
| ResponseMasking.AppendMissingConcat | apps/fhir/bluebutton/utils.py:503-506 | the entries are taken one at a time in list order: appending for `a + b` is appending for `a`, then for `b` |
| ResponseMasking.WithRewriteFromFacts | apps/fhir/bluebutton/utils.py:503-509 | the same facts, appended part included, for a list; a single URL is appended exactly when missing; with neither the list is unchanged |
| ResponseMasking.MaskAllAppend | apps/fhir/bluebutton/utils.py:511-518 | replacements are applied sequentially, in list order |
| ResponseMasking.MaskAllUnchanged | apps/fhir/bluebutton/utils.py:511-518 | no listed URL occurs, so the text is unchanged |
| ResponseMasking.MaskedTextUnchanged | apps/fhir/bluebutton/utils.py:495-520 | unchanged for empty text, empty list, or no occurrence |
| ResponseMasking.MaskListWithHost | apps/fhir/bluebutton/utils.py:492-520 | the caller's list is extended in place only when there is work, and the text is masked by the extended list |
| ResponseMasking.AddRewriteFrom | apps/fhir/bluebutton/utils.py:503-509 | appends the missing `REWRITE_FROM` entries |
| ResponseMasking.MaskEach | apps/fhir/bluebutton/utils.py:511-518 | masks by each URL in turn |
| ResponseMasking.PostProcessRequest | apps/fhir/bluebutton/utils.py:584-604 | masks the text, then hands it on as XML or as JSON to parse |
| ResponseMasking.ProcessedFormats | apps/fhir/bluebutton/utils.py:586 | only `xml` in any case is XML; the masked text is kept |
| ResponseMasking.BuildOutputDict | apps/fhir/bluebutton/utils.py:553-581 | fills the caller's dictionary in place |
| ResponseMasking.OutputEntriesFromEmpty | apps/fhir/bluebutton/utils.py:563-579 | an empty dictionary gets exactly `resource_type`, `id`, `vid` if given, `bundle` |
| ResponseMasking.OutputEntriesGet | apps/fhir/bluebutton/utils.py:563-579 | the written keys read back their values; others are untouched |
| OrderedDicts.Dict.Set | apps/fhir/bluebutton/utils.py:563 | `od[k] = v` keeps keys distinct |
| OrderedDicts.PutKeys | apps/fhir/bluebutton/utils.py:179 | an existing key keeps its place; a new one is appended |
| OrderedDicts.PutGet | apps/fhir/bluebutton/utils.py:179 | `d[k] = v` sets `k` and leaves other keys alone |
| Strings.Split | apps/fhir/bluebutton/utils.py:183 | at least one field, none containing the separator, joining back to the input |
| Strings.SplitJoin | apps/fhir/bluebutton/utils.py:183 | splitting a join of separator-free fields gives them back |
| Strings.ReplaceBySelf | apps/fhir/bluebutton/utils.py:485 | replacing a pattern by itself changes nothing |
| Strings.ContainsIffOccurs | apps/fhir/bluebutton/utils.py:146 | the substring test agrees with an occurrence at some index |

## Left out

- `Urlencoding.QuotePlus`: models Python 3.7 and later, which leave `~` as it is.
  Python 2, served by the `try` branch of the import at utils.py:5-10, is not
  modelled at all (its `urlencode` also calls `str` on each value and fails on
  non-ASCII text). Python 3.0-3.6, served by the `except ImportError` branch,
  write `~` as `%7E`; that encoding is not modelled either.
- `request_call` (utils.py:38-52): an HTTP call, Django messages and a redirect.
- `bb_update_or_create` and `check_for_bb_text` (utils.py:329-365): database
  writes and reads with no logic of their own.
- `pretty_json` and the `json.loads` step of `post_process_request`: JSON
  serialisation and parsing are library calls. `PostProcessRequest` returns
  the masked text tagged with the format, and the parse and its failure are
  not modelled.
- The `DF_EXTRA_INFO` branch of `build_output_dict` (utils.py:570-577): the
  constant is `False`, so the branch is not modelled.
- Strings.Lower: Python's `lower()` is modelled for ASCII letters only.
- Django's `QueryDict` may hold several values per key. It is modelled as one
  value per key, the one `items()` yields.
- `str(key)` in `add_params` and `str(orig_id)` in `masked_id`: keys and ids
  are strings, or `None` (written `"None"` for `orig_id`).
- The `request` object: `get_host_url` takes `is_secure()`, `get_host()` and
  `get_full_path()` as parameters. The mask functions ignore it, as the
  source does.
- Truthiness of database rows and users: any present row or user is
  truthy.
- The `REWRITE_FROM` setting's type is one of: a list, a string, or neither.
- `mask_list_with_host`'s shared default list: it is never changed, because
  an empty list returns early.
- `apps/accounts/views/oauth2_profile.py` and
  `apps/fhir/bluebutton/views/vread.py` are not part of this model. The
  files behind `kickout_403`/`kickout_404`, the database models and the
  settings are not part of this model either.
