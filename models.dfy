/** The records the pipeline reads: a resource type's policy (a
    `SupportedResourceType` row), a user's crosswalk (a `Crosswalk` row with
    its `fhir_source`), and the upstream server settings
    (`settings.FHIR_SERVER_CONF`). The pipeline only reads them; lookups by
    key are maps handed in by the caller. */
module Models {
  import opened Wrappers

  /** What `get_search_add()` returns: a list of templates or a single one. */
  datatype Templates = TemplateList(items: seq<string>) | SingleTemplate(item: string)

  /** The controls configured for one resource type. */
  datatype Policy = Policy(
    resourceName: string,
    interactions: seq<string>,    // get_supported_interaction_types()
    overrideSearch: bool,
    searchBlock: seq<string>,     // get_search_block()
    searchAdd: Templates,         // get_search_add()
    overrideUrlId: bool)

  /** The upstream source a user's identity is keyed on. */
  datatype FhirSource = FhirSource(shardBy: string)

  /** A user's crosswalk entry: their resource id upstream. */
  datatype Crosswalk = Crosswalk(fhirId: string, fhirSource: FhirSource)

  /** `FHIR_SERVER_CONF['REWRITE_FROM']`: a list of URLs, one URL, or a value
      of neither type. */
  datatype RewriteFrom = RewriteList(urls: seq<string>) | RewriteUrl(url: string) | NoRewrite

  /** `settings.FHIR_SERVER_CONF`; any of the URL parts may be `None`. */
  datatype ServerConf = ServerConf(
    server: Option<string>,
    path: Option<string>,
    release: Option<string>,
    rewriteFrom: RewriteFrom)
}
