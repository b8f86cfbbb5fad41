/** The identifier helpers that read a user's crosswalk: the id to send
    upstream for a resource (`masked_id`), the user's patient id
    (`crosswalk_patient_id`) and the FHIR reference built from it
    (`dt_patient_reference`). The `Crosswalk` table is a map from user to
    crosswalk entry. */
module Crosswalks {
  import opened Wrappers
  import opened Strings
  import opened Models
  import opened AccessControl

  /** `str(orig_id)`: the id as given, or `"None"` when there is none. */
  function IdText(origId: Option<string>): string {
    if origId.None? then "None" else origId.value
  }

  /** The crosswalk's id replaces the path id: the policy masks ids, the
      user has a crosswalk, and the resource type is the one the crosswalk's
      source is sharded by, ignoring case. */
  predicate Substitutes(resType: string, crosswalk: Option<Crosswalk>, srtc: Option<Policy>) {
    Masked(srtc) && crosswalk.Some?
      && Lower(resType) == Lower(crosswalk.value.fhirSource.shardBy)
  }

  /** `masked_id(res_type, crosswalk, srtc, orig_id, slash)` */
  function MaskedId(resType: string, crosswalk: Option<Crosswalk>, srtc: Option<Policy>,
                    origId: Option<string>, slash: bool): (id: string)
    ensures slash ==> |id| >= 1 && id[|id| - 1] == '/'
  {
    var id := if Substitutes(resType, crosswalk, srtc) then crosswalk.value.fhirId else IdText(origId);
    if slash then id + "/" else id
  }

  /** The id is the crosswalk's `fhir_id` under the three-way condition and
      `str(orig_id)` otherwise, followed by `/` exactly when `slash` is set:
      the answers with and without the slash differ by that one character. */
  lemma MaskedIdCases(resType: string, crosswalk: Option<Crosswalk>, srtc: Option<Policy>,
                      origId: Option<string>)
    ensures srtc.None? || !srtc.value.overrideUrlId ==> MaskedId(resType, crosswalk, srtc, origId, false) == IdText(origId)
    ensures crosswalk.None? ==> MaskedId(resType, crosswalk, srtc, origId, false) == IdText(origId)
    ensures crosswalk.Some? && Lower(resType) != Lower(crosswalk.value.fhirSource.shardBy) ==>
      MaskedId(resType, crosswalk, srtc, origId, false) == IdText(origId)
    ensures Masked(srtc) && crosswalk.Some? && Lower(resType) == Lower(crosswalk.value.fhirSource.shardBy) ==>
      MaskedId(resType, crosswalk, srtc, origId, false) == crosswalk.value.fhirId
    ensures MaskedId(resType, crosswalk, srtc, origId, true) == MaskedId(resType, crosswalk, srtc, origId, false) + "/"
  {
  }

  /** The resource type is matched ignoring case: any casing of the same
      name gives the same id. */
  lemma MaskedIdIgnoresCase(resType: string, crosswalk: Option<Crosswalk>, srtc: Option<Policy>,
                            origId: Option<string>, slash: bool)
    ensures MaskedId(Lower(resType), crosswalk, srtc, origId, slash) == MaskedId(resType, crosswalk, srtc, origId, slash)
  {
    LowerIdempotent(resType);
  }

  /** `crosswalk_patient_id(user)`: the user's `fhir_id` when they have a
      crosswalk entry with a non-empty id. */
  function CrosswalkPatientId<U>(crosswalks: map<U, Crosswalk>, user: U): (r: Option<string>)
    ensures r.Some? <==> user in crosswalks && crosswalks[user].fhirId != ""
    ensures r.Some? ==> r.value == crosswalks[user].fhirId
  {
    if user in crosswalks && crosswalks[user].fhirId != "" then Some(crosswalks[user].fhirId) else None
  }

  /** The `{'reference': patient}` dictionary. */
  datatype Reference = Reference(reference: string)

  /** `dt_patient_reference(user)`; `None` stands for the absent user. */
  function DtPatientReference<U>(crosswalks: map<U, Crosswalk>, user: Option<U>): (r: Option<Reference>)
  {
    if user.Some? then
      var patient := CrosswalkPatientId(crosswalks, user.value);
      if patient.Some? then Some(Reference(patient.value)) else None
    else None
  }

  /** A reference is produced exactly for a present user whose crosswalk
      holds a non-empty id, and it refers to that id. */
  lemma DtPatientReferenceIff<U>(crosswalks: map<U, Crosswalk>, user: Option<U>)
    ensures DtPatientReference(crosswalks, user).Some? <==>
      user.Some? && user.value in crosswalks && crosswalks[user.value].fhirId != ""
    ensures DtPatientReference(crosswalks, user).Some? ==>
      DtPatientReference(crosswalks, user).value.reference == crosswalks[user.value].fhirId
      && CrosswalkPatientId(crosswalks, user.value) == Some(DtPatientReference(crosswalks, user).value.reference)
  {
  }
}
