/** The resource-type policy checks of utils.py: whether an interaction is
    allowed on a resource type, the lookup of a type's policy, and whether
    that policy asks for ids to be masked. The `SupportedResourceType` table
    is a map from resource name to policy. */
module AccessControl {
  import opened Wrappers
  import opened Strings
  import opened Models

  /** The error responses the check can produce (`kickout_403`,
      `kickout_404`). */
  datatype Kickout = Kickout403(message: string) | Kickout404(message: string)

  /** Every policy is filed under its own resource name, as a lookup by
      `resource_name` guarantees. */
  predicate Keyed(policies: map<string, Policy>) {
    forall n :: n in policies ==> policies[n].resourceName == n
  }

  /** The supported interactions, lower-cased. */
  function LowerAll(interactions: seq<string>): (r: seq<string>)
    ensures |r| == |interactions|
  {
    seq(|interactions|, i requires 0 <= i < |interactions| => Lower(interactions[i]))
  }

  /** The message of the 404 answer. */
  function NotSupportedMessage(resourceType: string): string {
    resourceType + " is not a supported resource type on this FHIR server."
  }

  /** The message of the 403 answer. */
  function NotPermittedMessage(resourceType: string, intnType: string): string {
    "The interaction: " + intnType + " is not permitted on " + resourceType
      + " FHIR resources on this FHIR sever."
  }

  /** `check_access_interaction_and_resource_type(resource_type,
      intn_type)`: `None` stands for the `False` that lets the request
      through. */
  function CheckAccess(policies: map<string, Policy>, resourceType: string, intnType: string): (r: Option<Kickout>)
    ensures resourceType !in policies <==> r == Some(Kickout404(NotSupportedMessage(resourceType)))
  {
    if resourceType !in policies then Some(Kickout404(NotSupportedMessage(resourceType)))
    else if Lower(intnType) !in LowerAll(policies[resourceType].interactions) then
      Some(Kickout403(NotPermittedMessage(resourceType, intnType)))
    else None
  }

  /** The request is let through exactly when the type has a policy and one
      of its supported interactions equals the requested one ignoring case;
      otherwise the answer is 404 for an unknown type and 403 for a known
      one. */
  lemma CheckAccessDecides(policies: map<string, Policy>, resourceType: string, intnType: string)
    ensures CheckAccess(policies, resourceType, intnType).None? <==>
      resourceType in policies &&
      exists i :: 0 <= i < |policies[resourceType].interactions| &&
        Lower(policies[resourceType].interactions[i]) == Lower(intnType)
    ensures resourceType in policies && CheckAccess(policies, resourceType, intnType).Some? ==>
      CheckAccess(policies, resourceType, intnType) == Some(Kickout403(NotPermittedMessage(resourceType, intnType)))
  {
    if resourceType in policies {
      var ls := LowerAll(policies[resourceType].interactions);
      if Lower(intnType) in ls {
        var i :| 0 <= i < |ls| && ls[i] == Lower(intnType);
        assert Lower(policies[resourceType].interactions[i]) == Lower(intnType);
      } else {
        var ints := policies[resourceType].interactions;
        forall i | 0 <= i < |ints| ensures Lower(ints[i]) != Lower(intnType) {
          assert ls[i] == Lower(ints[i]);
        }
      }
    }
  }

  /** The check ignores the case of the requested interaction: asking in
      lower case is let through exactly when asking as given is. */
  lemma CheckAccessIgnoresCase(policies: map<string, Policy>, resourceType: string, intnType: string)
    ensures CheckAccess(policies, resourceType, Lower(intnType)).None?
      <==> CheckAccess(policies, resourceType, intnType).None?
  {
    LowerIdempotent(intnType);
  }

  /** `check_rt_controls(resource_type)`: the type's policy, if any. */
  function CheckRtControls(policies: map<string, Policy>, resourceType: string): (r: Option<Policy>)
    ensures r.Some? <==> resourceType in policies
    ensures r.Some? ==> r.value == policies[resourceType]
    ensures Keyed(policies) && r.Some? ==> r.value.resourceName == resourceType
  {
    if resourceType in policies then Some(policies[resourceType]) else None
  }

  /** `masked(srtc)`: a policy is present and asks for ids to be masked. */
  predicate Masked(srtc: Option<Policy>) {
    srtc.Some? && srtc.value.overrideUrlId
  }

  /** An access check that lets the request through implies the type has
      controls; ids of that type are masked exactly when its policy says
      so, and never for an unknown type. */
  lemma ControlsOfAllowedType(policies: map<string, Policy>, resourceType: string, intnType: string)
    ensures CheckAccess(policies, resourceType, intnType).None? ==> CheckRtControls(policies, resourceType).Some?
    ensures Masked(CheckRtControls(policies, resourceType)) <==>
      resourceType in policies && policies[resourceType].overrideUrlId
  {
  }
}
