/**
 * ObservationPerformer: the provider reference an observation carries is its first
 * performer's; a performer without a reference yields the empty string.
 */
module ObservationPerformer {
  import opened Domain
  import opened Fhir

  /** canHandle: only observations have performers to extract. */
  predicate CanHandle(r: Resource)
  {
    r.resourceType == Observation
  }

  /**
   * extractUrls: no list for a null or empty performer list; otherwise a one-element list
   * with the first performer's reference, or "" when that reference is null.
   */
  function ExtractUrls(r: Resource): (urls: Option<seq<string>>)
    requires CanHandle(r)
    ensures urls.None? <==> r.performers.None? || |r.performers.value| == 0
    ensures urls.Some? ==> |urls.value| == 1
    ensures urls.Some? ==> var first := r.performers.value[0];
                           urls.value[0] == (if first.Some? then first.value else "")
  {
    var performers := r.performers;
    var url: Option<string> :=
      if performers.Some? && |performers.value| > 0 then
        Some(if performers.value[0].None? then "" else performers.value[0].value)
      else None;
    if url.None? then None else Some([url.value])
  }

  /** Later performers are ignored: adding performers after the first changes nothing. */
  lemma LaterPerformersIgnored(r: Resource, first: Option<string>, rest: seq<Option<string>>)
    requires CanHandle(r)
    ensures ExtractUrls(r.(performers := Some([first] + rest))) == ExtractUrls(r.(performers := Some([first])))
  {
  }
}
