/**
 * CodeValidatorFactory: four code validators keyed by a URL pattern, and an alias table
 * consulted first. A coding's system URL gets the validator of some key the (aliased) URL
 * contains; no such key means the code is not checked.
 */
module CodeValidatorFactory {
  import opened Domain

  /** The validators the factory hands out; how each checks a code is not part of this model. */
  datatype CodeValidator =
    | HttpCodeValidator(kind: string)
    | ValueSetCodeValidator
    | MedicationCodeValidator

  /** `key` occurs in `s` starting at position i. */
  predicate OccursAt(s: string, key: string, i: int)
  {
    0 <= i && i + |key| <= |s| && s[i..i + |key|] == key
  }

  /** `key` occurs in `s` (String.contains). */
  ghost predicate Contains(s: string, key: string)
  {
    exists i :: OccursAt(s, key, i)
  }

  /** A scan for `key`, one start position at a time. */
  function ContainsFrom(s: string, key: string, from: nat): (found: bool)
    ensures found <==> exists i :: from <= i && OccursAt(s, key, i)
    decreases |s| + 1 - from
  {
    if from + |key| > |s| then false
    else if s[from..from + |key|] == key then assert OccursAt(s, key, from); true
    else ContainsFrom(s, key, from + 1)
  }

  class CodeValidatorFactory {
    var codeValidatorMap: map<string, CodeValidator>
    var fhirTrMap: map<string, string>

    /** The four registrations, in the constructor's order, and the alias table. */
    constructor (refTermPattern: string, conceptPattern: string, valueSetPattern: string,
                 medicationUrlPattern: string, fhirTrMap: map<string, string>)
      ensures codeValidatorMap == map[refTermPattern := HttpCodeValidator("code")]
                                     [conceptPattern := HttpCodeValidator("uuid")]
                                     [valueSetPattern := ValueSetCodeValidator]
                                     [medicationUrlPattern := MedicationCodeValidator]
      ensures this.fhirTrMap == fhirTrMap
    {
      codeValidatorMap := map[];
      this.fhirTrMap := fhirTrMap;
      new;
      codeValidatorMap := codeValidatorMap[refTermPattern := HttpCodeValidator("code")];
      codeValidatorMap := codeValidatorMap[conceptPattern := HttpCodeValidator("uuid")];
      codeValidatorMap := codeValidatorMap[valueSetPattern := ValueSetCodeValidator];
      codeValidatorMap := codeValidatorMap[medicationUrlPattern := MedicationCodeValidator];
    }

    /** The URL the lookup matches against: the alias when there is one. */
    function EffectiveUrl(url: string): (effective: string)
      reads this
      ensures url in fhirTrMap ==> effective == fhirTrMap[url]
      ensures url !in fhirTrMap ==> effective == url
    {
      if url in fhirTrMap then fhirTrMap[url] else url
    }

    /**
     * getValidator: some validator whose key the effective URL contains, or none when no key
     * is contained. Which of several matching keys wins follows the map's iteration order,
     * so only "some matching key" is promised.
     */
    method GetValidator(url: string) returns (validator: Option<CodeValidator>)
      ensures validator.Some? <==> exists k :: k in codeValidatorMap && Contains(EffectiveUrl(url), k)
      ensures validator.Some? ==>
                exists k :: k in codeValidatorMap && Contains(EffectiveUrl(url), k) && validator.value == codeValidatorMap[k]
    {
      var effective := if url in fhirTrMap then fhirTrMap[url] else url;
      assert effective == EffectiveUrl(url);
      var keys := codeValidatorMap.Keys;
      while keys != {}
        invariant keys <= codeValidatorMap.Keys
        invariant forall k :: k in codeValidatorMap && k !in keys ==> !Contains(effective, k)
        decreases keys
      {
        var urlKey :| urlKey in keys;
        if ContainsFrom(effective, urlKey, 0) {
          assert Contains(effective, urlKey);
          return Some(codeValidatorMap[urlKey]);
        }
        assert !Contains(effective, urlKey);
        keys := keys - {urlKey};
      }
      return None;
    }
  }

  /**
   * With the four patterns distinct, the registration table has exactly four keys, and each
   * pattern keeps the validator registered for it: "code" for the ref-term pattern, "uuid"
   * for the concept pattern, then the value-set and medication validators.
   */
  lemma FourDistinctRegistrations(refTerm: string, concept: string, valueSet: string, medication: string)
    requires refTerm != concept && refTerm != valueSet && refTerm != medication
    requires concept != valueSet && concept != medication && valueSet != medication
    ensures var m := map[refTerm := HttpCodeValidator("code")][concept := HttpCodeValidator("uuid")]
                        [valueSet := ValueSetCodeValidator][medication := MedicationCodeValidator];
            |m.Keys| == 4 && m[refTerm] == HttpCodeValidator("code") && m[concept] == HttpCodeValidator("uuid")
            && m[valueSet] == ValueSetCodeValidator && m[medication] == MedicationCodeValidator
  {
    var m := map[refTerm := HttpCodeValidator("code")][concept := HttpCodeValidator("uuid")]
                [valueSet := ValueSetCodeValidator][medication := MedicationCodeValidator];
    assert m.Keys == {refTerm, concept, valueSet, medication};
  }
}
