/**
 * ResourceValidator: every resource type is first given the default validator, then four
 * types get their own; a feed is validated entry by entry with the validator of the entry's
 * resource type, and the messages are concatenated in entry order.
 */
module ResourceValidator {
  import opened Domain
  import opened Fhir

  const Invalid := "invalid"
  const CodeUnknown := "code-unknown"

  /** The validators an entry can be dispatched to; what each checks is not part of this model. */
  datatype EntryValidator =
    | DefaultValidator
    | ConditionValidator
    | MedicationPrescriptionValidator
    | ImmunizationValidator
    | ProcedureValidator

  /** The validator a type is dispatched to once the map is built. */
  function ValidatorFor(t: ResourceType): EntryValidator
  {
    match t
    case Condition => ConditionValidator
    case MedicationPrescription => MedicationPrescriptionValidator
    case Immunization => ImmunizationValidator
    case Procedure => ProcedureValidator
    case _ => DefaultValidator
  }

  /** The messages of a feed: each entry's validator output, concatenated in entry order. */
  function FeedMessages(feed: seq<AtomEntry>, validators: map<ResourceType, EntryValidator>,
                        run: (EntryValidator, AtomEntry) -> seq<ValidationMessage>): seq<ValidationMessage>
    requires forall t :: t in validators
  {
    if |feed| == 0 then []
    else run(validators[feed[0].resource.resourceType], feed[0]) + FeedMessages(feed[1..], validators, run)
  }

  /** Validating two feeds one after the other yields the messages of their concatenation. */
  lemma {:induction false} FeedMessagesAppend(a: seq<AtomEntry>, b: seq<AtomEntry>,
                                              validators: map<ResourceType, EntryValidator>,
                                              run: (EntryValidator, AtomEntry) -> seq<ValidationMessage>)
    requires forall t :: t in validators
    ensures FeedMessages(a + b, validators, run) == FeedMessages(a, validators, run) + FeedMessages(b, validators, run)
  {
    if |a| == 0 {
      assert a + b == b;
    } else {
      assert (a + b)[0] == a[0] && (a + b)[1..] == a[1..] + b;
      FeedMessagesAppend(a[1..], b, validators, run);
    }
  }

  /**
   * Each entry's own messages sit in the feed's messages between those of the entries before
   * it and those of the entries after it.
   */
  lemma EntryMessagesInPlace(feed: seq<AtomEntry>, i: nat, validators: map<ResourceType, EntryValidator>,
                             run: (EntryValidator, AtomEntry) -> seq<ValidationMessage>)
    requires forall t :: t in validators
    requires i < |feed|
    ensures FeedMessages(feed, validators, run)
            == FeedMessages(feed[..i], validators, run)
               + run(validators[feed[i].resource.resourceType], feed[i])
               + FeedMessages(feed[i + 1..], validators, run)
  {
    assert feed == feed[..i] + [feed[i]] + feed[i + 1..];
    FeedMessagesAppend(feed[..i] + [feed[i]], feed[i + 1..], validators, run);
    FeedMessagesAppend(feed[..i], [feed[i]], validators, run);
    assert [feed[i]][1..] == [];
  }

  /** One more element of a sequence extends its prefix by that element. */
  lemma PrefixStep<T>(s: seq<T>, i: nat)
    requires i < |s|
    ensures s[..i + 1] == s[..i] + [s[i]]
  {
  }

  class ResourceValidator {
    var resourceTypeValidatorMap: map<ResourceType, EntryValidator>

    /** Every type is mapped: the dispatch lookup never comes back empty. */
    predicate Valid()
      reads this
    {
      forall t :: t in resourceTypeValidatorMap
    }

    /**
     * The default for every type, then the four overrides: Condition, MedicationPrescription,
     * Immunization and Procedure get their own validator, every other type keeps the default.
     */
    constructor ()
      ensures Valid()
      ensures forall t :: resourceTypeValidatorMap[t] == ValidatorFor(t)
    {
      resourceTypeValidatorMap := map[];
      new;
      AssignDefaultValidatorToAllResourceTypes();
      resourceTypeValidatorMap := resourceTypeValidatorMap[Condition := ConditionValidator];
      resourceTypeValidatorMap := resourceTypeValidatorMap[MedicationPrescription := MedicationPrescriptionValidator];
      resourceTypeValidatorMap := resourceTypeValidatorMap[Immunization := ImmunizationValidator];
      resourceTypeValidatorMap := resourceTypeValidatorMap[Procedure := ProcedureValidator];
    }

    /** assignDefaultValidatorToAllResourceTypes: one put per value of ResourceType. */
    method AssignDefaultValidatorToAllResourceTypes()
      modifies this
      ensures Valid()
      ensures forall t :: resourceTypeValidatorMap[t] == DefaultValidator
    {
      var i := 0;
      while i < |AllResourceTypes|
        invariant 0 <= i <= |AllResourceTypes|
        invariant forall t :: t in AllResourceTypes[..i] ==>
                    t in resourceTypeValidatorMap && resourceTypeValidatorMap[t] == DefaultValidator
      {
        var resourceType := AllResourceTypes[i];
        PrefixStep(AllResourceTypes, i);
        resourceTypeValidatorMap := resourceTypeValidatorMap[resourceType := DefaultValidator];
        i := i + 1;
      }
      assert AllResourceTypes[..i] == AllResourceTypes;
      forall t
        ensures t in resourceTypeValidatorMap && resourceTypeValidatorMap[t] == DefaultValidator
      {
        var j := Ordinal(t);
      }
    }

    /** validate: each entry through the validator of its type, messages concatenated in order. */
    method Validate(feed: seq<AtomEntry>, run: (EntryValidator, AtomEntry) -> seq<ValidationMessage>)
      returns (validationMessages: seq<ValidationMessage>)
      requires Valid()
      ensures validationMessages == FeedMessages(feed, resourceTypeValidatorMap, run)
    {
      validationMessages := [];
      var i := 0;
      while i < |feed|
        invariant 0 <= i <= |feed|
        invariant validationMessages == FeedMessages(feed[..i], resourceTypeValidatorMap, run)
      {
        var atomEntry := feed[i];
        var validator := resourceTypeValidatorMap[atomEntry.resource.resourceType];
        assert feed[..i + 1] == feed[..i] + [atomEntry];
        FeedMessagesAppend(feed[..i], [atomEntry], resourceTypeValidatorMap, run);
        assert [atomEntry][1..] == [];
        validationMessages := validationMessages + run(validator, atomEntry);
        i := i + 1;
      }
      assert feed[..i] == feed;
    }
  }
}
