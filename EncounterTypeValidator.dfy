/**
 * EncounterTypeValidator: an encounter whose type text is not in the reference list of
 * encounter types gets one "Invalid Encounter Type" error. The reference list is never
 * loaded, so every encounter gets it.
 */
module EncounterTypeValidator {
  import opened Domain
  import opened Fhir

  const InvalidEncounterType := "Invalid Encounter Type"

  /** findEncounterType: the reference list, not yet retrieved from the terminology server. */
  function FindEncounterType(): seq<string>
  {
    []
  }

  /** skipCheckForThisTypeOfEntry: no entry is skipped. */
  predicate SkipCheckForThisTypeOfEntry(entry: AtomEntry)
  {
    false
  }

  function InvalidTypeMessage(entryId: string): ValidationMessage
  {
    ValidationMessage("invalid", entryId, InvalidEncounterType, error)
  }

  /** The messages one entry adds, given the reference list of encounter types. */
  function TypeMessages(entry: AtomEntry, knownTypes: seq<string>): (added: seq<ValidationMessage>)
    ensures |added| <= 1
    ensures added == [] <==> entry.resource.encounterType.Some? && entry.resource.encounterType.value in knownTypes
    ensures added != [] ==> added == [InvalidTypeMessage(entry.id)]
  {
    var t := entry.resource.encounterType;
    if t.Some? && t.value in knownTypes then [] else [InvalidTypeMessage(entry.id)]
  }

  /** validate: appends to the caller's list; what was there stays. */
  method Validate(validationMessages: ValidationMessages, atomEntry: AtomEntry)
    modifies validationMessages
    ensures validationMessages.messages == old(validationMessages.messages) + TypeMessages(atomEntry, FindEncounterType())
  {
    var encounterType := atomEntry.resource.encounterType;
    if !(encounterType.Some? && encounterType.value in FindEncounterType()) {
      validationMessages.Add(InvalidTypeMessage(atomEntry.id));
    }
  }

  /** With the empty reference list, every entry is checked and gets exactly the one error. */
  lemma EveryEntryRejected(entry: AtomEntry)
    ensures !SkipCheckForThisTypeOfEntry(entry)
    ensures TypeMessages(entry, FindEncounterType()) == [InvalidTypeMessage(entry.id)]
  {
  }

  /** A type in the reference list would be accepted, whatever else the list holds. */
  lemma ListedTypeAccepted(entry: AtomEntry, before: seq<string>, after: seq<string>)
    requires entry.resource.encounterType.Some?
    ensures TypeMessages(entry, before + [entry.resource.encounterType.value] + after) == []
  {
    var known := before + [entry.resource.encounterType.value] + after;
    assert known[|before|] == entry.resource.encounterType.value;
  }
}
