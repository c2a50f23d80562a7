/**
 * The slice of the FHIR DSTU1 object model the validators and the create flow read: resource
 * types, the subject/patient references of a resource, the encounter type text, observation
 * performers, a composition's confidentiality code, feed entries and validation messages.
 */
module Fhir {
  import opened Domain

  /** OperationOutcome.IssueSeverity, most severe first. */
  datatype IssueSeverity = fatal | error | warning | information

  /** Rank on the severity scale: a higher rank is more severe. */
  function SeverityRank(s: IssueSeverity): nat
  {
    match s
    case fatal => 3
    case error => 2
    case warning => 1
    case information => 0
  }

  /** `a` is strictly more severe than `b`. */
  predicate MoreSevere(a: IssueSeverity, b: IssueSeverity)
  {
    SeverityRank(a) > SeverityRank(b)
  }

  /** A validation message: an issue code, the location it concerns, its text and its severity. */
  datatype ValidationMessage = ValidationMessage(code: string, location: string, message: string, severity: IssueSeverity)

  /** The resource types of FHIR DSTU1. */
  datatype ResourceType =
    | AdverseReaction | Alert | AllergyIntolerance | Binary | CarePlan | Composition | ConceptMap
    | Condition | Conformance | Device | DeviceObservationReport | DiagnosticOrder | DiagnosticReport
    | DocumentManifest | DocumentReference | Encounter | FamilyHistory | Group | ImagingStudy
    | Immunization | ImmunizationRecommendation | List | Location | Media | Medication
    | MedicationAdministration | MedicationDispense | MedicationPrescription | MedicationStatement
    | MessageHeader | Observation | OperationOutcome | Order | OrderResponse | Organization | Other
    | Patient | Practitioner | Procedure | Profile | Provenance | Query | Questionnaire | RelatedPerson
    | SecurityEvent | Specimen | Substance | Supply | ValueSet

  /** ResourceType.values(), in declaration order. */
  const AllResourceTypes: seq<ResourceType> :=
    [AdverseReaction, Alert, AllergyIntolerance, Binary, CarePlan, Composition, ConceptMap]
    + [Condition, Conformance, Device, DeviceObservationReport, DiagnosticOrder, DiagnosticReport, DocumentManifest]
    + [DocumentReference, ResourceType.Encounter, FamilyHistory, Group, ImagingStudy, Immunization, ImmunizationRecommendation]
    + [List, Location, Media, Medication, MedicationAdministration, MedicationDispense, MedicationPrescription]
    + [MedicationStatement, MessageHeader, Observation, OperationOutcome, Order, OrderResponse, Organization]
    + [Other, Patient, Practitioner, Procedure, Profile, Provenance, Query]
    + [Questionnaire, RelatedPerson, SecurityEvent, Specimen, Substance, Supply, ValueSet]

  /**
   * A resource as the validators see it. `subject` and `patient` are the reference values of
   * the children of those names, None when the resource type has no such child;
   * `encounterType` is the text of the first `type` concept; `performers` the observation's
   * performer references (None for a null list, None entries for null references);
   * `confidentiality` the code of a composition's confidentiality coding.
   */
  datatype Resource = Resource(
    resourceType: ResourceType,
    subject: Option<seq<string>>,
    patient: Option<seq<string>>,
    encounterType: Option<string>,
    performers: Option<seq<Option<string>>>,
    confidentiality: Option<string>)

  datatype AtomEntry = AtomEntry(id: string, resource: Resource)

  /** A list of validation messages that validators append to in place. */
  class ValidationMessages {
    var messages: seq<ValidationMessage>

    constructor ()
      ensures messages == []
    {
      messages := [];
    }

    method Add(m: ValidationMessage)
      modifies this
      ensures messages == old(messages) + [m]
    {
      messages := messages + [m];
    }
  }

  /** The position of a type in ResourceType.values(): every type is listed. */
  function Ordinal(t: ResourceType): (k: nat)
    ensures k < |AllResourceTypes| && AllResourceTypes[k] == t
  {
    match t
    case AdverseReaction => 0
    case Alert => 1
    case AllergyIntolerance => 2
    case Binary => 3
    case CarePlan => 4
    case Composition => 5
    case ConceptMap => 6
    case Condition => 7
    case Conformance => 8
    case Device => 9
    case DeviceObservationReport => 10
    case DiagnosticOrder => 11
    case DiagnosticReport => 12
    case DocumentManifest => 13
    case DocumentReference => 14
    case Encounter => 15
    case FamilyHistory => 16
    case Group => 17
    case ImagingStudy => 18
    case Immunization => 19
    case ImmunizationRecommendation => 20
    case List => 21
    case Location => 22
    case Media => 23
    case Medication => 24
    case MedicationAdministration => 25
    case MedicationDispense => 26
    case MedicationPrescription => 27
    case MedicationStatement => 28
    case MessageHeader => 29
    case Observation => 30
    case OperationOutcome => 31
    case Order => 32
    case OrderResponse => 33
    case Organization => 34
    case Other => 35
    case Patient => 36
    case Practitioner => 37
    case Procedure => 38
    case Profile => 39
    case Provenance => 40
    case Query => 41
    case Questionnaire => 42
    case RelatedPerson => 43
    case SecurityEvent => 44
    case Specimen => 45
    case Substance => 46
    case Supply => 47
    case ValueSet => 48
  }
}
