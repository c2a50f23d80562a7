/**
 * EncounterValidationResponse: the error list a validation run produces. It is successful
 * exactly when the list is empty; errors are only ever appended.
 */
module ValidationResponse {
  import opened Domain
  import opened Fhir

  /** An error: the field it concerns, its type (an issue code) and the reason. */
  datatype Error = Error(field: string, errorType: string, reason: string)

  class EncounterValidationResponse {
    var errors: seq<Error>
    var encounterId: Option<string>
    var feed: Option<seq<AtomEntry>>

    /** A new response: no errors, no encounter id and no feed (the source leaves it null). */
    constructor ()
      ensures errors == [] && encounterId == None && feed == None
    {
      errors, encounterId, feed := [], None, None;
    }

    predicate IsSuccessful()
      reads this
    {
      |errors| == 0
    }

    predicate IsNotSuccessful()
      reads this
    {
      !IsSuccessful()
    }

    /** addError: appends exactly one error at the end. */
    method AddError(error: Error)
      modifies this
      ensures errors == old(errors) + [error]
      ensures encounterId == old(encounterId) && feed == old(feed)
      ensures !IsSuccessful()
    {
      errors := errors + [error];
    }

    method SetEncounterId(id: string)
      modifies this
      ensures encounterId == Some(id)
      ensures errors == old(errors) && feed == old(feed)
    {
      encounterId := Some(id);
    }

    method SetFeed(f: seq<AtomEntry>)
      modifies this
      ensures feed == Some(f)
      ensures errors == old(errors) && encounterId == old(encounterId)
    {
      feed := Some(f);
    }

    /**
     * mergeErrors: appends the other response's errors in their order, one addError at a
     * time; the other response is left as it was.
     */
    method MergeErrors(other: EncounterValidationResponse)
      requires other != this
      modifies this
      ensures errors == old(errors) + other.errors
      ensures encounterId == old(encounterId) && feed == old(feed)
      ensures IsSuccessful() <==> old(IsSuccessful()) && other.IsSuccessful()
    {
      var i := 0;
      while i < |other.errors|
        invariant 0 <= i <= |other.errors|
        invariant errors == old(errors) + other.errors[..i]
        invariant encounterId == old(encounterId) && feed == old(feed)
      {
        AddError(other.errors[i]);
        i := i + 1;
      }
      assert other.errors[..i] == other.errors;
    }
  }

  /** The error a validation message becomes: its location, code and text. */
  function ToError(m: ValidationMessage): Error
  {
    Error(m.location, m.code, m.message)
  }

  /**
   * The errors kept from a list of messages: those strictly more severe than a warning
   * (errors and fatal issues), in order.
   */
  function SevereErrors(messages: seq<ValidationMessage>): (errors: seq<Error>)
    ensures |errors| <= |messages|
  {
    if |messages| == 0 then []
    else
      var rest := SevereErrors(messages[1..]);
      if MoreSevere(messages[0].severity, warning) then [ToError(messages[0])] + rest else rest
  }

  /**
   * Exactly the messages more severe than a warning become errors, and there are none
   * exactly when every message is a warning or milder.
   */
  lemma {:induction false} SevereErrorsAreTheSevereMessages(messages: seq<ValidationMessage>)
    ensures var errors := SevereErrors(messages);
            && ((|errors| == 0) <==> forall i :: 0 <= i < |messages| ==> !MoreSevere(messages[i].severity, warning))
            && (forall m :: m in messages && MoreSevere(m.severity, warning) ==> ToError(m) in errors)
            && (forall e :: e in errors ==> exists m :: m in messages && MoreSevere(m.severity, warning) && e == ToError(m))
  {
    if |messages| > 0 {
      SevereErrorsAreTheSevereMessages(messages[1..]);
      assert forall m :: m in messages ==> m == messages[0] || m in messages[1..];
      assert forall i :: 1 <= i < |messages| ==> messages[i] == messages[1..][i - 1];
    }
  }

  /** Keeping the severe errors of two lists one after the other keeps them of the whole. */
  lemma {:induction false} SevereErrorsAppend(a: seq<ValidationMessage>, b: seq<ValidationMessage>)
    ensures SevereErrors(a + b) == SevereErrors(a) + SevereErrors(b)
  {
    if |a| == 0 {
      assert a + b == b;
    } else {
      assert (a + b)[1..] == a[1..] + b;
      SevereErrorsAppend(a[1..], b);
    }
  }

  /** fromValidationMessages: a response carrying the severe errors of the messages. */
  method FromValidationMessages(messages: seq<ValidationMessage>) returns (response: EncounterValidationResponse)
    ensures fresh(response)
    ensures response.errors == SevereErrors(messages)
    ensures response.IsSuccessful() <==> forall i :: 0 <= i < |messages| ==> messages[i].severity in {warning, information}
  {
    response := new EncounterValidationResponse();
    var i := 0;
    while i < |messages|
      invariant 0 <= i <= |messages|
      invariant response.errors == SevereErrors(messages[..i])
      invariant fresh(response)
    {
      assert messages[..i + 1] == messages[..i] + [messages[i]];
      SevereErrorsAppend(messages[..i], [messages[i]]);
      if MoreSevere(messages[i].severity, warning) {
        response.AddError(ToError(messages[i]));
      }
      i := i + 1;
    }
    assert messages[..i] == messages;
    SevereErrorsAreTheSevereMessages(messages);
  }

  /** createErrorResponse: one "invalid" error on field "Unknown" carrying the exception's message. */
  method CreateErrorResponse(exceptionMessage: string) returns (response: EncounterValidationResponse)
    ensures fresh(response)
    ensures response.errors == [Error("Unknown", "invalid", exceptionMessage)]
    ensures response.IsNotSuccessful()
  {
    response := new EncounterValidationResponse();
    response.AddError(Error("Unknown", "invalid", exceptionMessage));
  }
}
