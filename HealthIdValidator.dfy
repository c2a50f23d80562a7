/**
 * HealthIdValidator: every entry's subject (or, lacking a subject child, patient) reference
 * must be the patient reference path, ending in "/", followed by the encounter's health id,
 * compared trimmed and ignoring case. A composition without a subject stops the scan.
 */
module HealthIdValidator {
  import opened Domain
  import opened Fhir

  const HealthIdNotPresentInComposition := "Composition must have patient's Health Id in subject."
  const HealthIdNotMatch := "Patient's Health Id does not match."

  function NotPresentMessage(): ValidationMessage
  {
    ValidationMessage("invalid", "healthId", HealthIdNotPresentInComposition, error)
  }

  function MismatchMessage(entryId: string): ValidationMessage
  {
    ValidationMessage("invalid", entryId, HealthIdNotMatch, error)
  }

  /** StringUtils.ensureSuffix: `s` if it already ends in `suffix`, else `s + suffix`. */
  function EnsureSuffix(s: string, suffix: string): (r: string)
    ensures |suffix| <= |r| && r[|r| - |suffix|..] == suffix
    ensures s <= r && |r| <= |s| + |suffix|
  {
    if |suffix| <= |s| && s[|s| - |suffix|..] == suffix then s else s + suffix
  }

  /** String.trim treats every character up to U+0020 as blank. */
  predicate IsTrimmable(c: char)
  {
    c <= ' '
  }

  function TrimStart(s: string): string
  {
    if |s| > 0 && IsTrimmable(s[0]) then TrimStart(s[1..]) else s
  }

  function TrimEnd(s: string): string
  {
    if |s| > 0 && IsTrimmable(s[|s| - 1]) then TrimEnd(s[..|s| - 1]) else s
  }

  /** TrimStart drops exactly the leading blanks: what remains is a suffix starting with a non-blank. */
  lemma {:induction false} TrimStartDropsLeadingBlanks(s: string)
    ensures var t := TrimStart(s);
            && |t| <= |s| && t == s[|s| - |t|..]
            && (|t| > 0 ==> !IsTrimmable(t[0]))
            && forall i :: 0 <= i < |s| - |t| ==> IsTrimmable(s[i])
  {
    if |s| > 0 && IsTrimmable(s[0]) {
      TrimStartDropsLeadingBlanks(s[1..]);
    }
  }

  /** TrimEnd drops exactly the trailing blanks: what remains is a prefix ending with a non-blank. */
  lemma {:induction false} TrimEndDropsTrailingBlanks(s: string)
    ensures var t := TrimEnd(s);
            && |t| <= |s| && t == s[..|t|]
            && (|t| > 0 ==> !IsTrimmable(t[|t| - 1]))
            && forall i :: |t| <= i < |s| ==> IsTrimmable(s[i])
  {
    if |s| > 0 && IsTrimmable(s[|s| - 1]) {
      TrimEndDropsTrailingBlanks(s[..|s| - 1]);
    }
  }

  /** String.trim: blanks removed from both ends. */
  function Trim(s: string): string
  {
    TrimEnd(TrimStart(s))
  }

  /** Leading blanks never change what a reference trims to. */
  lemma {:induction false} TrimStartIgnoresPadding(pad: string, s: string)
    requires forall i :: 0 <= i < |pad| ==> IsTrimmable(pad[i])
    ensures TrimStart(pad + s) == TrimStart(s)
  {
    if |pad| > 0 {
      assert (pad + s)[1..] == pad[1..] + s;
      TrimStartIgnoresPadding(pad[1..], s);
    } else {
      assert pad + s == s;
    }
  }

  /** Character.toLowerCase on the ASCII letters. */
  function ToLower(c: char): char
  {
    if 'A' <= c <= 'Z' then (c as int + 32) as char else c
  }

  /** String.equalsIgnoreCase, for ASCII letters: same length, and equal character by character once lowered. */
  predicate EqualsIgnoreCase(a: string, b: string)
  {
    |a| == |b| && (|a| == 0 || (ToLower(a[0]) == ToLower(b[0]) && EqualsIgnoreCase(a[1..], b[1..])))
  }

  /** Every string equals itself ignoring case. */
  lemma {:induction false} EqualsIgnoreCaseReflexive(s: string)
    ensures EqualsIgnoreCase(s, s)
  {
    if |s| > 0 {
      EqualsIgnoreCaseReflexive(s[1..]);
    }
  }

  /** The reference an entry for `healthId` must carry. */
  function ExpectedUrl(referencePath: string, healthId: string): string
  {
    EnsureSuffix(referencePath, "/") + healthId
  }

  predicate MatchesExpected(referencePath: string, healthId: string, patientUrl: string)
  {
    EqualsIgnoreCase(Trim(ExpectedUrl(referencePath, healthId)), Trim(patientUrl))
  }

  /** Index of the last `c` in `s`, or -1 (String.lastIndexOf). */
  function LastIndexOf(s: string, c: char): (i: int)
    ensures -1 <= i < |s|
  {
    if |s| == 0 then -1
    else if s[|s| - 1] == c then |s| - 1
    else LastIndexOf(s[..|s| - 1], c)
  }

  /** LastIndexOf finds `c` where it answers an index, and no `c` after that index. */
  lemma {:induction false} LastIndexOfIsLast(s: string, c: char)
    ensures var i := LastIndexOf(s, c);
            && (0 <= i ==> s[i] == c)
            && forall j :: i < j < |s| ==> s[j] != c
  {
    if |s| > 0 && s[|s| - 1] != c {
      LastIndexOfIsLast(s[..|s| - 1], c);
    }
  }

  /** getHealthIdFromUrl: the text after the last '/', or the whole url when it has none. */
  function HealthIdFromUrl(url: string): string
  {
    url[LastIndexOf(url, '/') + 1..]
  }

  /** The id read from a URL is its last path segment: a slash-free suffix preceded by '/'. */
  lemma HealthIdIsLastSegment(url: string)
    ensures var healthId := HealthIdFromUrl(url);
            && '/' !in healthId
            && |healthId| <= |url| && healthId == url[|url| - |healthId|..]
            && (|healthId| < |url| ==> url[|url| - |healthId| - 1] == '/')
  {
    LastIndexOfIsLast(url, '/');
  }

  /** The health id read back from the expected reference is the one it was built from. */
  lemma HealthIdFromExpectedUrl(referencePath: string, healthId: string)
    requires '/' !in healthId
    ensures HealthIdFromUrl(ExpectedUrl(referencePath, healthId)) == healthId
  {
    var url := ExpectedUrl(referencePath, healthId);
    var prefix := EnsureSuffix(referencePath, "/");
    assert url[|prefix| - 1] == '/';
    LastIndexOfIsLast(url, '/');
    assert forall k :: |prefix| <= k < |url| ==> url[k] == healthId[k - |prefix|];
  }

  /** The expected reference is accepted, whatever blanks precede it. */
  lemma ExpectedUrlIsAccepted(referencePath: string, healthId: string, pad: string)
    requires forall i :: 0 <= i < |pad| ==> IsTrimmable(pad[i])
    ensures MatchesExpected(referencePath, healthId, pad + ExpectedUrl(referencePath, healthId))
  {
    TrimStartIgnoresPadding(pad, ExpectedUrl(referencePath, healthId));
    EqualsIgnoreCaseReflexive(Trim(ExpectedUrl(referencePath, healthId)));
  }

  /** Trailing blanks never change what a reference trims to. */
  lemma {:induction false} TrimEndIgnoresPadding(s: string, pad: string)
    requires forall i :: 0 <= i < |pad| ==> IsTrimmable(pad[i])
    ensures TrimEnd(s + pad) == TrimEnd(s)
  {
    if |pad| > 0 {
      assert (s + pad)[..|s + pad| - 1] == s + pad[..|pad| - 1];
      TrimEndIgnoresPadding(s, pad[..|pad| - 1]);
    } else {
      assert s + pad == s;
    }
  }

  /** A string holding a non-blank does not trim to nothing. */
  lemma NonBlankSurvivesTrimStart(s: string, k: nat)
    requires k < |s| && !IsTrimmable(s[k])
    ensures |TrimStart(s)| > 0
  {
    TrimStartDropsLeadingBlanks(s);
  }

  /** Once a string holds a non-blank, whatever follows it is left alone by TrimStart. */
  lemma {:induction false} TrimStartAppend(s: string, t: string)
    requires |TrimStart(s)| > 0
    ensures TrimStart(s + t) == TrimStart(s) + t
  {
    assert (s + t)[0] == s[0];
    if IsTrimmable(s[0]) {
      assert (s + t)[1..] == s[1..] + t;
      TrimStartAppend(s[1..], t);
    }
  }

  /** A health id that does not end in a blank. */
  predicate EndsWithoutBlank(s: string)
  {
    |s| == 0 || !IsTrimmable(s[|s| - 1])
  }

  /** Trimming the expected reference only trims the reference path's leading blanks. */
  lemma TrimmedExpectedUrl(referencePath: string, healthId: string)
    requires EndsWithoutBlank(healthId)
    ensures Trim(ExpectedUrl(referencePath, healthId)) == TrimStart(EnsureSuffix(referencePath, "/")) + healthId
  {
    var prefix := EnsureSuffix(referencePath, "/");
    assert prefix[|prefix| - 1] == prefix[|prefix| - 1..][0] == '/';
    NonBlankSurvivesTrimStart(prefix, |prefix| - 1);
    TrimStartAppend(prefix, healthId);
    TrimStartDropsLeadingBlanks(prefix);
    var t := TrimStart(prefix);
    assert t[|t| - 1] == '/';
  }

  /** A common prefix does not change whether two strings are equal ignoring case. */
  lemma {:induction false} EqualsIgnoreCaseCommonPrefix(q: string, a: string, b: string)
    ensures EqualsIgnoreCase(q + a, q + b) <==> EqualsIgnoreCase(a, b)
  {
    if |q| > 0 {
      assert (q + a)[1..] == q[1..] + a;
      assert (q + b)[1..] == q[1..] + b;
      EqualsIgnoreCaseCommonPrefix(q[1..], a, b);
    } else {
      assert q + a == a && q + b == b;
    }
  }

  /**
   * For health ids that do not end in blanks, the reference built for `other` is accepted for
   * `expected` exactly when the two ids are equal ignoring case: any other id is rejected.
   */
  lemma OtherHealthIdMatchesOnlyIgnoringCase(referencePath: string, expected: string, other: string)
    requires EndsWithoutBlank(expected) && EndsWithoutBlank(other)
    ensures MatchesExpected(referencePath, expected, ExpectedUrl(referencePath, other))
            <==> EqualsIgnoreCase(expected, other)
  {
    TrimmedExpectedUrl(referencePath, expected);
    TrimmedExpectedUrl(referencePath, other);
    EqualsIgnoreCaseCommonPrefix(TrimStart(EnsureSuffix(referencePath, "/")), expected, other);
  }

  /**
   * The rejection case of the health-id test: a reference to patient 5893922485019082753 does
   * not identify patient 11112222233333, and an entry carrying it is reported as a mismatch.
   */
  lemma WrongHealthIdRejected(referencePath: string, e: AtomEntry)
    requires SubjectOf(e.resource) == Some([ExpectedUrl(referencePath, "5893922485019082753")])
    ensures ValidateAndIdentifyPatientId(ExpectedUrl(referencePath, "5893922485019082753"),
                                         "11112222233333", referencePath) == None
    ensures HealthIdMessages([e], "11112222233333", referencePath) == [MismatchMessage(e.id)]
  {
    OtherHealthIdMatchesOnlyIgnoringCase(referencePath, "11112222233333", "5893922485019082753");
  }

  /** Character.toUpperCase on the ASCII letters. */
  function ToUpper(c: char): char
  {
    if 'a' <= c <= 'z' then (c as int - 32) as char else c
  }

  /** String.toUpperCase, for ASCII letters. */
  function UpperAll(s: string): (u: string)
    ensures |u| == |s|
  {
    if |s| == 0 then [] else [ToUpper(s[0])] + UpperAll(s[1..])
  }

  /** Upper-casing keeps a string equal to itself ignoring case. */
  lemma {:induction false} UpperAllEqualsIgnoringCase(s: string)
    ensures EqualsIgnoreCase(s, UpperAll(s))
  {
    if |s| > 0 {
      assert UpperAll(s)[1..] == UpperAll(s[1..]);
      UpperAllEqualsIgnoringCase(s[1..]);
    }
  }

  /** EqualsIgnoreCase compares position by position. */
  lemma {:induction false} EqualsIgnoreCasePointwise(a: string, b: string)
    ensures EqualsIgnoreCase(a, b) <==> |a| == |b| && forall i :: 0 <= i < |a| ==> ToLower(a[i]) == ToLower(b[i])
  {
    if |a| == |b| && |a| > 0 {
      EqualsIgnoreCasePointwise(a[1..], b[1..]);
      assert forall i :: 1 <= i < |a| ==> a[1..][i - 1] == a[i] && b[1..][i - 1] == b[i];
    }
  }

  /** Strings equal ignoring case have their leading blanks in the same places. */
  lemma {:induction false} TrimStartRespectsCase(a: string, b: string)
    requires EqualsIgnoreCase(a, b)
    ensures EqualsIgnoreCase(TrimStart(a), TrimStart(b))
  {
    if |a| > 0 && (IsTrimmable(a[0]) || IsTrimmable(b[0])) {
      assert a[0] == b[0];
      TrimStartRespectsCase(a[1..], b[1..]);
    }
  }

  /** Strings equal ignoring case have their trailing blanks in the same places. */
  lemma {:induction false} TrimEndRespectsCase(a: string, b: string)
    requires EqualsIgnoreCase(a, b)
    ensures EqualsIgnoreCase(TrimEnd(a), TrimEnd(b))
  {
    EqualsIgnoreCasePointwise(a, b);
    var n := |a|;
    if n > 0 && (IsTrimmable(a[n - 1]) || IsTrimmable(b[n - 1])) {
      assert a[n - 1] == b[n - 1];
      EqualsIgnoreCasePointwise(a[..n - 1], b[..n - 1]);
      TrimEndRespectsCase(a[..n - 1], b[..n - 1]);
    }
  }

  /**
   * Case and surrounding blanks do not matter: any reference equal to the expected one
   * ignoring case is accepted, with blanks before and after it.
   */
  lemma CaseVariantIsAccepted(referencePath: string, healthId: string, url: string, lead: string, trail: string)
    requires EqualsIgnoreCase(ExpectedUrl(referencePath, healthId), url)
    requires forall i :: 0 <= i < |lead| ==> IsTrimmable(lead[i])
    requires forall i :: 0 <= i < |trail| ==> IsTrimmable(trail[i])
    ensures MatchesExpected(referencePath, healthId, lead + url + trail)
  {
    var expected := ExpectedUrl(referencePath, healthId);
    var prefix := EnsureSuffix(referencePath, "/");
    assert expected[|prefix| - 1] == prefix[|prefix| - 1..][0] == '/';
    NonBlankSurvivesTrimStart(expected, |prefix| - 1);
    TrimStartRespectsCase(expected, url);
    assert lead + url + trail == lead + (url + trail);
    TrimStartIgnoresPadding(lead, url + trail);
    TrimStartAppend(url, trail);
    TrimEndIgnoresPadding(TrimStart(url), trail);
    TrimEndRespectsCase(TrimStart(expected), TrimStart(url));
  }

  /** The expected reference upper-cased and padded with blanks on both sides is accepted. */
  lemma UpperCasedPaddedUrlIsAccepted(referencePath: string, healthId: string, lead: string, trail: string)
    requires forall i :: 0 <= i < |lead| ==> IsTrimmable(lead[i])
    requires forall i :: 0 <= i < |trail| ==> IsTrimmable(trail[i])
    ensures MatchesExpected(referencePath, healthId, lead + UpperAll(ExpectedUrl(referencePath, healthId)) + trail)
  {
    UpperAllEqualsIgnoringCase(ExpectedUrl(referencePath, healthId));
    CaseVariantIsAccepted(referencePath, healthId, UpperAll(ExpectedUrl(referencePath, healthId)), lead, trail);
  }

  /** validateAndIdentifyPatientId: the health id in the url when it matches, else nothing. */
  function ValidateAndIdentifyPatientId(patientUrl: string, healthId: string, referencePath: string)
    : (identified: Option<string>)
    ensures identified.Some? <==> MatchesExpected(referencePath, healthId, patientUrl)
    ensures identified.Some? ==> identified.value == HealthIdFromUrl(patientUrl)
  {
    if MatchesExpected(referencePath, healthId, patientUrl) then Some(HealthIdFromUrl(patientUrl)) else None
  }

  /** The reference children consulted: `subject`, or `patient` when there is no subject child. */
  function SubjectOf(r: Resource): Option<seq<string>>
  {
    if r.subject.Some? then r.subject else r.patient
  }

  /** hasValue: the child exists and holds at least one reference. */
  predicate HasValue(p: Option<seq<string>>)
  {
    p.Some? && |p.value| > 0
  }

  /** An entry whose first reference does not match. */
  predicate Mismatches(e: AtomEntry, healthId: string, referencePath: string)
  {
    var subject := SubjectOf(e.resource);
    HasValue(subject) && !MatchesExpected(referencePath, healthId, subject.value[0])
  }

  predicate IsCompositionWithoutSubject(e: AtomEntry)
  {
    e.resource.resourceType == Composition && !HasValue(SubjectOf(e.resource))
  }

  /**
   * The messages `validate` produces: one per mismatching entry, in order, up to the first
   * composition without a subject, which ends the list with its own message.
   */
  function HealthIdMessages(entries: seq<AtomEntry>, healthId: string, referencePath: string)
    : (messages: seq<ValidationMessage>)
    ensures |messages| <= |entries|
  {
    if |entries| == 0 then []
    else if IsCompositionWithoutSubject(entries[0]) then [NotPresentMessage()]
    else EntryMessages(entries[0], healthId, referencePath) + HealthIdMessages(entries[1..], healthId, referencePath)
  }

  /** What an entry other than a composition without a subject contributes: its mismatch, if any. */
  function EntryMessages(e: AtomEntry, healthId: string, referencePath: string): seq<ValidationMessage>
  {
    if Mismatches(e, healthId, referencePath) then [MismatchMessage(e.id)] else []
  }

  /** An entry's contribution, read off the identification of its first reference. */
  lemma EntryMessagesOfReference(e: AtomEntry, healthId: string, referencePath: string)
    ensures !HasValue(SubjectOf(e.resource)) ==> EntryMessages(e, healthId, referencePath) == []
    ensures HasValue(SubjectOf(e.resource)) ==>
              EntryMessages(e, healthId, referencePath)
              == if ValidateAndIdentifyPatientId(SubjectOf(e.resource).value[0], healthId, referencePath).None?
                 then [MismatchMessage(e.id)] else []
  {
  }

  /** One step of the scan: what entry i contributes ahead of the entries after it. */
  lemma MessagesStep(entries: seq<AtomEntry>, i: nat, healthId: string, referencePath: string)
    requires i < |entries|
    ensures HealthIdMessages(entries[i..], healthId, referencePath)
            == if IsCompositionWithoutSubject(entries[i]) then [NotPresentMessage()]
               else EntryMessages(entries[i], healthId, referencePath) + HealthIdMessages(entries[i + 1..], healthId, referencePath)
  {
    assert entries[i..][0] == entries[i];
    assert entries[i..][1..] == entries[i + 1..];
  }

  /** The scan's invariant carries over an entry that does not stop it: that entry's messages are appended. */
  lemma ScanStep(entries: seq<AtomEntry>, i: nat, scanned: seq<ValidationMessage>,
                 healthId: string, referencePath: string)
    requires i < |entries| && !IsCompositionWithoutSubject(entries[i])
    requires scanned + HealthIdMessages(entries[i..], healthId, referencePath)
             == HealthIdMessages(entries, healthId, referencePath)
    ensures (scanned + EntryMessages(entries[i], healthId, referencePath))
            + HealthIdMessages(entries[i + 1..], healthId, referencePath)
            == HealthIdMessages(entries, healthId, referencePath)
  {
    MessagesStep(entries, i, healthId, referencePath);
    var own := EntryMessages(entries[i], healthId, referencePath);
    var rest := HealthIdMessages(entries[i + 1..], healthId, referencePath);
    assert scanned + (own + rest) == (scanned + own) + rest;
  }

  /** validate: the loop over the feed entries, with its `continue` and its early return. */
  method Validate(entries: seq<AtomEntry>, expectedHealthId: string, referencePath: string)
    returns (validationMessages: seq<ValidationMessage>)
    ensures validationMessages == HealthIdMessages(entries, expectedHealthId, referencePath)
  {
    validationMessages := [];
    var i := 0;
    assert entries[0..] == entries;
    while i < |entries|
      invariant 0 <= i <= |entries|
      invariant validationMessages + HealthIdMessages(entries[i..], expectedHealthId, referencePath)
                == HealthIdMessages(entries, expectedHealthId, referencePath)
    {
      var atomEntry := entries[i];
      var resource := atomEntry.resource;
      var subject := resource.subject;
      if subject.None? {
        subject := resource.patient;
      }
      assert subject == SubjectOf(resource);
      var subjectHasValue := HasValue(subject);
      if resource.resourceType == Composition && !subjectHasValue {
        MessagesStep(entries, i, expectedHealthId, referencePath);
        validationMessages := validationMessages + [NotPresentMessage()];
        return;
      }
      ScanStep(entries, i, validationMessages, expectedHealthId, referencePath);
      EntryMessagesOfReference(atomEntry, expectedHealthId, referencePath);
      if !subjectHasValue {
        assert validationMessages + [] == validationMessages;
        i := i + 1;
        continue;
      }
      var healthIdFromUrl := ValidateAndIdentifyPatientId(subject.value[0], expectedHealthId, referencePath);
      if healthIdFromUrl.None? {
        validationMessages := validationMessages + [MismatchMessage(atomEntry.id)];
      } else {
        assert validationMessages + [] == validationMessages;
      }
      i := i + 1;
    }
  }

  /**
   * Every message is an error-severity "invalid" issue: the "not present" one on field
   * healthId, or a mismatch on the id of an entry of the feed.
   */
  lemma {:induction false} MessagesAreInvalidErrors(entries: seq<AtomEntry>, healthId: string, referencePath: string)
    ensures forall m :: m in HealthIdMessages(entries, healthId, referencePath) ==>
              m.code == "invalid" && m.severity == error &&
              (m == NotPresentMessage() || exists e :: e in entries && m == MismatchMessage(e.id))
  {
    if |entries| > 0 {
      MessagesStep(entries, 0, healthId, referencePath);
      assert entries[0..] == entries;
      MessagesAreInvalidErrors(entries[1..], healthId, referencePath);
      forall e | e in entries[1..] ensures e in entries { }
    }
  }

  /** When every reference matches and every composition has one, there is nothing to report. */
  lemma {:induction false} AllMatchingMeansNoMessages(entries: seq<AtomEntry>, healthId: string, referencePath: string)
    requires forall i :: 0 <= i < |entries| ==>
               !IsCompositionWithoutSubject(entries[i]) && !Mismatches(entries[i], healthId, referencePath)
    ensures HealthIdMessages(entries, healthId, referencePath) == []
  {
    if |entries| > 0 {
      AllMatchingMeansNoMessages(entries[1..], healthId, referencePath);
    }
  }

  /**
   * Before any composition without a subject, each mismatching entry contributes exactly
   * its own message and the others none: entries are scanned on past a mismatch.
   */
  lemma {:induction false} MessagesOfAppendedEntry(entries: seq<AtomEntry>, e: AtomEntry, healthId: string, referencePath: string)
    requires forall i :: 0 <= i < |entries| ==> !IsCompositionWithoutSubject(entries[i])
    requires !IsCompositionWithoutSubject(e)
    ensures HealthIdMessages(entries + [e], healthId, referencePath)
            == HealthIdMessages(entries, healthId, referencePath)
               + EntryMessages(e, healthId, referencePath)
  {
    var last := EntryMessages(e, healthId, referencePath);
    if |entries| == 0 {
      assert entries + [e] == [e];
      assert [e][1..] == [];
      assert HealthIdMessages([e], healthId, referencePath) == last + [];
    } else {
      var appended := entries + [e];
      assert appended[0] == entries[0];
      assert appended[1..] == entries[1..] + [e];
      MessagesOfAppendedEntry(entries[1..], e, healthId, referencePath);
      var head := EntryMessages(entries[0], healthId, referencePath);
      var rest := HealthIdMessages(entries[1..], healthId, referencePath);
      assert HealthIdMessages(appended, healthId, referencePath) == head + (rest + last);
      assert head + (rest + last) == (head + rest) + last;
    }
  }

  /**
   * A composition without a subject ends the scan: the entries after it are not looked at.
   */
  lemma {:induction false} CompositionWithoutSubjectStops(entries: seq<AtomEntry>, k: nat,
                                                           healthId: string, referencePath: string)
    requires k < |entries| && IsCompositionWithoutSubject(entries[k])
    ensures HealthIdMessages(entries, healthId, referencePath)
            == HealthIdMessages(entries[..k + 1], healthId, referencePath)
  {
    var upTo := entries[..k + 1];
    assert upTo[0] == entries[0];
    if k > 0 && !IsCompositionWithoutSubject(entries[0]) {
      assert upTo[1..] == entries[1..][..k];
      CompositionWithoutSubjectStops(entries[1..], k - 1, healthId, referencePath);
    }
  }

  /** A feed holding a composition without a subject ends with the one "not present" message. */
  lemma {:induction false} NotPresentMessageComesLast(entries: seq<AtomEntry>, k: nat,
                                                       healthId: string, referencePath: string)
    requires k < |entries| && IsCompositionWithoutSubject(entries[k])
    ensures var messages := HealthIdMessages(entries, healthId, referencePath);
            |messages| > 0 && messages[|messages| - 1] == NotPresentMessage()
  {
    if k == 0 || IsCompositionWithoutSubject(entries[0]) {
      assert HealthIdMessages(entries, healthId, referencePath) == [NotPresentMessage()];
    } else {
      var head := EntryMessages(entries[0], healthId, referencePath);
      var rest := HealthIdMessages(entries[1..], healthId, referencePath);
      assert HealthIdMessages(entries, healthId, referencePath) == head + rest;
      assert entries[1..][k - 1] == entries[k];
      NotPresentMessageComesLast(entries[1..], k - 1, healthId, referencePath);
      assert (head + rest)[|head + rest| - 1] == rest[|rest| - 1];
    }
  }
}
