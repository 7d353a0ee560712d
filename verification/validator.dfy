/**
 * `EventRequestValidator`: the semantic rules on a request. Every rule is checked, the
 * violations are collected in rule order, and a non-empty collection fails the request
 * with the messages joined by "; ".
 */
module Validator {
  import opened Wrappers
  import opened EventModel
  import Text

  const SameTimeMessage := "Start date and past data cannot be the same"
  const EndBeforeStartMessage := "End time must be after start time"
  const InvalidColorMessage := "Color must be a valid hex color code (e.g., #6f42c1)"
  const Separator := "; "

  predicate IsHexDigit(c: char) {
    ('0' <= c <= '9') || ('a' <= c <= 'f') || ('A' <= c <= 'F')
  }

  /** The whole string matches `^#[0-9A-Fa-f]{6}$`. */
  predicate MatchesHexColor(s: string) {
    |s| == 7 && s[0] == '#' && forall i :: 1 <= i < 7 ==> IsHexDigit(s[i])
  }

  /** The rules read both times, so the request must carry them (bean validation ran first). */
  predicate HasTimes(r: EventRequest) {
    r.startTime.Some? && r.endTime.Some?
  }

  predicate IsStartSameAsEnd(r: EventRequest)
    requires HasTimes(r)
  {
    r.startTime.value == r.endTime.value
  }

  predicate IsEndBeforeStart(r: EventRequest)
    requires HasTimes(r)
  {
    r.endTime.value < r.startTime.value
  }

  /** A colour that is present, non-empty and not a hex code; null and "" are accepted. */
  predicate IsInvalidColor(r: EventRequest) {
    r.color.Some? && r.color.value != "" && !MatchesHexColor(r.color.value)
  }

  /** The violated rules' messages, in rule order. */
  function Errors(r: EventRequest): (errs: seq<string>)
    requires HasTimes(r)
    ensures |errs| <= 2
    ensures SameTimeMessage in errs <==> r.startTime.value == r.endTime.value
    ensures EndBeforeStartMessage in errs <==> r.endTime.value < r.startTime.value
    ensures InvalidColorMessage in errs <==> IsInvalidColor(r)
    ensures errs == [] <==> r.startTime.value < r.endTime.value && !IsInvalidColor(r)
  {
    (if IsStartSameAsEnd(r) then [SameTimeMessage] else [])
    + (if IsEndBeforeStart(r) then [EndBeforeStartMessage] else [])
    + (if IsInvalidColor(r) then [InvalidColorMessage] else [])
  }

  /** `validate`: passes, or fails with every violation joined by "; ". */
  function Validate(r: EventRequest): (o: Outcome<string>)
    requires HasTimes(r)
    ensures o.Pass? <==> Errors(r) == []
    ensures o.Fail? ==> o.error == Text.Join(Errors(r), Separator)
  {
    var errs := Errors(r);
    if errs == [] then Pass else Fail(Text.Join(errs, Separator))
  }

  /** A request whose start is before its end and whose colour is absent, empty or a hex code passes. */
  lemma ValidRequestPasses(r: EventRequest)
    requires HasTimes(r)
    requires r.startTime.value < r.endTime.value
    requires r.color.None? || r.color.value == "" || MatchesHexColor(r.color.value)
    ensures Validate(r) == Pass
  {
  }

  /** Equal times with an acceptable colour fail with exactly the "same" message. */
  lemma SameTimeFailsAlone(r: EventRequest)
    requires HasTimes(r) && r.startTime.value == r.endTime.value && !IsInvalidColor(r)
    ensures Validate(r) == Fail(SameTimeMessage)
  {
  }

  /** An end before the start with an acceptable colour fails with exactly the ordering message. */
  lemma EndBeforeStartFailsAlone(r: EventRequest)
    requires HasTimes(r) && r.endTime.value < r.startTime.value && !IsInvalidColor(r)
    ensures Validate(r) == Fail(EndBeforeStartMessage)
  {
  }

  /** A bad colour on a well-ordered request fails with exactly the colour message. */
  lemma InvalidColorFailsAlone(r: EventRequest)
    requires HasTimes(r) && r.startTime.value < r.endTime.value && IsInvalidColor(r)
    ensures Validate(r) == Fail(InvalidColorMessage)
  {
  }

  /** Rules do not short-circuit: a time violation and a bad colour are both reported, time rule first. */
  lemma TimeAndColorViolationsAccumulate(r: EventRequest)
    requires HasTimes(r) && r.endTime.value <= r.startTime.value && IsInvalidColor(r)
    ensures Validate(r) == Fail((if r.startTime.value == r.endTime.value
                                 then SameTimeMessage else EndBeforeStartMessage)
                                + Separator + InvalidColorMessage)
  {
    var first := if r.startTime.value == r.endTime.value then SameTimeMessage else EndBeforeStartMessage;
    assert Errors(r) == [first, InvalidColorMessage];
    assert [first, InvalidColorMessage][1..] == [InvalidColorMessage];
    assert Text.Join([first, InvalidColorMessage], Separator) == first + Separator + InvalidColorMessage;
  }

  /** The two time rules exclude each other, so a failure has at most two messages. */
  lemma TimeRulesExclusive(r: EventRequest)
    requires HasTimes(r)
    ensures !(IsStartSameAsEnd(r) && IsEndBeforeStart(r))
    ensures !(SameTimeMessage in Errors(r) && EndBeforeStartMessage in Errors(r))
  {
  }

  /** The example in the colour message is itself a valid colour; the word "notacolor" is not. */
  lemma ColorExamples()
    ensures MatchesHexColor("#6f42c1")
    ensures MatchesHexColor("#6F42C1")
    ensures !MatchesHexColor("notacolor")
    ensures !MatchesHexColor("#6f42c")
    ensures !MatchesHexColor("#6f42c1a")
    ensures !MatchesHexColor("#6g42c1")
  {
    assert !IsHexDigit("#6g42c1"[2]);
  }
}
