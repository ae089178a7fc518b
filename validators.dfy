/**
 check_postcode, check_paon and check_uprn. Each prints a diagnostic on
 failure; the first two then exit the process with status 1, check_uprn
 carries on and returns None. The outcome says which of these happened, so
 a caller can decide about termination itself.
 */
module Validators {
  import opened Wrappers
  import opened Postcode

  /** What a validator call ends in. */
  datatype Outcome =
    | Accepted           // returned True
    | Exit(status: int)  // printed a diagnostic, then exit(status)
    | Reported           // printed a diagnostic, then returned None
  {
    /** The process does not continue past the call. */
    predicate Terminates() {
      Exit?
    }
  }

  /** check_postcode: None, and anything the postcode pattern does not fully match, exit with status 1. */
  function CheckPostcode(postcode: Option<string>): (o: Outcome)
    ensures o == Accepted <==> postcode.Some? && MatchesPattern(postcode.value)
    ensures o != Accepted ==> o == Exit(1)
  {
    if postcode.None? then Exit(1)
    else
      PostcodeRecognizerCorrect(postcode.value);
      if IsPostcode(postcode.value) then Accepted else Exit(1)
  }

  /** check_paon: only None fails, and it exits with status 1; the empty string is accepted. */
  function CheckPaon(paon: Option<string>): (o: Outcome)
    ensures o == Accepted <==> paon.Some?
    ensures o != Accepted ==> o == Exit(1)
  {
    if paon.None? then Exit(1) else Accepted
  }

  /** check_uprn: None and the empty string are reported, never terminal. */
  function CheckUprn(uprn: Option<string>): (o: Outcome)
    ensures o == Accepted <==> uprn.Some? && uprn.value != ""
    ensures o != Accepted ==> o == Reported
  {
    if uprn.None? || uprn.value == "" then Reported else Accepted
  }

  /**
   The policies differ: a failing postcode or house number ends the run, a
   failing UPRN never does; and the UPRN check is the stricter one, since it
   also turns away the empty string.
   */
  lemma FailurePolicies(x: Option<string>)
    ensures CheckPostcode(x) != Accepted ==> CheckPostcode(x).Terminates()
    ensures CheckPaon(x) != Accepted ==> CheckPaon(x).Terminates()
    ensures !CheckUprn(x).Terminates()
    ensures CheckUprn(x) == Accepted ==> CheckPaon(x) == Accepted
    ensures CheckPaon(Some("")) == Accepted && CheckUprn(Some("")) == Reported
  {
  }

  /** The cases the project's unit tests exercise. */
  lemma ValidatorExamples()
    ensures CheckPostcode(Some("SW1A 1AA")) == Accepted
    ensures CheckPostcode(Some("BADPOSTCODE")) == Exit(1)
    ensures CheckPostcode(None) == Exit(1)
    ensures CheckPaon(Some("1")) == Accepted
    ensures CheckPaon(None) == Exit(1)
  {
    assert IsPostcode("SW1A 1AA");
    assert !IsPostcode("BADPOSTCODE");
  }
}
