/**
  The interactive generator: one station id and one station name, read
  from the terminal, become either an error with exit status 1 or a
  display record for a 512-pixel QR code at level Q.
 */
module DeeplinkGenAbrtsPaytm {

  import opened Wrappers
  import Strip
  import Deeplink
  import DeeplinkAutomate
  import opened Records

  const AID := "77a7aa36c00e469482a6219004fde717"
  const MERCHANT_CITY_KEY := "ahmedabad_brts"
  const PATH := "/city-bus/getSourceDetails"
  const CONFIG := Deeplink.Config(AID, MERCHANT_CITY_KEY, PATH)

  const ERROR_MESSAGE := "SOURCE_ID is required. Please run again and provide a non-empty SOURCE_ID."
  const EXIT_FAILURE := 1
  const SIZE := 512
  const ECL := Q

  /** This script's `build_deeplink`: the same URI as the batch generator's. */
  function BuildDeeplink(sourceId: string): (r: string)
    ensures r == DeeplinkAutomate.BuildDeeplink(sourceId)
  {
    Deeplink.Build(CONFIG, sourceId)
  }

  /** What a run ends with: the record printed, or the error printed and
      the exit status. */
  datatype Outcome = Emitted(record: DisplayRecord) | Rejected(error: string, exitStatus: int)

  /** `main` on the two answers typed at the prompts. */
  function Run(rawId: string, rawName: string): (r: Outcome)
    ensures r.Rejected? <==> Strip.AllSpace(rawId)
    ensures r.Rejected? ==> r.error == ERROR_MESSAGE && r.exitStatus == EXIT_FAILURE
    ensures r.Emitted? ==>
      && r.record.text == BuildDeeplink(Strip.Strip(rawId))
      && Deeplink.ExtractSourceId(CONFIG, r.record.text) == Some(Strip.Strip(rawId))
      && r.record.size == SIZE && r.record.ecl == ECL
      && (Strip.AllSpace(rawName) ==> r.record.name == UNNAMED_STATION)
      && (!Strip.AllSpace(rawName) ==> r.record.name == Strip.Strip(rawName))
  {
    Strip.StripEmptyIff(rawId);
    var sourceId := Strip.Strip(rawId);
    if sourceId == [] then Rejected(ERROR_MESSAGE, EXIT_FAILURE)
    else
      Deeplink.SourceIdRoundTrip(CONFIG, sourceId);
      Emitted(DisplayRecord(DisplayName(rawName), BuildDeeplink(sourceId), SIZE, ECL))
  }

  /** Only the trimmed answers matter: whitespace around either one
      changes nothing. */
  lemma RunTrimmed(rawId: string, rawName: string)
    ensures Run(rawId, rawName) == Run(Strip.Strip(rawId), Strip.Strip(rawName))
  {
    Strip.StripIdempotent(rawId);
    Strip.StripIdempotent(rawName);
    Strip.StripEmptyIff(rawId);
    Strip.StripEmptyIff(Strip.Strip(rawId));
    Strip.StripEmptyIff(rawName);
    Strip.StripEmptyIff(Strip.Strip(rawName));
  }

  /** Whitespace typed before or after the answers changes nothing. */
  lemma RunPadded(w1: string, rawId: string, w2: string, w3: string, rawName: string, w4: string)
    requires Strip.AllSpace(w1) && Strip.AllSpace(w2) && Strip.AllSpace(w3) && Strip.AllSpace(w4)
    ensures Run(w1 + rawId + w2, w3 + rawName + w4) == Run(rawId, rawName)
  {
    Strip.StripPadding(w1, rawId, w2);
    Strip.StripPadding(w3, rawName, w4);
    RunTrimmed(w1 + rawId + w2, w3 + rawName + w4);
    RunTrimmed(rawId, rawName);
  }
}
