/**
 * The message endpoint of the triage service (app.py): a relevance gate, a
 * crisis gate, a lookup in the in-memory response cache and, on a miss,
 * sanitise / generate / prepend the disclaimer / store.
 *
 * The module-level `CACHE` dictionary is the `cache` field of a `Service`
 * object. The text generator (a call to an external chat-completion service)
 * is a function parameter that either yields text with its metadata or fails;
 * a failure propagates to the caller as an exception would.
 */
module App {
  import opened Wrappers
  import opened Core

  /** What the generator reports besides its text: request id, model name and
      token usage. It is passed through unchanged. */
  datatype Metadata = Metadata(id: string, model: string, usage: map<string, int>)

  /** One call of the generator: text and metadata, or the error it raised. */
  datatype Generation = Generated(text: string, metadata: Metadata) | Failed(error: string)

  /** A value of `CACHE`: `{"response": ..., "metadata": ...}`. */
  datatype CacheEntry = CacheEntry(response: string, metadata: Metadata)

  /** The HTTP answer: its status code and the JSON fields, `None` where the
      handler leaves a field out. */
  datatype Reply = Reply(
    status: int,
    response: string,
    priority: Option<string>,
    appointmentIntent: Option<bool>,
    cached: Option<bool>,
    metadata: Option<Metadata>)

  /** A request either returns a reply or ends with the generator's error. */
  datatype Outcome = Returned(reply: Reply) | Raised(error: string)

  const REJECTION_TEXT: string := "\U{26A0}\U{FE0F} This is not an appropriate question for Illini Prompt Nurse."
  const ESCALATION_TEXT: string := "Your message has been forwarded to the Mental Health Office for urgent review."

  /** The fixed answer to an irrelevant message. */
  const REJECTION: Reply := Reply(400, REJECTION_TEXT, None, None, None, None)

  /** The fixed answer to a message with crisis language. */
  const ESCALATION: Reply := Reply(202, ESCALATION_TEXT, Some("high"), None, None, None)

  class Service {
    /** `CACHE`: responses already computed, by cache key. */
    var cache: map<string, CacheEntry>

    constructor ()
      ensures cache == map[]
    {
      cache := map[];
    }

    /** `handle_message`. The gates come first and leave the cache alone; a hit
        returns the stored entry; a miss stores exactly one new entry, under the
        key of the raw message, and returns the same text. */
    method HandleMessage(studentId: string, message: string, generate: string -> Generation)
      returns (outcome: Outcome)
      modifies this
      // Relevance is checked first: an irrelevant message is rejected even if
      // it also holds crisis or urgent language.
      ensures !IsMessageRelevant(message) ==> outcome == Returned(REJECTION) && cache == old(cache)
      // Crisis language is escalated without reading or writing the cache.
      ensures IsMessageRelevant(message) && ContainsCrisisLanguage(message) ==>
                outcome == Returned(ESCALATION) && cache == old(cache)
      // Only messages past both gates reach the cache.
      ensures cache != old(cache) ==> IsMessageRelevant(message) && !ContainsCrisisLanguage(message)
      // The only key that can change is the key of this request, and it is only ever added.
      ensures forall k :: k != MakeCacheKey(studentId, message) ==>
                (k in cache <==> k in old(cache)) && (k in cache ==> cache[k] == old(cache)[k])
      ensures MakeCacheKey(studentId, message) in old(cache) ==> cache == old(cache)
      // A hit returns the stored text and metadata, marked as cached.
      ensures && IsMessageRelevant(message) && !ContainsCrisisLanguage(message)
              && MakeCacheKey(studentId, message) in old(cache) ==>
                var entry := old(cache)[MakeCacheKey(studentId, message)];
                outcome == Returned(Reply(200, entry.response, None, None, Some(true), Some(entry.metadata)))
      // A miss generates from the sanitised text; a generator error leaves the cache alone.
      ensures && IsMessageRelevant(message) && !ContainsCrisisLanguage(message)
              && MakeCacheKey(studentId, message) !in old(cache) ==>
                var cleaned := SanitizeMessage(message, DEFAULT_MAX_CHARS);
                match generate(cleaned)
                case Failed(error) => outcome == Raised(error) && cache == old(cache)
                case Generated(text, metadata) =>
                  var response := if MentionsUrgentSymptom(cleaned) then DISCLAIMER + " " + text else text;
                  && cache == old(cache)[MakeCacheKey(studentId, message) := CacheEntry(response, metadata)]
                  && outcome == Returned(Reply(200, response, Some(TriagePriority(cleaned)),
                                               Some(RecognizeAppointmentIntent(cleaned)), Some(false), Some(metadata)))
    {
      if !IsMessageRelevant(message) {
        return Returned(REJECTION);
      }
      if ContainsCrisisLanguage(message) {
        return Returned(ESCALATION);
      }
      var key := MakeCacheKey(studentId, message);
      if key in cache {
        var cachedEntry := cache[key];
        return Returned(Reply(200, cachedEntry.response, None, None, Some(true), Some(cachedEntry.metadata)));
      }
      var cleaned := SanitizeMessage(message, DEFAULT_MAX_CHARS);
      var generation := generate(cleaned);
      if generation.Failed? {
        return Raised(generation.error);
      }
      var responseText := generation.text;
      var metadata := generation.metadata;
      var disclaimer := DisclaimerFor(cleaned);
      if disclaimer.Some? {
        responseText := disclaimer.value + " " + responseText;
      }
      cache := cache[key := CacheEntry(responseText, metadata)];
      outcome := Returned(Reply(200, responseText, Some(TriagePriority(cleaned)),
                                Some(RecognizeAppointmentIntent(cleaned)), Some(false), Some(metadata)));
    }
  }

  /** The same relevant, non-crisis request twice in a row: the first answer is
      computed and stored, the second comes from the cache with the same text,
      whatever the generator would say the second time. */
  method RepeatedRequest(service: Service, studentId: string, message: string,
                         generate1: string -> Generation, generate2: string -> Generation)
    returns (first: Outcome, second: Outcome)
    requires IsMessageRelevant(message) && !ContainsCrisisLanguage(message)
    requires MakeCacheKey(studentId, message) !in service.cache
    requires generate1(SanitizeMessage(message, DEFAULT_MAX_CHARS)).Generated?
    modifies service
    ensures first.Returned? && second.Returned?
    ensures first.reply.status == 200 && second.reply.status == 200
    ensures first.reply.cached == Some(false) && second.reply.cached == Some(true)
    ensures second.reply.response == first.reply.response
    ensures second.reply.metadata == first.reply.metadata
    ensures MakeCacheKey(studentId, message) in service.cache
  {
    first := service.HandleMessage(studentId, message, generate1);
    second := service.HandleMessage(studentId, message, generate2);
  }
}
