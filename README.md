# Illini Prompt Nurse: message triage pipeline

This project models the decision logic of Illini Prompt Nurse, a prototype
assistant that answers student health messages. It also proves properties of
that logic.

- `core.dfy` (module `Core`) holds the stateless heuristics of `core.py`.
  - There are four keyword classifiers: relevance, crisis language,
    appointment intent and urgency.
  - Each classifier is one case-insensitive whole-word alternation
    `\b(?:a|b|c)\b`. It is modelled at two levels:
    - `Search` follows regular-expression semantics: `\b` is a change between
      word and non-word characters, the search picks the leftmost position,
      and at that position it takes the first alternative that matches.
    - `ContainsWholeWord` is the plain reading: the word occurs, up to case,
      with no word character directly before or after it.
    - `PatternOccursIffWholeWord` proves the two levels agree for every
      alternation whose alternatives start and end with a letter.
  - The module also has the disclaimer chooser, the strip-and-truncate
    sanitiser (Python slice semantics included) and the cache-key builder.
- `app.dfy` (module `App`) holds the message endpoint `handle_message`.
  - It is a method on a `Service` object. The object's `cache` field is the
    module-level `CACHE` dictionary.
  - The relevance gate comes first, then the crisis gate, then the cache lookup.
  - On a miss the method sanitises the text, calls the generator, prepends the
    disclaimer when an urgent phrase is present, stores the entry and replies.
  - The text generator is an external chat-completion call, so it is a function
    parameter here. It returns text with metadata, or it fails.
- `core_examples.dfy` and `app_examples.dfy` restate the expectations of
  `tests/test_core.py` as lemmas and methods, along with a few consequences of
  the gate order and of the sanitiser.
- `wrappers.dfy` holds `Option`. It is Python's `None` or a value.

Characters follow the ASCII part of Python's semantics:
- `\w` is `[A-Za-z0-9_]`.
- `str.lower` and IGNORECASE fold `A`-`Z` only.
- `str.strip` removes space, `\t`, `\n`, `\v`, `\f`, `\r` and `\x1c`-`\x1f`.

The replies are modelled as `app.py` builds them:
- An irrelevant message gets `{"response": ...}` with status 400
  (`app.py:42-46`).
- A message with crisis language gets `{"response": ..., "priority": "high"}`
  with status 202 (`app.py:48-55`).
- A cache hit gets the stored response and metadata with `"cached": True`
  (`app.py:57-64`). A miss gets the response, the priority, the appointment
  flag, `"cached": False` and the metadata (`app.py:74-81`).
- `generate_stub_response` is, despite its name, a networked call
  (`app.py:94-106`). If it raises, the error propagates before `CACHE` is
  written, which is `Outcome.Raised` here.
- `tests/test_core.py` imports `run_gpt` and `CACHE` from `core`, but `core.py`
  defines neither. Its pipeline tests are modelled against `handle_message`
  (`app.py:39-81`), which implements the behaviour they expect.

## Model

| member | source | states |
|---|---|---|
| Core.LowerChar | core.py:69 | ASCII lower-casing of one character: it keeps letters as letters and word characters as word characters, and never returns an upper-case letter |
| Core.Lower | core.py:69 | `str.lower` keeps the length and lower-cases each position |
| Core.WordAndSpaceClasses | core.py:12-26 | `\w` (`IsWordChar`: ASCII letters, digits and underscore) and `str.isspace` (`IsSpace`) are ASCII classes that never overlap; every letter is a word character, and the blank is whitespace, not a word character |
| Core.WholeWordStartsWith | core.py:12-26 | a whole-word occurrence of a word begins with that word's first two letters, up to case |
| Core.IsBoundary | core.py:12-26 | `\b` at the start or the end of the string matches only next to a word character; inside the string it matches exactly where a word character and a non-word character meet; outside the string it never matches |
| Core.LiteralAtPointwise | core.py:12-26 | the IGNORECASE literal test (`LiteralAt`) holds exactly when the literal fits in the string and agrees with it position by position after lower-casing |
| Core.MatchesAtIsolated | core.py:12-26 | when `\b literal \b` matches (`MatchesAt`), a literal that starts or ends with a word character has no word character directly before or after it |
| Core.MatchesAtIsWholeWord | core.py:12-26 | for a word that starts and ends with a letter, the regex test "`\b`, the literal up to case, `\b`" at position i holds exactly when the word occurs there as a whole word |
| Core.FirstAlternative | core.py:12-26 | regex alternation at one position: it returns the first alternative that matches, and when it returns none, no alternative matches there |
| Core.SearchFrom | core.py:31 | `pattern.search` from position i: the match begins at the first position at or after i where some alternative matches, and it spans the first such alternative; when there is no match, no position from i on matches |
| Core.FirstAlternativeFinds | core.py:12-26 | the alternation finds a match at a position exactly when some alternative matches there |
| Core.Search | core.py:31 | `pattern.search` returns a match exactly when the pattern occurs somewhere, and then it returns the leftmost occurrence |
| Core.AnyPatternMatches | core.py:31 | `any(p.search(m) for p in patterns)` holds exactly when some pattern of the list occurs in m |
| Core.PatternOccursIffWholeWord | core.py:12-26 | a well-formed alternation occurs in s exactly when one of its alternatives occurs in s as a whole word, ignoring case |
| Core.ThreeWordPatternMatches | core.py:12-26 | a list holding one whole-word alternation of a, b and c matches exactly when a, b or c occurs as a whole word |
| Core.IsMessageRelevant | core.py:29-31 | a message is relevant exactly when none of "cow", "cows", "moo" occurs in it as a whole word, ignoring case |
| Core.ContainsCrisisLanguage | core.py:34-36 | true exactly when "suicide", "kill myself" or "don't want to live" occurs as a whole word, ignoring case |
| Core.RecognizeAppointmentIntent | core.py:39-41 | true exactly when "appointment", "schedule" or "come in" occurs as a whole word, ignoring case |
| Core.TriagePriority | core.py:44-46 | the result is "high" or "routine", and it is "high" exactly when "chest pain", "difficulty breathing" or "shortness of breath" occurs as a whole word |
| Core.DisclaimerFor | core.py:49-56 | a disclaimer is returned exactly when an urgent phrase occurs, and it is always the same fixed text |
| Core.DisclaimerIffHighPriority | core.py:44-56 | a disclaimer is given exactly when the priority is "high" |
| Core.LeadingSpaces | core.py:61 | the count of leading whitespace characters: that prefix is all whitespace, and the next character, if any, is not |
| Core.TrailingSpaces | core.py:61 | the count of trailing whitespace characters: that suffix is all whitespace, and the character before it, if any, is not |
| Core.Strip | core.py:61 | `str.strip` returns a slice of the input with only whitespace cut from either end, and a non-empty result neither starts nor ends with whitespace |
| Core.StripOfTrimmed | core.py:61 | stripping text that neither starts nor ends with whitespace returns it unchanged |
| Core.StripIdempotent | core.py:61 | stripping twice is stripping once |
| Core.PrefixSlice | core.py:63 | Python's `s[:n]` is a prefix of s: of length n when 0 <= n <= len(s), all of s when n > len(s), and len(s) + n characters (at least 0) when n < 0 |
| Core.SanitizeMessage | core.py:59-64 | the result is the stripped message, or a prefix of it followed by "..." |
| Core.SanitizeCases | core.py:59-64 | for n >= 0: stripped text of at most n characters is returned as it is; longer text becomes its first n characters plus "...", n + 3 characters in all |
| Core.SanitizeLengthBound | core.py:59-64 | for n >= 0 the result never has more than n + 3 characters |
| Core.SanitizeIdempotent | core.py:59-64 | for n >= 0, sanitising the result again with the same limit changes nothing |
| Core.SanitizeTrimmedMinusOne | core.py:59-64 | with limit -1, text without outer whitespace loses its last character and gains "..." |
| Core.SanitizeNegativeLimit | core.py:59-64 | a negative limit slices from the end: limit -1 drops the last character before the "...", so sanitising again gives "....." and the sanitiser is not idempotent there |
| Core.MakeCacheKey | core.py:67-69 | the key is the student id, a ':' and then the lower-cased message, in that order and with lengths that add up |
| Core.CacheKeyIgnoresCase | core.py:67-69 | for one student, two messages give the same key exactly when they agree after lower-casing |
| Core.LowerCharMerges | core.py:69 | lower-casing maps two characters to the same one exactly when they are equal or are the upper- and lower-case forms of one ASCII letter |
| Core.CacheKeyCaseVariants | core.py:67-69 | for one student, two messages give the same key exactly when they have the same length and differ at most in the case of ASCII letters at each position |
| Core.CacheKeySeparatesStudents | core.py:67-69 | different student ids never give the same key for the same message |
| Core.CacheKeyInjectiveWithoutColon | core.py:67-69 | when neither student id contains ':', equal keys mean the same student and the same lower-cased message |
| Core.CacheKeyColonCollision | core.py:67-69 | with a ':' in a student id, two different requests ("a:b", "c") and ("a", "b:c") share a key |
| CoreExamples.IrrelevantExample | tests/test_core.py:16-17 | "I like cows" is not relevant |
| CoreExamples.CrisisExample | tests/test_core.py:20-21 | "I don't want to live anymore" holds crisis language |
| CoreExamples.AppointmentExample | tests/test_core.py:24-25 | "Can I schedule an appointment?" shows appointment intent |
| CoreExamples.UrgentExample | tests/test_core.py:28-29 | "I have chest pain" has priority "high" and gets the disclaimer |
| CoreExamples.DisclaimerExample | tests/test_core.py:32-33 | "chest pain" gets a disclaimer |
| CoreExamples.SanitizeLongMessage | tests/test_core.py:36-38 | 600 characters are cut to 500 followed by "...", 503 characters in all |
| CoreExamples.CacheKeyHelloExample | tests/test_core.py:41-44 | "Hello" and "hello" give the same key for student "123" |
| CoreExamples.ChestPainIsRelevant | tests/test_core.py:52-58 | "I have chest pain" passes the relevance gate |
| CoreExamples.ChestPainIsNotCrisis | tests/test_core.py:52-58 | "I have chest pain" passes the crisis gate |
| CoreExamples.ChestPainIsClean | core.py:59-64 | "I have chest pain" comes out of the sanitiser unchanged |
| CoreExamples.PaddedChestPainfulIsRelevant | core.py:29-31 | any run of 'a's followed by " chest painful" passes the relevance gate |
| CoreExamples.PaddedChestPainfulIsNotCrisis | core.py:34-36 | any run of 'a's followed by " chest painful" holds no crisis language |
| CoreExamples.PaddedChestPainfulIsRoutine | core.py:44-46 | any run of 'a's followed by " chest painful" has priority "routine": "chest pain" must end at a word boundary |
| CoreExamples.PaddedChestPainfulTruncated | core.py:59-64 | 489 'a's followed by " chest painful" (503 characters) are cut at the default limit of 500 to 489 'a's followed by " chest pain..." |
| CoreExamples.PaddedChestPainEllipsisIsUrgent | core.py:44-46 | any run of 'a's followed by " chest pain..." has priority "high", because '.' is not a word character |
| CoreExamples.TruncationCreatesUrgentMatch | core.py:44-64 | at the default limit of 500 the cut can create an urgent match: a routine 503-character message sanitises to text whose priority is "high" |
| CoreExamples.KeyUsesRawText | app.py:57-66 | the key is built from the raw message and the generator gets the sanitised one: " hello" and "hello" have different keys but the same generator input |
| App.Service.constructor | app.py:29 | `CACHE` starts empty |
| App.Service.HandleMessage | app.py:39-81 | Several promises in order. An irrelevant message gets the 400 rejection and leaves the cache alone, even when it also holds crisis language. A relevant crisis message gets the 202 escalation with priority "high" and leaves the cache alone. Only the key of this request can change, and only by being added. A hit returns the stored text and metadata marked cached, and changes nothing. A miss feeds the sanitised text to the generator. If the generator fails, the error propagates and the cache is unchanged. Otherwise the reply and the new entry carry the same text: the disclaimer and a space followed by the generated text exactly when an urgent phrase occurs, else the generated text alone. The reply also carries the priority and appointment intent of the sanitised text, marked not cached |
| App.RepeatedRequest | app.py:57-81 | the same relevant, non-crisis request twice: the first reply is computed (not cached), the second comes from the cache with the same text and metadata, and the key is then stored |
| AppExamples.IrrelevantRequest | tests/test_core.py:47-49 | "I like cows" gets the 400 rejection "... not an appropriate question ..." |
| AppExamples.IrrelevanceMasksCrisis | app.py:42-48 | "cows suicide" holds crisis language but is rejected, because relevance is checked first |
| AppExamples.KillMyselfIsRelevant | app.py:42 | "I want to kill myself" passes the relevance gate |
| AppExamples.KillMyselfIsCrisis | app.py:48 | "I want to kill myself" holds crisis language |
| AppExamples.CrisisNeverCached | app.py:48-55 | a crisis message sent twice is escalated both times with status 202 and priority "high", and it is never answered from the cache |
| AppExamples.ChestPainTwice | tests/test_core.py:52-58 | "I have chest pain" twice: the first reply starts with the disclaimer, has priority "high" and is not cached; the second is cached and has the same text |
| AppExamples.TruncatedMessageAnsweredAsUrgent | app.py:66-81 | the handler classifies the sanitised text: a routine 503-character message that the default cut turns into "... chest pain..." gets a miss reply with priority "high", not cached, whose response starts with the disclaimer |

## Left out

- The body of `generate_stub_response` (`app.py:94-106`) is left out. It calls the OpenAI ChatCompletion API over the network, so it is the `generate` parameter. The `.strip()` it applies to the generated text is left out with it.
- `upload_file` (`app.py:84-91`) and the creation of the upload directory (`app.py:30-31`) are left out: they are filesystem I/O.
- `load_dotenv` and API-key loading (`app.py:13-14`), the FastAPI application object, `JSONResponse`, the `MessageRequest` model and the `root` endpoint (`app.py:109-111`) are left out: they are transport plumbing. A reply is the `Reply` datatype, with a status code and `None` for each field the handler leaves out.
- How the web framework turns a generator error into an HTTP answer is left out. The model stops at `Outcome.Raised`.
- `tests/test_cors.py` and `tests/conftest.py` are left out. They cover CORS middleware, which `app.py` does not configure, and test path setup.
- Python's Unicode semantics are left out: non-ASCII word characters for `\w`, full case folding for IGNORECASE and `str.lower`, and whitespace such as `\x85` or `\xa0` for `str.strip`. Only ASCII is modelled.
- Concurrent requests are left out. The handler has no `await` on its decision path, so each call is one sequential method call.
- A general regular-expression engine is left out. Only the fixed shape `\b(?:a|b|c)\b` under IGNORECASE is modelled.
- Core.SanitizeCases: its length and shape facts are stated for non-negative limits only. Negative limits are handled by `SanitizeMessage` as Python does, and `SanitizeNegativeLimit` shows how they behave.
- Core.SanitizeIdempotent: idempotence is stated for non-negative limits only, because it fails for negative ones (`SanitizeNegativeLimit`).
- Core.SanitizeLengthBound: the bound is stated for non-negative limits only.
