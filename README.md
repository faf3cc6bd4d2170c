# Leseassistent classroom sessions, in Dafny

This project models the in-memory core of the Leseassistent server (`app.py`), a
Flask and Socket.IO reading assistant. A teacher opens a classroom session under a
six-character code. Students join it under anonymous animal identities. The
teacher shares a text, releases tasks, switches text simplification on and off,
and answers the students' translation requests. Speech-synthesis and translation
results are kept in two bounded least-recently-used caches.

The model has these parts, one Dafny module each:

- `Codes` (`codes.dfy`): the code alphabet and the `code.upper().strip()`
  normalisation that every entry point applies.
- `Sessions` (`sessions.dfy`): the session record and the records nested in it
  (students, translation requests, level reports, credentials), plus `LANGUAGE_NAMES`.
- `Allocator` (`allocator.dfy`): the 28-entry animal catalogue and what
  `get_anonymous_name` may return for a given student map.
- `SessionRegistry` (`registry.dfy`): the `sessions` dict as the class `Registry`,
  with lazy expiry on lookup, creation under a fresh code, end, join and leave, and
  the periodic sweep.
- `Lru` (`lru.dfy`): one `OrderedDict` cache with a maximum size, as a class over a
  sequence of entries ordered from least to most recently used. It also holds a
  reference model of strict access-recency eviction, and a proof that the store
  follows that model over any run.
- `ResultCaches` (`caches.dfy`): the two caches (500 synthesis results, 1000
  translations) and their `text|param` keys.
- `Sync` (`sync.dfy`): the state effects of the Socket.IO handlers and of the three
  HTTP routes that write session state (create, end, set text), with the owner check and the
  translation-request states.
- `Wrappers` (`wrappers.dfy`): `Option`, `Result` and `Outcome`.

How the outside world enters the model:

- **Clock.** Time is an integer parameter `now`, in seconds. A session lives for
  `Ttl` = 3 × 3600. A session is live while `now < expires`.
- **Random code draws.** `random.choices` becomes the parameter `draws`: the
  codes the generator would produce, in order.
- **Random catalogue entry.** The `random.randint` fallback of the allocator is a
  nondeterministic choice. `IsAllocation` describes every allowed outcome.
- **Translation provider.** `translate_text_with_ai` is a function parameter that
  returns `None` where the provider call raises.
- **Handler results.** Each handler returns what it reports to the acting
  connection: `Pass`/`Ok`, or the error it emits.
- **Locking.** Each handler, route and registry operation is one atomic step. The
  source takes `sessions_lock` several times within one of them, and releases it
  between them (see "## Left out").

## Model

| member | source | states |
|---|---|---|
| Codes.AlphabetShape | app.py:100 | the alphabet has 32 characters, all A–Z or 2–9, and contains none of I, O, 0, 1 |
| Codes.CodeChars | app.py:100-102 | every character of a generated code is an upper-case letter or a digit 2–9 |
| Codes.Upper | app.py:353 | upper-casing keeps the length and maps each character through the ASCII upper-case map |
| Codes.LeadingSpaces | app.py:353 | the count of leading whitespace: all of it is whitespace, and the next character is not |
| Codes.TrailingSpaces | app.py:353 | the same for trailing whitespace |
| Codes.Strip | app.py:353 | `strip()`: the slice starting at the first non-space, only whitespace outside it, no whitespace at either of its ends, empty exactly when the input is all whitespace |
| Codes.Normalize | app.py:353 | `code.upper().strip()` with the ASCII case mapping: no lower-case ASCII letter left and no whitespace at either end; never longer than the input under that mapping |
| Codes.StripUnique | app.py:353 | any slice with only whitespace around it and none at its ends is the result of `strip()` |
| Codes.UpperIdempotent | app.py:353 | upper-casing twice is upper-casing once |
| Codes.UpperStrip | app.py:353 | upper-casing commutes with `strip()` |
| Codes.NormalizeIdempotent | app.py:353 | normalising an already normalised code changes nothing |
| Codes.NormalizeCode | app.py:97-105 | a generated code is its own normal form, so it is found again when typed back exactly |
| Codes.NormalizeVariant | app.py:546 | a code typed in any letter case, with whitespace around it, normalises to the code |
| Sessions.LanguageName | app.py:641-648 | `LANGUAGE_NAMES.get(language, language)`: the German name of a known code, the code itself otherwise |
| Sessions.AnonymousIdOf | app.py:662-663 | the sender's recorded anonymous id when it is a student of the session, the guest id `🐾 Gast` otherwise |
| Allocator.UsedIndices | app.py:80-83 | the set of indices held: every student's index is in it, and each member is some student's index |
| Allocator.NatToString | app.py:93 | `str(n)`: decimal digits, no leading zero, whose value is n |
| Allocator.IsAllocation | app.py:85-95 | the identities `get_anonymous_name` may return: a catalogue index; while one is free, an index no student holds; once all are taken, a name that differs from the plain animal name |
| Allocator.AllocationDeterminate | app.py:86-88 | while a catalogue index is free, only one identity may be handed out: the lowest free index and its pair |
| Allocator.AllocationKeepsIndicesDistinct | app.py:154-166 | a joiner given a free index keeps the students' indices pairwise distinct |
| Allocator.FreeIndexExists | app.py:86-88 | fewer than 28 used indices leave a free one, so the loop returns before the fallback |
| Allocator.UsedIndicesSize | app.py:80-83 | the students hold no more distinct indices than there are students |
| Allocator.SmallClassGetsFreshAnimal | app.py:75-95 | in a class of fewer than 28 students every joiner gets an unused animal, never the numbered fallback |
| SessionRegistry.Live | app.py:132 | the lookup's liveness test: the code is a key and its session expires strictly after now |
| SessionRegistry.Expire | app.py:127-137 | what a lookup leaves behind: an expired entry for the code is deleted, and every other entry is unchanged |
| SessionRegistry.Sweep | app.py:186-193 | what the sweep leaves behind: exactly the live sessions, unchanged |
| SessionRegistry.SweepIdempotent | app.py:186-193 | sweeping twice at the same time removes nothing more |
| SessionRegistry.SweepLater | app.py:186-193 | an earlier sweep followed by a later one equals the later one alone |
| SessionRegistry.ExpireAgreesWithSweep | app.py:186-193 | lazy deletion on lookup never changes which sessions are live or what a sweep keeps |
| SessionRegistry.ValidLookup | app.py:546-549 | in a valid registry, a stored code typed in any letter case with whitespace around it normalises to itself and is live exactly until Ttl after its creation; its students hold at most 28 distinct animals |
| SessionRegistry.Leave | app.py:509 | one session without the leaving connection among its students; teacher, expiry, requests, level reports, text, tasks and settings are kept |
| SessionRegistry.NewSession | app.py:111-124 | the record `create_session` stores: well formed, live at creation, no students, requests or level reports, empty text and tasks, tasks withheld, simplification off, with the given teacher, keys and PIN |
| SessionRegistry.Registry.constructor | app.py:56 | the registry starts empty |
| SessionRegistry.Registry.GenerateSessionCode | app.py:97-105 | returns the first draw that is not a key already (expired entries included); the result is a code |
| SessionRegistry.Registry.CreateSession | app.py:107-125 | adds exactly one new code, whose record expires Ttl after creation and starts with no students, requests or level reports, empty text and tasks, tasks withheld and simplification off |
| SessionRegistry.Registry.GetSession | app.py:127-137 | returns the session exactly when it is live; an expired entry is deleted and nothing else changes |
| SessionRegistry.Registry.GetSessionKeys | app.py:139-144 | the credentials of a live session, with the lookup's deletion of an expired one |
| SessionRegistry.Registry.Store | app.py:607-609 | a nested field assignment: one session record replaced, the invariant kept |
| SessionRegistry.Registry.EndSession | app.py:146-152 | deletes the code and reports whether it was present, so a second call reports false and changes nothing |
| SessionRegistry.Registry.GetAnonymousName | app.py:75-95 | the two loops return the lowest free index and its pair, or a catalogue pair with the class size + 1 appended; a missing session gives index 0 |
| SessionRegistry.Registry.AddStudentToSession | app.py:154-169 | records the joiner under its sid only, with the allocator's identity and `emoji + " " + name` as anonymous id; a missing session changes nothing |
| SessionRegistry.Registry.RemoveStudentFromSession | app.py:171-177 | deletes one student and reports whether it was there; other students and sessions are untouched |
| SessionRegistry.Registry.GetStudentCount | app.py:179-184 | the class size of a live session, 0 otherwise |
| SessionRegistry.Registry.CleanupExpiredSessions | app.py:186-193 | the loop over the expired codes leaves exactly `Sweep` of the old map |
| Lru.KeysOf | app.py:210-211 | the keys of the entries, in order |
| Lru.Lookup | app.py:223-228 | `cache[key]`: absent exactly when the key is not stored; otherwise a stored value |
| Lru.Without | app.py:225 | removing one element keeps the rest |
| Lru.RemoveKey | app.py:225 | removing one entry removes exactly its key from the key order |
| Lru.WithoutDistinct | app.py:225 | removal keeps keys distinct and shortens the order by one exactly when the key was present |
| Lru.RemoveKeyLookup | app.py:225 | after removing a key, it is absent and every other key keeps its value |
| Lru.MoveToEndKeepsValues | app.py:223-228 | `move_to_end` keeps every value and moves the key to the back of the order |
| Lru.MoveToEnd | app.py:225 | `move_to_end`: the key becomes the most recent entry, and no entry appears that was not stored before |
| Lru.MoveToEndWellFormed | app.py:223-228 | a hit keeps the keys distinct and the size bound |
| Lru.Put | app.py:230-237 | `add_to_cache`: the key becomes the most recent entry, and the store holds only old entries and the new pair |
| Lru.PutWellFormed | app.py:230-237 | `add_to_cache` never exceeds the maximum size and never stores a key twice |
| Lru.PutKeys | app.py:230-237 | an existing key moves to the back; a new key is appended, evicting exactly the front key when the store is full |
| Lru.PutLookup | app.py:230-237 | an existing key keeps its old value; a new key gets the new value; the evicted key is gone; other keys are unchanged |
| Lru.Recency | app.py:223-237 | the reference order: every touched key once, at its most recent touch |
| Lru.LastN | app.py:234-235 | the last n keys of an order |
| Lru.RecencyDistinct | app.py:223-237 | the reference order holds no key twice |
| Lru.RecencyStep | app.py:223-237 | touching a key moves it to the back of the reference order |
| Lru.RecencyOrder | app.py:223-237 | the reference order is the touched keys sorted by most recent touch: one key precedes another exactly when its last touch is earlier |
| Lru.WindowAfterTouch | app.py:223-233 | touching a retained key keeps the same window, with that key moved to the back |
| Lru.WindowAfterInsert | app.py:234-237 | touching a new key slides the window past its oldest key when it is full |
| Lru.PutFollowsRecency | app.py:230-237 | one put keeps the store equal to the most recent `capacity` keys of the reference order |
| Lru.HitFollowsRecency | app.py:223-228 | one hit keeps the store equal to the most recent `capacity` keys of the reference order |
| Lru.RunFollowsRecency | app.py:223-237 | from an empty store, after any sequence of gets and puts, the store holds exactly the `capacity` most recently touched keys, in order, and stays within its bound with distinct keys |
| Lru.OverflowEvictsFirst | app.py:234-235 | putting capacity + 1 distinct keys into an empty store evicts exactly the first |
| Lru.ThirdPutEvictsOldest | app.py:234-235 | without reads, a third put evicts the first key |
| Lru.HitChangesVictim | app.py:223-235 | reading the older key first makes the other key the victim of the third put |
| Lru.Cache.constructor | app.py:210-211 | a cache starts empty with its maximum size |
| Lru.Cache.Get | app.py:223-228 | a hit returns the stored value and moves the key to the back; a miss returns None and changes nothing |
| Lru.Cache.Add | app.py:230-237 | the entries become `Put` of the old entries, so the bound and the distinct keys are kept |
| ResultCaches.Fingerprint | app.py:215-221 | the key is the text, a bar, then the parameter |
| ResultCaches.FingerprintInjective | app.py:215-221 | `get_cache_key` and `get_translation_cache_key` are injective in their two arguments, given a second argument without a bar |
| ResultCaches.FingerprintAmbiguous | app.py:215-221 | without that condition, two different requests can share a key |
| ResultCaches.SpeechKeyShift | app.py:1551 | the speech route's key, built from the text with the language code appended, is the same when a character moves from the language code to the text |
| ResultCaches.Caches.constructor | app.py:208-211 | both caches start empty, with 500 and 1000 as their maximum sizes |
| ResultCaches.Caches.GetFromCache | app.py:223-228 | the synthesis cache's get, within 500 entries; the translation cache is untouched |
| ResultCaches.Caches.AddToCache | app.py:230-237 | the synthesis cache's put, within 500 entries; the translation cache is untouched |
| ResultCaches.Caches.GetFromTranslationCache | app.py:239-244 | the translation cache's get, within 1000 entries; the synthesis cache is untouched |
| ResultCaches.Caches.AddToTranslationCache | app.py:246-253 | the translation cache's put, within 1000 entries; the synthesis cache is untouched |
| Sync.FieldOr | app.py:320-323 | `data.get(key, default)`: the client's field, or the default when it is absent |
| Sync.SocketKeys | app.py:519-525 | the socket path's credentials: `openai`, the default voice and `browser` when those fields are absent |
| Sync.HttpKeys | app.py:319-324 | the HTTP path's credentials: the same defaults, with no speech-recognition entry |
| Sync.CreatePathsAgreeOnKeys | app.py:519-525 | both create paths build the same credentials apart from the speech-recognition entry, and refuse the same requests |
| Sync.IsOwner | app.py:605 | `session and session['teacher_sid'] == request.sid`: only a live session passes, and no other connection is its owner |
| Sync.OwnerlessSessionRefusesEveryone | app.py:330 | a session created over HTTP has no teacher, so every owner-gated handler refuses every caller |
| Sync.Snapshot | app.py:559-569 | the join snapshot carries the session's text, settings and flags, and the tasks only once they are released |
| Sync.JoinAfterReleaseSeesTasks | app.py:564 | a student joining after a release receives exactly the released tasks |
| Sync.HandleTeacherCreateSession | app.py:516-541 | without a synthesis key, refuses and changes nothing; otherwise adds one fresh code owned by the creating connection |
| Sync.ApiCreateSession | app.py:303-337 | the same, but the session has no teacher and no PIN |
| Sync.HandleStudentJoinSession | app.py:543-579 | a missing or expired session gives an error and only the lookup's deletion; otherwise the joiner is recorded with an allocated identity and receives the snapshot of the session as it was before the join |
| Sync.HandleDisconnect | app.py:502-514 | the loop removes the connection from the students of every session, and changes nothing else |
| Sync.HandleTeacherEndSession | app.py:581-596 | the owner deletes the session; anyone else is refused, with only the lookup's deletion |
| Sync.ApiEndSession | app.py:368-390 | deletes the code with no owner or expiry check, and reports whether it was present |
| Sync.ApiSetText | app.py:455-481 | sets the text of any stored session, expired or not, with no owner check; an unknown code changes nothing |
| Sync.HandleTeacherUpdateSettings | app.py:598-615 | the owner replaces the settings; anyone else is refused, with only the lookup's deletion |
| Sync.HandleTeacherReleaseTasks | app.py:617-635 | the owner stores the tasks and makes them available; anyone else is refused, with only the lookup's deletion |
| Sync.HandleTeacherToggleSimplification | app.py:801-822 | the owner sets the simplification flag; anyone else is refused, with only the lookup's deletion |
| Sync.HandleStudentRequestTranslation | app.py:650-691 | a live session gets a pending request for the sender, overwriting any earlier one, with the language name and the sender's anonymous id or the guest id |
| Sync.HandleTeacherApproveTranslation | app.py:693-766 | refused for a non-owner, and refused with no change for a missing request or empty text. With no AI key the request becomes approved without translation. Otherwise it becomes approved with the provider's text, or nothing changes when the provider fails |
| Sync.HandleTeacherDenyTranslation | app.py:768-797 | the owner marks an existing request denied, and nothing changes when there is none; anyone else is refused |
| Sync.HandleStudentUsingSimplified | app.py:824-861 | in a live session, the sender's level report is replaced, with the anonymous id found by the scan over the students, or none |

## Left out

- Flask routes other than create, end and set-text are left out: templates, cache statistics, `jsonify` shaping, and the join, status, settings, QR and get-text routes. The last five call `get_session` (app.py:355, 396, 414, 432, 487), so each of them deletes the session it asks for when that session has expired. That deletion is `SessionRegistry.Registry.GetSession`; it is not modelled route by route. Apart from it they only read state or render it.
- Socket.IO delivery (`emit`, `join_room`, rooms, the teacher's `student_joined`/`student_left` notices) is left out, because it is network behaviour. Each handler returns only the outcome reported to the acting connection.
- Provider calls (ElevenLabs, OpenAI, Anthropic, Google, Unsplash) are left out. The translation used by approval is a function parameter, and its failure is `None`.
- `threading.Lock`, the background cleanup thread and `time.sleep` are left out. Each handler, route and registry operation runs as one atomic step, and the sweep is a method that can be called at any time. The source is finer grained: `create_session` draws the code under the lock and stores it under a second acquisition (app.py:103, 110); `add_student_to_session` allocates the animal in `get_anonymous_name`'s own locked block and records the student in another (app.py:77, 158); every handler looks the session up in `get_session`'s block and writes in a later one (for example app.py:604, 607); and approval calls the translation provider with the lock released (app.py:700, 739, 742). The interleavings this merging excludes are listed next.
- Concurrent creates: two `create_session` calls can both draw the same free code before either stores it, and the second then overwrites the first session. In the model a created code is always new.
- Concurrent joins: two students joining the same session at once can both be given the same lowest free animal index. In the model the indices stay pairwise distinct while a catalogue index is free (`AllocationKeepsIndicesDistinct`), which is always the case while fewer than 28 students are present. Once 28 are present, the numbered fallback may repeat an index that a student already holds, in the model as in the source (app.py:90-93).
- Re-request during approval: a student who sends a new translation request while the provider call for the old one runs gets the new request marked `approved`, carrying the translation into the old language. In the model the approved request is always the one whose language was translated.
- The MD5 digest of the cache keys is left out. The key is the digest's input, `text|param`, so `FingerprintInjective` says nothing about digest collisions.
- `cleanup_extracted_text`, file-text extraction and the parsing of language-model output are left out. They need regular-expression and library semantics.
- `isoformat` timestamps are left out: `requestedAt` and `timestamp` are the raw `now`.
- SessionRegistry.Registry.CreateSession: the source reads the clock twice, once for `created` and once for `expires`. The model uses one `now`, so `expires == created + Ttl` holds exactly rather than to within microseconds.
- SessionRegistry.Registry.GenerateSessionCode: the retry loop of the source may never end. The model requires that some draw is fresh, and it does not model the uniform distribution of the draws.
- Codes.Normalize: the bound `|code| <= |raw|` holds only under the ASCII case mapping. Python's `upper()` can lengthen a string (`ßabcd` becomes `SSABCD`, 5 characters becoming 6).
- Codes.Upper: only ASCII letters are upper-cased. Python's `str.upper()` also maps other characters, some of them onto ASCII letters and some onto several characters: `ß` to `SS`, `ſ` to `S`, `ﬀ` to `FF`, `ﬁ` to `FI`. An input spelled with such characters (`ßabcd` normalises to `SSABCD` in the source) can find a session at app.py:546-549 in the source, but not in the model, where the character stays as it is and the normal form is no code.
- Sync.HandleTeacherCreateSession: an explicit JSON `null` in a key field is treated as an absent field. The model's fields are strings or absent.
- Sync.HandleStudentUsingSimplified: the `sid[:8]` fallback for a student record without an anonymous id cannot arise here, because every recorded student has one.
- Sync.HandleTeacherToggleSimplification: the model's flag is a boolean. The source stores `data.get('enabled', False)` as sent (app.py:805, 814), any JSON value, and later reads it by truthiness (app.py:1286), so a client sending the string `"false"` switches simplification on.
- Sync.Snapshot: the source's `{}` default for settings that were never pushed is `None` here.

### Behaviour worth noting

- The code alphabet has 32 characters: A–Z without I and O, then 2–9 (app.py:100).
- A session created over HTTP is stored with no teacher, and no handler ever attaches one. Every owner-gated handler therefore refuses all callers for such a session (`OwnerlessSessionRefusesEveryone`).
- Approval and denial are not one-shot. Both act on a request in any state: a denied request can later be approved, and an approved one denied.
- The reported reading level is stored as sent, without validation.
- The speech route keys its cache with `get_cache_key(text + language_code, voice_id)` (app.py:1551). The language code is whatever the client sends (app.py:1539), so ("Hallo", "de") and ("Hallod", "e") under one voice share a cache entry (`SpeechKeyShift`).
- The HTTP end route and the HTTP set-text route perform no owner check. Set-text writes even to an expired session that has not been swept yet.
