/**
 * The records the session registry keeps: one Session per code, with the
 * students, translation requests and reading-level reports nested inside it.
 */
module Sessions {
  import opened Wrappers

  /** A Socket.IO connection id (request.sid). */
  type Sid = string

  /** A JSON payload kept exactly as the client sent it (task lists, settings). */
  type Json = string

  /** SESSION_TIMEOUT_HOURS */
  const SessionTimeoutHours: nat := 3

  /** The session lifetime in clock units; the clock counts seconds. */
  const Ttl: nat := SessionTimeoutHours * 3600

  /**
   * The teacher's credential bundle. Sessions created over HTTP carry no
   * speech-recognition provider entry (None).
   */
  datatype Keys = Keys(
    elevenlabs: string,
    ai: string,
    aiProvider: string,
    voiceId: string,
    sttProvider: Option<string>)

  /** One joined student: the catalogue index and the anonymous identity made from it. */
  datatype Student = Student(
    joined: int,
    name: string,
    animalIndex: nat,
    animalEmoji: string,
    animalName: string,
    anonymousId: string)

  /** The states of a translation request. */
  datatype Status = Pending | Approved | ApprovedNoTranslation | Denied

  datatype TranslationRequest = TranslationRequest(
    language: string,
    languageName: string,
    status: Status,
    anonymousId: string,
    requestedAt: int,
    translatedText: Option<string>)

  /** A student's report of the reading level it uses. */
  datatype LevelReport = LevelReport(level: string, anonymousId: Option<string>, timestamp: int)

  /**
   * One classroom session. `settings` is None until the teacher first pushes
   * settings (the key is absent from the source's record until then).
   */
  datatype Session = Session(
    keys: Keys,
    teacherSid: Option<Sid>,
    created: int,
    expires: int,
    students: map<Sid, Student>,
    text: string,
    pin: string,
    tasks: seq<Json>,
    tasksAvailable: bool,
    translationRequests: map<Sid, TranslationRequest>,
    simplificationEnabled: bool,
    studentLevels: map<Sid, LevelReport>,
    settings: Option<Json>)

  /** LANGUAGE_NAMES */
  const LanguageNames: map<string, string> := map[
    "tr" := "Türkisch", "bg" := "Bulgarisch", "de" := "Deutsch",
    "ar" := "Arabisch", "uk" := "Ukrainisch", "en" := "Englisch"]

  /** LANGUAGE_NAMES.get(language, language): the German name of a known code, else the code itself. */
  function LanguageName(language: string): (name: string)
    ensures language in LanguageNames ==> name == LanguageNames[language]
    ensures language !in LanguageNames ==> name == language
  {
    if language in LanguageNames then LanguageNames[language] else language
  }

  /** The identity shown for a connection that is not a student of the session. */
  const GuestId: string := "🐾 Gast"

  /** The anonymous id of sid in this student map, or the guest identity. */
  function AnonymousIdOf(students: map<Sid, Student>, sid: Sid): (id: string)
    ensures sid in students ==> id == students[sid].anonymousId
    ensures sid !in students ==> id == GuestId
  {
    if sid in students then students[sid].anonymousId else GuestId
  }
}
