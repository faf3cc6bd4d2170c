/**
 * The state effects of the Socket.IO handlers and of the three HTTP routes that
 * write session state (create, end, set text). Emits, rooms and logging are
 * not modelled; each handler runs as one atomic step and returns what it
 * reports to the acting connection. Every privileged handler first looks the
 * session up (which deletes it if expired) and then checks that the acting
 * connection is the session's recorded teacher.
 */
module Sync {
  import opened Wrappers
  import opened Codes
  import opened Sessions
  import opened Allocator
  import opened SessionRegistry

  /** The errors the handlers report. */
  datatype HandlerError =
    | NoPermission        // no live session under the code, or the actor is not its teacher
    | SessionNotFound
    | RequestNotFound     // no translation request recorded for that student
    | NoTextToTranslate
    | TranslationFailed   // the translation provider raised
    | MissingSynthesisKey // session creation without an ElevenLabs key

  /** data.get(key, default): the field the client sent, or the default when it is absent. */
  function FieldOr(field: Option<string>, default: string): (v: string)
    ensures field.Some? ==> v == field.value
    ensures field.None? ==> v == default
  {
    if field.Some? then field.value else default
  }

  const DefaultAiProvider: string := "openai"
  const DefaultVoiceId: string := "21m00Tcm4TlvDq8ikWAM"
  const DefaultSttProvider: string := "browser"
  const DefaultStudentName: string := "Anonym"
  const DefaultLevel: string := "original"

  /** The credential fields of a create request; None marks a field the client left out. */
  datatype KeyFields = KeyFields(
    elevenlabsKey: Option<string>,
    aiKey: Option<string>,
    aiProvider: Option<string>,
    voiceId: Option<string>,
    sttProvider: Option<string>)

  /** The keys record teacher_create_session builds: with a speech-recognition provider, browser by default. */
  function SocketKeys(f: KeyFields): (keys: Keys)
    ensures keys.elevenlabs == FieldOr(f.elevenlabsKey, "") && keys.ai == FieldOr(f.aiKey, "")
    ensures keys.aiProvider == FieldOr(f.aiProvider, DefaultAiProvider)
    ensures keys.voiceId == FieldOr(f.voiceId, DefaultVoiceId)
    ensures keys.sttProvider == Some(FieldOr(f.sttProvider, DefaultSttProvider))
  {
    Keys(FieldOr(f.elevenlabsKey, ""), FieldOr(f.aiKey, ""), FieldOr(f.aiProvider, DefaultAiProvider),
         FieldOr(f.voiceId, DefaultVoiceId), Some(FieldOr(f.sttProvider, DefaultSttProvider)))
  }

  /** The keys record the HTTP create route builds: the same defaults, and no speech-recognition entry. */
  function HttpKeys(f: KeyFields): (keys: Keys)
    ensures keys.elevenlabs == FieldOr(f.elevenlabsKey, "") && keys.ai == FieldOr(f.aiKey, "")
    ensures keys.aiProvider == FieldOr(f.aiProvider, DefaultAiProvider)
    ensures keys.voiceId == FieldOr(f.voiceId, DefaultVoiceId)
    ensures keys.sttProvider == None
  {
    Keys(FieldOr(f.elevenlabsKey, ""), FieldOr(f.aiKey, ""), FieldOr(f.aiProvider, DefaultAiProvider),
         FieldOr(f.voiceId, DefaultVoiceId), None)
  }

  /** Both create paths build the same credentials; only the socket path records a speech-recognition provider. */
  lemma CreatePathsAgreeOnKeys(f: KeyFields)
    ensures HttpKeys(f) == SocketKeys(f).(sttProvider := None)
    ensures HttpKeys(f).elevenlabs == "" <==> SocketKeys(f).elevenlabs == ""
  {
  }

  /** The owner check: the session is live and its recorded teacher_sid is the acting connection. */
  predicate IsOwner(m: SessionMap, code: string, actor: Sid, now: int): (owner: bool)
    ensures owner ==> Live(m, code, now)
    ensures owner ==> forall other :: other != actor ==> m[code].teacherSid != Some(other)
  {
    Live(m, code, now) && m[code].teacherSid == Some(actor)
  }

  /** A session created over HTTP has no teacher_sid, and nothing ever sets one later. */
  lemma OwnerlessSessionRefusesEveryone(m: SessionMap, code: string, actor: Sid, now: int)
    requires code in m && m[code].teacherSid == None
    ensures !IsOwner(m, code, actor, now)
  {
  }

  /** The map with one session's translation request for sid replaced. */
  function WithRequest(m: SessionMap, code: string, sid: Sid, req: TranslationRequest): SessionMap
    requires code in m
  {
    m[code := m[code].(translationRequests := m[code].translationRequests[sid := req])]
  }

  /** What a joining student receives (join_success). */
  datatype JoinSnapshot = JoinSnapshot(
    code: string,
    text: string,
    settings: Option<Json>,
    tasksAvailable: bool,
    tasks: seq<Json>,
    anonymousId: string,
    animalEmoji: string,
    animalName: string,
    simplificationEnabled: bool)

  /**
   * The join snapshot of a session for a student: its current text, settings
   * and flags, and its tasks only once they have been released.
   */
  function Snapshot(code: string, s: Session, st: Student): (snap: JoinSnapshot)
    ensures snap.text == s.text && snap.settings == s.settings
    ensures snap.tasksAvailable == s.tasksAvailable
    ensures !s.tasksAvailable ==> snap.tasks == []
    ensures s.tasksAvailable ==> snap.tasks == s.tasks
    ensures snap.anonymousId == st.anonymousId
  {
    JoinSnapshot(code, s.text, s.settings, s.tasksAvailable, if s.tasksAvailable then s.tasks else [],
                 st.anonymousId, st.animalEmoji, st.animalName, s.simplificationEnabled)
  }

  /** A student joining after a release sees the released tasks, whatever it missed before. */
  lemma JoinAfterReleaseSeesTasks(code: string, s: Session, tasks: seq<Json>, st: Student)
    ensures Snapshot(code, s.(tasks := tasks, tasksAvailable := true), st).tasks == tasks
  {
  }

  // ---------------------------------------------------------------------------
  // Session creation and end

  /** teacher_create_session: the creating connection becomes the session's teacher. */
  method HandleTeacherCreateSession(reg: Registry, actor: Sid, fields: KeyFields, pin: Option<string>, now: int,
                                    draws: seq<string>)
    returns (r: Result<string, HandlerError>)
    requires reg.Valid()
    requires forall i :: 0 <= i < |draws| ==> IsCode(draws[i])
    requires exists i :: 0 <= i < |draws| && draws[i] !in reg.sessions
    modifies reg
    ensures reg.Valid()
    ensures SocketKeys(fields).elevenlabs == "" ==> r == Err(MissingSynthesisKey) && reg.sessions == old(reg.sessions)
    ensures SocketKeys(fields).elevenlabs != "" ==> r.Ok? && r.value !in old(reg.sessions)
    ensures SocketKeys(fields).elevenlabs != "" && r.Ok? ==>
      reg.sessions == old(reg.sessions)[r.value := NewSession(Some(actor), SocketKeys(fields), FieldOr(pin, ""), now)]
  {
    var keys := SocketKeys(fields);
    if keys.elevenlabs == "" {
      return Err(MissingSynthesisKey);
    }
    var code := reg.CreateSession(Some(actor), keys, FieldOr(pin, ""), now, draws);
    r := Ok(code);
  }

  /** The HTTP create route: the same, but the session is created with no teacher_sid and no PIN. */
  method ApiCreateSession(reg: Registry, fields: KeyFields, now: int, draws: seq<string>)
    returns (r: Result<string, HandlerError>)
    requires reg.Valid()
    requires forall i :: 0 <= i < |draws| ==> IsCode(draws[i])
    requires exists i :: 0 <= i < |draws| && draws[i] !in reg.sessions
    modifies reg
    ensures reg.Valid()
    ensures HttpKeys(fields).elevenlabs == "" ==> r == Err(MissingSynthesisKey) && reg.sessions == old(reg.sessions)
    ensures HttpKeys(fields).elevenlabs != "" ==> r.Ok? && r.value !in old(reg.sessions)
    ensures HttpKeys(fields).elevenlabs != "" && r.Ok? ==>
      reg.sessions == old(reg.sessions)[r.value := NewSession(None, HttpKeys(fields), "", now)]
  {
    var keys := HttpKeys(fields);
    if keys.elevenlabs == "" {
      return Err(MissingSynthesisKey);
    }
    var code := reg.CreateSession(None, keys, "", now, draws);
    r := Ok(code);
  }

  /** teacher_end_session: only the session's teacher may end it. */
  method HandleTeacherEndSession(reg: Registry, rawCode: string, actor: Sid, now: int) returns (r: Outcome<HandlerError>)
    requires reg.Valid()
    modifies reg
    ensures reg.Valid()
    ensures var code := Normalize(rawCode);
      if IsOwner(old(reg.sessions), code, actor, now)
      then r == Pass && reg.sessions == old(reg.sessions) - {code}
      else r == Fail(NoPermission) && reg.sessions == Expire(old(reg.sessions), code, now)
  {
    var code := Normalize(rawCode);
    var session := reg.GetSession(code, now);
    if session.Some? && session.value.teacherSid == Some(actor) {
      var _ := reg.EndSession(code);
      return Pass;
    }
    r := Fail(NoPermission);
  }

  /** The HTTP end route: no owner check and no expiry check. */
  method ApiEndSession(reg: Registry, rawCode: string) returns (r: Outcome<HandlerError>)
    requires reg.Valid()
    modifies reg
    ensures reg.Valid()
    ensures var code := Normalize(rawCode);
      r == (if code in old(reg.sessions) then Pass else Fail(SessionNotFound))
      && reg.sessions == old(reg.sessions) - {code}
  {
    var ended := reg.EndSession(Normalize(rawCode));
    r := if ended then Pass else Fail(SessionNotFound);
  }

  /** The HTTP set-text route: no owner check, and an expired but unswept session is still written. */
  method ApiSetText(reg: Registry, rawCode: string, text: string) returns (r: Outcome<HandlerError>)
    requires reg.Valid()
    modifies reg
    ensures reg.Valid()
    ensures var code := Normalize(rawCode);
      if code in old(reg.sessions)
      then r == Pass && reg.sessions == old(reg.sessions)[code := old(reg.sessions)[code].(text := text)]
      else r == Fail(SessionNotFound) && reg.sessions == old(reg.sessions)
  {
    var code := Normalize(rawCode);
    if code in reg.sessions {
      reg.Store(code, reg.sessions[code].(text := text));
      return Pass;
    }
    r := Fail(SessionNotFound);
  }

  // ---------------------------------------------------------------------------
  // Students

  /** student_join_session: records the student and answers with the session snapshot. */
  method HandleStudentJoinSession(reg: Registry, rawCode: string, sid: Sid, name: Option<string>, now: int)
    returns (r: Result<JoinSnapshot, HandlerError>)
    requires reg.Valid()
    modifies reg
    ensures reg.Valid()
    ensures var code := Normalize(rawCode);
      !Live(old(reg.sessions), code, now) ==>
        r == Err(SessionNotFound) && reg.sessions == Expire(old(reg.sessions), code, now)
    ensures var code := Normalize(rawCode);
      Live(old(reg.sessions), code, now) ==>
        && code in reg.sessions && sid in reg.sessions[code].students
        && var st := reg.sessions[code].students[sid];
        && reg.sessions == old(reg.sessions)[code := old(reg.sessions)[code].(students := old(reg.sessions)[code].students[sid := st])]
        && st.joined == now && st.name == FieldOr(name, DefaultStudentName)
        && IsAllocation(old(reg.sessions)[code].students, st.animalIndex, st.animalEmoji, st.animalName)
        && st.anonymousId == AnonymousId(st.animalEmoji, st.animalName)
        && r == Ok(Snapshot(code, old(reg.sessions)[code], st))
  {
    var code := Normalize(rawCode);
    var session := reg.GetSession(code, now);
    if session.None? {
      return Err(SessionNotFound);
    }
    var st := reg.AddStudentToSession(code, sid, FieldOr(name, DefaultStudentName), now);
    r := Ok(Snapshot(code, session.value, st.value));
  }

  /**
   * disconnect: the connection is removed from the students of every session;
   * translation requests, level reports and teacher_sid are left as they are.
   */
  method HandleDisconnect(reg: Registry, sid: Sid)
    requires reg.Valid()
    modifies reg
    ensures reg.Valid()
    ensures reg.sessions.Keys == old(reg.sessions).Keys
    ensures forall c :: c in reg.sessions ==> reg.sessions[c] == Leave(old(reg.sessions)[c], sid)
  {
    var m := reg.sessions;
    var todo := m.Keys;
    ghost var done: set<string> := {};
    while todo != {}
      invariant m.Keys == old(reg.sessions).Keys
      invariant todo + done == m.Keys
      invariant forall c :: c in todo ==> m[c] == old(reg.sessions)[c]
      invariant forall c :: c in done ==> m[c] == Leave(old(reg.sessions)[c], sid)
      decreases todo
    {
      var c :| c in todo;
      if sid in m[c].students {
        m := m[c := Leave(m[c], sid)];
      } else {
        assert Leave(m[c], sid) == m[c];
      }
      todo, done := todo - {c}, done + {c};
    }
    forall c | c in m
      ensures IsCode(c) && WellFormedSession(m[c])
    {
      assert c in old(reg.sessions);
    }
    reg.sessions := m;
  }

  // ---------------------------------------------------------------------------
  // Teacher actions

  /** teacher_update_settings: the teacher replaces the session's settings wholesale. */
  method HandleTeacherUpdateSettings(reg: Registry, rawCode: string, actor: Sid, settings: Json, now: int)
    returns (r: Outcome<HandlerError>)
    requires reg.Valid()
    modifies reg
    ensures reg.Valid()
    ensures var code := Normalize(rawCode);
      if IsOwner(old(reg.sessions), code, actor, now)
      then r == Pass && reg.sessions == old(reg.sessions)[code := old(reg.sessions)[code].(settings := Some(settings))]
      else r == Fail(NoPermission) && reg.sessions == Expire(old(reg.sessions), code, now)
  {
    var code := Normalize(rawCode);
    var session := reg.GetSession(code, now);
    if session.Some? && session.value.teacherSid == Some(actor) {
      reg.Store(code, session.value.(settings := Some(settings)));
      return Pass;
    }
    r := Fail(NoPermission);
  }

  /** teacher_release_tasks: stores the task list and makes it available to students. */
  method HandleTeacherReleaseTasks(reg: Registry, rawCode: string, actor: Sid, tasks: seq<Json>, now: int)
    returns (r: Outcome<HandlerError>)
    requires reg.Valid()
    modifies reg
    ensures reg.Valid()
    ensures var code := Normalize(rawCode);
      if IsOwner(old(reg.sessions), code, actor, now)
      then r == Pass
        && reg.sessions == old(reg.sessions)[code := old(reg.sessions)[code].(tasks := tasks, tasksAvailable := true)]
      else r == Fail(NoPermission) && reg.sessions == Expire(old(reg.sessions), code, now)
  {
    var code := Normalize(rawCode);
    var session := reg.GetSession(code, now);
    if session.Some? && session.value.teacherSid == Some(actor) {
      reg.Store(code, session.value.(tasks := tasks, tasksAvailable := true));
      return Pass;
    }
    r := Fail(NoPermission);
  }

  /** teacher_toggle_simplification: sets whether students may use simplified text. */
  method HandleTeacherToggleSimplification(reg: Registry, rawCode: string, actor: Sid, enabled: bool, now: int)
    returns (r: Outcome<HandlerError>)
    requires reg.Valid()
    modifies reg
    ensures reg.Valid()
    ensures var code := Normalize(rawCode);
      if IsOwner(old(reg.sessions), code, actor, now)
      then r == Pass
        && reg.sessions == old(reg.sessions)[code := old(reg.sessions)[code].(simplificationEnabled := enabled)]
      else r == Fail(NoPermission) && reg.sessions == Expire(old(reg.sessions), code, now)
  {
    var code := Normalize(rawCode);
    var session := reg.GetSession(code, now);
    if session.Some? && session.value.teacherSid == Some(actor) {
      reg.Store(code, session.value.(simplificationEnabled := enabled));
      return Pass;
    }
    r := Fail(NoPermission);
  }

  // ---------------------------------------------------------------------------
  // Translation requests

  /** student_request_translation: records a pending request, replacing any earlier one of sid. */
  method HandleStudentRequestTranslation(reg: Registry, rawCode: string, sid: Sid, language: string, now: int)
    returns (r: Outcome<HandlerError>)
    requires reg.Valid()
    modifies reg
    ensures reg.Valid()
    ensures var code := Normalize(rawCode);
      if Live(old(reg.sessions), code, now)
      then r == Pass && reg.sessions == WithRequest(old(reg.sessions), code, sid,
        TranslationRequest(language, LanguageName(language), Pending,
                           AnonymousIdOf(old(reg.sessions)[code].students, sid), now, None))
      else r == Fail(SessionNotFound) && reg.sessions == Expire(old(reg.sessions), code, now)
  {
    var code := Normalize(rawCode);
    var session := reg.GetSession(code, now);
    if session.None? {
      return Fail(SessionNotFound);
    }
    var anonymousId := AnonymousIdOf(session.value.students, sid);
    var req := TranslationRequest(language, LanguageName(language), Pending, anonymousId, now, None);
    var s := session.value;
    reg.Store(code, s.(translationRequests := s.translationRequests[sid := req]));
    r := Pass;
  }

  /**
   * teacher_approve_translation. `translate` stands for translate_text_with_ai
   * (text, language, ai key, ai provider); None means the provider call raised.
   * The result is the translation sent to the student (None: approved without one).
   */
  method HandleTeacherApproveTranslation(reg: Registry, rawCode: string, actor: Sid, studentSid: Sid,
                                         translate: (string, string, string, string) -> Option<string>, now: int)
    returns (r: Result<Option<string>, HandlerError>)
    requires reg.Valid()
    modifies reg
    ensures reg.Valid()
    ensures var code := Normalize(rawCode);
      !IsOwner(old(reg.sessions), code, actor, now) ==>
        r == Err(NoPermission) && reg.sessions == Expire(old(reg.sessions), code, now)
    ensures var code := Normalize(rawCode);
      IsOwner(old(reg.sessions), code, actor, now) ==>
        var s := old(reg.sessions)[code];
        if studentSid !in s.translationRequests then
          r == Err(RequestNotFound) && reg.sessions == old(reg.sessions)
        else if s.text == "" then
          r == Err(NoTextToTranslate) && reg.sessions == old(reg.sessions)
        else if s.keys.ai == "" then
          r == Ok(None) && reg.sessions == WithRequest(old(reg.sessions), code, studentSid,
            s.translationRequests[studentSid].(status := ApprovedNoTranslation))
        else
          var t := translate(s.text, s.translationRequests[studentSid].language, s.keys.ai, s.keys.aiProvider);
          if t.None? then
            r == Err(TranslationFailed) && reg.sessions == old(reg.sessions)
          else
            r == Ok(t) && reg.sessions == WithRequest(old(reg.sessions), code, studentSid,
              s.translationRequests[studentSid].(status := Approved, translatedText := t))
  {
    var code := Normalize(rawCode);
    var session := reg.GetSession(code, now);
    if session.None? || session.value.teacherSid != Some(actor) {
      return Err(NoPermission);
    }
    var s := session.value;
    if studentSid !in s.translationRequests {
      return Err(RequestNotFound);
    }
    var req := s.translationRequests[studentSid];
    if s.text == "" {
      return Err(NoTextToTranslate);
    }
    if s.keys.ai == "" {
      reg.Store(code, s.(translationRequests := s.translationRequests[studentSid := req.(status := ApprovedNoTranslation)]));
      return Ok(None);
    }
    var translated := translate(s.text, req.language, s.keys.ai, s.keys.aiProvider);
    if translated.None? {
      return Err(TranslationFailed);
    }
    reg.Store(code, s.(translationRequests := s.translationRequests[studentSid := req.(status := Approved, translatedText := translated)]));
    r := Ok(translated);
  }

  /** teacher_deny_translation: marks an existing request denied; no request, no change. */
  method HandleTeacherDenyTranslation(reg: Registry, rawCode: string, actor: Sid, studentSid: Sid, now: int)
    returns (r: Outcome<HandlerError>)
    requires reg.Valid()
    modifies reg
    ensures reg.Valid()
    ensures var code := Normalize(rawCode);
      !IsOwner(old(reg.sessions), code, actor, now) ==>
        r == Fail(NoPermission) && reg.sessions == Expire(old(reg.sessions), code, now)
    ensures var code := Normalize(rawCode);
      IsOwner(old(reg.sessions), code, actor, now) ==> r == Pass
    ensures var code := Normalize(rawCode);
      IsOwner(old(reg.sessions), code, actor, now) ==>
        var reqs := old(reg.sessions)[code].translationRequests;
        reg.sessions == if studentSid in reqs
          then WithRequest(old(reg.sessions), code, studentSid, reqs[studentSid].(status := Denied))
          else old(reg.sessions)
  {
    var code := Normalize(rawCode);
    var session := reg.GetSession(code, now);
    if session.None? || session.value.teacherSid != Some(actor) {
      return Fail(NoPermission);
    }
    var s := session.value;
    if studentSid in s.translationRequests {
      reg.Store(code, s.(translationRequests := s.translationRequests[studentSid := s.translationRequests[studentSid].(status := Denied)]));
    }
    r := Pass;
  }

  /**
   * student_using_simplified: records the reading level sid reports, with its
   * anonymous id when sid is a student of the session. The result says whether
   * the session was found (the source stays silent when it is not).
   */
  method HandleStudentUsingSimplified(reg: Registry, rawCode: string, sid: Sid, level: Option<string>, now: int)
    returns (recorded: bool)
    requires reg.Valid()
    modifies reg
    ensures reg.Valid()
    ensures var code := Normalize(rawCode);
      recorded == Live(old(reg.sessions), code, now)
    ensures var code := Normalize(rawCode);
      if recorded then
        var s := old(reg.sessions)[code];
        var anonymousId := if sid in s.students then Some(s.students[sid].anonymousId) else None;
        var report := LevelReport(FieldOr(level, DefaultLevel), anonymousId, now);
        reg.sessions == old(reg.sessions)[code := s.(studentLevels := s.studentLevels[sid := report])]
      else reg.sessions == Expire(old(reg.sessions), code, now)
  {
    var code := Normalize(rawCode);
    var session := reg.GetSession(code, now);
    if session.None? {
      return false;
    }
    var s := session.value;
    var students := s.students;
    var anonymousId: Option<string> := None;
    var rest := students.Keys;
    while rest != {}
      invariant rest <= students.Keys
      invariant anonymousId == if sid in students && sid !in rest then Some(students[sid].anonymousId) else None
      decreases rest
    {
      var other :| other in rest;
      if other == sid {
        anonymousId := Some(students[sid].anonymousId);
        break;
      }
      rest := rest - {other};
    }
    reg.Store(code, s.(studentLevels := s.studentLevels[sid := LevelReport(FieldOr(level, DefaultLevel), anonymousId, now)]));
    recorded := true;
  }
}
