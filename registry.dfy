/**
 * The session registry: the `sessions` dict from code to Session, with
 * creation under a fresh code, lookup that lazily deletes an expired entry,
 * explicit end, student join and leave, and the periodic sweep. Each method
 * runs as one atomic step, even where the source takes the lock more than once
 * (a code is drawn and then stored, a free animal is chosen and then recorded).
 */
module SessionRegistry {
  import opened Wrappers
  import opened Codes
  import opened Sessions
  import opened Allocator

  type SessionMap = map<string, Session>

  /** get_session hands this session out: it is present and its expiry lies ahead. */
  predicate Live(m: SessionMap, code: string, now: int): (live: bool)
    ensures live ==> code in m
  {
    code in m && now < m[code].expires
  }

  /** What get_session leaves behind: the entry for code is deleted if it has expired. */
  function Expire(m: SessionMap, code: string, now: int): (m': SessionMap)
    ensures m'.Keys == if code in m && !Live(m, code, now) then m.Keys - {code} else m.Keys
    ensures forall c :: c in m' ==> m'[c] == m[c]
  {
    if code in m && m[code].expires <= now then m - {code} else m
  }

  /** What cleanup_expired_sessions leaves behind: exactly the sessions still live. */
  function Sweep(m: SessionMap, now: int): (m': SessionMap)
    ensures forall c :: c in m' <==> Live(m, c, now)
    ensures forall c :: c in m' ==> c in m && m'[c] == m[c]
  {
    map c | c in m && now < m[c].expires :: m[c]
  }

  /** Sweeping twice at the same time removes nothing more. */
  lemma SweepIdempotent(m: SessionMap, now: int)
    ensures Sweep(Sweep(m, now), now) == Sweep(m, now)
  {
  }

  /** A later sweep subsumes an earlier one: an expired session never comes back. */
  lemma SweepLater(m: SessionMap, t1: int, t2: int)
    requires t1 <= t2
    ensures Sweep(Sweep(m, t1), t2) == Sweep(m, t2)
  {
  }

  /**
   * Lazy and eager expiry agree: a lookup's deletion changes nothing a sweep
   * at the same time would not, and no lookup answer changes.
   */
  lemma ExpireAgreesWithSweep(m: SessionMap, code: string, now: int)
    ensures Sweep(Expire(m, code, now), now) == Sweep(m, now)
    ensures forall c :: Live(Expire(m, code, now), c, now) <==> Live(m, c, now)
  {
  }

  /** The registry invariant on one session: it lives for Ttl, and students hold catalogue indices. */
  predicate WellFormedSession(s: Session) {
    && s.expires == s.created + Ttl
    && forall sid :: sid in s.students ==> s.students[sid].animalIndex < |Catalogue|
  }

  /** The registry invariant: every key is a session code and every session is well formed. */
  predicate ValidSessions(m: SessionMap) {
    forall c :: c in m ==> IsCode(c) && WellFormedSession(m[c])
  }

  /** A session with the connection sid removed from its students. */
  function Leave(s: Session, sid: Sid): (s': Session)
    ensures s'.students == s.students - {sid}
    ensures s'.teacherSid == s.teacherSid && s'.expires == s.expires && s'.created == s.created
    ensures s'.translationRequests == s.translationRequests && s'.studentLevels == s.studentLevels
    ensures s'.text == s.text && s'.tasks == s.tasks && s'.settings == s.settings
  {
    s.(students := s.students - {sid})
  }

  /**
   * What the registry invariant buys a lookup: a stored code typed in any
   * letter case with whitespace around it normalises to itself, and is live
   * exactly until Ttl after its creation; its students hold at most as many
   * distinct animals as the catalogue has.
   */
  lemma ValidLookup(m: SessionMap, c: string, pre: string, typed: string, post: string, now: int)
    requires ValidSessions(m) && c in m
    requires forall i :: 0 <= i < |pre| ==> IsSpace(pre[i])
    requires forall i :: 0 <= i < |post| ==> IsSpace(post[i])
    requires |typed| == |c| && forall i :: 0 <= i < |c| ==> UpperChar(typed[i]) == c[i]
    ensures Normalize(pre + typed + post) == c
    ensures Live(m, Normalize(pre + typed + post), now) <==> now < m[c].created + Ttl
    ensures |UsedIndices(m[c].students)| <= |Catalogue|
  {
    NormalizeVariant(c, pre, typed, post);
    SubsetSize(UsedIndices(m[c].students), Below(|Catalogue|));
  }

  /** The record create_session stores. */
  function NewSession(teacherSid: Option<Sid>, keys: Keys, pin: string, now: int): (s: Session)
    ensures WellFormedSession(s) && s.created == now && now < s.expires
    ensures |s.students| == 0 && |s.translationRequests| == 0 && |s.studentLevels| == 0
    ensures s.text == "" && s.tasks == [] && !s.tasksAvailable && !s.simplificationEnabled
    ensures s.teacherSid == teacherSid && s.keys == keys && s.pin == pin && s.settings == None
  {
    Session(keys, teacherSid, now, now + Ttl, map[], "", pin, [], false, map[], false, map[], None)
  }

  /** The sessions dict and the operations that take sessions_lock. */
  class Registry {
    var sessions: SessionMap

    /** Every key is a session code and every session is well formed. */
    ghost predicate Valid()
      reads this
    {
      ValidSessions(sessions)
    }

    constructor ()
      ensures Valid() && sessions == map[]
    {
      sessions := map[];
    }

    /**
     * generate_session_code: `draws` are the codes random.choices produces, in
     * order; the first one not already a key (expired entries included) is taken.
     */
    method GenerateSessionCode(draws: seq<string>) returns (code: string)
      requires forall i :: 0 <= i < |draws| ==> IsCode(draws[i])
      requires exists i :: 0 <= i < |draws| && draws[i] !in sessions
      ensures IsCode(code) && code !in sessions
      ensures exists i :: 0 <= i < |draws| && draws[i] == code && forall j :: 0 <= j < i ==> draws[j] in sessions
    {
      var i := 0;
      while draws[i] in sessions
        invariant 0 <= i < |draws|
        invariant forall j :: 0 <= j < i ==> draws[j] in sessions
        decreases |draws| - i
      {
        i := i + 1;
      }
      code := draws[i];
    }

    /** create_session: stores a fresh session that expires Ttl after its creation. */
    method CreateSession(teacherSid: Option<Sid>, keys: Keys, pin: string, now: int, draws: seq<string>)
      returns (code: string)
      requires Valid()
      requires forall i :: 0 <= i < |draws| ==> IsCode(draws[i])
      requires exists i :: 0 <= i < |draws| && draws[i] !in sessions
      modifies this
      ensures Valid()
      ensures IsCode(code) && code !in old(sessions)
      ensures sessions == old(sessions)[code := NewSession(teacherSid, keys, pin, now)]
      ensures sessions[code].expires == now + Ttl && sessions[code].students == map[]
      ensures sessions[code].translationRequests == map[] && sessions[code].studentLevels == map[]
      ensures sessions[code].text == "" && sessions[code].tasks == [] && !sessions[code].tasksAvailable
      ensures !sessions[code].simplificationEnabled
    {
      code := GenerateSessionCode(draws);
      sessions := sessions[code := NewSession(teacherSid, keys, pin, now)];
    }

    /** get_session: the session while it is live; an expired one is deleted. */
    method GetSession(code: string, now: int) returns (r: Option<Session>)
      requires Valid()
      modifies this
      ensures Valid()
      ensures r == if Live(old(sessions), code, now) then Some(old(sessions)[code]) else None
      ensures sessions == Expire(old(sessions), code, now)
    {
      if code in sessions {
        if now < sessions[code].expires {
          return Some(sessions[code]);
        }
        sessions := sessions - {code};
      }
      r := None;
    }

    /** get_session_keys: the credentials of a live session. */
    method GetSessionKeys(code: string, now: int) returns (r: Option<Keys>)
      requires Valid()
      modifies this
      ensures Valid()
      ensures r == if Live(old(sessions), code, now) then Some(old(sessions)[code].keys) else None
      ensures sessions == Expire(old(sessions), code, now)
    {
      var s := GetSession(code, now);
      r := if s.Some? then Some(s.value.keys) else None;
    }

    /** Writes one session record back in place, as the handlers' nested field assignments do. */
    method Store(code: string, s: Session)
      requires Valid() && code in sessions && WellFormedSession(s)
      modifies this
      ensures Valid()
      ensures sessions == old(sessions)[code := s]
    {
      sessions := sessions[code := s];
    }

    /** end_session: deletes the session and reports whether there was one to delete. */
    method EndSession(code: string) returns (ended: bool)
      requires Valid()
      modifies this
      ensures Valid()
      ensures ended == (code in old(sessions))
      ensures sessions == old(sessions) - {code}
    {
      ended := code in sessions;
      if ended {
        sessions := sessions - {code};
      }
    }

    /**
     * get_anonymous_name: the lowest catalogue index no current student holds,
     * or a random catalogue pair numbered after the class once all are taken.
     */
    method GetAnonymousName(code: string) returns (index: nat, emoji: string, name: string)
      requires Valid()
      ensures code in sessions ==> IsAllocation(sessions[code].students, index, emoji, name)
      ensures code !in sessions ==> index == 0 && (emoji, name) == Catalogue[0]
    {
      if code !in sessions {
        return 0, Catalogue[0].0, Catalogue[0].1;
      }
      var students := sessions[code].students;
      var used: set<nat> := {};
      var rest := students.Keys;
      while rest != {}
        invariant rest <= students.Keys
        invariant used == set sid | sid in students.Keys - rest :: students[sid].animalIndex
        decreases rest
      {
        var sid :| sid in rest;
        used := used + {students[sid].animalIndex};
        rest := rest - {sid};
      }
      assert used == UsedIndices(students);
      var i := 0;
      while i < |Catalogue|
        invariant 0 <= i <= |Catalogue|
        invariant forall j :: 0 <= j < i ==> j in used
      {
        if i !in used {
          return i, Catalogue[i].0, Catalogue[i].1;
        }
        i := i + 1;
      }
      index :| 0 <= index < |Catalogue|;
      emoji, name := Catalogue[index].0, Catalogue[index].1 + " " + NatToString(|students| + 1);
    }

    /** add_student_to_session: records the joiner under its sid with a fresh identity. */
    method AddStudentToSession(code: string, sid: Sid, studentName: string, now: int) returns (r: Option<Student>)
      requires Valid()
      modifies this
      ensures Valid()
      ensures code !in old(sessions) ==> r == None && sessions == old(sessions)
      ensures code in old(sessions) ==> r.Some?
      ensures code in old(sessions) ==>
        sessions == old(sessions)[code := old(sessions)[code].(students := old(sessions)[code].students[sid := r.value])]
      ensures code in old(sessions) ==> r.value.joined == now && r.value.name == studentName
      ensures code in old(sessions) ==>
        IsAllocation(old(sessions)[code].students, r.value.animalIndex, r.value.animalEmoji, r.value.animalName)
      ensures r.Some? ==> r.value.anonymousId == AnonymousId(r.value.animalEmoji, r.value.animalName)
    {
      var index, emoji, name := GetAnonymousName(code);
      if code in sessions {
        var st := Student(now, studentName, index, emoji, name, AnonymousId(emoji, name));
        sessions := sessions[code := sessions[code].(students := sessions[code].students[sid := st])];
        return Some(st);
      }
      r := None;
    }

    /** remove_student_from_session: deletes one student and reports whether it was there. */
    method RemoveStudentFromSession(code: string, sid: Sid) returns (removed: bool)
      requires Valid()
      modifies this
      ensures Valid()
      ensures removed == (code in old(sessions) && sid in old(sessions)[code].students)
      ensures sessions == if removed then old(sessions)[code := Leave(old(sessions)[code], sid)] else old(sessions)
    {
      removed := code in sessions && sid in sessions[code].students;
      if removed {
        sessions := sessions[code := Leave(sessions[code], sid)];
      }
    }

    /** get_student_count: the class size of a live session, 0 otherwise. */
    method GetStudentCount(code: string, now: int) returns (n: nat)
      requires Valid()
      modifies this
      ensures Valid()
      ensures n == if Live(old(sessions), code, now) then |old(sessions)[code].students| else 0
      ensures sessions == Expire(old(sessions), code, now)
    {
      var s := GetSession(code, now);
      n := if s.Some? then |s.value.students| else 0;
    }

    /** cleanup_expired_sessions: deletes every session whose expiry has been reached. */
    method CleanupExpiredSessions(now: int)
      requires Valid()
      modifies this
      ensures Valid()
      ensures sessions == Sweep(old(sessions), now)
    {
      var expired := set c | c in sessions && now >= sessions[c].expires;
      ghost var doomed := expired;
      while expired != {}
        invariant expired <= doomed
        invariant sessions == map c | c in old(sessions) && (c !in doomed || c in expired) :: old(sessions)[c]
        decreases expired
      {
        var c :| c in expired;
        sessions := sessions - {c};
        expired := expired - {c};
      }
      assert sessions == Sweep(old(sessions), now);
    }
  }
}
