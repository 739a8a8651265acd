/**
 * The in-memory session table of the voice backend: a map from session id
 * to a `Session` record, with expiry by age since the last activity.
 *
 * The clock (`time.time()`) and the id generator (`uuid4().hex`) are
 * parameters of the operations that use them; the asyncio lock is left out
 * because it only serialises the same sequential updates modelled here.
 */
module Sessions {
  import opened Common

  /** A queued protocol message (`Dict[str, Any]`); values are modelled as strings. */
  type Message = map<string, string>

  /** The `Session` dataclass. */
  datatype Session = Session(
    sessionId: string,
    createdAt: real,
    lastActivity: real,
    state: string,
    pendingMessages: seq<Message>,
    partialTranscript: string,
    partialResponse: string,
    audioBuffer: seq<byte>,
    audioFormat: string,
    metadata: map<string, string>)

  /** `Session(session_id=id)` with both timestamps taken at `now` and every other field at its default. */
  function NewSession(id: string, now: real): Session {
    Session(id, now, now, "idle", [], "", "", [], "webm", map[])
  }

  /** The default time-to-live of `SessionStore()`, in seconds. */
  const DefaultTtlSeconds: int := 3600

  // ---------------------------------------------------------------------
  // `update_session(**updates)`: one keyword argument per element

  /**
   * One `key=value` keyword argument. Each known constructor targets the
   * attribute of `Session` with that name; `Unknown` stands for a key that
   * is not an attribute of `Session`, which `hasattr` rejects. There is no
   * update for `session_id`: that keyword collides with the positional
   * parameter of the same name, so Python refuses such a call outright.
   */
  datatype FieldUpdate =
    | SetCreatedAt(createdAt: real)
    | SetLastActivity(lastActivity: real)
    | SetState(state: string)
    | SetPendingMessages(messages: seq<Message>)
    | SetPartialTranscript(partialTranscript: string)
    | SetPartialResponse(partialResponse: string)
    | SetAudioBuffer(audio: seq<byte>)
    | SetAudioFormat(format: string)
    | SetMetadata(metadata: map<string, string>)
    | Unknown(key: string)

  /** The attribute names of `Session`. */
  const Attributes: set<string> := {
    "session_id", "created_at", "last_activity", "state", "pending_messages",
    "partial_transcript", "partial_response", "audio_buffer", "audio_format", "metadata" }

  /** The keyword an update was passed under. */
  function KeyOf(u: FieldUpdate): string {
    match u
    case SetCreatedAt(_) => "created_at"
    case SetLastActivity(_) => "last_activity"
    case SetState(_) => "state"
    case SetPendingMessages(_) => "pending_messages"
    case SetPartialTranscript(_) => "partial_transcript"
    case SetPartialResponse(_) => "partial_response"
    case SetAudioBuffer(_) => "audio_buffer"
    case SetAudioFormat(_) => "audio_format"
    case SetMetadata(_) => "metadata"
    case Unknown(k) => k
  }

  /** `hasattr(session, key)`; an `Unknown` key names no attribute by construction. */
  predicate WellFormedUpdate(u: FieldUpdate) {
    u.Unknown? ==> u.key !in Attributes
  }

  /** One iteration of the loop: `if hasattr(session, key): setattr(session, key, value)`. */
  function ApplyUpdate(s: Session, u: FieldUpdate): Session {
    match u
    case SetCreatedAt(v) => s.(createdAt := v)
    case SetLastActivity(v) => s.(lastActivity := v)
    case SetState(v) => s.(state := v)
    case SetPendingMessages(v) => s.(pendingMessages := v)
    case SetPartialTranscript(v) => s.(partialTranscript := v)
    case SetPartialResponse(v) => s.(partialResponse := v)
    case SetAudioBuffer(v) => s.(audioBuffer := v)
    case SetAudioFormat(v) => s.(audioFormat := v)
    case SetMetadata(v) => s.(metadata := v)
    case Unknown(_) => s
  }

  /** The keyword arguments applied in order (later keys win). */
  function ApplyUpdates(s: Session, us: seq<FieldUpdate>): Session
    decreases |us|
  {
    if |us| == 0 then s else ApplyUpdate(ApplyUpdates(s, us[..|us| - 1]), us[|us| - 1])
  }

  /** The updates whose key is an attribute of `Session`, in order. */
  function KnownOnly(us: seq<FieldUpdate>): (r: seq<FieldUpdate>)
    ensures |r| <= |us|
    ensures forall i :: 0 <= i < |r| ==> !r[i].Unknown?
    decreases |us|
  {
    if |us| == 0 then []
    else
      var r := KnownOnly(us[..|us| - 1]);
      if us[|us| - 1].Unknown? then r else r + [us[|us| - 1]]
  }

  /** Unknown keys are silently ignored: dropping them changes nothing. */
  lemma {:induction false} UnknownKeysIgnored(s: Session, us: seq<FieldUpdate>)
    ensures ApplyUpdates(s, us) == ApplyUpdates(s, KnownOnly(us))
    decreases |us|
  {
    if |us| > 0 {
      var init := us[..|us| - 1];
      UnknownKeysIgnored(s, init);
      var r := KnownOnly(init);
      if !us[|us| - 1].Unknown? {
        var r' := r + [us[|us| - 1]];
        assert r'[..|r'| - 1] == r;
      }
    }
  }

  /** Whether `s` and `t` agree on the attribute called `key` (vacuously, for a non-attribute). */
  predicate AgreeOn(s: Session, t: Session, key: string) {
    match key
    case "session_id" => s.sessionId == t.sessionId
    case "created_at" => s.createdAt == t.createdAt
    case "last_activity" => s.lastActivity == t.lastActivity
    case "state" => s.state == t.state
    case "pending_messages" => s.pendingMessages == t.pendingMessages
    case "partial_transcript" => s.partialTranscript == t.partialTranscript
    case "partial_response" => s.partialResponse == t.partialResponse
    case "audio_buffer" => s.audioBuffer == t.audioBuffer
    case "audio_format" => s.audioFormat == t.audioFormat
    case "metadata" => s.metadata == t.metadata
    case _ => true
  }

  /** Applying one update leaves every other attribute as it was. */
  lemma ApplyUpdateFrame(s: Session, u: FieldUpdate, key: string)
    requires WellFormedUpdate(u) && KeyOf(u) != key
    ensures AgreeOn(ApplyUpdate(s, u), s, key)
  {
  }

  /** An attribute none of the keyword arguments names keeps its value. */
  lemma {:induction false} ApplyUpdatesFrame(s: Session, us: seq<FieldUpdate>, key: string)
    requires forall i :: 0 <= i < |us| ==> WellFormedUpdate(us[i]) && KeyOf(us[i]) != key
    ensures AgreeOn(ApplyUpdates(s, us), s, key)
    decreases |us|
  {
    if |us| > 0 {
      var init := us[..|us| - 1];
      ApplyUpdatesFrame(s, init, key);
      ApplyUpdateFrame(ApplyUpdates(s, init), us[|us| - 1], key);
      AgreeTransitive(ApplyUpdate(ApplyUpdates(s, init), us[|us| - 1]), ApplyUpdates(s, init), s, key);
    }
  }

  lemma AgreeTransitive(a: Session, b: Session, c: Session, key: string)
    requires AgreeOn(a, b, key) && AgreeOn(b, c, key)
    ensures AgreeOn(a, c, key)
  {
  }

  // ---------------------------------------------------------------------
  // The two expiry rules

  /** The rule of `get_session`: older than the time-to-live, strictly. */
  predicate Expired(s: Session, now: real, ttl: int) {
    now - s.lastActivity > ttl as real
  }

  /** The rule of `cleanup_stale_sessions`: last active before the cutoff. */
  predicate Stale(s: Session, cutoff: real) {
    s.lastActivity < cutoff
  }

  /** `max_age_seconds or self._default_ttl`: `None` and `0` are both falsy. */
  function EffectiveMaxAge(maxAgeSeconds: Option<int>, defaultTtl: int): int {
    if maxAgeSeconds.None? || maxAgeSeconds.value == 0 then defaultTtl else maxAgeSeconds.value
  }

  /** The ids of the entries that are stale at `cutoff` (the `stale_ids` comprehension). */
  function StaleIds(m: map<string, Session>, cutoff: real): (ids: set<string>)
    ensures ids <= m.Keys
    ensures forall id :: id in m ==> (id in ids <==> Stale(m[id], cutoff))
  {
    set id | id in m && Stale(m[id], cutoff)
  }

  /** The table without the entries that are stale at `cutoff`. */
  function WithoutStale(m: map<string, Session>, cutoff: real): map<string, Session>
  {
    m - StaleIds(m, cutoff)
  }

  /** The entries kept by a cleanup are exactly the ones that are not stale, each unchanged. */
  lemma WithoutStaleKeeps(m: map<string, Session>, cutoff: real, id: string)
    ensures id in WithoutStale(m, cutoff) <==> id in m && !Stale(m[id], cutoff)
    ensures id in WithoutStale(m, cutoff) ==> WithoutStale(m, cutoff)[id] == m[id]
  {
  }

  /** A cleanup with the default time-to-live removes exactly the entries `get_session` would expire at the same instant. */
  lemma CleanupMatchesGetExpiry(m: map<string, Session>, now: real, ttl: int, id: string)
    requires id in m
    ensures id !in WithoutStale(m, now - EffectiveMaxAge(None, ttl) as real) <==> Expired(m[id], now, ttl)
  {
  }

  /** A session at exactly the time-to-live is still valid for `get_session`. */
  lemma AgeEqualToTtlIsValid(s: Session, ttl: int)
    ensures !Expired(s, s.lastActivity + ttl as real, ttl)
  {
  }

  /** A `max_age_seconds` of zero means the default time-to-live, not "everything is stale". */
  lemma ZeroMaxAgeIsDefault(m: map<string, Session>, now: real, ttl: int)
    ensures WithoutStale(m, now - EffectiveMaxAge(Some(0), ttl) as real)
         == WithoutStale(m, now - EffectiveMaxAge(None, ttl) as real)
  {
  }

  /** What `get_session_state` reports for reconnection. */
  datatype SessionState = SessionState(
    sessionId: string,
    state: string,
    partialTranscript: string,
    partialResponse: string,
    pendingMessageCount: nat)

  /** The `SessionStore` class; `sessions` is `_sessions`. */
  class SessionStore {
    var sessions: map<string, Session>
    const defaultTtl: int

    /** Every entry is filed under its own `session_id`. */
    predicate KeyedById()
      reads this
    {
      KeyedBy(sessions)
    }

    constructor (defaultTtlSeconds: int)
      ensures sessions == map[] && defaultTtl == defaultTtlSeconds
      ensures KeyedById()
    {
      sessions := map[];
      defaultTtl := defaultTtlSeconds;
    }

    /** `create_session`, with `freshId` standing for `uuid4().hex` and `now` for the clock. */
    method CreateSession(freshId: string, now: real) returns (id: string)
      modifies this
      ensures id == freshId && id in sessions
      ensures sessions == old(sessions)[id := NewSession(id, now)]
      ensures sessions[id].state == "idle" && sessions[id].pendingMessages == []
      ensures sessions[id].partialTranscript == "" && sessions[id].partialResponse == ""
      ensures sessions[id].createdAt == now && sessions[id].lastActivity == now
      ensures freshId !in old(sessions) ==> |sessions| == |old(sessions)| + 1
      ensures old(KeyedById()) ==> KeyedById()
    {
      id := freshId;
      sessions := sessions[id := NewSession(id, now)];
    }

    /** `get_session`: absent gives `None`; expired is deleted and gives `None`; otherwise the entry, table unchanged. */
    method GetSession(id: string, now: real) returns (r: Option<Session>)
      modifies this
      ensures id !in old(sessions) ==> r == None && sessions == old(sessions)
      ensures id in old(sessions) && Expired(old(sessions)[id], now, defaultTtl) ==>
                r == None && sessions == old(sessions) - {id}
      ensures id in old(sessions) && !Expired(old(sessions)[id], now, defaultTtl) ==>
                r == Some(old(sessions)[id]) && sessions == old(sessions)
      ensures old(KeyedById()) ==> KeyedById()
    {
      if id in sessions {
        var session := sessions[id];
        if Expired(session, now, defaultTtl) {
          sessions := sessions - {id};
          return None;
        }
        return Some(session);
      }
      return None;
    }

    /** `update_session(id, **updates)`: known attributes are set in order, then `last_activity := now`. */
    method UpdateSession(id: string, updates: seq<FieldUpdate>, now: real) returns (ok: bool)
      modifies this
      ensures ok == (id in old(sessions))
      ensures !ok ==> sessions == old(sessions)
      ensures ok ==> sessions == old(sessions)[id := ApplyUpdates(old(sessions)[id], updates).(lastActivity := now)]
      ensures ok ==> sessions[id].lastActivity == now
      ensures ok ==> sessions[id].sessionId == old(sessions)[id].sessionId
      ensures old(KeyedById()) ==> KeyedById()
    {
      if id !in sessions {
        return false;
      }
      var session := sessions[id];
      var i := 0;
      while i < |updates|
        invariant 0 <= i <= |updates|
        invariant session == ApplyUpdates(old(sessions)[id], updates[..i])
        invariant sessions == old(sessions)
      {
        assert updates[..i + 1][..i] == updates[..i];
        session := ApplyUpdate(session, updates[i]);
        i := i + 1;
      }
      assert updates[..i] == updates;
      sessions := sessions[id := session.(lastActivity := now)];
      ok := true;
      KeepsSessionId(old(sessions)[id], updates);
    }

    /** `touch_session`: only `last_activity` of the named entry changes. */
    method TouchSession(id: string, now: real) returns (ok: bool)
      modifies this
      ensures ok == (id in old(sessions))
      ensures sessions == if ok then old(sessions)[id := old(sessions)[id].(lastActivity := now)] else old(sessions)
      ensures old(KeyedById()) ==> KeyedById()
    {
      if id in sessions {
        sessions := sessions[id := sessions[id].(lastActivity := now)];
        return true;
      }
      return false;
    }

    /** `delete_session`: true iff the id was present; afterwards it is absent and every other entry is untouched. */
    method DeleteSession(id: string) returns (ok: bool)
      modifies this
      ensures ok == (id in old(sessions))
      ensures sessions == old(sessions) - {id}
      ensures id !in sessions
      ensures ok ==> |sessions| == |old(sessions)| - 1
      ensures old(KeyedById()) ==> KeyedById()
    {
      if id in sessions {
        sessions := sessions - {id};
        return true;
      }
      return false;
    }

    /** `queue_message`: append to the end of `pending_messages` and touch the entry. */
    method QueueMessage(id: string, message: Message, now: real) returns (ok: bool)
      modifies this
      ensures ok == (id in old(sessions))
      ensures !ok ==> sessions == old(sessions)
      ensures ok ==> sessions == old(sessions)[id := old(sessions)[id].(
                pendingMessages := old(sessions)[id].pendingMessages + [message],
                lastActivity := now)]
      ensures old(KeyedById()) ==> KeyedById()
    {
      if id in sessions {
        var session := sessions[id];
        sessions := sessions[id := session.(pendingMessages := session.pendingMessages + [message], lastActivity := now)];
        return true;
      }
      return false;
    }

    /** `get_pending_messages`: a copy of the queue (empty for an unknown id); nothing is cleared. */
    method GetPendingMessages(id: string) returns (messages: seq<Message>)
      ensures id in sessions ==> messages == sessions[id].pendingMessages
      ensures id !in sessions ==> messages == []
    {
      if id in sessions {
        return sessions[id].pendingMessages;
      }
      return [];
    }

    /** `clear_pending_messages`: empties the queue without touching `last_activity`. */
    method ClearPendingMessages(id: string) returns (ok: bool)
      modifies this
      ensures ok == (id in old(sessions))
      ensures sessions == if ok then old(sessions)[id := old(sessions)[id].(pendingMessages := [])] else old(sessions)
      ensures ok ==> sessions[id].lastActivity == old(sessions)[id].lastActivity
      ensures old(KeyedById()) ==> KeyedById()
    {
      if id in sessions {
        sessions := sessions[id := sessions[id].(pendingMessages := [])];
        return true;
      }
      return false;
    }

    /** `cleanup_stale_sessions`: removes exactly the entries last active before `now - max_age` and counts them. */
    method CleanupStaleSessions(maxAgeSeconds: Option<int>, now: real) returns (removed: nat)
      modifies this
      ensures sessions == WithoutStale(old(sessions), now - EffectiveMaxAge(maxAgeSeconds, defaultTtl) as real)
      ensures removed == |old(sessions)| - |sessions|
      ensures old(KeyedById()) ==> KeyedById()
    {
      var maxAge := EffectiveMaxAge(maxAgeSeconds, defaultTtl);
      var cutoff := now - maxAge as real;
      var kept, n := RemoveStale(sessions, cutoff);
      sessions, removed := kept, n;
    }

    /** `get_active_session_count`. */
    method GetActiveSessionCount() returns (n: nat)
      ensures n == |sessions|
    {
      n := |sessions|;
    }

    /** `get_session_state`: `None` exactly when `get_session` gives `None`; otherwise a summary of the entry. */
    method GetSessionState(id: string, now: real) returns (r: Option<SessionState>)
      modifies this
      ensures r.None? <==> (id !in old(sessions) || Expired(old(sessions)[id], now, defaultTtl))
      ensures r.Some? ==> sessions == old(sessions)
      ensures r.Some? ==> (var s := old(sessions)[id];
                r.value == SessionState(s.sessionId, s.state, s.partialTranscript, s.partialResponse, |s.pendingMessages|))
      ensures r.None? ==> sessions == old(sessions) - {id}
      ensures old(KeyedById()) ==> KeyedById()
    {
      var session := GetSession(id, now);
      if session.None? {
        return None;
      }
      var s := session.value;
      return Some(SessionState(s.sessionId, s.state, s.partialTranscript, s.partialResponse, |s.pendingMessages|));
    }
  }

  /** The body of `cleanup_stale_sessions` past the cutoff: collect the stale ids, delete them, count them. */
  method RemoveStale(m: map<string, Session>, cutoff: real) returns (kept: map<string, Session>, removed: nat)
    ensures kept == WithoutStale(m, cutoff)
    ensures removed == |m| - |kept|
    ensures KeyedBy(m) ==> KeyedBy(kept)
  {
    var staleIds := StaleIds(m, cutoff);
    kept, removed := DeleteAll(m, staleIds);
    CleanupFacts(m, cutoff);
  }

  /** The deletion loop of `cleanup_stale_sessions`: `del` each id in turn, counting. */
  method DeleteAll(m: map<string, Session>, ids: set<string>) returns (r: map<string, Session>, removed: nat)
    requires ids <= m.Keys
    ensures r == m - ids
    ensures removed == |ids|
  {
    r := m;
    var todo := ids;
    removed := 0;
    while todo != {}
      invariant todo <= ids
      invariant r == m - (ids - todo)
      invariant removed == |ids| - |todo|
      decreases |todo|
    {
      var id :| id in todo;
      r := r - {id};
      todo := todo - {id};
      removed := removed + 1;
    }
    assert ids - todo == ids;
  }

  /** Every entry of `m` is filed under its own `session_id`. */
  predicate KeyedBy(m: map<string, Session>) {
    forall id :: id in m ==> m[id].sessionId == id
  }

  /** The size and key discipline of the table a cleanup leaves. */
  lemma CleanupFacts(m: map<string, Session>, cutoff: real)
    ensures |WithoutStale(m, cutoff)| == |m| - |StaleIds(m, cutoff)|
    ensures KeyedBy(m) ==> KeyedBy(WithoutStale(m, cutoff))
  {
    RemoveKeysSize(m, StaleIds(m, cutoff));
  }

  /** Deleting a set of present keys shrinks the table by the size of the set. */
  lemma RemoveKeysSize(m: map<string, Session>, ids: set<string>)
    requires ids <= m.Keys
    ensures |m - ids| == |m| - |ids|
  {
    var rest := (m - ids).Keys;
    assert rest == m.Keys - ids;
    assert m.Keys == rest + ids && rest * ids == {};
  }

  /** No update changes an entry's id. */
  lemma {:induction false} KeepsSessionId(s: Session, us: seq<FieldUpdate>)
    ensures ApplyUpdates(s, us).sessionId == s.sessionId
    decreases |us|
  {
    if |us| > 0 {
      KeepsSessionId(s, us[..|us| - 1]);
    }
  }
}
