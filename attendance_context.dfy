/**
 * The attendance context of the client: the lists of active sessions and
 * student submissions that socket events append to, and the two actions
 * that emit to the socket when there is one.
 */
module AttendanceContext {

  /** A JSON payload carried by an event, as its text. */
  type Payload = string

  /** A message sent on the socket: the event name and its payload. */
  datatype Emit = Emit(event: string, payload: Payload)

  /** An event the server pushes to the client. */
  datatype Event = NewSession(session: Payload) | Submitted(submission: Payload)

  /** The sessions among `events`, in arrival order: a payload is listed
      exactly when it arrived as a session. */
  function SessionsOf(events: seq<Event>): (r: seq<Payload>)
    ensures |r| <= |events|
    ensures forall p {:trigger NewSession(p) in events} :: p in r <==> NewSession(p) in events
  {
    if events == [] then []
    else
      var n := |events| - 1;
      assert events == events[..n] + [events[n]];
      SessionsOf(events[..n]) + (if events[n].NewSession? then [events[n].session] else [])
  }

  /** The submissions among `events`, in arrival order: a payload is listed
      exactly when it arrived as a submission. */
  function SubmissionsOf(events: seq<Event>): (r: seq<Payload>)
    ensures |r| <= |events|
    ensures forall p {:trigger Submitted(p) in events} :: p in r <==> Submitted(p) in events
  {
    if events == [] then []
    else
      var n := |events| - 1;
      assert events == events[..n] + [events[n]];
      SubmissionsOf(events[..n]) + (if events[n].Submitted? then [events[n].submission] else [])
  }

  /** Sessions arriving after others are listed after them: arrival order
      is kept. */
  lemma {:induction false} SessionsAppend(a: seq<Event>, b: seq<Event>)
    ensures SessionsOf(a + b) == SessionsOf(a) + SessionsOf(b)
    decreases |b|
  {
    if b == [] {
      assert a + b == a;
    } else {
      var n := |b| - 1;
      var ab := a + b;
      assert ab[..|ab| - 1] == a + b[..n];
      assert ab[|ab| - 1] == b[n];
      SessionsAppend(a, b[..n]);
      var last := if b[n].NewSession? then [b[n].session] else [];
      assert SessionsOf(ab) == SessionsOf(a) + SessionsOf(b[..n]) + last;
    }
  }

  /** Submissions arriving after others are listed after them. */
  lemma {:induction false} SubmissionsAppend(a: seq<Event>, b: seq<Event>)
    ensures SubmissionsOf(a + b) == SubmissionsOf(a) + SubmissionsOf(b)
    decreases |b|
  {
    if b == [] {
      assert a + b == a;
    } else {
      var n := |b| - 1;
      var ab := a + b;
      assert ab[..|ab| - 1] == a + b[..n];
      assert ab[|ab| - 1] == b[n];
      SubmissionsAppend(a, b[..n]);
      var last := if b[n].Submitted? then [b[n].submission] else [];
      assert SubmissionsOf(ab) == SubmissionsOf(a) + SubmissionsOf(b[..n]) + last;
    }
  }

  /** What a listener list gains: everything with a socket, nothing without. */
  function Listed(on: bool, xs: seq<Payload>): seq<Payload> {
    if on then xs else []
  }

  /** The sessions list after one more event, given what it held before. */
  lemma SessionsStep(base: seq<Payload>, cur: seq<Payload>, on: bool, seen: seq<Event>, e: Event)
    requires cur == base + Listed(on, SessionsOf(seen))
    ensures cur + Listed(on, SessionsOf([e])) == base + Listed(on, SessionsOf(seen + [e]))
  {
    SessionsAppend(seen, [e]);
  }

  /** The submissions list after one more event, given what it held before. */
  lemma SubmissionsStep(base: seq<Payload>, cur: seq<Payload>, on: bool, seen: seq<Event>, e: Event)
    requires cur == base + Listed(on, SubmissionsOf(seen))
    ensures cur + Listed(on, SubmissionsOf([e])) == base + Listed(on, SubmissionsOf(seen + [e]))
  {
    SubmissionsAppend(seen, [e]);
  }

  /** Every session event yields one entry, so the number of entries equal
      to a session is the number of times it arrived: nothing is merged. */
  lemma {:induction false} SessionsCounted(events: seq<Event>, session: Payload)
    ensures multiset(SessionsOf(events))[session]
            == multiset(events)[NewSession(session)]
  {
    if events != [] {
      var n := |events| - 1;
      SessionsCounted(events[..n], session);
      assert events == events[..n] + [events[n]];
    }
  }

  /** Likewise every submission is kept, duplicates included. */
  lemma {:induction false} SubmissionsCounted(events: seq<Event>, submission: Payload)
    ensures multiset(SubmissionsOf(events))[submission]
            == multiset(events)[Submitted(submission)]
  {
    if events != [] {
      var n := |events| - 1;
      SubmissionsCounted(events[..n], submission);
      assert events == events[..n] + [events[n]];
    }
  }

  class Context {
    var activeSessions: seq<Payload>
    var studentSubmissions: seq<Payload>
    /** Whether a socket was given; without one no listener is registered. */
    var hasSocket: bool
    /** What has been emitted on the socket, oldest first. */
    var emitted: seq<Emit>

    constructor (hasSocket: bool)
      ensures activeSessions == [] && studentSubmissions == [] && emitted == []
      ensures this.hasSocket == hasSocket
    {
      activeSessions, studentSubmissions, emitted := [], [], [];
      this.hasSocket := hasSocket;
    }

    /** The `new_attendance_session` listener. */
    method OnNewSession(session: Payload)
      modifies this
      ensures activeSessions == if hasSocket then old(activeSessions) + [session] else old(activeSessions)
      ensures studentSubmissions == old(studentSubmissions) && emitted == old(emitted)
      ensures hasSocket == old(hasSocket)
    {
      if hasSocket {
        activeSessions := activeSessions + [session];
      }
    }

    /** The `attendance_submitted` listener. */
    method OnSubmitted(submission: Payload)
      modifies this
      ensures studentSubmissions ==
              if hasSocket then old(studentSubmissions) + [submission] else old(studentSubmissions)
      ensures activeSessions == old(activeSessions) && emitted == old(emitted)
      ensures hasSocket == old(hasSocket)
    {
      if hasSocket {
        studentSubmissions := studentSubmissions + [submission];
      }
    }

    /** One pushed event, handed to its listener. */
    method Dispatch(e: Event)
      modifies this
      ensures activeSessions == old(activeSessions) + Listed(hasSocket, SessionsOf([e]))
      ensures studentSubmissions == old(studentSubmissions) + Listed(hasSocket, SubmissionsOf([e]))
      ensures emitted == old(emitted) && hasSocket == old(hasSocket)
    {
      assert [e][..0] == [];
      match e {
        case NewSession(s) => OnNewSession(s);
        case Submitted(s) => OnSubmitted(s);
      }
    }

    /** A run of pushed events through the two listeners. */
    method Receive(events: seq<Event>)
      modifies this
      ensures activeSessions == old(activeSessions) + Listed(hasSocket, SessionsOf(events))
      ensures studentSubmissions == old(studentSubmissions) + Listed(hasSocket, SubmissionsOf(events))
      ensures emitted == old(emitted) && hasSocket == old(hasSocket)
    {
      ghost var sessions0, submissions0 := activeSessions, studentSubmissions;
      ghost var seen: seq<Event> := [];
      var i := 0;
      while i < |events|
        invariant 0 <= i <= |events| && seen == events[..i]
        invariant hasSocket == old(hasSocket) && emitted == old(emitted)
        invariant activeSessions == sessions0 + Listed(hasSocket, SessionsOf(seen))
        invariant studentSubmissions == submissions0 + Listed(hasSocket, SubmissionsOf(seen))
      {
        var e := events[i];
        SessionsStep(sessions0, activeSessions, hasSocket, seen, e);
        SubmissionsStep(submissions0, studentSubmissions, hasSocket, seen, e);
        Dispatch(e);
        assert events[..i + 1] == seen + [e];
        seen := seen + [e];
        i := i + 1;
      }
      assert events[..i] == events;
    }

    /** `startSession`: emit `start_attendance` when there is a socket. */
    method StartSession(sessionData: Payload)
      modifies this
      ensures emitted == if hasSocket then old(emitted) + [Emit("start_attendance", sessionData)]
                         else old(emitted)
      ensures activeSessions == old(activeSessions) && studentSubmissions == old(studentSubmissions)
      ensures hasSocket == old(hasSocket)
    {
      if hasSocket {
        emitted := emitted + [Emit("start_attendance", sessionData)];
      }
    }

    /** `submitAttendance`: emit `submit_attendance` when there is a socket. */
    method SubmitAttendance(submissionData: Payload)
      modifies this
      ensures emitted == if hasSocket then old(emitted) + [Emit("submit_attendance", submissionData)]
                         else old(emitted)
      ensures activeSessions == old(activeSessions) && studentSubmissions == old(studentSubmissions)
      ensures hasSocket == old(hasSocket)
    {
      if hasSocket {
        emitted := emitted + [Emit("submit_attendance", submissionData)];
      }
    }
  }
}
