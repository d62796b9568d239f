/**
 The `accept-new` host key callback: a snapshot of an append-only known_hosts file.

 A file is the list of its host-to-key lines. Checking a key against a snapshot accepts it iff a
 line lists it for the host, reports an unknown host iff no line names the host, and may also
 refuse for reasons outside the lines (a revoked key, an address it cannot read).
 */
module KnownHosts {
  import opened Basics

  datatype Line = Line(host: string, key: string)

  function Keys(lines: seq<Line>, host: string): set<string> {
    set l <- lines | l.host == host :: l.key
  }

  // How the file operations of one call went; a failed write may or may not have reached the file.
  datatype Io = Fine | AppendFails(written: bool) | ReloadFails

  datatype Call = Call(host: string, key: string, refused: bool, io: Io)

  datatype Answer = Accepted | Refused | Mismatch | AppendError | ReloadError

  datatype State = State(file: seq<Line>, current: seq<Line>)

  function Answered(s: State, c: Call): Answer {
    if c.refused then Refused
    else if c.key in Keys(s.current, c.host) then Accepted
    else if Keys(s.current, c.host) != {} then Mismatch
    else match c.io
      case Fine => Accepted
      case AppendFails(_) => AppendError
      case ReloadFails => ReloadError
  }

  function After(s: State, c: Call): State {
    if c.refused || Keys(s.current, c.host) != {} then s
    else
      var longer := s.file + [Line(c.host, c.key)];
      match c.io
      case Fine => State(longer, longer)
      case AppendFails(written) => s.(file := if written then longer else s.file)
      case ReloadFails => s.(file := longer)
  }

  // Restarting the process loads the file again.
  datatype Event = Called(call: Call) | Restarted

  function Step(s: State, e: Event): State {
    match e
    case Called(c) => After(s, c)
    case Restarted => State(s.file, s.file)
  }

  function Run(s: State, events: seq<Event>): State {
    if events == [] then s else Step(Run(s, events[..|events| - 1]), events[|events| - 1])
  }

  predicate AllFine(events: seq<Event>) {
    forall e <- events :: e.Called? ==> e.call.io == Fine
  }

  /*** With working I/O the snapshot is the file ***/

  lemma {:induction false} SnapshotAgrees(s: State, events: seq<Event>)
    requires s.current == s.file && AllFine(events)
    ensures Run(s, events).current == Run(s, events).file
  {
    if events == [] {
    } else {
      SnapshotAgrees(s, events[..|events| - 1]);
      assert events[|events| - 1] in events;
    }
  }

  // The key of the first call for a host that was not refused.
  function FirstKey(events: seq<Event>, host: string): set<string> {
    if events == [] then {}
    else
      var before := FirstKey(events[..|events| - 1], host);
      var e := events[|events| - 1];
      if before != {} then before
      else if e.Called? && e.call.host == host && !e.call.refused then {e.call.key}
      else {}
  }

  lemma KeysAppend(lines: seq<Line>, l: Line, host: string)
    ensures Keys(lines + [l], host) == Keys(lines, host) + (if l.host == host then {l.key} else {})
  {
  }

  // A host known at the start keeps exactly its keys; any other host keeps exactly the key of its
  // first call, across every later call and restart.
  lemma {:induction false} HostKeepsFirstKey(s: State, events: seq<Event>, host: string)
    requires s.current == s.file && AllFine(events)
    ensures Keys(Run(s, events).file, host) ==
            if Keys(s.file, host) != {} then Keys(s.file, host) else FirstKey(events, host)
  {
    if events == [] {
    } else {
      var before := events[..|events| - 1];
      var e := events[|events| - 1];
      assert e in events;
      HostKeepsFirstKey(s, before, host);
      SnapshotAgrees(s, before);
      if e.Called? {
        KeysAppend(Run(s, before).file, Line(e.call.host, e.call.key), host);
      }
    }
  }

  // So a call is accepted iff its key is the one trusted on first use, or the host is new.
  lemma AcceptedIffFirstKey(s: State, events: seq<Event>, c: Call)
    requires s.current == s.file && AllFine(events) && !c.refused && c.io == Fine
    ensures var trusted := if Keys(s.file, c.host) != {} then Keys(s.file, c.host) else FirstKey(events, c.host);
      && (Answered(Run(s, events), c) == Accepted <==> trusted == {} || c.key in trusted)
      && (Answered(Run(s, events), c) == Mismatch <==> trusted != {} && c.key !in trusted)
  {
    HostKeepsFirstKey(s, events, c.host);
    SnapshotAgrees(s, events);
  }

  // A failed file operation is reported as what it was, and only for hosts the snapshot does not know.
  lemma FailuresAreReported(s: State, c: Call)
    ensures Answered(s, c) == AppendError <==> !c.refused && Keys(s.current, c.host) == {} && c.io.AppendFails?
    ensures Answered(s, c) == ReloadError <==> !c.refused && Keys(s.current, c.host) == {} && c.io == ReloadFails
    ensures Answered(s, c) == Refused <==> c.refused
  {
  }

  // Hosts do not affect each other: what is known of one depends on its own calls alone.
  function Only(events: seq<Event>, host: string): seq<Event> {
    if events == [] then []
    else
      var e := events[|events| - 1];
      Only(events[..|events| - 1], host) + (if e.Called? && e.call.host == host then [e] else [])
  }

  lemma {:induction false} OnlyOwnCallsCount(events: seq<Event>, host: string)
    ensures FirstKey(Only(events, host), host) == FirstKey(events, host)
    ensures AllFine(events) ==> AllFine(Only(events, host))
  {
    if events == [] {
    } else {
      var e := events[|events| - 1];
      var front := Only(events[..|events| - 1], host);
      OnlyOwnCallsCount(events[..|events| - 1], host);
      assert e in events;
      if e.Called? && e.call.host == host {
        assert Only(events, host) == front + [e];
        assert (front + [e])[..|front|] == front;
      } else {
        assert Only(events, host) == front;
      }
    }
  }

  lemma HostsAreIndependent(s: State, events: seq<Event>, host: string)
    requires s.current == s.file && AllFine(events)
    ensures Keys(Run(s, events).file, host) == Keys(Run(s, Only(events, host)).file, host)
  {
    OnlyOwnCallsCount(events, host);
    HostKeepsFirstKey(s, events, host);
    HostKeepsFirstKey(s, Only(events, host), host);
  }

  /*** With failing I/O ***/

  // The file only grows, and the snapshot is always an earlier version of it.
  lemma {:induction false} SnapshotIsPrefix(s: State, events: seq<Event>)
    requires s.current <= s.file
    ensures Run(s, events).current <= Run(s, events).file && s.file <= Run(s, events).file
  {
    if events == [] {
    } else {
      SnapshotIsPrefix(s, events[..|events| - 1]);
    }
  }

  // Whatever fails, a key is accepted only if it is in the file, and it stays there.
  lemma AcceptedIsOnFile(s: State, events: seq<Event>, c: Call, later: seq<Event>)
    requires s.current <= s.file && Answered(Run(s, events), c) == Accepted
    ensures c.key in Keys(Run(After(Run(s, events), c), later).file, c.host)
  {
    var before := Run(s, events);
    var after := After(before, c);
    SnapshotIsPrefix(s, events);
    SnapshotIsPrefix(after, later);
    if c.key in Keys(before.current, c.host) {
      KeysGrow(before.current, before.file, c.host);
    } else {
      KeysAppend(before.file, Line(c.host, c.key), c.host);
    }
    KeysGrow(after.file, Run(after, later).file, c.host);
  }

  lemma KeysGrow(a: seq<Line>, b: seq<Line>, host: string)
    requires a <= b
    ensures Keys(a, host) <= Keys(b, host)
  {
    assert forall l <- a :: l in b;
  }

  // A host that is on file but not in the snapshot.
  ghost predicate Forgotten(s: State, host: string) {
    Keys(s.file, host) != {} && Keys(s.current, host) == {}
  }

  ghost predicate TakesSecondKey(s: State, c: Call) {
    Answered(s, c) == Accepted && Keys(s.file, c.host) != {} && c.key !in Keys(s.file, c.host)
  }

  // A host on file can be given a second key, and have it accepted, exactly when the snapshot has
  // fallen behind the file for that host.
  lemma SecondKeyIffForgotten(s: State, host: string)
    requires s.current <= s.file
    ensures (exists c: Call :: c.host == host && TakesSecondKey(s, c)) <==> Forgotten(s, host)
  {
    KeysGrow(s.current, s.file, host);
    if Forgotten(s, host) {
      var key := FreshKey(Keys(s.file, host));
      assert TakesSecondKey(s, Call(host, key, false, Fine));
    }
  }

  lemma {:induction false} FreshKey(keys: set<string>) returns (key: string)
    ensures forall k <- keys :: |k| < |key|
    decreases |keys|
  {
    if keys == {} {
      key := "k";
    } else {
      var x := AnyOf(keys);
      var rest := FreshKey(keys - {x});
      key := rest + x + "k";
    }
  }

  // The snapshot falls behind only through a failed reload, or a failed write that reached the file.
  lemma ForgottenNeedsFailure(s: State, e: Event, host: string)
    requires s.current <= s.file && !Forgotten(s, host) && Forgotten(Step(s, e), host)
    ensures e.Called? && e.call.host == host && !e.call.refused &&
            (e.call.io == ReloadFails || e.call.io == AppendFails(true))
  {
    if e.Called? {
      KeysAppend(s.file, Line(e.call.host, e.call.key), host);
    }
  }

  // A restart makes up for it.
  lemma RestartRemembers(s: State, host: string)
    ensures !Forgotten(Step(s, Restarted), host) && Step(s, Restarted).file == s.file
  {
  }

  // And it happens: one failed reload, and a changed key is accepted without complaint.
  lemma ChangedKeyAccepted(host: string, first: string, second: string)
    requires first != second
    ensures var s := After(State([], []), Call(host, first, false, ReloadFails));
      var t := After(s, Call(host, second, false, Fine));
      && Answered(State([], []), Call(host, first, false, ReloadFails)) == ReloadError
      && Answered(s, Call(host, second, false, Fine)) == Accepted
      && Keys(t.current, host) == {first, second}
  {
    var s := After(State([], []), Call(host, first, false, ReloadFails));
    KeysAppend([], Line(host, first), host);
    KeysAppend([Line(host, first)], Line(host, second), host);
    assert s.file == [Line(host, first)];
  }

  /*** The callback itself ***/

  class HostKeyCallback {
    var file: seq<Line>    // the known_hosts file on disk
    var current: seq<Line> // the captured snapshot; calls are serialised by the mutex

    function S(): State
      reads this
    {
      State(file, current)
    }

    constructor (onDisk: seq<Line>)
      ensures S() == State(onDisk, onDisk)
    {
      file, current := onDisk, onDisk;
    }

    method AppendKnownHost(host: string, key: string) returns (ok: bool, ghost written: bool)
      modifies this`file
      ensures ok ==> written
      ensures file == if written then old(file) + [Line(host, key)] else old(file)
    {
      var reached: bool := *;
      ok := false;
      written := reached;
      if reached {
        file := file + [Line(host, key)];
        ok := *;
      }
    }

    // Behaves as the specification for some outcome of its file operations.
    method Check(host: string, key: string) returns (answer: Answer, ghost call: Call)
      modifies this
      ensures call.host == host && call.key == key
      ensures answer == Answered(old(S()), call) && S() == After(old(S()), call)
    {
      call := Call(host, key, false, Fine);
      var refused: bool := *;
      if refused {
        call := call.(refused := true);
        return Refused, call;
      }
      if key in Keys(current, host) {
        return Accepted, call;
      }
      if |Keys(current, host)| > 0 {
        return Mismatch, call;
      }
      ghost var written;
      var appended;
      appended, written := AppendKnownHost(host, key);
      if !appended {
        call := call.(io := AppendFails(written));
        return AppendError, call;
      }
      var reloaded: bool := *;
      if !reloaded {
        call := call.(io := ReloadFails);
        return ReloadError, call;
      }
      current := file;
      return Accepted, call;
    }
  }
}
