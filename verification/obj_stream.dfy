/** One stream of compiled objects: how the server cuts a session's .o and .gcno into chunks, and how the
    client puts the files of each session together again
    (internal/server/files-stream-server.go, internal/client/files-receiving.go). */
module ObjStream {
  import Text
  import opened Wrappers

  type Bytes = seq<bv8>

  /** A finished session: what the compiler left, and whether its .gcno could not be made. */
  datatype Session = Session(id: nat, exitCode: int, stderr: string, obj: Bytes, notes: Bytes, coverageErr: bool)

  /** RecvCompiledObjChunkReply. */
  datatype Msg = Msg(session: nat, exitCode: int, stderr: string, fileSize: nat, notesSize: nat, body: Bytes)

  // ---------------------------------------------------------------- specification

  predicate CompilerWasKilled(exitCode: int, stderr: string) {
    exitCode < 0
    || (exitCode == 1
        && (Text.Contains(stderr, "Killed signal terminated program")
            || Text.Contains(stderr, "Terminated signal terminated program")))
  }

  /** A session the handler does send; of any other the client is told by the trailer. */
  predicate Sendable(s: Session) { !CompilerWasKilled(s.exitCode, s.stderr) && !s.coverageErr }

  /** These are the sessions whose compiler ended by itself, as far as can be told: with exit code 1, by its messages.
      The messages may stand anywhere in them. */
  lemma SentExactlyWhen(s: Session)
    ensures Sendable(s) <==>
              && !s.coverageErr && s.exitCode >= 0
              && (s.exitCode == 1 ==>
                    && !(exists a: string, b: string :: s.stderr == a + "Killed signal terminated program" + b)
                    && !(exists a: string, b: string :: s.stderr == a + "Terminated signal terminated program" + b))
  {
    Text.ContainsExactly(s.stderr, "Killed signal terminated program");
    Text.ContainsExactly(s.stderr, "Terminated signal terminated program");
  }

  /** The client hears of this session at all. */
  predicate Audible(s: Session) { s.exitCode != 0 || s.obj + s.notes != [] }

  function Bodies(msgs: seq<Msg>): Bytes {
    if msgs == [] then [] else msgs[0].body + Bodies(msgs[1..])
  }

  /** The fields every chunk of a session repeats. */
  predicate Headed(s: Session, m: Msg) {
    && m.session == s.id && m.exitCode == s.exitCode && m.stderr == s.stderr
    && (s.exitCode == 0 ==> m.fileSize == |s.obj| && m.notesSize == |s.notes| && m.body != [])
  }

  /** These messages carry this session: any cut of its bytes into non-empty chunks, or one chunk for an error. */
  predicate Frames(s: Session, msgs: seq<Msg>) {
    && (forall i :: 0 <= i < |msgs| ==> Headed(s, msgs[i]))
    && (if s.exitCode != 0 then |msgs| == 1 && msgs[0].body == [] else Bodies(msgs) == s.obj + s.notes)
  }

  /** How many further messages of this session it takes to get the missing bytes; None if they do not come. */
  function Collect(session: nat, missing: int, msgs: seq<Msg>): Option<nat> {
    if missing <= 0 then Some(0)
    else if msgs == [] || msgs[0].session != session then None
    else
      match Collect(session, missing - |msgs[0].body|, msgs[1..])
      case None => None
      case Some(n) => Some(n + 1)
  }

  lemma BodiesAppend(a: seq<Msg>, b: seq<Msg>)
    ensures Bodies(a + b) == Bodies(a) + Bodies(b)
  {
    if a == [] {
      assert a + b == b;
    } else {
      assert (a + b)[1..] == a[1..] + b;
      assert a[0].body + (Bodies(a[1..]) + Bodies(b)) == (a[0].body + Bodies(a[1..])) + Bodies(b);
    }
  }

  /** A session without bytes is the only one the client never hears of. */
  lemma SilentIsEmpty(s: Session, msgs: seq<Msg>)
    requires Frames(s, msgs)
    ensures msgs == [] <==> !Audible(s)
  {
    if s.exitCode == 0 && msgs != [] {
      assert Headed(s, msgs[0]);
      assert |Bodies(msgs)| >= |msgs[0].body| > 0;
    }
  }

  /** The chunks of a session are collected to the last one, and nothing after it. */
  lemma {:induction false} CollectFrames(id: nat, msgs: seq<Msg>, tail: seq<Msg>)
    requires forall i :: 0 <= i < |msgs| ==> msgs[i].session == id && msgs[i].body != []
    ensures Collect(id, |Bodies(msgs)|, msgs + tail) == Some(|msgs|)
  {
    if msgs != [] {
      assert msgs[0].session == id && msgs[0].body != [];
      assert (msgs + tail)[1..] == msgs[1..] + tail && (msgs + tail)[0] == msgs[0];
      CollectFrames(id, msgs[1..], tail);
      assert |Bodies(msgs)| == |msgs[0].body| + |Bodies(msgs[1..])|;
    }
  }

  // ---------------------------------------------------------------- the server

  lemma Regroup(a: Bytes, rest: Bytes, n: nat)
    requires n <= |rest|
    ensures (a + rest[..n]) + rest[n..] == a + rest
  {
    assert rest[..n] + rest[n..] == rest;
  }

  /** The chunks of one part, the .o or the .gcno; `n` may be any short read. */
  method SendPart(s: Session, part: Bytes, chunkSize: nat) returns (sent: seq<Msg>)
    requires chunkSize > 0 && s.exitCode == 0
    ensures forall i :: 0 <= i < |sent| ==> Headed(s, sent[i]) && |sent[i].body| <= chunkSize
    ensures Bodies(sent) == part
  {
    sent := [];
    var rest := part;
    while rest != []
      invariant forall i :: 0 <= i < |sent| ==> Headed(s, sent[i]) && |sent[i].body| <= chunkSize
      invariant Bodies(sent) + rest == part
      decreases |rest|
    {
      var n :| 0 < n <= |rest| && n <= chunkSize;
      var m := Msg(s.id, s.exitCode, s.stderr, |s.obj|, |s.notes|, rest[..n]);
      BodiesAppend(sent, [m]);
      assert Bodies([m]) == rest[..n];
      Regroup(Bodies(sent), rest, n);
      sent, rest := sent + [m], rest[n..];
    }
    assert Bodies(sent) == Bodies(sent) + rest;
  }

  method SendObjFileByChunks(s: Session, chunkSize: nat) returns (sent: seq<Msg>)
    requires chunkSize > 0 && s.exitCode == 0
    ensures Frames(s, sent)
    ensures sent == [] <==> s.obj + s.notes == []
  {
    var obj := SendPart(s, s.obj, chunkSize);
    var notes := SendPart(s, s.notes, chunkSize);
    sent := obj + notes;
    BodiesAppend(obj, notes);
    SilentIsEmpty(s, sent);
  }

  function Flatten<T>(parts: seq<seq<T>>): seq<T> {
    if parts == [] then [] else parts[0] + Flatten(parts[1..])
  }

  lemma FlattenMore<T>(parts: seq<seq<T>>, p: seq<T>)
    ensures Flatten(parts + [p]) == Flatten(parts) + p
  {
    if parts == [] {
      assert Flatten([p]) == p;
    } else {
      assert (parts + [p])[1..] == parts[1..] + [p];
      FlattenMore(parts[1..], p);
      assert parts[0] + (Flatten(parts[1..]) + p) == (parts[0] + Flatten(parts[1..])) + p;
    }
  }

  /** RecvCompiledObjStream over the ready sessions, on a stream that works: it ends at the first session it
      must not send, naming it in the trailer. `frames` are the chunks of each session sent. */
  method SendReadySessions(sessions: seq<Session>, chunkSize: nat)
    returns (wire: seq<Msg>, trailer: Option<nat>, frames: seq<seq<Msg>>)
    requires chunkSize > 0
    ensures wire == Flatten(frames) && |frames| <= |sessions|
    ensures forall i :: 0 <= i < |frames| ==> Sendable(sessions[i]) && Frames(sessions[i], frames[i])
    ensures trailer == (if |frames| == |sessions| then None else Some(sessions[|frames|].id))
    ensures |frames| < |sessions| ==> !Sendable(sessions[|frames|])
  {
    wire, frames := [], [];
    for k := 0 to |sessions|
      invariant |frames| == k && wire == Flatten(frames)
      invariant forall i :: 0 <= i < k ==> Sendable(sessions[i]) && Frames(sessions[i], frames[i])
    {
      var s := sessions[k];
      if CompilerWasKilled(s.exitCode, s.stderr) { return wire, Some(s.id), frames; }
      if s.coverageErr { return wire, Some(s.id), frames; }
      var sent: seq<Msg>;
      if s.exitCode != 0 {
        sent := [Msg(s.id, s.exitCode, s.stderr, 0, 0, [])];
      } else {
        sent := SendObjFileByChunks(s, chunkSize);
      }
      FlattenMore(frames, sent);
      wire, frames := wire + sent, frames + [sent];
    }
    trailer := None;
  }

  // ---------------------------------------------------------------- the client

  datatype Invocation = Invocation(objFile: string, coverageNotes: bool) {
    /** Where the compiler would have written the .gcno; "" if there is none to write. */
    function NotesFile(): string {
      if !coverageNotes then ""
      else (if |objFile| >= 2 && objFile[|objFile| - 2..] == ".o" then objFile[..|objFile| - 2] else objFile) + ".gcno"
    }
  }

  /** What wgRecv's waiter finds. */
  datatype Outcome = Outcome(failed: bool, exitCode: int)

  /** What happened to output files, in order. Spoiled: a failed write in place, which may leave anything. */
  datatype Event = Saved(file: string, bytes: Bytes) | Removed(file: string) | Spoiled(file: string)

  /** How a stream ends, in the order the client looks at it: the daemon quits, the connection was replaced by a
      reconnect, the server does not know this client, the server ended it naming a session, or it just broke. */
  datatype StreamEnd = Quit | Cleared | Unauthenticated | Trailer(session: nat) | Broken

  const DEV_NULL := "/tmp/nocc-dev-null"

  function SavesOf(objFile: string, notesFile: string, obj: Bytes, notes: Bytes): seq<Event> {
    (if notesFile != "" && notes != [] then [Saved(notesFile, notes)] else []) + [Saved(objFile, obj)]
  }

  function Min(a: int, b: int): int { if a < b then a else b }

  /** The .o of these bytes, and what follows it. */
  function Head(fileSize: nat, all: Bytes): Bytes { all[..Min(fileSize, |all|)] }
  function Rest(fileSize: nat, all: Bytes): Bytes { all[Min(fileSize, |all|)..] }

  predicate InOneChunk(first: Msg) { |first.body| >= first.fileSize + first.notesSize && first.notesSize == 0 }

  function ObjOf(first: Msg, all: Bytes): Bytes {
    if InOneChunk(first) then first.body else Head(first.fileSize, all)
  }

  function NotesOf(first: Msg, all: Bytes): Bytes {
    if InOneChunk(first) then [] else Rest(first.fileSize, all)
  }

  function Missing(first: Msg): int { first.fileSize + first.notesSize - |first.body| }

  /** What a failed save may have done: some of the saves, in order, or a spoiled object file. */
  predicate Partly(w: seq<Event>, objFile: string, saves: seq<Event>) {
    (|w| < |saves| && w == saves[..|w|]) || w == [Spoiled(objFile)]
  }

  /** The notes go beside the object file, under the name gcc gives them; without --coverage there are none. */
  lemma NotesBeside(stem: string, objFile: string)
    ensures Invocation(stem + ".o", true).NotesFile() == stem + ".gcno"
    ensures (forall s: string :: objFile != s + ".o") ==> Invocation(objFile, true).NotesFile() == objFile + ".gcno"
    ensures Invocation(objFile, false).NotesFile() == ""
  {
    assert (stem + ".o")[|stem|..] == ".o" && (stem + ".o")[..|stem|] == stem;
    if |objFile| >= 2 && objFile[|objFile| - 2..] == ".o" { assert objFile == objFile[..|objFile| - 2] + ".o"; }
  }

  /** What one message that begins a session of a known invocation leads to, be it from a server or not.
      `all`: the bytes that were consumed, if everything announced arrived. */
  predicate Handled(inv: Invocation, first: Msg, all: Option<Bytes>, reliable: bool, o: Outcome, w: seq<Event>) {
    if CompilerWasKilled(first.exitCode, first.stderr) then o.failed && w == []
    else if first.exitCode != 0 then o == Outcome(false, first.exitCode) && w == []
    else if all.None? then o.failed && w == []
    else
      var saves := SavesOf(inv.objFile, inv.NotesFile(), ObjOf(first, all.value), NotesOf(first, all.value));
      Ending(inv, first.notesSize == 0, saves, reliable, o, w)
  }

  predicate Ending(inv: Invocation, noNotes: bool, saves: seq<Event>, reliable: bool, o: Outcome, w: seq<Event>) {
    && o.exitCode == 0
    && if inv.coverageNotes && noNotes
       then o.failed && (w == saves + [Removed(inv.objFile)] || (!reliable && Partly(w, inv.objFile, saves)))
       else if o.failed then !reliable && Partly(w, inv.objFile, saves) else w == saves
  }

  /** In plain words, and whoever sent it: a compiler that was killed, with its message anywhere, and a session that
      breaks off fail the invocation and write nothing; any other exit code but 0 is a compile error. */
  lemma WhatIsHandled(inv: Invocation, first: Msg, all: Option<Bytes>, reliable: bool, o: Outcome, w: seq<Event>)
    requires Handled(inv, first, all, reliable, o, w)
    ensures var killed := first.exitCode < 0
              || (first.exitCode == 1
                  && exists a: string, b: string ::
                       || first.stderr == a + "Killed signal terminated program" + b
                       || first.stderr == a + "Terminated signal terminated program" + b);
            && (killed || (first.exitCode == 0 && all.None?) ==> o.failed && w == [])
            && (!killed && first.exitCode != 0 ==> o == Outcome(false, first.exitCode) && w == [])
            && (first.exitCode == 0 && inv.coverageNotes && first.notesSize == 0 ==> o.failed)
  {
    Text.ContainsExactly(first.stderr, "Killed signal terminated program");
    Text.ContainsExactly(first.stderr, "Terminated signal terminated program");
  }

  /** What a session of the server leads to. */
  predicate Delivered(active: map<nat, Invocation>, s: Session, reliable: bool, o: Outcome, w: seq<Event>) {
    if s.id !in active then forall i :: 0 <= i < |w| ==> w[i].file == DEV_NULL
    else if s.exitCode != 0 then o == Outcome(false, s.exitCode) && w == []
    else Ending(active[s.id], s.notes == [],
                SavesOf(active[s.id].objFile, active[s.id].NotesFile(), s.obj, s.notes), reliable, o, w)
  }

  /** In plain words: a compile error is delivered as such, and writes nothing; an object file is delivered with
      success and stands where the invocation wants it, behind its notes if they were asked for; if those are
      missing the invocation fails and no object file is left. */
  lemma WhatIsDelivered(active: map<nat, Invocation>, s: Session, reliable: bool, o: Outcome, w: seq<Event>)
    requires Delivered(active, s, reliable, o, w) && s.id in active
    ensures var inv := active[s.id];
            && (s.exitCode != 0 ==> o == Outcome(false, s.exitCode) && w == [])
            && (s.exitCode == 0 && reliable && !inv.coverageNotes ==>
                  o == Outcome(false, 0) && w == [Saved(inv.objFile, s.obj)])
            && (s.exitCode == 0 && reliable && inv.coverageNotes && s.notes != [] ==>
                  o == Outcome(false, 0) && w == [Saved(inv.NotesFile(), s.notes), Saved(inv.objFile, s.obj)])
            && (s.exitCode == 0 && reliable && inv.coverageNotes && s.notes == [] ==>
                  o.failed && w == [Saved(inv.objFile, s.obj), Removed(inv.objFile)])
            && (s.exitCode == 0 && inv.coverageNotes && s.notes == [] ==> o.failed)
  {
    assert active[s.id].coverageNotes ==> |active[s.id].NotesFile()| >= 5;
    assert s.notes == [] ==> SavesOf(active[s.id].objFile, active[s.id].NotesFile(), s.obj, s.notes)
                             == [Saved(active[s.id].objFile, s.obj)];
  }

  /** The announced .o is in place, whole, and if notes were asked for, a .gcno went to its place before it. */
  predicate Complete(inv: Invocation, first: Msg, w: seq<Event>) {
    && w != [] && w[|w| - 1].Saved? && w[|w| - 1].file == inv.objFile && |w[|w| - 1].bytes| >= first.fileSize
    && (inv.coverageNotes ==>
          |w| == 2 && w[0].Saved? && w[0].file == inv.NotesFile() && |w[0].bytes| >= first.notesSize > 0)
  }

  /** Success is real, whatever the stream delivers. */
  lemma SuccessIsReal(inv: Invocation, first: Msg, all: Option<Bytes>, reliable: bool, o: Outcome, w: seq<Event>)
    requires Handled(inv, first, all, reliable, o, w)
    requires all.Some? && first.exitCode == 0 ==> |all.value| >= first.fileSize + first.notesSize
    ensures o == Outcome(false, 0) ==> Complete(inv, first, w)
  {
    assert inv.coverageNotes ==> |inv.NotesFile()| >= 5;
  }

  /** What is collected is at least what was missing. */
  lemma {:induction false} CollectEnough(session: nat, missing: int, msgs: seq<Msg>)
    ensures var n := Collect(session, missing, msgs);
            n.Some? ==> n.value <= |msgs| && |Bodies(msgs[..n.value])| >= missing
    decreases |msgs|
  {
    if missing > 0 && msgs != [] && msgs[0].session == session {
      CollectEnough(session, missing - |msgs[0].body|, msgs[1..]);
      var n := Collect(session, missing - |msgs[0].body|, msgs[1..]);
      if n.Some? { assert msgs[..n.value + 1] == [msgs[0]] + msgs[1..][..n.value]; }
    }
  }

  /** Only messages of the session are collected, enough of them, and no more than it takes. */
  predicate Collected(session: nat, missing: int, msgs: seq<Msg>, n: nat) {
    && n <= |msgs| && |Bodies(msgs[..n])| >= missing
    && forall i :: 0 <= i < n ==> msgs[i].session == session && |Bodies(msgs[..i])| < missing
  }

  lemma {:induction false} CollectExactly(session: nat, missing: int, msgs: seq<Msg>)
    ensures forall n: nat :: Collect(session, missing, msgs) == Some(n) <==> Collected(session, missing, msgs, n)
    decreases |msgs|
  {
    if missing > 0 && msgs != [] && msgs[0].session == session {
      var missing', rest := missing - |msgs[0].body|, msgs[1..];
      CollectExactly(session, missing', rest);
      forall i | 0 <= i <= |rest| ensures |Bodies(msgs[..i + 1])| == |msgs[0].body| + |Bodies(rest[..i])| {
        assert msgs[..i + 1] == [msgs[0]] + rest[..i];
      }
      forall n: nat
        ensures n > 0 && Collected(session, missing', rest, n - 1) <==> Collected(session, missing, msgs, n)
      {
        if n > 0 && Collected(session, missing', rest, n - 1) {
          forall i | 0 <= i < n ensures msgs[i].session == session && |Bodies(msgs[..i])| < missing {
            if i > 0 { assert msgs[i] == rest[i - 1]; } else { assert msgs[..0] == []; }
          }
        }
        if Collected(session, missing, msgs, n) {
          assert msgs[..0] == [];
          forall i | 0 <= i < n - 1 ensures rest[i].session == session && |Bodies(rest[..i])| < missing' {
            assert msgs[i + 1] == rest[i];
          }
        }
      }
    } else {
      assert msgs[..0] == [];
    }
  }

  /** The first result of an invocation is the one that counts. */
  function Record(done: map<nat, Outcome>, sid: nat, o: Outcome): map<nat, Outcome> {
    if sid in done then done else done[sid := o]
  }

  /** A whole session on the wire, seen by the receive loop. */
  lemma OneSession(s: Session, m: seq<Msg>, rest: seq<Msg>)
    requires Frames(s, m) && Audible(s)
    ensures m != [] && m[0].session == s.id && m[0].exitCode == s.exitCode && m[0].stderr == s.stderr
    ensures s.exitCode != 0 ==> m[1..] + rest == rest
    ensures s.exitCode == 0 ==>
              && Collect(s.id, Missing(m[0]), m[1..] + rest) == Some(|m| - 1)
              && m[0].body + Bodies((m[1..] + rest)[..|m| - 1]) == s.obj + s.notes
              && (m[1..] + rest)[|m| - 1..] == rest
              && m[0].notesSize == |s.notes|
              && ObjOf(m[0], s.obj + s.notes) == s.obj && NotesOf(m[0], s.obj + s.notes) == s.notes
  {
    SilentIsEmpty(s, m);
    assert Headed(s, m[0]);
    if s.exitCode == 0 {
      forall i | 0 <= i < |m[1..]| ensures m[1..][i].session == s.id && m[1..][i].body != [] {
        assert Headed(s, m[i + 1]);
      }
      CollectFrames(s.id, m[1..], rest);
      assert (m[1..] + rest)[..|m| - 1] == m[1..] && (m[1..] + rest)[|m| - 1..] == rest;
      assert |s.obj| + |s.notes| == |m[0].body| + |Bodies(m[1..])|;
      var all := s.obj + s.notes;
      assert all == m[0].body + Bodies(m[1..]);
      assert all[..|s.obj|] == s.obj && all[|s.obj|..] == s.notes && all[..|m[0].body|] == m[0].body;
    }
  }

  /** A session of which the first chunk was just received. */
  datatype Next = Next(session: Session, frame: seq<Msg>, rest: seq<Msg>) {
    predicate Ahead(first: Msg, incoming: seq<Msg>) {
      && Frames(session, frame) && Sendable(session) && Audible(session)
      && frame != [] && first == frame[0] && incoming == frame[1..] + rest
    }
  }

  /** No session before has the same ID. */
  predicate First(sessions: seq<Session>, i: nat)
    requires i < |sessions|
  {
    forall j :: 0 <= j < i ==> sessions[j].id != sessions[i].id
  }

  /** The invocations of the first sessions have exactly the outcomes `outs`, unless they had one before. */
  predicate Released(active: map<nat, Invocation>, before: map<nat, Outcome>, done: map<nat, Outcome>,
                     sessions: seq<Session>, outs: seq<Outcome>)
  {
    && (forall x :: x in before ==> x in done && done[x] == before[x])
    && (forall i :: 0 <= i < |outs| && i < |sessions| && First(sessions, i)
                    && sessions[i].id in active && sessions[i].id !in before
                    ==> sessions[i].id in done && done[sessions[i].id] == outs[i])
  }

  /** Only the first k sessions have been heard of. */
  predicate NoOthers(before: map<nat, Outcome>, done: map<nat, Outcome>, sessions: seq<Session>, k: nat) {
    forall x :: x in done && x !in before ==> exists i :: 0 <= i < k && i < |sessions| && sessions[i].id == x
  }

  lemma NoneReal(active: map<nat, Invocation>, done: map<nat, Outcome>, journal: seq<Event>)
    ensures Real(active, done, done, journal, |journal|)
  {
  }

  lemma NoneReleased(active: map<nat, Invocation>, done: map<nat, Outcome>, sessions: seq<Session>)
    ensures Released(active, done, done, sessions, []) && NoOthers(done, done, sessions, 0)
  {
  }

  lemma NotHeardOf(before: map<nat, Outcome>, done: map<nat, Outcome>, sessions: seq<Session>, k: nat)
    requires NoOthers(before, done, sessions, k) && k < |sessions| && First(sessions, k) && sessions[k].id !in before
    ensures sessions[k].id !in done
  {
  }

  lemma NoOthersMore(before: map<nat, Outcome>, done: map<nat, Outcome>, sessions: seq<Session>, k: nat, sid: nat,
                     done': map<nat, Outcome>)
    requires NoOthers(before, done, sessions, k) && k < |sessions| && sid == sessions[k].id
    requires forall x :: x in done' ==> x in done || x == sid
    ensures NoOthers(before, done', sessions, k + 1)
  {
    forall x | x in done' && x !in before ensures exists i :: 0 <= i < k + 1 && i < |sessions| && sessions[i].id == x {
      if x == sid {
        assert sessions[k].id == x;
      } else {
        var i :| 0 <= i < k && i < |sessions| && sessions[i].id == x;
        assert sessions[i].id == x;
      }
    }
  }

  /** The invocation of a session heard of for the first time gets its result; any other keeps what it has. */
  lemma ReleasedNext(active: map<nat, Invocation>, before: map<nat, Outcome>, done: map<nat, Outcome>,
                     done': map<nat, Outcome>, sessions: seq<Session>, outs: seq<Outcome>, o: Outcome)
    requires Released(active, before, done, sessions, outs) && |outs| < |sessions|
    requires forall x :: x in done ==> x in done' && done'[x] == done[x]
    requires sessions[|outs|].id in active && sessions[|outs|].id !in before && First(sessions, |outs|) ==>
               sessions[|outs|].id in done' && done'[sessions[|outs|].id] == o
    ensures Released(active, before, done', sessions, outs + [o])
  {
    hide First;
  }

  lemma ReleasedMore(active: map<nat, Invocation>, before: map<nat, Outcome>, done: map<nat, Outcome>,
                     sessions: seq<Session>, outs: seq<Outcome>, o: Outcome)
    requires Released(active, before, done, sessions, outs) && |outs| < |sessions|
    requires NoOthers(before, done, sessions, |outs|)
    ensures var sid := sessions[|outs|].id;
            var done' := if sid in active then Record(done, sid, o) else done;
            Released(active, before, done', sessions, outs + [o]) && NoOthers(before, done', sessions, |outs| + 1)
  {
    hide Released, NoOthers, First;
    var sid := sessions[|outs|].id;
    var done' := if sid in active then Record(done, sid, o) else done;
    NoOthersMore(before, done, sessions, |outs|, sid, done');
    if First(sessions, |outs|) && sid !in before { NotHeardOf(before, done, sessions, |outs|); }
    ReleasedNext(active, before, done, done', sessions, outs, o);
  }

  lemma ReleasedStays(active: map<nat, Invocation>, before: map<nat, Outcome>, done: map<nat, Outcome>,
                      done': map<nat, Outcome>, sessions: seq<Session>, outs: seq<Outcome>)
    requires Released(active, before, done, sessions, outs)
    requires forall x :: x in done ==> x in done' && done'[x] == done[x]
    ensures Released(active, before, done', sessions, outs)
  {
  }

  /** The object file was written at this place of the journal, and if notes were asked for, they were just before. */
  predicate Written(inv: Invocation, journal: seq<Event>, from: nat, i: nat) {
    && from <= i < |journal| && journal[i].Saved? && journal[i].file == inv.objFile
    && (inv.coverageNotes ==> i > from && journal[i - 1].Saved? && journal[i - 1].file == inv.NotesFile())
  }

  /** Every result without error and with exit code 0 since then is that of an object file that was written. */
  ghost predicate Real(active: map<nat, Invocation>, before: map<nat, Outcome>, done: map<nat, Outcome>,
                       journal: seq<Event>, from: nat)
  {
    forall x :: x in done && x !in before && done[x] == Outcome(false, 0) ==>
      x in active && exists i :: Written(active[x], journal, from, i)
  }

  lemma RealMore(active: map<nat, Invocation>, before: map<nat, Outcome>, done: map<nat, Outcome>,
                 journal: seq<Event>, from: nat, first: Msg, o: Outcome, w: seq<Event>)
    requires Real(active, before, done, journal, from) && from <= |journal|
    requires first.session in active && o == Outcome(false, 0) ==> Complete(active[first.session], first, w)
    ensures Real(active, before, if first.session in active then Record(done, first.session, o) else done,
                 journal + w, from)
  {
    var sid := first.session;
    var done' := if sid in active then Record(done, sid, o) else done;
    forall x | x in done' && x !in before && done'[x] == Outcome(false, 0)
      ensures x in active && exists i :: Written(active[x], journal + w, from, i)
    {
      if x in done {
        var i :| Written(active[x], journal, from, i);
        assert Written(active[x], journal + w, from, i);
      } else {
        assert Written(active[x], journal + w, from, |journal| + |w| - 1);
      }
    }
  }

  lemma RealStays(active: map<nat, Invocation>, before: map<nat, Outcome>, done: map<nat, Outcome>,
                  done': map<nat, Outcome>, journal: seq<Event>, from: nat)
    requires Real(active, before, done, journal, from)
    requires forall x :: x in done' ==> if x in done then done'[x] == done[x] else done'[x].failed
    ensures Real(active, before, done', journal, from)
  {
  }

  class FilesReceiving {
    var incoming: seq<Msg>                 // what the stream still delivers
    const end: StreamEnd                   // how it ends
    var isUnavailable: bool                // the remote was marked
    const active: map<nat, Invocation>     // daemon.activeInvocations on this remote
    var done: map<nat, Outcome>
    var journal: seq<Event>
    const reliable: bool                   // no write, open or rename fails

    constructor (wire: seq<Msg>, end: StreamEnd, active: map<nat, Invocation>, reliable: bool)
      ensures incoming == wire && this.end == end && this.active == active && this.reliable == reliable
      ensures done == map[] && journal == [] && !isUnavailable
    {
      this.incoming, this.end, this.active, this.reliable := wire, end, active, reliable;
      this.done, this.journal, this.isUnavailable := map[], [], false;
    }

    method Recv() returns (m: Option<Msg>)
      modifies this`incoming
      ensures old(incoming) == [] ==> m == None && incoming == []
      ensures old(incoming) != [] ==> m == Some(old(incoming)[0]) && incoming == old(incoming)[1..]
    {
      if incoming == [] { return None; }
      m, incoming := Some(incoming[0]), incoming[1..];
    }

    /** The outcome of one operation of the file system. */
    method DiskFails() returns (failed: bool)
      ensures reliable ==> !failed
    {
      failed := *;
      if reliable { failed := false; }
    }

    /** The `write` closure: the temporary file takes what the .o still lacks, the notes get the rest. */
    method Write(body: Bytes, tmp: Bytes, notes: Bytes, objLeft: nat, errWrite: bool)
      returns (tmp': Bytes, notes': Bytes, objLeft': nat, errWrite': bool)
      ensures var n := Min(|body|, objLeft);
              && objLeft' == objLeft - n && notes' == notes + body[n..]
              && (errWrite ==> errWrite')
              && (!errWrite' ==> tmp' == tmp + body[..n])
      ensures reliable && !errWrite ==> !errWrite'
    {
      var n := |body|;
      if n > objLeft { n := objLeft; }
      tmp', errWrite' := tmp, errWrite;
      if !errWrite {
        errWrite' := DiskFails();
        if !errWrite' { tmp' := tmp + body[..n]; }
      }
      objLeft', notes' := objLeft - n, notes + body[n..];
    }

    /** The receive loop; a chunk of another session, or the end of the stream, is an error. */
    method ReceiveRest(first: Msg, failedToOpen: bool)
      returns (errRecv: bool, errWrite: bool, tmp: Bytes, notes: Bytes, ghost all: Bytes)
      modifies this`incoming
      ensures reliable && !failedToOpen ==> !errWrite
      ensures var n := Collect(first.session, Missing(first), old(incoming));
              && errRecv == n.None?
              && (n.Some? ==> n.value <= |old(incoming)| && incoming == old(incoming)[n.value..]
                              && all == first.body + Bodies(old(incoming)[..n.value]))
      ensures !errWrite ==> tmp == Head(first.fileSize, all)
      ensures notes == Rest(first.fileSize, all)
      ensures |incoming| <= |old(incoming)|
    {
      hide Head, Rest, Bodies, Collect;
      var objLeft;
      tmp, notes, objLeft, errWrite := Write(first.body, [], [], first.fileSize, failedToOpen);
      WriteMore(first.fileSize, [], first.body);
      errRecv, all := false, first.body;
      var receivedBytes := |first.body|;
      ghost var k: nat := 0;
      NothingYet(first, incoming);
      while receivedBytes < first.fileSize + first.notesSize
        invariant receivedBytes == |all|
        invariant objLeft == first.fileSize - Min(first.fileSize, |all|)
        invariant !errWrite ==> tmp == Head(first.fileSize, all)
        invariant notes == Rest(first.fileSize, all)
        invariant reliable && !failedToOpen ==> !errWrite
        invariant k <= |old(incoming)| && incoming == old(incoming)[k..]
                  && all == first.body + Bodies(old(incoming)[..k])
        invariant Collect(first.session, Missing(first), old(incoming))
               == Plus(Collect(first.session, first.fileSize + first.notesSize - |all|, incoming), k)
        decreases |incoming|
      {
        CollectStep(first.session, first.fileSize + first.notesSize - |all|, incoming);
        var next := Recv();
        if next.None? {
          errRecv := true;
          return;
        }
        if next.value.session != first.session {
          errRecv := true;
          return;
        }
        WriteMore(first.fileSize, all, next.value.body);
        tmp, notes, objLeft, errWrite := Write(next.value.body, tmp, notes, objLeft, errWrite);
        receivedBytes := receivedBytes + |next.value.body|;
        Longer(first.body, old(incoming), k);
        all, k := all + next.value.body, k + 1;
      }
      CollectStep(first.session, first.fileSize + first.notesSize - |all|, incoming);
    }

    /** The .gcno goes to its place before the .o: a build that sees the .o takes the compilation as done. */
    method SaveFiles(objFile: string, notesFile: string, tmp: Bytes, notes: Bytes, errWrite: bool)
      returns (failed: bool, ghost w: seq<Event>)
      modifies this`journal
      ensures journal == old(journal) + w
      ensures errWrite ==> failed
      ensures reliable && !errWrite ==> !failed
      ensures errWrite ==> w == []
      ensures !errWrite ==> var saves := SavesOf(objFile, notesFile, tmp, notes);
                if failed then |w| < |saves| && w == saves[..|w|] else w == saves
    {
      failed, w := errWrite, [];
      if !failed && notesFile != "" && |notes| > 0 {
        failed := DiskFails();
        if !failed {
          journal := journal + [Saved(notesFile, notes)];
          w := [Saved(notesFile, notes)];
        }
      }
      if !failed {
        failed := DiskFails();
        if !failed {
          journal := journal + [Saved(objFile, tmp)];
          w := w + [Saved(objFile, tmp)];
        }
      }
    }

    /** Either everything the first chunk announced was consumed, and not a message more, or the stream is bad. */
    method ReceiveObjFileByChunks(first: Msg, objFile: string, notesFile: string)
      returns (failed: bool, recreate: bool, ghost all: Bytes, ghost w: seq<Event>)
      modifies this`incoming, this`journal
      ensures journal == old(journal) + w
      ensures var n := Collect(first.session, Missing(first), old(incoming));
              && recreate == n.None?
              && (n.Some? ==> n.value <= |old(incoming)| && incoming == old(incoming)[n.value..]
                              && all == first.body + Bodies(old(incoming)[..n.value]))
      ensures recreate ==> failed && w == []
      ensures !recreate ==>
                var saves := SavesOf(objFile, notesFile, ObjOf(first, all), NotesOf(first, all));
                if failed then !reliable && Partly(w, objFile, saves) else w == saves
      ensures |incoming| <= |old(incoming)|
    {
      if |first.body| >= first.fileSize + first.notesSize && first.notesSize == 0 {
        all := first.body;
        failed := DiskFails();
        w := [if failed then Spoiled(objFile) else Saved(objFile, first.body)];
        journal := journal + [if failed then Spoiled(objFile) else Saved(objFile, first.body)];
        return failed, false, all, w;
      }
      var errOpen := DiskFails();
      var errRecv, errWrite, tmp, notes;
      errRecv, errWrite, tmp, notes, all := ReceiveRest(first, errOpen);
      if errRecv {
        return true, true, all, [];
      }
      failed, w := SaveFiles(objFile, notesFile, tmp, notes, errWrite);
      recreate := false;
    }

    method DoneRecvObj(sid: nat, o: Outcome)
      modifies this`done
      ensures done == Record(old(done), sid, o)
    {
      if sid !in done { done := done[sid := o]; }
    }

    predicate AllDone() reads this`done { active.Keys <= done.Keys }

    /** OnRecvStreamBroke: every invocation on this remote fails, unless it has its result. */
    method OnRecvStreamBroke()
      modifies this`done
      ensures AllDone()
      ensures forall x :: x in old(done) ==> x in done && done[x] == old(done)[x]
      ensures forall x :: x in done && x !in old(done) ==> x in active && done[x].failed
    {
      var rest := active.Keys;
      while rest != {}
        invariant forall x :: x in active ==> x in done || x in rest
        invariant forall x :: x in old(done) ==> x in done && done[x] == old(done)[x]
        invariant forall x :: x in done && x !in old(done) ==> x in active && done[x].failed
        invariant rest <= active.Keys
        decreases |rest|
      {
        var sid :| sid in rest;
        DoneRecvObj(sid, Outcome(true, 0));
        rest := rest - {sid};
      }
    }

    /** One turn of the receive loop. */
    method HandleSession(first: Msg)
      returns (recreate: bool, ghost all: Option<Bytes>, ghost o: Outcome, ghost w: seq<Event>)
      modifies this`incoming, this`journal, this`done
      ensures journal == old(journal) + w
      ensures done == if first.session in active then Record(old(done), first.session, o) else old(done)
      ensures first.session in active ==> Handled(active[first.session], first, all, reliable, o, w)
      ensures first.session in active && o == Outcome(false, 0) ==> Complete(active[first.session], first, w)
      ensures first.session !in active ==> forall i :: 0 <= i < |w| ==> w[i].file == DEV_NULL
      ensures var n := if first.exitCode == 0 then Collect(first.session, Missing(first), old(incoming)) else Some(0);
              && (n.Some? ==> n.value <= |old(incoming)| && incoming == old(incoming)[n.value..]
                              && all == Some(first.body + Bodies(old(incoming)[..n.value])))
              && (n.None? ==> all == None)
              && (recreate ==> n.None? || (first.session !in active && !reliable))
              && (n.None? ==> recreate)
      ensures |incoming| <= |old(incoming)|
    {
      o, w, all := Outcome(true, 0), [], Some(first.body);
      assert first.body + Bodies(incoming[..0]) == first.body;
      var failed;
      ghost var bytes;
      recreate := false;
      if first.session !in active {
        if first.exitCode == 0 {
          failed, recreate, bytes, w := ReceiveObjFileByChunks(first, DEV_NULL, "");
          all := if recreate then None else Some(bytes);
          recreate := failed;
        }
        return;
      }
      var inv := active[first.session];
      if CompilerWasKilled(first.exitCode, first.stderr) {
        DoneRecvObj(first.session, Outcome(true, 0));
        return;
      }
      if first.exitCode != 0 {
        o := Outcome(false, first.exitCode);
        DoneRecvObj(first.session, Outcome(false, first.exitCode));
        return;
      }
      CollectEnough(first.session, Missing(first), incoming);
      failed, recreate, bytes, w := ReceiveObjFileByChunks(first, inv.objFile, inv.NotesFile());
      all := if recreate then None else Some(bytes);
      if !failed && inv.coverageNotes && first.notesSize == 0 {
        journal := journal + [Removed(inv.objFile)];
        w := w + [Removed(inv.objFile)];
        failed := true;
      }
      o := Outcome(failed, 0);
      SuccessIsReal(inv, first, all, reliable, o, w);
      DoneRecvObj(first.session, Outcome(failed, 0));
      recreate := failed && recreate;
    }

    /** The loop turn, on a session of the server or on anything else. */
    method Turn(first: Msg, ghost next: Option<Next>) returns (bad: bool, ghost o: Outcome, ghost w: seq<Event>)
      requires next.Some? ==> next.value.Ahead(first, incoming)
      modifies this`incoming, this`journal, this`done
      ensures journal == old(journal) + w && |incoming| <= |old(incoming)|
      ensures done == if first.session in active then Record(old(done), first.session, o) else old(done)
      ensures next.Some? ==>
                && first.session == next.value.session.id
                && Delivered(active, next.value.session, reliable, o, w)
                && incoming == next.value.rest
                && (bad ==> !reliable)
      ensures first.session in active && o == Outcome(false, 0) ==> Complete(active[first.session], first, w)
    {
      if next.Some? { OneSession(next.value.session, next.value.frame, next.value.rest); }
      ghost var all;
      bad, all, o, w := HandleSession(first);
    }

    /** OnRemoteBecameUnavailable: the first one to mark the remote fails its invocations. */
    method OnRemoteBecameUnavailable()
      modifies this`done, this`isUnavailable
      ensures isUnavailable && (!old(isUnavailable) ==> AllDone())
      ensures old(isUnavailable) ==> done == old(done)
      ensures forall x :: x in old(done) ==> x in done && done[x] == old(done)[x]
      ensures forall x :: x in done && x !in old(done) ==> done[x].failed
    {
      if !isUnavailable {
        isUnavailable := true;
        OnRecvStreamBroke();
      }
    }

    /** The stream is over. A daemon that quits, and the reconnect that replaced a connection, see to the
        invocations themselves; a trailer names the only session that was lost. */
    method OnStreamEnd()
      modifies this`done, this`isUnavailable
      ensures end.Quit? || end.Cleared? ==> done == old(done) && isUnavailable == old(isUnavailable)
      ensures end.Broken? || (end.Unauthenticated? && !old(isUnavailable)) ==> AllDone()
      ensures end.Trailer? ==>
                done == if end.session in active then Record(old(done), end.session, Outcome(true, 0)) else old(done)
      ensures forall x :: x in old(done) ==> x in done && done[x] == old(done)[x]
      ensures forall x :: x in done && x !in old(done) ==> done[x].failed
    {
      match end {
        case Quit =>
        case Cleared =>
        case Unauthenticated => OnRemoteBecameUnavailable();
        case Trailer(sid) => if sid in active { DoneRecvObj(sid, Outcome(true, 0)); }
        case Broken => OnRecvStreamBroke();
      }
    }

    /** Of a stream that carries these sessions, and then anything, the client delivers every session; and whatever
        it carries, every success it reports is that of an object file that was written. */
    method MonitorRemoteStream(ghost sessions: seq<Session>, ghost frames: seq<seq<Msg>>, ghost tail: seq<Msg>)
      returns (ghost outs: seq<Outcome>, ghost writes: seq<seq<Event>>)
      requires |frames| == |sessions| && incoming == Flatten(frames) + tail
      requires forall i :: 0 <= i < |sessions| ==>
                 Frames(sessions[i], frames[i]) && Sendable(sessions[i]) && Audible(sessions[i])
      modifies this`incoming, this`journal, this`done, this`isUnavailable
      ensures |outs| == |writes| <= |sessions|
      ensures forall i :: 0 <= i < |outs| ==> Delivered(active, sessions[i], reliable, outs[i], writes[i])
      ensures Released(active, old(done), done, sessions, outs)
      ensures old(journal) + Flatten(writes) <= journal
      ensures tail == [] ==> journal == old(journal) + Flatten(writes)
      ensures Real(active, old(done), done, journal, |old(journal)|)
      ensures |outs| < |sessions| ==> !reliable && AllDone()
      ensures end.Broken? || (end.Unauthenticated? && !old(isUnavailable)) ==> AllDone()
      ensures end.Trailer? && reliable && tail == [] && end.session in active && end.session !in old(done)
              && (forall i :: 0 <= i < |sessions| ==> sessions[i].id != end.session) ==>
                end.session in done && done[end.session].failed
    {
      hide Released, NoOthers, Delivered, Frames, Sendable, Audible, Record, Flatten, Real, Complete;
      outs, writes := [], [];
      ghost var k, had: map<nat, Outcome> := 0, done;
      NoneReleased(active, done, sessions);
      NoneReal(active, done, journal);
      NoParts<Event>();
      NoParts<Msg>();
      assert frames[0..] == frames && (frames == [] ==> [] + tail == tail);
      while true
        invariant 0 <= k <= |sessions| && |outs| == |writes| == k
        invariant forall i :: 0 <= i < k ==> Delivered(active, sessions[i], reliable, outs[i], writes[i])
        invariant Released(active, had, done, sessions, outs)
        invariant k < |sessions| || tail == [] ==> NoOthers(had, done, sessions, k)
        invariant old(journal) + Flatten(writes) <= journal
        invariant k < |sessions| || tail == [] ==> journal == old(journal) + Flatten(writes)
        invariant k < |sessions| ==> incoming == Flatten(frames[k..]) + tail
        invariant k == |sessions| ==> |incoming| <= |tail|
        invariant isUnavailable == old(isUnavailable)
        invariant Real(active, had, done, journal, |old(journal)|) && |journal| >= |old(journal)|
        decreases |incoming|
      {
        ghost var next := None;
        if k < |sessions| {
          next := Some(Next(sessions[k], frames[k], Flatten(frames[k + 1..]) + tail));
          Peel(frames, k, tail);
          SilentIsEmpty(sessions[k], frames[k]);
        }
        var first := Recv();
        if first.None? {
          ghost var heard := done;
          OnStreamEnd();
          ReleasedStays(active, had, heard, done, sessions, outs);
          RealStays(active, had, heard, done, journal, |old(journal)|);
          if end.Trailer? && tail == [] { TrailerTold(active, had, heard, sessions, k, end.session); }
          return;
        }
        var bad;
        ghost var o, w, heard, written := Outcome(true, 0), [], done, journal;
        bad, o, w := Turn(first.value, next);
        RealMore(active, had, heard, written, |old(journal)|, first.value, o, w);
        if next.Some? {
          ReleasedMore(active, had, heard, sessions, outs, o);
          Appended(old(journal), writes, w);
          outs, writes, k := outs + [o], writes + [w], k + 1;
        } else {
          RecordKeeps(heard, first.value.session, o);
          ReleasedStays(active, had, heard, done, sessions, outs);
        }
        if bad {
          heard := done;
          OnRecvStreamBroke();
          ReleasedStays(active, had, heard, done, sessions, outs);
          RealStays(active, had, heard, done, journal, |old(journal)|);
          return;
        }
      }
    }
  }

  lemma RecordKeeps(done: map<nat, Outcome>, sid: nat, o: Outcome)
    ensures forall x :: x in done ==> x in Record(done, sid, o) && Record(done, sid, o)[x] == done[x]
    ensures sid in Record(done, sid, o)
    ensures sid !in done ==> Record(done, sid, o)[sid] == o
  {
  }

  /** The session the trailer names, unless it is one that was delivered. */
  lemma TrailerTold(active: map<nat, Invocation>, before: map<nat, Outcome>, done: map<nat, Outcome>,
                    sessions: seq<Session>, k: nat, x: nat)
    requires NoOthers(before, done, sessions, k)
    ensures x !in before && (forall i :: 0 <= i < |sessions| ==> sessions[i].id != x)
            ==> Record(done, x, Outcome(true, 0)) == done[x := Outcome(true, 0)]
  {
  }

  lemma NoParts<T>()
    ensures Flatten<T>([]) == []
  {
  }

  lemma Appended(journal: seq<Event>, writes: seq<seq<Event>>, w: seq<Event>)
    ensures journal + Flatten(writes + [w]) == journal + Flatten(writes) + w
  {
    FlattenMore(writes, w);
  }

  /** The front of what is still to come is the next session. */
  lemma Peel(frames: seq<seq<Msg>>, k: nat, tail: seq<Msg>)
    requires k < |frames|
    ensures Flatten(frames[k..]) + tail == frames[k] + (Flatten(frames[k + 1..]) + tail)
    ensures frames[k] != [] ==>
              Flatten(frames[k..]) + tail == [frames[k][0]] + (frames[k][1..] + (Flatten(frames[k + 1..]) + tail))
    ensures k + 1 == |frames| ==> Flatten(frames[k + 1..]) + tail == tail
  {
    assert frames[k..][1..] == frames[k + 1..];
  }

  function Plus(n: Option<nat>, k: nat): Option<nat> {
    match n
    case None => None
    case Some(n) => Some(n + k)
  }

  lemma NothingYet(first: Msg, incoming: seq<Msg>)
    ensures Head(first.fileSize, []) == [] && Rest(first.fileSize, []) == []
    ensures first.body == first.body + Bodies(incoming[..0])
    ensures Missing(first) == first.fileSize + first.notesSize - |first.body|
    ensures Collect(first.session, Missing(first), incoming)
          == Plus(Collect(first.session, Missing(first), incoming), 0)
  {
  }

  lemma WriteMore(fileSize: nat, all: Bytes, body: Bytes)
    ensures var n := Min(|body|, fileSize - Min(fileSize, |all|));
            && Head(fileSize, all + body) == Head(fileSize, all) + body[..n]
            && Rest(fileSize, all + body) == Rest(fileSize, all) + body[n..]
            && (all == [] ==> Head(fileSize, body) == body[..n] && Rest(fileSize, body) == body[n..])
  {
    if all == [] { assert all + body == body; }
  }

  lemma CollectStep(session: nat, missing: int, msgs: seq<Msg>)
    ensures Collect(session, missing, msgs)
         == if missing <= 0 then Some(0)
            else if msgs == [] || msgs[0].session != session then None
            else Plus(Collect(session, missing - |msgs[0].body|, msgs[1..]), 1)
  {
  }

  lemma Longer(body: Bytes, msgs: seq<Msg>, k: nat)
    requires k < |msgs|
    ensures body + Bodies(msgs[..k + 1]) == body + Bodies(msgs[..k]) + msgs[k].body
    ensures msgs[k..][0] == msgs[k] && msgs[k..][1..] == msgs[k + 1..]
  {
    assert msgs[..k + 1] == msgs[..k] + [msgs[k]];
    BodiesAppend(msgs[..k], [msgs[k]]);
    assert Bodies([msgs[k]]) == msgs[k].body;
  }

  /** Server and client together, over a stream that works: whatever the chunk size and the short reads, the
      client puts every session's files together again, up to the first session the server must not send;
      that one's invocation fails. */
  method Transfer(sessions: seq<Session>, chunkSize: nat, active: map<nat, Invocation>)
    returns (client: FilesReceiving, ghost k: nat, ghost outs: seq<Outcome>, ghost writes: seq<seq<Event>>)
    requires chunkSize > 0 && forall i :: 0 <= i < |sessions| ==> Audible(sessions[i])
    ensures fresh(client) && client.active == active
    ensures k <= |sessions| && |outs| == |writes| == k
    ensures forall i :: 0 <= i < k ==> Sendable(sessions[i]) && Delivered(active, sessions[i], true, outs[i], writes[i])
    ensures client.journal == Flatten(writes)
    ensures Released(active, map[], client.done, sessions[..k], outs)
    ensures k < |sessions| ==>
              && !Sendable(sessions[k])
              && (sessions[k].id in active && (forall i :: 0 <= i < k ==> sessions[i].id != sessions[k].id) ==>
                    sessions[k].id in client.done && client.done[sessions[k].id].failed)
    ensures k == |sessions| ==> client.AllDone()
  {
    var wire, trailer, frames := SendReadySessions(sessions, chunkSize);
    k := |frames|;
    var end := if trailer.Some? then Trailer(trailer.value) else Broken;
    client := new FilesReceiving(wire, end, active, true);
    outs, writes := client.MonitorRemoteStream(sessions[..k], frames, []);
  }
}
