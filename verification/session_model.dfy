/** What a client's sessions and files on the server are about (internal/server/client.go, session.go,
    nocc-server.go): which uploads are asked for, when a session counts as started, and every reply. */
module SessionModel {
  import opened Wrappers
  import opened Sha256

  datatype FileState = JustCreated | Uploading | UploadError | Uploaded

  datatype RequiredFile = RequiredFile(clientFileName: string, fileSize: int, fileSHA256: SHA256)

  /** What the server finds out about a required file while it starts a session: whether its path is one of
      system headers, whether it equals the server's header there, whether it could be linked from the
      source cache, and whether an upload of it has lasted too long. */
  datatype Answer = Answer(isSystemFile: bool, equalsOnServer: bool, inSrcCache: bool, uploadHanged: bool)

  datatype StartReply =
    | FileConflict(clientFileName: string)
    | SystemFileDiffers(index: nat)
    | FromObjCache
    | WaitForUploads(fileIndexesToUpload: seq<nat>)

  datatype UploadReply = UnknownSession | CantReceive | Received

  datatype FileInfo = FileInfo(fileSHA256: SHA256, state: FileState)

  datatype SessionInfo = SessionInfo(names: seq<string>, started: bool, objCacheExists: bool)

  /** asked: the files for which a reply asked and no upload has ended since. */
  datatype State = State(sessions: map<nat, SessionInfo>, files: map<string, FileInfo>, asked: set<string>)

  const EMPTY := State(map[], map[], {})

  /** Every file of a session is one of the client's. */
  predicate Sane(s: State) { forall id :: id in s.sessions ==> Known(s.files, s.sessions[id].names) }

  // ---------------------------------------------------------------- starting a session

  function NamesOf(required: seq<RequiredFile>): (names: seq<string>)
    ensures |names| == |required| && forall i :: 0 <= i < |names| ==> names[i] == required[i].clientFileName
  {
    seq(|required|, i requires 0 <= i < |required| => required[i].clientFileName)
  }

  predicate Known(files: map<string, FileInfo>, names: seq<string>) {
    forall i :: 0 <= i < |names| ==> names[i] in files
  }

  /** What is known after this file was required too. */
  function WithFirst(files: map<string, FileInfo>, meta: RequiredFile): map<string, FileInfo> {
    if meta.clientFileName in files then files else files[meta.clientFileName := FileInfo(meta.fileSHA256, JustCreated)]
  }

  predicate Conflicts(files: map<string, FileInfo>, meta: RequiredFile) {
    meta.clientFileName in files && files[meta.clientFileName].fileSHA256 != meta.fileSHA256
  }

  /** CreateNewSession: a name stands for one content as long as the client is connected. The first name that does
      not, if there is one. */
  function Opened(files: map<string, FileInfo>, required: seq<RequiredFile>)
    : (r: (map<string, FileInfo>, Option<string>))
    ensures forall name :: name in files ==> name in r.0 && r.0[name] == files[name]
    ensures r.1.None? ==> forall i :: 0 <= i < |required| ==> required[i].clientFileName in r.0
    decreases |required|
  {
    if required == [] then (files, None)
    else if Conflicts(files, required[0]) then (files, Some(required[0].clientFileName))
    else
      var r := Opened(WithFirst(files, required[0]), required[1..]);
      assert required == [required[0]] + required[1..];
      r
  }

  datatype Looked = Looked(state: FileState, ask: bool, differs: bool)

  /** The switch over a required file's state: its next state, and whether the client is asked to upload it. */
  function Look(state: FileState, a: Answer): Looked {
    match state
    case JustCreated =>
      if a.isSystemFile then
        (if a.equalsOnServer then Looked(Uploaded, false, false) else Looked(Uploading, false, true))
      else if a.inSrcCache then Looked(Uploaded, false, false)
      else Looked(Uploading, true, false)
    case Uploading => Looked(Uploading, a.uploadHanged, false)
    case UploadError => Looked(Uploading, true, false)
    case Uploaded => Looked(Uploaded, false, false)
  }

  datatype Looks = Looks(files: map<string, FileInfo>, toUpload: seq<nat>, differs: Option<nat>)

  /** The loop over a new session's files, from the k-th on; a differing system header ends it. */
  function LookFrom(files: map<string, FileInfo>, names: seq<string>, answers: seq<Answer>, k: nat): (r: Looks)
    requires |names| == |answers| && k <= |names| && Known(files, names)
    ensures r.files.Keys == files.Keys
    decreases |names| - k
  {
    if k == |names| then Looks(files, [], None)
    else
      var file := files[names[k]];
      var looked := Look(file.state, answers[k]);
      var files' := files[names[k] := file.(state := looked.state)];
      if looked.differs then Looks(files', [], Some(k))
      else
        var rest := LookFrom(files', names, answers, k + 1);
        rest.(toUpload := (if looked.ask then [k] else []) + rest.toUpload)
  }

  predicate AllUploaded(files: map<string, FileInfo>, names: seq<string>) {
    forall i :: 0 <= i < |names| ==> names[i] in files && files[names[i]].state == Uploaded
  }

  /** launchCxxOnServerOnReadySessions: every registered session that waits for nothing counts as started. */
  function Launched(s: State): State {
    s.(sessions := map id | id in s.sessions ::
         s.sessions[id].(started := s.sessions[id].started || AllUploaded(s.files, s.sessions[id].names)))
  }

  /** StartCompilationSession, from CreateNewSession on. `objCacheHit` is what the object cache answers, if it is
      asked at all. */
  function Start(s: State, sessionID: nat, required: seq<RequiredFile>, objCacheHit: bool, answers: seq<Answer>)
    : (State, StartReply)
    requires |answers| == |required|
  {
    var (files, conflict) := Opened(s.files, required);
    var names := NamesOf(required);
    if conflict.Some? then (s.(files := files), FileConflict(conflict.value))
    else if objCacheHit then
      (s.(files := files, sessions := s.sessions[sessionID := SessionInfo(names, true, true)]), FromObjCache)
    else
      var looks := LookFrom(files, names, answers, 0);
      if looks.differs.Some? then (s.(files := looks.files), SystemFileDiffers(looks.differs.value))
      else
        (Launched(State(s.sessions[sessionID := SessionInfo(names, false, false)], looks.files,
                        s.asked + Picked(names, looks.toUpload))),
         WaitForUploads(looks.toUpload))
  }

  /** The names at these places. */
  function Picked(names: seq<string>, indexes: seq<nat>): set<string> {
    set i | i in indexes && i < |names| :: names[i]
  }

  // ---------------------------------------------------------------- uploads, and the end of a session

  /** One file received (or not) over UploadFileStream: `received` is whether all of it came and was saved,
      `pchCompiled` whether a .nocc-pch could be compiled (true for other files). */
  function Upload(s: State, sessionID: nat, fileIndex: nat, received: bool, pchCompiled: bool): (State, UploadReply)
    requires Sane(s)
  {
    if sessionID !in s.sessions || fileIndex >= |s.sessions[sessionID].names| then (s, UnknownSession)
    else
      var name, ok := s.sessions[sessionID].names[fileIndex], received && pchCompiled;
      var s' := Ended(s, name, if ok then Uploaded else UploadError);
      if ok then (Launched(s'), Received) else (s', CantReceive)
  }

  /** A file's upload is over. */
  function Ended(s: State, name: string, state: FileState): State
    requires name in s.files
  {
    s.(files := s.files[name := s.files[name].(state := state)], asked := s.asked - {name})
  }

  /** CloseSession, after the session's object was sent, or could not be made. */
  function Closed(s: State, sessionID: nat): State {
    if sessionID in s.sessions && s.sessions[sessionID].started then s.(sessions := s.sessions - {sessionID}) else s
  }

  datatype Event =
    | StartSession(sessionID: nat, required: seq<RequiredFile>, objCacheHit: bool, answers: seq<Answer>)
    | UploadEnds(uploadID: nat, fileIndex: nat, received: bool, pchCompiled: bool)
    | CxxEnds(compiledID: nat, wrote: bool)
    | CloseSession(closeID: nat)

  predicate Proper(e: Event) { e.StartSession? ==> |e.answers| == |e.required| }

  function Step(s: State, e: Event): (s': State)
    requires Proper(e) && Sane(s)
    ensures Sane(s')
  {
    match e
    case StartSession(id, required, hit, answers) => Start(s, id, required, hit, answers).0
    case UploadEnds(id, fileIndex, received, pchCompiled) => Upload(s, id, fileIndex, received, pchCompiled).0
    case CxxEnds(_, _) => s
    case CloseSession(id) => Closed(s, id)
  }

  predicate AllProper(events: seq<Event>) { forall i :: 0 <= i < |events| ==> Proper(events[i]) }

  function Run(events: seq<Event>): (s: State)
    requires AllProper(events)
    ensures Sane(s)
  {
    if events == [] then EMPTY else Step(Run(events[..|events| - 1]), events[|events| - 1])
  }

  lemma RunOneMore(events: seq<Event>, i: nat)
    requires AllProper(events) && i < |events|
    ensures Run(events[..i + 1]) == Step(Run(events[..i]), events[i])
  {
    assert events[..i + 1][..i] == events[..i];
  }

  // ---------------------------------------------------------------- when each reply is given

  /** Known under another hash, or required twice with two hashes. */
  predicate Clashes(files: map<string, FileInfo>, required: seq<RequiredFile>, i: nat)
    requires i < |required|
  {
    || Conflicts(files, required[i])
    || exists j :: 0 <= j < i && required[j].clientFileName == required[i].clientFileName
                   && required[j].fileSHA256 != required[i].fileSHA256
  }

  lemma ClashesLater(files: map<string, FileInfo>, required: seq<RequiredFile>, i: nat)
    requires i + 1 < |required| && !Conflicts(files, required[0])
    ensures Clashes(WithFirst(files, required[0]), required[1..], i) <==> Clashes(files, required, i + 1)
  {
    var files', rest := WithFirst(files, required[0]), required[1..];
    if Clashes(files', rest, i) && !Conflicts(files', rest[i]) {
      var j :| && 0 <= j < i && rest[j].clientFileName == rest[i].clientFileName
               && rest[j].fileSHA256 != rest[i].fileSHA256;
      assert required[j + 1] == rest[j];
    }
    if Clashes(files, required, i + 1) && !Conflicts(files, required[i + 1]) {
      var j :| 0 <= j < i + 1 && required[j].clientFileName == required[i + 1].clientFileName
               && required[j].fileSHA256 != required[i + 1].fileSHA256;
      if j > 0 { assert rest[j - 1] == required[j]; }
    }
  }

  /** A session is refused with FileConflict exactly then. */
  lemma {:induction false} ConflictExactlyWhen(files: map<string, FileInfo>, required: seq<RequiredFile>)
    ensures Opened(files, required).1.Some? <==> exists i :: 0 <= i < |required| && Clashes(files, required, i)
    decreases |required|
  {
    if required != [] {
      if Conflicts(files, required[0]) {
        assert Clashes(files, required, 0);
      } else {
        var files', rest := WithFirst(files, required[0]), required[1..];
        hide Clashes, WithFirst;
        ConflictExactlyWhen(files', rest);
        NotTheFirst(files, required);
        forall i | 0 <= i < |rest| ensures Clashes(files', rest, i) <==> Clashes(files, required, i + 1) {
          ClashesLater(files, required, i);
        }
        if i :| 0 <= i < |required| && Clashes(files, required, i) { assert Clashes(files', rest, i - 1); }
      }
    }
  }

  /** The first required file that clashes. */
  predicate FirstClash(files: map<string, FileInfo>, required: seq<RequiredFile>, i: nat) {
    i < |required| && Clashes(files, required, i) && forall j :: 0 <= j < i ==> !Clashes(files, required, j)
  }

  /** And it is the one that the reply names; without one, every required file is known by the hash required. */
  lemma {:induction false} ConflictNamesFirst(files: map<string, FileInfo>, required: seq<RequiredFile>)
    ensures forall i: nat :: FirstClash(files, required, i) ==>
              Opened(files, required).1 == Some(required[i].clientFileName)
    ensures Opened(files, required).1.None? ==>
              forall i :: 0 <= i < |required| ==>
                var name := required[i].clientFileName;
                && name in Opened(files, required).0
                && Opened(files, required).0[name].fileSHA256 == required[i].fileSHA256
    decreases |required|
  {
    if required != [] {
      if Conflicts(files, required[0]) {
        assert Clashes(files, required, 0);
      } else {
        var files', rest := WithFirst(files, required[0]), required[1..];
        assert files'[required[0].clientFileName].fileSHA256 == required[0].fileSHA256;
        hide Clashes, WithFirst;
        ConflictNamesFirst(files', rest);
        NotTheFirst(files, required);
        forall i: nat | FirstClash(files, required, i) ensures i > 0 && FirstClash(files', rest, i - 1) {
          forall j | 0 <= j < |rest| ensures Clashes(files', rest, j) <==> Clashes(files, required, j + 1) {
            ClashesLater(files, required, j);
          }
        }
      }
    }
  }

  lemma NotTheFirst(files: map<string, FileInfo>, required: seq<RequiredFile>)
    requires required != [] && !Conflicts(files, required[0])
    ensures !Clashes(files, required, 0)
  {
  }

  /** Nobody has looked at this file, not even in this session. */
  predicate New(files: map<string, FileInfo>, names: seq<string>, k: nat, i: nat)
    requires k <= i < |names| && Known(files, names)
  {
    names[i] !in names[k..i] && files[names[i]].state == JustCreated
  }

  predicate Differs(a: Answer) { a.isSystemFile && !a.equalsOnServer }

  /** The reply is SystemFileDiffers exactly if some file is new and a differing system header. */
  lemma {:induction false} DiffersExactlyWhen(files: map<string, FileInfo>, names: seq<string>, answers: seq<Answer>,
                                              k: nat)
    requires |names| == |answers| && k <= |names| && Known(files, names)
    ensures LookFrom(files, names, answers, k).differs.Some?
       <==> exists i :: k <= i < |names| && New(files, names, k, i) && Differs(answers[i])
    decreases |names| - k
  {
    if k < |names| {
      var looked := Look(files[names[k]].state, answers[k]);
      if looked.differs {
        assert New(files, names, k, k) && Differs(answers[k]);
      } else {
        var files' := files[names[k] := files[names[k]].(state := looked.state)];
        DiffersExactlyWhen(files', names, answers, k + 1);
        forall i | k < i < |names| ensures New(files', names, k + 1, i) <==> New(files, names, k, i) {
          assert names[k..i] == [names[k]] + names[k + 1..i];
        }
      }
    }
  }

  /** The first file whose header differs. */
  predicate FirstDiffering(files: map<string, FileInfo>, names: seq<string>, answers: seq<Answer>, k: nat, i: nat)
    requires |names| == |answers| && k <= |names| && Known(files, names)
  {
    && k <= i < |names| && New(files, names, k, i) && Differs(answers[i])
    && forall j :: k <= j < i ==> !(New(files, names, k, j) && Differs(answers[j]))
  }

  /** And it is the one that the reply is about. */
  lemma {:induction false} DiffersNamesFirst(files: map<string, FileInfo>, names: seq<string>, answers: seq<Answer>,
                                             k: nat)
    requires |names| == |answers| && k <= |names| && Known(files, names)
    ensures forall i: nat :: FirstDiffering(files, names, answers, k, i) ==>
              LookFrom(files, names, answers, k).differs == Some(i)
    decreases |names| - k
  {
    if k < |names| {
      var looked := Look(files[names[k]].state, answers[k]);
      if looked.differs {
        assert New(files, names, k, k) && Differs(answers[k]);
      } else {
        var files' := files[names[k] := files[names[k]].(state := looked.state)];
        DiffersNamesFirst(files', names, answers, k + 1);
        forall i | k < i < |names| ensures New(files', names, k + 1, i) <==> New(files, names, k, i) {
          assert names[k..i] == [names[k]] + names[k + 1..i];
        }
        forall i: nat | FirstDiffering(files, names, answers, k, i)
          ensures i > k && FirstDiffering(files', names, answers, k + 1, i)
        {
        }
      }
    }
  }

  /** Which files are asked for: new ones the server does not have, those whose upload failed, and those whose upload
      hangs; and again, if one is required twice, only for the last of these reasons. */
  predicate Needed(files: map<string, FileInfo>, names: seq<string>, answers: seq<Answer>, k: nat, i: nat)
    requires |names| == |answers| && k <= i < |names| && Known(files, names)
  {
    if names[i] in names[k..i] then
      answers[i].uploadHanged && LookFrom(files, names, answers, k).files[names[i]].state == Uploading
    else
      match files[names[i]].state
      case JustCreated => !answers[i].isSystemFile && !answers[i].inSrcCache
      case Uploading => answers[i].uploadHanged
      case UploadError => true
      case Uploaded => false
  }

  /** What looking at files does to them, besides marking some as being uploaded. */
  predicate OnlyLooked(files: map<string, FileInfo>, files': map<string, FileInfo>) {
    && files'.Keys == files.Keys
    && forall name :: name in files ==>
         && files'[name].fileSHA256 == files[name].fileSHA256
         && (files'[name] == files[name] || files'[name].state == Uploading || files'[name].state == Uploaded)
         && (files[name].state == Uploading ==> files'[name].state == Uploading)
         && (files[name].state == Uploaded ==> files'[name].state == Uploaded)
         && (files[name].state == UploadError ==> files'[name].state != Uploaded)
  }

  lemma {:induction false} LookedOnly(files: map<string, FileInfo>, names: seq<string>, answers: seq<Answer>, k: nat)
    requires |names| == |answers| && k <= |names| && Known(files, names)
    ensures OnlyLooked(files, LookFrom(files, names, answers, k).files)
    decreases |names| - k
  {
    if k < |names| {
      var looked := Look(files[names[k]].state, answers[k]);
      if !looked.differs {
        LookedOnly(files[names[k] := files[names[k]].(state := looked.state)], names, answers, k + 1);
      }
    }
  }

  predicate UnderWay(state: FileState) { state == Uploading || state == Uploaded }

  /** Without a differing header, no file of the session is left out. */
  lemma {:induction false} LookedAtAll(files: map<string, FileInfo>, names: seq<string>, answers: seq<Answer>, k: nat)
    requires |names| == |answers| && k <= |names| && Known(files, names)
    requires LookFrom(files, names, answers, k).differs.None?
    ensures forall i :: k <= i < |names| ==> UnderWay(LookFrom(files, names, answers, k).files[names[i]].state)
    decreases |names| - k
  {
    if k < |names| {
      var looked := Look(files[names[k]].state, answers[k]);
      var files' := files[names[k] := files[names[k]].(state := looked.state)];
      LookedOnly(files', names, answers, k + 1);
      LookedAtAll(files', names, answers, k + 1);
    }
  }

  /** Exactly the needed files are asked for. */
  lemma {:induction false} NeededExactly(files: map<string, FileInfo>, names: seq<string>, answers: seq<Answer>, k: nat)
    requires |names| == |answers| && k <= |names| && Known(files, names)
    requires LookFrom(files, names, answers, k).differs.None?
    ensures forall i :: i in LookFrom(files, names, answers, k).toUpload
                        <==> k <= i < |names| && Needed(files, names, answers, k, i)
    decreases |names| - k
  {
    if k < |names| {
      var looked := Look(files[names[k]].state, answers[k]);
      var files' := files[names[k] := files[names[k]].(state := looked.state)];
      var rest := LookFrom(files', names, answers, k + 1);
      NeededExactly(files', names, answers, k + 1);
      assert looked.ask <==> Needed(files, names, answers, k, k) by { assert names[k..k] == []; }
      forall i | k < i < |names|
        ensures Needed(files', names, answers, k + 1, i) <==> Needed(files, names, answers, k, i)
      {
        NeededLater(files, names, answers, k, i);
      }
      forall i
        ensures i in LookFrom(files, names, answers, k).toUpload <==> (i == k && looked.ask) || i in rest.toUpload
      {
      }
    }
  }

  lemma NeededLater(files: map<string, FileInfo>, names: seq<string>, answers: seq<Answer>, k: nat, i: nat)
    requires |names| == |answers| && k < i < |names| && Known(files, names)
    requires !Look(files[names[k]].state, answers[k]).differs
    ensures var looked := Look(files[names[k]].state, answers[k]);
            var files' := files[names[k] := files[names[k]].(state := looked.state)];
            Needed(files', names, answers, k + 1, i) <==> Needed(files, names, answers, k, i)
  {
    var looked := Look(files[names[k]].state, answers[k]);
    var files' := files[names[k] := files[names[k]].(state := looked.state)];
    assert names[k..i] == [names[k]] + names[k + 1..i];
    LookedOnly(files', names, answers, k + 1);
    hide LookFrom, Look;
    assert LookFrom(files, names, answers, k).files == LookFrom(files', names, answers, k + 1).files by {
      LookedOneMore(files, names, answers, k);
    }
    assert UnderWay(looked.state) by { LookedState(files[names[k]].state, answers[k]); }
  }

  lemma LookedState(state: FileState, a: Answer)
    ensures UnderWay(Look(state, a).state)
  {
  }

  lemma LookedOneMore(files: map<string, FileInfo>, names: seq<string>, answers: seq<Answer>, k: nat)
    requires |names| == |answers| && k < |names| && Known(files, names)
    ensures var looked := Look(files[names[k]].state, answers[k]);
            var files' := files[names[k] := files[names[k]].(state := looked.state)];
            var r := LookFrom(files, names, answers, k);
            if looked.differs then r == Looks(files', [], Some(k))
            else
              var rest := LookFrom(files', names, answers, k + 1);
              r == rest.(toUpload := (if looked.ask then [k] else []) + rest.toUpload)
  {
  }

  lemma UploadingStays(files: map<string, FileInfo>, names: seq<string>, answers: seq<Answer>, k: nat)
    requires |names| == |answers| && k <= |names| && Known(files, names)
    ensures forall name :: name in files && files[name].state == Uploading ==>
              LookFrom(files, names, answers, k).files[name].state == Uploading
  {
    LookedOnly(files, names, answers, k);
  }

  /** A file newly marked as being uploaded is asked for; and only such are. */
  lemma {:induction false} NewlyUploading(files: map<string, FileInfo>, names: seq<string>, answers: seq<Answer>,
                                          k: nat)
    requires |names| == |answers| && k <= |names| && Known(files, names)
    requires LookFrom(files, names, answers, k).differs.None?
    ensures var r := LookFrom(files, names, answers, k);
            && (forall i :: i in r.toUpload ==> i < |names| && r.files[names[i]].state == Uploading)
            && (forall name :: name in files && r.files[name].state == Uploading && files[name].state != Uploading ==>
                  exists i :: i in r.toUpload && i < |names| && names[i] == name)
    decreases |names| - k
  {
    if k < |names| {
      var looked := Look(files[names[k]].state, answers[k]);
      var files' := files[names[k] := files[names[k]].(state := looked.state)];
      NewlyUploading(files', names, answers, k + 1);
      LookedOneMore(files, names, answers, k);
      UploadingStays(files', names, answers, k + 1);
      hide LookFrom;
      var r, rest := LookFrom(files, names, answers, k), LookFrom(files', names, answers, k + 1);
      forall name | name in files && r.files[name].state == Uploading && files[name].state != Uploading
        ensures exists i :: i in r.toUpload && i < |names| && names[i] == name
      {
        if name == names[k] && files'[name].state == Uploading {
          assert k in r.toUpload && names[k] == name;
        } else {
          assert r.files == rest.files && files'[name].state != Uploading;
          var i :| i in rest.toUpload && i < |names| && names[i] == name;
          assert i in r.toUpload;
        }
      }
    }
  }

  predicate Increasing(s: seq<nat>) { forall i, j :: 0 <= i < j < |s| ==> s[i] < s[j] }

  /** The files are asked for in the order in which they were required; no other file is touched. */
  lemma {:induction false} AskedInOrder(files: map<string, FileInfo>, names: seq<string>, answers: seq<Answer>, k: nat)
    requires |names| == |answers| && k <= |names| && Known(files, names)
    ensures var r := LookFrom(files, names, answers, k);
            && Increasing(r.toUpload) && (forall i :: i in r.toUpload ==> k <= i < |names|)
            && forall name :: name in files && name !in names[k..] ==> r.files[name] == files[name]
    decreases |names| - k
  {
    if k < |names| {
      LookedOneMore(files, names, answers, k);
      var looked := Look(files[names[k]].state, answers[k]);
      hide LookFrom, Look;
      assert names[k..] == [names[k]] + names[k + 1..];
      if !looked.differs {
        var files' := files[names[k] := files[names[k]].(state := looked.state)];
        AskedInOrder(files', names, answers, k + 1);
        var rest := LookFrom(files', names, answers, k + 1).toUpload;
        assert forall i :: 0 <= i < |rest| ==> rest[i] in rest;
        IncreasingFront(k, rest);
        assert [] + rest == rest;
      }
    }
  }

  lemma IncreasingFront(k: nat, rest: seq<nat>)
    requires Increasing(rest) && forall i :: 0 <= i < |rest| ==> k < rest[i]
    ensures Increasing([k] + rest)
  {
  }

  /** When a start gets which of the four replies. */
  lemma RepliesExactly(s: State, sessionID: nat, required: seq<RequiredFile>, objCacheHit: bool, answers: seq<Answer>)
    requires |answers| == |required|
    ensures var files, names := Opened(s.files, required).0, NamesOf(required);
            var reply := Start(s, sessionID, required, objCacheHit, answers).1;
            var clash := exists i :: 0 <= i < |required| && Clashes(s.files, required, i);
            && (forall i: nat :: FirstClash(s.files, required, i) ==> reply == FileConflict(required[i].clientFileName))
            && (!clash ==>
                  && Known(files, names) && (objCacheHit ==> reply == FromObjCache)
                  && (!objCacheHit ==>
                        && (forall i: nat :: FirstDiffering(files, names, answers, 0, i) ==>
                              reply == SystemFileDiffers(i))
                        && ((forall i :: 0 <= i < |names| ==> !(New(files, names, 0, i) && Differs(answers[i]))) ==>
                              && reply.WaitForUploads? && Increasing(reply.fileIndexesToUpload)
                              && forall i :: i in reply.fileIndexesToUpload
                                             <==> 0 <= i < |names| && Needed(files, names, answers, 0, i))))
  {
    ConflictNamesFirst(s.files, required);
    ConflictExactlyWhen(s.files, required);
    var (files, conflict) := Opened(s.files, required);
    var names := NamesOf(required);
    if conflict.None? && !objCacheHit {
      assert Known(files, names);
      DiffersNamesFirst(files, names, answers, 0);
      DiffersExactlyWhen(files, names, answers, 0);
      AskedInOrder(files, names, answers, 0);
      if LookFrom(files, names, answers, 0).differs.None? { NeededExactly(files, names, answers, 0); }
    }
    hide Opened, LookFrom, Clashes, Needed, New;
  }

  // ---------------------------------------------------------------- a failed upload is asked for again

  /** This event is about the file: a start that requires it, or the end of an upload of it. */
  predicate Touches(s: State, e: Event, name: string)
    requires Sane(s)
  {
    match e
    case StartSession(_, required, _, _) => name in NamesOf(required)
    case UploadEnds(id, i, _, _) => id in s.sessions && i < |s.sessions[id].names| && s.sessions[id].names[i] == name
    case _ => false
  }

  lemma UntouchedStays(s: State, e: Event, name: string)
    requires Sane(s) && Proper(e) && name in s.files && !Touches(s, e, name)
    ensures name in Step(s, e).files && Step(s, e).files[name] == s.files[name]
    ensures name in Step(s, e).asked <==> name in s.asked
  {
    if e.StartSession? {
      var (files, conflict) := Opened(s.files, e.required);
      if conflict.None? {
        assert Known(files, NamesOf(e.required));
        AskedInOrder(files, NamesOf(e.required), e.answers, 0);
        assert NamesOf(e.required)[0..] == NamesOf(e.required);
      }
      hide Opened, LookFrom;
    }
  }

  /** The k-th event was the end of a failed upload of this file, and no event since was about it. */
  predicate FailedAt(events: seq<Event>, name: string, k: nat)
    requires AllProper(events)
  {
    && k < |events| && events[k].UploadEnds? && !(events[k].received && events[k].pchCompiled)
    && Touches(Run(events[..k]), events[k], name)
    && forall j :: k < j < |events| ==> !Touches(Run(events[..j]), events[j], name)
  }

  lemma {:induction false} StaysFailed(events: seq<Event>, name: string, k: nat, n: nat)
    requires AllProper(events) && FailedAt(events, name, k) && k < n <= |events|
    ensures var s := Run(events[..n]); name in s.files && s.files[name].state == UploadError && name !in s.asked
    decreases n
  {
    hide Step, Run, Touches;
    RunOneMore(events, n - 1);
    if n - 1 == k {
      FailsNow(Run(events[..k]), events[k], name);
    } else {
      StaysFailed(events, name, k, n - 1);
      UntouchedStays(Run(events[..n - 1]), events[n - 1], name);
    }
  }

  lemma FailsNow(s: State, e: Event, name: string)
    requires Sane(s) && e.UploadEnds? && !(e.received && e.pchCompiled) && Touches(s, e, name)
    ensures var s' := Step(s, e); name in s'.files && s'.files[name].state == UploadError && name !in s'.asked
  {
    assert Known(s.files, s.sessions[e.uploadID].names);
  }

  /** In every run: after the last upload of a file failed, the next start that requires it asks for it, unless it
      is refused or served from the object cache. */
  lemma FailedIsAskedAgain(events: seq<Event>, name: string, k: nat, e: Event, i: nat)
    requires AllProper(events) && FailedAt(events, name, k)
    requires e.StartSession? && Proper(e) && i < |e.required| && NamesOf(e.required)[i] == name
    requires name !in NamesOf(e.required)[..i]
    ensures var (s, reply) := Start(Run(events), e.sessionID, e.required, e.objCacheHit, e.answers);
            reply.WaitForUploads? ==>
              i in reply.fileIndexesToUpload && s.files[name].state == Uploading && name in s.asked
  {
    var s := Run(events);
    assert events[..|events|] == events;
    StaysFailed(events, name, k, |events|);
    var (files, conflict) := Opened(s.files, e.required);
    var names := NamesOf(e.required);
    if conflict.None? && !e.objCacheHit && LookFrom(files, names, e.answers, 0).differs.None? {
      assert names[0..i] == names[..i];
      NeededExactly(files, names, e.answers, 0);
      NewlyUploading(files, names, e.answers, 0);
      assert Needed(files, names, e.answers, 0, i);
    }
    hide Opened, LookFrom;
  }

  // ---------------------------------------------------------------- what every run keeps

  /** A registered session that is not started was looked at, and misses a file: no wake-up was lost. */
  predicate Waits(s: State) {
    forall id :: id in s.sessions && !s.sessions[id].started ==>
      !AllUploaded(s.files, s.sessions[id].names) && LookedAt(s.files, s.sessions[id].names)
  }

  predicate LookedAt(files: map<string, FileInfo>, names: seq<string>) {
    forall i :: 0 <= i < |names| ==> names[i] in files && files[names[i]].state != JustCreated
  }

  /** What was asked for is being uploaded. */
  predicate AskedOnly(s: State) {
    forall name :: name in s.asked ==> name in s.files && s.files[name].state == Uploading
  }

  /** And the other way round. */
  predicate UploadsAsked(s: State) {
    forall name :: name in s.files && s.files[name].state == Uploading ==> name in s.asked
  }

  predicate Inv(s: State) { Sane(s) && Waits(s) && AskedOnly(s) }

  /** A start that fails because a system header differs. */
  predicate Refuses(s: State, e: Event)
    requires Proper(e)
  {
    e.StartSession? && Start(s, e.sessionID, e.required, e.objCacheHit, e.answers).1.SystemFileDiffers?
  }

  /** Files that were looked at before, or not yet, and none of them newly there. */
  predicate NoNewUploaded(files: map<string, FileInfo>, files': map<string, FileInfo>) {
    forall name :: name in files ==>
      && name in files' && (files[name].state != JustCreated ==> files'[name].state != JustCreated)
      && (files[name].state != JustCreated && files[name].state != Uploaded ==> files'[name].state != Uploaded)
  }

  lemma StillWaits(s: State, files': map<string, FileInfo>)
    requires Sane(s) && Waits(s) && NoNewUploaded(s.files, files')
    ensures Sane(s.(files := files')) && Waits(s.(files := files'))
  {
    forall id | id in s.sessions && !s.sessions[id].started
      ensures !AllUploaded(files', s.sessions[id].names) && LookedAt(files', s.sessions[id].names)
    {
      var names := s.sessions[id].names;
      var i :| 0 <= i < |names| && !(names[i] in s.files && s.files[names[i]].state == Uploaded);
      assert files'[names[i]].state != Uploaded;
    }
  }

  lemma LaunchedWaits(s: State)
    requires Sane(s)
    requires forall id :: id in s.sessions && !s.sessions[id].started ==> LookedAt(s.files, s.sessions[id].names)
    ensures Sane(Launched(s)) && Waits(Launched(s))
  {
  }

  lemma InvOpened(s: State, required: seq<RequiredFile>)
    requires Inv(s)
    ensures var s' := s.(files := Opened(s.files, required).0);
            Inv(s') && (UploadsAsked(s) ==> UploadsAsked(s'))
  {
    OpenedOnly(s.files, required);
    hide Opened;
    StillWaits(s, Opened(s.files, required).0);
  }

  /** The invariant does not depend on a session that counts as started. */
  lemma InvStarted(s: State, id: nat, session: SessionInfo)
    requires Inv(s) && session.started && Known(s.files, session.names)
    ensures Inv(s.(sessions := s.sessions[id := session]))
  {
  }

  lemma InvLooked(s: State, files': map<string, FileInfo>)
    requires Inv(s) && OnlyLooked(s.files, files')
    ensures Inv(s.(files := files'))
  {
    StillWaits(s, files');
  }

  /** A new session that waits for uploads. */
  lemma InvRegistered(s: State, id: nat, names: seq<string>, asked: set<string>)
    requires Inv(s) && LookedAt(s.files, names)
    requires forall name :: name in asked ==> name in s.files && s.files[name].state == Uploading
    ensures Inv(Launched(s.(sessions := s.sessions[id := SessionInfo(names, false, false)], asked := s.asked + asked)))
  {
    LaunchedWaits(s.(sessions := s.sessions[id := SessionInfo(names, false, false)], asked := s.asked + asked));
  }

  lemma PickedUploading(files: map<string, FileInfo>, names: seq<string>, answers: seq<Answer>)
    requires |names| == |answers| && Known(files, names) && LookFrom(files, names, answers, 0).differs.None?
    ensures var looks := LookFrom(files, names, answers, 0);
            && (forall name :: name in Picked(names, looks.toUpload) ==>
                  name in looks.files && looks.files[name].state == Uploading)
            && (forall name ::
                  name in files && looks.files[name].state == Uploading && files[name].state != Uploading ==>
                    name in Picked(names, looks.toUpload))
  {
    NewlyUploading(files, names, answers, 0);
  }

  lemma InvStart(s: State, e: Event)
    requires Inv(s) && e.StartSession? && Proper(e)
    ensures Inv(Step(s, e)) && (!Refuses(s, e) && UploadsAsked(s) ==> UploadsAsked(Step(s, e)))
  {
    var (files, conflict) := Opened(s.files, e.required);
    var names, s1 := NamesOf(e.required), s.(files := files);
    InvOpened(s, e.required);
    if conflict.None? {
      assert Known(files, names);
      if e.objCacheHit {
        InvStarted(s1, e.sessionID, SessionInfo(names, true, true));
      } else {
        var looks := LookFrom(files, names, e.answers, 0);
        LookedOnly(files, names, e.answers, 0);
        InvLooked(s1, looks.files);
        if looks.differs.None? {
          LookedAtAll(files, names, e.answers, 0);
          PickedUploading(files, names, e.answers);
          hide LookFrom, Opened, Look, Inv, Picked, NamesOf, OnlyLooked;
          InvRegistered(s.(files := looks.files), e.sessionID, names, Picked(names, looks.toUpload));
        }
      }
    }
  }

  lemma {:induction false} OpenedOnly(files: map<string, FileInfo>, required: seq<RequiredFile>)
    ensures var files' := Opened(files, required).0;
            forall name :: name in files' ==>
              if name in files then files'[name] == files[name] else files'[name].state == JustCreated
    decreases |required|
  {
    if required != [] && !Conflicts(files, required[0]) { OpenedOnly(WithFirst(files, required[0]), required[1..]); }
  }

  lemma InvUpload(s: State, e: Event)
    requires Inv(s) && e.UploadEnds?
    ensures Inv(Step(s, e)) && (UploadsAsked(s) ==> UploadsAsked(Step(s, e)))
  {
    var (s', reply) := Upload(s, e.uploadID, e.fileIndex, e.received, e.pchCompiled);
    if !reply.UnknownSession? {
      var name := s.sessions[e.uploadID].names[e.fileIndex];
      var ended := Ended(s, name, if reply.Received? then Uploaded else UploadError);
      assert forall id :: id in s.sessions && !s.sessions[id].started ==> LookedAt(ended.files, s.sessions[id].names);
      if reply.Received? { LaunchedWaits(ended); } else { StillWaits(s, ended.files); }
    }
  }

  lemma InvStep(s: State, e: Event)
    requires Inv(s) && Proper(e)
    ensures Inv(Step(s, e))
    ensures !Refuses(s, e) && UploadsAsked(s) ==> UploadsAsked(Step(s, e))
  {
    match e {
      case StartSession(_, _, _, _) => InvStart(s, e);
      case UploadEnds(_, _, _, _) => InvUpload(s, e);
      case CxxEnds(_, _) =>
      case CloseSession(_) =>
    }
  }

  lemma {:induction false} InvAlways(events: seq<Event>)
    requires AllProper(events)
    ensures Inv(Run(events))
  {
    if events != [] {
      var n := |events| - 1;
      InvAlways(events[..n]);
      InvStep(Run(events[..n]), events[n]);
    }
  }

  // ---------------------------------------------------------------- files nobody is asked for

  predicate NeverRefuses(events: seq<Event>)
    requires AllProper(events)
  {
    forall i :: 0 <= i < |events| ==> !Refuses(Run(events[..i]), events[i])
  }

  /** A registered session waits for a file that is marked as being uploaded, and nobody was asked for it. */
  predicate StrandedOn(s: State, id: nat, i: nat) {
    && id in s.sessions && !s.sessions[id].started && i < |s.sessions[id].names|
    && s.sessions[id].names[i] in s.files && s.files[s.sessions[id].names[i]].state == Uploading
    && s.sessions[id].names[i] !in s.asked
  }

  ghost predicate Stranded(s: State) { exists id, i :: StrandedOn(s, id, i) }

  lemma {:induction false} AllAskedFor(events: seq<Event>)
    requires AllProper(events) && NeverRefuses(events)
    ensures UploadsAsked(Run(events))
  {
    if events != [] {
      var n := |events| - 1;
      assert NeverRefuses(events[..n]) by {
        forall i | 0 <= i < n ensures !Refuses(Run(events[..n][..i]), events[..n][i]) {
          assert events[..n][..i] == events[..i] && events[..n][i] == events[i];
        }
      }
      AllAskedFor(events[..n]);
      InvAlways(events[..n]);
      InvStep(Run(events[..n]), events[n]);
    }
  }

  /** In a run without such a refusal, what a waiting session misses is being uploaded on request, or its upload
      failed, and it does miss something. */
  lemma MissedIsAskedFor(events: seq<Event>, id: nat)
    requires AllProper(events) && NeverRefuses(events)
    requires id in Run(events).sessions && !Run(events).sessions[id].started
    ensures var s := Run(events);
            var names := s.sessions[id].names;
            && !AllUploaded(s.files, names)
            && forall i :: 0 <= i < |names| && s.files[names[i]].state != Uploaded ==>
                 s.files[names[i]].state == UploadError
                 || (s.files[names[i]].state == Uploading && names[i] in s.asked)
  {
    InvAlways(events);
    AllAskedFor(events);
  }

  /** No start says that a system header differs. */
  predicate HeadersAgree(events: seq<Event>) {
    forall i, j :: 0 <= i < |events| && events[i].StartSession? && 0 <= j < |events[i].answers| ==>
      !Differs(events[i].answers[j])
  }

  const DIFFERS := Answer(true, false, false, false)

  /** A start that is refused, and another one with the same header. */
  function TwoStarts(): seq<Event> {
    var header := [RequiredFile("/usr/include/a.h", 1, SHA256(0, 0, 0, 1))];
    [StartSession(1, header, false, [DIFFERS]), StartSession(2, header, false, [DIFFERS])]
  }

  lemma TwoStartsStrand()
    ensures AllProper(TwoStarts()) && StrandedOn(Run(TwoStarts()), 2, 0)
  {
    var events := TwoStarts();
    RunOneMore(events, 0);
    RunOneMore(events, 1);
    assert events[..0] == [] && events[..2] == events;
    var header := events[0].required;
    assert header[1..] == [];
    var name := header[0].clientFileName;
    var s := Run(events[..1]);
    assert NamesOf(header) == [name];
    assert Opened(map[], header).0 == map[name := FileInfo(header[0].fileSHA256, JustCreated)];
    assert s.sessions == map[] && s.files == map[name := FileInfo(header[0].fileSHA256, Uploading)] && s.asked == {};
    assert Opened(s.files, header) == (s.files, None);
    LookedOneMore(s.files, [name], [DIFFERS], 0);
    assert LookFrom(s.files, [name], [DIFFERS], 0).toUpload == [];
  }

  /** A session can be left waiting for a file that nobody is asked for if and only if a start may be refused
      because a system header differs. */
  lemma StrandsExactlyWhen(mayDiffer: bool)
    ensures (exists events :: AllProper(events) && (mayDiffer || HeadersAgree(events)) && Stranded(Run(events)))
       <==> mayDiffer
  {
    if mayDiffer {
      TwoStartsStrand();
      assert Stranded(Run(TwoStarts()));
    } else {
      forall events | AllProper(events) && HeadersAgree(events) ensures !Stranded(Run(events)) {
        forall i | 0 <= i < |events| ensures !Refuses(Run(events[..i]), events[i]) {
          NoDifferenceNoRefusal(Run(events[..i]), events[i]);
        }
        AllAskedFor(events);
      }
    }
  }

  lemma NoDifferenceNoRefusal(s: State, e: Event)
    requires Proper(e) && (e.StartSession? ==> forall j :: 0 <= j < |e.answers| ==> !Differs(e.answers[j]))
    ensures !Refuses(s, e)
  {
    if e.StartSession? {
      var (files, conflict) := Opened(s.files, e.required);
      if conflict.None? { DiffersExactlyWhen(files, NamesOf(e.required), e.answers, 0); }
    }
  }
}
