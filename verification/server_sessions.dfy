/** The server's handlers for a client's sessions and files (internal/server/client.go, session.go, nocc-server.go):
    they do what SessionModel says, and launch each compilation once, with all its files there.
    One call of a handler (a session started, an upload finished, a session closed) is one step: file
    states are not locked in the program. */
module ServerSessions {
  import opened Wrappers
  import opened Sha256
  import opened SessionModel

  class FileInClientDir {
    const clientFileName: string
    const fileSize: int
    const fileSHA256: SHA256
    var state: FileState

    constructor (clientFileName: string, fileSize: int, fileSHA256: SHA256)
      ensures this.clientFileName == clientFileName && this.fileSize == fileSize && this.fileSHA256 == fileSHA256
      ensures state == JustCreated
    {
      this.clientFileName, this.fileSize, this.fileSHA256, state := clientFileName, fileSize, fileSHA256, JustCreated;
    }
  }

  class Session {
    const sessionID: nat
    var files: seq<FileInClientDir>
    var objCacheExists: bool
    var compilationStarted: bool

    constructor (sessionID: nat, files: seq<FileInClientDir>)
      ensures this.sessionID == sessionID && this.files == files && !objCacheExists && !compilationStarted
    {
      this.sessionID, this.files := sessionID, files;
      objCacheExists, compilationStarted := false, false;
    }

    predicate Ready()
      reads this`files, files
    {
      forall i :: 0 <= i < |files| ==> files[i].state == Uploaded
    }
  }

  /** A moment at which a session was handed to the compiler: its files, and the states they had then. */
  datatype Launch = Launch(session: Session, files: seq<FileInClientDir>, states: seq<FileState>) {
    predicate AllThere() { |states| == |files| && forall k :: 0 <= k < |states| ==> states[k] == Uploaded }
  }

  // ---------------------------------------------------------------- sessions and files as values

  function FileNames(files: seq<FileInClientDir>): (names: seq<string>)
    ensures |names| == |files| && forall i :: 0 <= i < |names| ==> names[i] == files[i].clientFileName
  {
    seq(|files|, i requires 0 <= i < |files| => files[i].clientFileName)
  }

  ghost function FileInfos(files: map<string, FileInClientDir>): (infos: map<string, FileInfo>)
    reads files.Values
    ensures infos.Keys == files.Keys
    ensures forall name :: name in files ==> infos[name] == FileInfo(files[name].fileSHA256, files[name].state)
  {
    map name | name in files :: FileInfo(files[name].fileSHA256, files[name].state)
  }

  ghost function InfoOf(session: Session): SessionInfo
    reads session
  {
    SessionInfo(FileNames(session.files), session.compilationStarted, session.objCacheExists)
  }

  ghost function SessionInfos(sessions: map<nat, Session>): (infos: map<nat, SessionInfo>)
    reads sessions.Values
    ensures infos.Keys == sessions.Keys && forall id :: id in sessions ==> infos[id] == InfoOf(sessions[id])
  {
    map id | id in sessions :: InfoOf(sessions[id])
  }

  class Client {
    const disableObjCache: bool
    var sessions: map<nat, Session>
    var files: map<string, FileInClientDir>
    var launched: seq<Session>              // sessions handed to the compiler, in order
    var objOutFiles: set<Session>           // whose object file, written by the compiler, exists

    ghost var launches: seq<Launch>         // what was there at each of these launches
    ghost var allSessions: set<Session>     // ever created
    ghost var allFiles: set<FileInClientDir>
    ghost var asked: set<string>            // files a reply asked for, and no upload of which has ended since

    /** Every file is found under its name; sessions share them. */
    ghost predicate Owned()
      reads this`sessions, this`files, this`allSessions, this`allFiles, allSessions`files
    {
      && (forall id :: id in sessions ==> sessions[id] in allSessions && sessions[id].sessionID == id)
      && (forall name :: name in files ==> files[name] in allFiles && files[name].clientFileName == name)
      && (forall s, i :: s in allSessions && 0 <= i < |s.files| ==>
            s.files[i].clientFileName in files && files[s.files[i].clientFileName] == s.files[i])
    }

    /** A session is launched at most once, and never if its object came from the object cache; any other
        session that counts as started was launched. */
    ghost predicate LaunchedOnce()
      reads this`launched, this`allSessions, allSessions`compilationStarted, allSessions`objCacheExists
    {
      && (forall i, j :: 0 <= i < j < |launched| ==> launched[i] != launched[j])
      && (forall i :: 0 <= i < |launched| ==> launched[i] in allSessions)
      && (forall s :: s in allSessions ==> (s in launched <==> s.compilationStarted && !s.objCacheExists))
      && (forall s :: s in allSessions && s.objCacheExists ==> s.compilationStarted)
    }

    /** Every launch found all the session's files uploaded. */
    ghost predicate LaunchedInTime()
      reads this`launched, this`launches
    {
      && |launches| == |launched|
      && (forall i :: 0 <= i < |launched| ==> launches[i].session == launched[i] && launches[i].AllThere())
    }

    /** An object file is there only of a session that was compiled. */
    ghost predicate ObjFilesOwned()
      reads this`launched, this`objOutFiles
    {
      forall s :: s in objOutFiles ==> s in launched
    }

    ghost predicate Kept()
      reads this, allSessions
    {
      Owned() && LaunchedOnce() && LaunchedInTime() && ObjFilesOwned()
    }

    ghost function Model(): State
      requires Owned()
      reads this`sessions, this`files, this`asked, this`allSessions, this`allFiles
      reads sessions.Values, files.Values, allSessions`files
    {
      State(SessionInfos(sessions), FileInfos(files), asked)
    }

    ghost predicate Valid()
      reads this, allSessions, allFiles
    {
      Kept() && Inv(Model())
    }

    constructor (disableObjCache: bool)
      ensures Valid() && Model() == EMPTY && launched == [] && objOutFiles == {} && allSessions == {} && allFiles == {}
      ensures this.disableObjCache == disableObjCache
    {
      this.disableObjCache := disableObjCache;
      sessions, files, launched := map[], map[], [];
      objOutFiles, launches := {}, [];
      allSessions, allFiles, asked := {}, {}, {};
    }

    // -------------------------------------------------------------- launching

    /** LaunchCxxWhenPossible, up to the compiler's start. */
    method LaunchCxx(session: Session)
      modifies this`launched, this`launches
      ensures launched == old(launched) + [session]
      ensures launches == old(launches) + [LaunchOf(session)]
    {
      launches := launches + [LaunchOf(session)];
      launched := launched + [session];
    }

    static ghost function LaunchOf(session: Session): Launch
      reads session`files, session.files
    {
      Launch(session, session.files, StatesOf(session.files))
    }

    static ghost function StatesOf(files: seq<FileInClientDir>): (states: seq<FileState>)
      reads files
      ensures |states| == |files| && forall k :: 0 <= k < |files| ==> states[k] == files[k].state
    {
      if files == [] then [] else StatesOf(files[..|files| - 1]) + [files[|files| - 1].state]
    }

    /** The compiler ended; `wrote` is whether it left an object file. */
    method CxxEnded(session: Session, wrote: bool)
      requires Valid() && session in launched
      modifies this`objOutFiles
      ensures Valid() && Model() == old(Model())
      ensures objOutFiles == if wrote then old(objOutFiles) + {session} else old(objOutFiles)
    {
      if wrote { objOutFiles := objOutFiles + {session}; }
    }

    method StartCompilingObjIfPossible(session: Session)
      requires Kept() && session in allSessions
      modifies this`launched, this`launches, session`compilationStarted
      ensures Kept()
      ensures session.compilationStarted <==> old(session.compilationStarted) || session.Ready()
      ensures launched == if old(session.compilationStarted) || !session.Ready() then old(launched)
                          else old(launched) + [session]
    {
      for i := 0 to |session.files|
        invariant forall j :: 0 <= j < i ==> session.files[j].state == Uploaded
      {
        if session.files[i].state != Uploaded {
          return;
        }
      }
      var wasStarted := session.compilationStarted;
      session.compilationStarted := true;
      if !wasStarted {
        LaunchCxx(session);
      }
    }

    method GetSessionsNotStartedCompilation() returns (r: seq<Session>)
      requires Owned()
      ensures forall s :: s in r <==> s in sessions.Values && !s.compilationStarted
    {
      r := [];
      var todo := sessions.Keys;
      while todo != {}
        invariant todo <= sessions.Keys
        invariant forall s :: s in r ==> s in sessions.Values && !s.compilationStarted
        invariant forall id :: id in sessions.Keys - todo && !sessions[id].compilationStarted ==> sessions[id] in r
        decreases todo
      {
        var id :| id in todo;
        todo := todo - {id};
        if !sessions[id].compilationStarted {
          r := r + [sessions[id]];
        }
      }
    }

    /** StartCompilingObjIfPossible, keeping track of what was launched since `base`. */
    method LaunchNext(session: Session, ghost base: seq<Session>, ghost news0: seq<Session>)
      returns (ghost news: seq<Session>)
      requires Kept() && session in allSessions && launched == base + news0
      modifies this`launched, this`launches, session`compilationStarted
      ensures Kept() && launched == base + news
      ensures session.compilationStarted <==> old(session.compilationStarted) || session.Ready()
      ensures forall s :: s in news ==> s in news0 || (s == session && session.Ready())
      ensures forall s :: s in news0 ==> s in news
      ensures session.compilationStarted && !old(session.compilationStarted) ==> session in news
    {
      hide FileInfos, SessionInfos, LaunchedOnce, LaunchedInTime, ObjFilesOwned, Owned;
      news := news0;
      StartCompilingObjIfPossible(session);
      if launched != old(launched) {
        news := news0 + [session];
        assert base + news0 + [session] == base + news;
      }
    }

    ghost function ReadySessions(): set<Session>
      requires Owned()
      reads this`sessions, this`files, this`allSessions, this`allFiles, allSessions, allFiles
    {
      set s | s in sessions.Values && !s.compilationStarted && s.Ready()
    }

    /** launchCxxOnServerOnReadySessions: launches every registered session that waits for nothing, and no other. */
    method LaunchCxxOnReadySessions() returns (ghost news: seq<Session>)
      requires Kept()
      modifies this`launched, this`launches, allSessions`compilationStarted
      ensures Kept() && Model() == Launched(old(Model())) && launched == old(launched) + news
      ensures forall s :: s in news <==> s in old(ReadySessions())
      ensures forall s :: s in news <==> s in sessions.Values && !old(s.compilationStarted) && s.Ready()
    {
      hide FileInfos, SessionInfos, LaunchedOnce, LaunchedInTime, ObjFilesOwned;
      var waiting := GetSessionsNotStartedCompilation();
      ghost var done: set<Session> := {};
      news := [];
      for i := 0 to |waiting|
        invariant Kept() && launched == old(launched) + news
        invariant forall s :: s in allSessions ==>
                    (s.compilationStarted <==> old(s.compilationStarted) || (s in done && s.Ready()))
        invariant forall s :: s in news ==> s in done && s.Ready()
        invariant forall s :: s in allSessions && s.compilationStarted && !old(s.compilationStarted) ==> s in news
        invariant forall s :: s in waiting ==> s in sessions.Values && s in allSessions && !old(s.compilationStarted)
        invariant forall s :: s in done ==> s in waiting
        invariant forall j :: 0 <= j < i ==> waiting[j] in done
      {
        assert waiting[i] in waiting;
        news := LaunchNext(waiting[i], old(launched), news);
        done := done + {waiting[i]};
      }
      AllStarted();
    }

    /** Registered sessions count as started exactly if they did, or are ready. */
    twostate lemma AllStarted()
      requires old(Owned()) && Owned() && sessions == old(sessions) && files == old(files) && asked == old(asked)
      requires forall id :: id in sessions ==>
                 var s := sessions[id];
                 && s.files == old(s.files) && s.objCacheExists == old(s.objCacheExists)
                 && (s.compilationStarted <==> old(s.compilationStarted) || s.Ready())
      requires forall name :: name in files ==> files[name].state == old(files[name].state)
      ensures Model() == Launched(old(Model()))
    {
      var before, after := old(Model()), Model();
      forall id | id in sessions
        ensures after.sessions[id].started
           <==> before.sessions[id].started || AllUploaded(before.files, before.sessions[id].names)
      {
        ReadyIs(sessions[id]);
      }
      assert after.files == before.files;
      assert after.sessions == Launched(before).sessions;
    }

    lemma ReadyIs(session: Session)
      requires Owned() && session in allSessions
      ensures session.Ready() <==> AllUploaded(FileInfos(files), FileNames(session.files))
    {
      var names := FileNames(session.files);
      forall i | 0 <= i < |names|
        ensures names[i] in files && FileInfos(files)[names[i]].state == session.files[i].state
      {
      }
    }

    // -------------------------------------------------------------- starting a session

    /** StartUsingFileInSession: a name stands for one content as long as the client is connected. */
    method StartUsingFileInSession(meta: RequiredFile) returns (file: Option<FileInClientDir>)
      requires Kept()
      modifies this`files, this`allFiles
      ensures Kept() && old(allFiles) <= allFiles && fresh(allFiles - old(allFiles))
      ensures file.None? <==> Conflicts(old(FileInfos(files)), meta)
      ensures file.None? ==> files == old(files) && allFiles == old(allFiles)
      ensures file.Some? ==>
                && FileInfos(files) == WithFirst(old(FileInfos(files)), meta)
                && meta.clientFileName in files && file.value == files[meta.clientFileName]
                && file.value.clientFileName == meta.clientFileName
      ensures forall name :: name in old(files) ==> name in files && files[name] == old(files)[name]
    {
      hide FileInfos, SessionInfos, LaunchedOnce, LaunchedInTime, ObjFilesOwned;
      if meta.clientFileName in files {
        var known := files[meta.clientFileName];
        return if known.fileSHA256 != meta.fileSHA256 then None else Some(known);
      }
      var newFile := new FileInClientDir(meta.clientFileName, meta.fileSize, meta.fileSHA256);
      files := files[meta.clientFileName := newFile];
      allFiles := allFiles + {newFile};
      file := Some(newFile);
    }

    /** CreateNewSession: fails exactly if a required file conflicts with what is known of it. */
    method CreateNewSession(sessionID: nat, requiredFiles: seq<RequiredFile>)
      returns (session: Option<Session>, conflict: string)
      requires Kept()
      modifies this`files, this`allFiles, this`allSessions
      ensures Kept() && old(allFiles) <= allFiles && fresh(allFiles - old(allFiles))
      ensures fresh(allSessions - old(allSessions)) && old(allSessions) <= allSessions
      ensures var (infos, clash) := Opened(old(Model()).files, requiredFiles);
              Model() == old(Model()).(files := infos) && clash == (if session.None? then Some(conflict) else None)
      ensures session.Some? ==>
                var s := session.value;
                && fresh(s) && s in allSessions && s.sessionID == sessionID
                && !s.compilationStarted && !s.objCacheExists && FileNames(s.files) == NamesOf(requiredFiles)
    {
      hide FileInfos, SessionInfos, Opened, WithFirst, LaunchedOnce, LaunchedInTime, ObjFilesOwned;
      var found, clash := FindFiles(requiredFiles);
      if clash.Some? {
        SessionsStay();
        return None, clash.value;
      }
      assert FileNames(found) == NamesOf(requiredFiles);
      var newSession := MakeSession(sessionID, found);
      SessionsStay();
      session, conflict := Some(newSession), "";
    }

    /** Its loop over the required files. */
    method FindFiles(requiredFiles: seq<RequiredFile>)
      returns (found: seq<FileInClientDir>, conflict: Option<string>)
      requires Kept()
      modifies this`files, this`allFiles
      ensures Kept() && old(allFiles) <= allFiles && fresh(allFiles - old(allFiles))
      ensures Opened(old(FileInfos(files)), requiredFiles) == (FileInfos(files), conflict)
      ensures conflict.None? ==> |found| == |requiredFiles|
      ensures conflict.None? ==> forall j :: 0 <= j < |found| ==> Found(files, found[j], requiredFiles[j])
    {
      hide FileInfos, SessionInfos, Opened, WithFirst, LaunchedOnce, LaunchedInTime, ObjFilesOwned;
      found := [];
      for i := 0 to |requiredFiles|
        invariant Kept() && old(allFiles) <= allFiles && fresh(allFiles - old(allFiles))
        invariant |found| == i
        invariant forall j :: 0 <= j < i ==> Found(files, found[j], requiredFiles[j])
        invariant Opened(old(FileInfos(files)), requiredFiles) == Opened(FileInfos(files), requiredFiles[i..])
      {
        OpenedStep(FileInfos(files), requiredFiles, i);
        var file := StartUsingFileInSession(requiredFiles[i]);
        if file.None? {
          return found, Some(requiredFiles[i].clientFileName);
        }
        found := found + [file.value];
      }
      OpenedAll(FileInfos(files), requiredFiles);
      conflict := None;
    }

    method MakeSession(sessionID: nat, found: seq<FileInClientDir>) returns (session: Session)
      requires Kept()
      requires forall i :: 0 <= i < |found| ==>
                 found[i].clientFileName in files && files[found[i].clientFileName] == found[i]
      modifies this`allSessions
      ensures Kept() && fresh(session) && allSessions == old(allSessions) + {session}
      ensures session.sessionID == sessionID && session.files == found
      ensures !session.compilationStarted && !session.objCacheExists
    {
      session := new Session(sessionID, found);
      allSessions := allSessions + {session};
    }

    /** The loop over a new session's files. */
    method LookAtFiles(session: Session, answers: seq<Answer>) returns (toUpload: seq<nat>, differs: Option<nat>)
      requires Owned() && session in allSessions && |answers| == |session.files|
      modifies session.files`state
      ensures Known(old(FileInfos(files)), FileNames(session.files))
      ensures LookFrom(old(FileInfos(files)), FileNames(session.files), answers, 0)
           == Looks(FileInfos(files), toUpload, differs)
    {
      hide Owned, FileInfos, LookFrom, Before, Look;
      NamesKnown(session);
      ghost var names := FileNames(session.files);
      ghost var all := LookFrom(FileInfos(files), names, answers, 0);
      LookedBefore(all);
      toUpload, differs := [], None;
      for i := 0 to |session.files|
        invariant Owned() && Known(FileInfos(files), names)
        invariant all == Before(toUpload, LookFrom(FileInfos(files), names, answers, i))
      {
        var file := session.files[i];
        FileKnown(session, i);
        LookedStep(all, toUpload, FileInfos(files), names, answers, i);
        var looked := Look(file.state, answers[i]);
        SetState(file, looked.state);
        if looked.differs {
          differs := Some(i);
          return;
        }
        if looked.ask {
          toUpload := toUpload + [i];
        }
        assert looked.ask || toUpload == toUpload + [];
      }
      LookedAll(all, toUpload, FileInfos(files), names, answers);
    }

    lemma NamesKnown(session: Session)
      requires Owned() && session in allSessions
      ensures Known(FileInfos(files), FileNames(session.files))
    {
    }

    lemma FileKnown(session: Session, i: nat)
      requires Owned() && session in allSessions && i < |session.files|
      ensures var file := session.files[i];
              && file.clientFileName in files && files[file.clientFileName] == file && file in allFiles
              && FileInfos(files)[FileNames(session.files)[i]].state == file.state
    {
    }

    /** A file gets another state; the others keep theirs. */
    method SetState(file: FileInClientDir, state: FileState)
      requires Owned() && file.clientFileName in files && files[file.clientFileName] == file
      modifies file`state
      ensures Owned()
      ensures var infos, name := old(FileInfos(files)), file.clientFileName;
              FileInfos(files) == infos[name := infos[name].(state := state)]
      ensures file.state == state
    {
      file.state := state;
    }

    /** StartCompilationSession, from CreateNewSession on. `objCacheHit` is what the object cache answers.
        It launches no compilation but that of the session it creates, and that one exactly if it waits for
        no file; a session served from the object cache is never launched. */
    method StartCompilationSession(sessionID: nat, requiredFiles: seq<RequiredFile>, coverage: bool, objCacheHit: bool,
                                   answers: seq<Answer>)
      returns (reply: StartReply, ghost session: Option<Session>)
      requires Valid() && |answers| == |requiredFiles|
      modifies this, allSessions`compilationStarted, allFiles`state
      ensures Valid() && fresh(allSessions - old(allSessions)) && fresh(allFiles - old(allFiles))
      ensures (Model(), reply)
           == Start(old(Model()), sessionID, requiredFiles, !disableObjCache && !coverage && objCacheHit, answers)
      ensures reply.FromObjCache? || reply.WaitForUploads? ==>
                session.Some? && fresh(session.value) && sessions == old(sessions)[sessionID := session.value]
      ensures launched == old(launched) +
                (if reply.WaitForUploads? && session.value.Ready() then [session.value] else [])
    {
      hide FileInfos, SessionInfos, Kept, Inv, Start, Opened, LookFrom, Launched, Picked;
      ghost var hit := !disableObjCache && !coverage && objCacheHit;
      KeepsInv(sessionID, requiredFiles, hit, answers);
      StartIs(Model(), sessionID, requiredFiles, hit, answers);
      var created, conflict := CreateNewSession(sessionID, requiredFiles);
      session := created;
      if created.None? {
        return FileConflict(conflict), None;
      }
      reply := ServeOrUpload(created.value, !disableObjCache && !coverage && objCacheHit, answers);
    }

    /** The rest of StartCompilationSession, for a session that was created. */
    method ServeOrUpload(session: Session, hit: bool, answers: seq<Answer>) returns (reply: StartReply)
      requires Kept() && Waits(Model()) && session in allSessions && session !in sessions.Values
      requires !session.compilationStarted && !session.objCacheExists && |answers| == |session.files|
      modifies this`sessions, this`launched, this`launches, this`asked, session`objCacheExists,
               allSessions`compilationStarted, allFiles`state
      ensures Kept() && Known(old(Model()).files, FileNames(session.files))
      ensures var s, names := old(Model()), FileNames(session.files);
              var looks := LookFrom(s.files, names, answers, 0);
              if hit then
                && Model() == s.(sessions := s.sessions[session.sessionID := SessionInfo(names, true, true)])
                && reply == FromObjCache
              else if looks.differs.Some? then
                Model() == s.(files := looks.files) && reply == SystemFileDiffers(looks.differs.value)
              else
                && reply == WaitForUploads(looks.toUpload)
                && Model() == Launched(State(s.sessions[session.sessionID := SessionInfo(names, false, false)],
                                             looks.files, s.asked + Picked(names, looks.toUpload)))
      ensures sessions == if reply.SystemFileDiffers? then old(sessions)
                          else old(sessions)[session.sessionID := session]
      ensures launched == old(launched) + (if reply.WaitForUploads? && session.Ready() then [session] else [])
    {
      hide FileInfos, SessionInfos, LaunchedOnce, LaunchedInTime, ObjFilesOwned, LookFrom, Launched, Picked;
      NamesKnown(session);
      if hit {
        ServeFromObjCache(session);
        return FromObjCache;
      }
      reply := StartUploading(session, answers);
    }

    /** For one that is not served from the object cache. */
    method StartUploading(session: Session, answers: seq<Answer>) returns (reply: StartReply)
      requires Kept() && Waits(Model()) && session in allSessions && session !in sessions.Values
      requires !session.compilationStarted && !session.objCacheExists && |answers| == |session.files|
      modifies this`sessions, this`launched, this`launches, this`asked, allSessions`compilationStarted, allFiles`state
      ensures Kept()
      ensures Known(old(Model()).files, FileNames(session.files))
      ensures var s, names := old(Model()), FileNames(session.files);
              var looks := LookFrom(s.files, names, answers, 0);
              if looks.differs.Some?
              then Model() == s.(files := looks.files) && reply == SystemFileDiffers(looks.differs.value)
              else
                && reply == WaitForUploads(looks.toUpload)
                && Model() == Launched(State(s.sessions[session.sessionID := SessionInfo(names, false, false)],
                                             looks.files, s.asked + Picked(names, looks.toUpload)))
      ensures sessions == if reply.WaitForUploads? then old(sessions)[session.sessionID := session] else old(sessions)
      ensures launched == old(launched) + (if reply.WaitForUploads? && session.Ready() then [session] else [])
    {
      hide FileInfos, SessionInfos, LaunchedOnce, LaunchedInTime, ObjFilesOwned, LookFrom, Launched, Picked;
      var toUpload, differs := LookAtFiles(session, answers);
      SessionsStay();
      if differs.Some? {
        return SystemFileDiffers(differs.value);
      }
      LookedOnly(old(FileInfos(files)), FileNames(session.files), answers, 0);
      StillWaits(old(Model()), FileInfos(files));
      RegisterAndLaunch(session, toUpload);
      reply := WaitForUploads(toUpload);
    }

    twostate lemma SessionsStay()
      requires sessions == old(sessions)
      requires forall id :: id in sessions ==> InfoOf(sessions[id]) == old(InfoOf(sessions[id]))
      ensures SessionInfos(sessions) == old(SessionInfos(sessions))
    {
    }

    lemma KeepsInv(sessionID: nat, required: seq<RequiredFile>, hit: bool, answers: seq<Answer>)
      requires Valid() && |answers| == |required|
      ensures Inv(Start(Model(), sessionID, required, hit, answers).0)
      ensures Kept() && Waits(Model().(files := Opened(Model().files, required).0))
    {
      InvOpened(Model(), required);
      InvStep(Model(), StartSession(sessionID, required, hit, answers));
    }

    /** The session is registered, and launched if it waits for nothing. */
    method RegisterAndLaunch(session: Session, ghost toUpload: seq<nat>)
      requires Kept() && Waits(Model()) && session in allSessions && session !in sessions.Values
      requires !session.compilationStarted && !session.objCacheExists
      modifies this`sessions, this`launched, this`launches, this`asked, allSessions`compilationStarted
      ensures Kept() && sessions == old(sessions)[session.sessionID := session]
      ensures var s, names := old(Model()), FileNames(session.files);
              Model() == Launched(State(s.sessions[session.sessionID := SessionInfo(names, false, false)], s.files,
                                        s.asked + Picked(names, toUpload)))
      ensures launched == old(launched) + (if session.Ready() then [session] else [])
    {
      hide FileInfos, SessionInfos, LaunchedOnce, LaunchedInTime, ObjFilesOwned;
      NobodyReady();
      Register(session, toUpload);
      OnlyThis(session);
      hide Owned, ReadySessions;
      ghost var news := LaunchCxxOnReadySessions();
      LaunchedHasNoRepeat();
      OneAtMost(old(launched), news, session);
    }

    static lemma InfoIs(session: Session)
      ensures InfoOf(session)
           == SessionInfo(FileNames(session.files), session.compilationStarted, session.objCacheExists)
    {
    }

    twostate lemma OnlyThis(session: Session)
      requires old(Owned()) && Owned() && old(ReadySessions()) == {} && !session.compilationStarted
      requires sessions == old(sessions)[session.sessionID := session]
      requires forall id :: id in old(sessions) ==>
                 var s := old(sessions)[id];
                 s.files == old(s.files) && s.compilationStarted == old(s.compilationStarted)
                 && forall i :: 0 <= i < |s.files| ==> s.files[i].state == old(s.files[i].state)
      ensures ReadySessions() == if session.Ready() then {session} else {}
    {
      assert session in sessions.Values by { assert sessions[session.sessionID] == session; }
      forall s | s in old(sessions).Values ensures s.compilationStarted || !s.Ready() {
        assert s !in old(ReadySessions());
      }
      assert forall s :: s in sessions.Values ==> s == session || s in old(sessions).Values;
    }

    /** One session more, or instead of one with the same ID; no other one changed. */
    twostate lemma SessionAdded(session: Session)
      requires sessions == old(sessions)[session.sessionID := session]
      requires forall id :: id in old(sessions) && id != session.sessionID ==>
                 InfoOf(old(sessions)[id]) == old(InfoOf(sessions[id]))
      ensures SessionInfos(sessions) == old(SessionInfos(sessions))[session.sessionID := InfoOf(session)]
    {
      var before, after := old(SessionInfos(sessions)), SessionInfos(sessions);
      forall id | id in after ensures after[id] == before[session.sessionID := InfoOf(session)][id] {
        if id != session.sessionID { assert sessions[id] == old(sessions)[id]; }
      }
    }

    /** No registered session is ready and not started. */
    lemma NobodyReady()
      requires Owned() && Waits(Model())
      ensures ReadySessions() == {}
    {
      forall id | id in sessions && !sessions[id].compilationStarted ensures !sessions[id].Ready() {
        ReadyIs(sessions[id]);
        assert !Model().sessions[id].started;
      }
    }

    method Register(session: Session, ghost toUpload: seq<nat>)
      requires Kept() && session in allSessions && !session.compilationStarted && !session.objCacheExists
      modifies this`sessions, this`asked
      ensures Kept() && sessions == old(sessions)[session.sessionID := session]
      ensures var s, names := old(Model()), FileNames(session.files);
              Model() == State(s.sessions[session.sessionID := SessionInfo(names, false, false)], s.files,
                               s.asked + Picked(names, toUpload))
    {
      hide FileInfos, SessionInfos, LaunchedOnce, LaunchedInTime, ObjFilesOwned, Picked, InfoOf;
      asked := asked + Picked(FileNames(session.files), toUpload);
      sessions := sessions[session.sessionID := session];
      SessionAdded(session);
      InfoIs(session);
    }

    lemma LaunchedHasNoRepeat()
      requires LaunchedOnce()
      ensures forall i, j :: 0 <= i < j < |launched| ==> launched[i] != launched[j]
    {
    }

    static lemma TwiceIsARepeat(base: seq<Session>, news: seq<Session>, x: Session)
      requires forall i :: 0 <= i < |news| ==> news[i] == x
      ensures |news| > 1 ==> exists i, j :: 0 <= i < j < |base + news| && (base + news)[i] == (base + news)[j]
    {
      if |news| > 1 {
        assert (base + news)[|base|] == news[0] && (base + news)[|base| + 1] == news[1];
      }
    }

    static lemma OneAtMost(base: seq<Session>, news: seq<Session>, x: Session)
      requires forall s :: s in news ==> s == x
      requires forall i, j :: 0 <= i < j < |base + news| ==> (base + news)[i] != (base + news)[j]
      ensures news == if x in news then [x] else []
    {
      assert forall i :: 0 <= i < |news| ==> news[i] in news;
      TwiceIsARepeat(base, news, x);
      assert news != [] ==> news == [news[0]];
    }

    method ServeFromObjCache(session: Session)
      requires Kept() && session in allSessions && session !in sessions.Values
      requires !session.compilationStarted && !session.objCacheExists
      modifies this`sessions, session`objCacheExists, session`compilationStarted
      ensures Kept() && sessions == old(sessions)[session.sessionID := session]
      ensures var s := old(Model());
              var info := SessionInfo(FileNames(session.files), true, true);
              Model() == s.(sessions := s.sessions[session.sessionID := info])
    {
      session.objCacheExists := true;
      session.compilationStarted := true;
      sessions := sessions[session.sessionID := session];
      assert forall id :: id in old(sessions) ==> old(sessions)[id] in old(sessions).Values;
      SessionAdded(session);
    }

    // -------------------------------------------------------------- an upload ends, a session is closed

    /** One file received (or not) over UploadFileStream: `received` is whether all of it came and was saved,
        `pchCompiled` whether a .nocc-pch could be compiled (true for other files). An upload that ends well
        launches every session it makes ready; one that fails launches none. */
    method UploadFinished(sessionID: nat, fileIndex: nat, received: bool, pchCompiled: bool)
      returns (reply: UploadReply, ghost news: seq<Session>)
      requires Valid()
      modifies this`launched, this`launches, this`asked, allSessions`compilationStarted, allFiles`state
      ensures Valid() && launched == old(launched) + news
      ensures (Model(), reply) == Upload(old(Model()), sessionID, fileIndex, received, pchCompiled)
      ensures if reply.Received?
              then forall s :: s in news <==> s in sessions.Values && !old(s.compilationStarted) && s.Ready()
              else news == []
      ensures sessionID !in sessions || fileIndex >= |sessions[sessionID].files| ==>
                reply == UnknownSession && asked == old(asked) && unchanged(allFiles)
      ensures sessionID in sessions && fileIndex < |sessions[sessionID].files| ==>
                var file := sessions[sessionID].files[fileIndex];
                && reply == (if received && pchCompiled then Received else CantReceive)
                && file.state == (if received && pchCompiled then Uploaded else UploadError)
                && asked == old(asked) - {file.clientFileName}
                && unchanged(allFiles - {file})
    {
      hide FileInfos, SessionInfos, Owned, LaunchedOnce, LaunchedInTime, ObjFilesOwned, Inv, Upload, ReadySessions,
        Session.Ready, Sane, Known;
      InvIsSane(Model());
      UploadOf(sessionID, fileIndex);
      if sessionID !in sessions || fileIndex >= |sessions[sessionID].files| {
        UploadIs(Model(), sessionID, fileIndex, received, pchCompiled);
        return UnknownSession, [];
      }
      var file := sessions[sessionID].files[fileIndex];
      reply, news := UploadForSession(sessionID, fileIndex, file, received, pchCompiled);
    }

    /** The same, of a file of a registered session. */
    method UploadForSession(sessionID: nat, fileIndex: nat, file: FileInClientDir, received: bool, pchCompiled: bool)
      returns (reply: UploadReply, ghost news: seq<Session>)
      requires Valid() && sessionID in sessions && fileIndex < |sessions[sessionID].files| && Sane(Model())
      requires file == sessions[sessionID].files[fileIndex]
      modifies this`launched, this`launches, this`asked, allSessions`compilationStarted,
               file`state
      ensures Valid() && launched == old(launched) + news
      ensures (Model(), reply) == Upload(old(Model()), sessionID, fileIndex, received, pchCompiled)
      ensures if reply.Received?
              then forall s :: s in news <==> s in sessions.Values && !old(s.compilationStarted) && s.Ready()
              else news == []
      ensures reply == if received && pchCompiled then Received else CantReceive
      ensures file.state == (if received && pchCompiled then Uploaded else UploadError)
      ensures asked == old(asked) - {file.clientFileName}
    {
      hide FileInfos, SessionInfos, Owned, LaunchedOnce, LaunchedInTime, ObjFilesOwned, Inv, Ended, Launched,
        ReadySessions, Upload;
      InvStep(Model(), UploadEnds(sessionID, fileIndex, received, pchCompiled));
      UploadIs(Model(), sessionID, fileIndex, received, pchCompiled);
      UploadOf(sessionID, fileIndex);
      reply, news := EndOfUpload(file, received, pchCompiled);
    }

    /** The file an upload is of. */
    lemma UploadOf(sessionID: nat, fileIndex: nat)
      requires Owned()
      ensures sessionID in Model().sessions <==> sessionID in sessions
      ensures sessionID in sessions ==>
                var session := sessions[sessionID];
                && session in allSessions && |Model().sessions[sessionID].names| == |session.files|
                && (fileIndex < |session.files| ==>
                      var file := session.files[fileIndex];
                      && Model().sessions[sessionID].names[fileIndex] == file.clientFileName && file in allFiles
                      && file.clientFileName in files && files[file.clientFileName] == file)
    {
    }

    method EndOfUpload(file: FileInClientDir, received: bool, pchCompiled: bool)
      returns (reply: UploadReply, ghost news: seq<Session>)
      requires Kept() && file.clientFileName in files && files[file.clientFileName] == file
      modifies this`launched, this`launches, this`asked, allSessions`compilationStarted, file`state
      ensures Kept() && launched == old(launched) + news
      ensures var s, name := old(Model()), file.clientFileName;
              Model() == if reply.Received? then Launched(Ended(s, name, Uploaded)) else Ended(s, name, UploadError)
      ensures reply == if received && pchCompiled then Received else CantReceive
      ensures if reply.Received?
              then forall s :: s in news <==> s in sessions.Values && !old(s.compilationStarted) && s.Ready()
              else news == []
      ensures file.state == (if reply.Received? then Uploaded else UploadError)
      ensures asked == old(asked) - {file.clientFileName}
    {
      hide Kept, Owned, FileInfos, SessionInfos, Ended, Launched, ReadySessions;
      news := [];
      if !received || !pchCompiled {
        EndUpload(file, UploadError);
        return CantReceive, news;
      }
      news := FileSaved(file);
      reply := Received;
    }

    /** The file is there, and whatever waited for it alone is launched. */
    method FileSaved(file: FileInClientDir) returns (ghost news: seq<Session>)
      requires Kept() && file.clientFileName in files && files[file.clientFileName] == file
      modifies this`launched, this`launches, this`asked, allSessions`compilationStarted, file`state
      ensures Kept() && Model() == Launched(Ended(old(Model()), file.clientFileName, Uploaded))
      ensures file.state == Uploaded && asked == old(asked) - {file.clientFileName}
      ensures launched == old(launched) + news
      ensures forall s :: s in news <==> s in sessions.Values && !old(s.compilationStarted) && s.Ready()
    {
      hide Kept, Owned, FileInfos, SessionInfos, Ended, Launched, ReadySessions;
      EndUpload(file, Uploaded);
      news := LaunchCxxOnReadySessions();
    }

    method EndUpload(file: FileInClientDir, state: FileState)
      requires Kept() && file.clientFileName in files && files[file.clientFileName] == file
      modifies file`state, this`asked
      ensures Kept() && Model() == Ended(old(Model()), file.clientFileName, state)
      ensures file.state == state && asked == old(asked) - {file.clientFileName}
    {
      hide FileInfos, SessionInfos, LaunchedOnce, LaunchedInTime, ObjFilesOwned;
      SetState(file, state);
      SessionsStay();
      asked := asked - {file.clientFileName};
    }

    /** CloseSession: the session is forgotten, and its object file deleted unless it is the object cache's. */
    method CloseSession(session: Session)
      requires Valid() && session in sessions.Values && session.compilationStarted
      modifies this`sessions, this`objOutFiles, session`files
      ensures Valid() && Model() == Closed(old(Model()), session.sessionID) && session.files == []
      ensures sessions == old(sessions) - {session.sessionID} && objOutFiles == old(objOutFiles) - {session}
    {
      hide Inv, Owned, LaunchedOnce, LaunchedInTime, ObjFilesOwned, SessionInfos, FileInfos, Closed;
      InvStep(Model(), SessionModel.CloseSession(session.sessionID));
      RegisteredAs(session);
      ClosedIs(Model(), session.sessionID);
      Unregister(session);
      DeleteObject(session);
    }

    method DeleteObject(session: Session)
      requires Kept() && session in allSessions
      modifies this`objOutFiles
      ensures Kept() && Model() == old(Model()) && objOutFiles == old(objOutFiles) - {session}
    {
      hide SessionInfos, FileInfos, LaunchedInTime;
      ObjectGone(session);
      if !session.objCacheExists { objOutFiles := objOutFiles - {session}; }
    }

    lemma RegisteredAs(session: Session)
      requires Owned() && session in sessions.Values
      ensures session.sessionID in sessions && sessions[session.sessionID] == session && session in allSessions
      ensures Model().sessions[session.sessionID].started == session.compilationStarted
    {
    }

    /** A session served from the object cache has no object file of its own. */
    lemma ObjectGone(session: Session)
      requires Kept() && session in allSessions
      ensures session.objCacheExists ==> session !in objOutFiles
    {
    }

    method Unregister(session: Session)
      requires Kept() && session.sessionID in sessions && sessions[session.sessionID] == session
      modifies this`sessions, session`files
      ensures Kept() && sessions == old(sessions) - {session.sessionID} && session.files == []
      ensures var s := old(Model()); Model() == s.(sessions := s.sessions - {session.sessionID})
    {
      hide FileInfos, SessionInfos, LaunchedOnce, LaunchedInTime, ObjFilesOwned;
      assert forall id :: id in sessions && id != session.sessionID ==> sessions[id] != session;
      sessions := sessions - {session.sessionID};
      session.files := [];
      SessionGone(session);
    }

    twostate lemma SessionGone(session: Session)
      requires sessions == old(sessions) - {session.sessionID}
      requires forall id :: id in old(sessions) && id != session.sessionID ==>
                 InfoOf(old(sessions)[id]) == old(InfoOf(sessions[id]))
      ensures SessionInfos(sessions) == old(SessionInfos(sessions)) - {session.sessionID}
    {
    }

    // -------------------------------------------------------------- any event

    method Handle(e: Event)
      requires Valid() && Proper(e) && !disableObjCache
      modifies this, allSessions, allFiles`state
      ensures Valid() && Model() == Step(old(Model()), e)
      ensures fresh(allSessions - old(allSessions)) && fresh(allFiles - old(allFiles))
    {
      hide Inv, Start, Upload;
      match e {
        case StartSession(id, required, hit, answers) =>
          var reply, session := StartCompilationSession(id, required, false, hit, answers);
        case UploadEnds(id, fileIndex, received, pchCompiled) =>
          var reply, news := UploadFinished(id, fileIndex, received, pchCompiled);
        case CxxEnds(id, wrote) =>
          if id in sessions && sessions[id] in launched { CxxEnded(sessions[id], wrote); }
        case CloseSession(id) =>
          if id in sessions && sessions[id].compilationStarted { CloseSession(sessions[id]); }
      }
    }
  }

  // ---------------------------------------------------------------- whole runs

  /** Any run of a connected client that may use the object cache. Each session was launched at most once, at a
      moment when all its files were uploaded, and never if served from the object cache; every other session that
      counts as started was launched. */
  method Serve(events: seq<Event>) returns (client: Client)
    requires AllProper(events)
    ensures client.Valid() && client.Model() == Run(events)
    ensures forall i, j :: 0 <= i < j < |client.launched| ==> client.launched[i] != client.launched[j]
    ensures |client.launches| == |client.launched|
    ensures forall i :: 0 <= i < |client.launched| ==>
              && client.launches[i].session == client.launched[i]
              && |client.launches[i].states| == |client.launches[i].files|
              && forall k :: 0 <= k < |client.launches[i].states| ==> client.launches[i].states[k] == Uploaded
    ensures forall id :: id in client.sessions ==>
              (client.sessions[id] in client.launched
               <==> client.sessions[id].compilationStarted && !client.sessions[id].objCacheExists)
  {
    hide Inv, Step, Run;
    client := new Client(false);
    RunNothing(events);
    for i := 0 to |events|
      invariant client.Valid() && client.Model() == Run(events[..i]) && !client.disableObjCache
      invariant fresh(client) && fresh(client.allSessions) && fresh(client.allFiles)
    {
      RunOneMore(events, i);
      client.Handle(events[i]);
    }
    assert events[..|events|] == events;
  }

  /** The file that was found for a required one. */
  predicate Found(files: map<string, FileInClientDir>, file: FileInClientDir, meta: RequiredFile) {
    && file.clientFileName == meta.clientFileName && file.clientFileName in files
    && files[file.clientFileName] == file
  }

  lemma OpenedStep(infos: map<string, FileInfo>, required: seq<RequiredFile>, i: nat)
    requires i < |required|
    ensures required[0..] == required
    ensures Opened(infos, required[i..]) ==
            if Conflicts(infos, required[i]) then (infos, Some(required[i].clientFileName))
            else Opened(WithFirst(infos, required[i]), required[i + 1..])
  {
    assert required[i..][1..] == required[i + 1..];
  }

  lemma OpenedAll(infos: map<string, FileInfo>, required: seq<RequiredFile>)
    ensures Opened(infos, required[|required|..]) == (infos, None)
    ensures required[0..] == required
  {
  }

  lemma InvIsSane(s: State)
    requires Inv(s)
    ensures Sane(s)
  {
  }

  lemma ClosedIs(s: State, sessionID: nat)
    requires sessionID in s.sessions && s.sessions[sessionID].started
    ensures Closed(s, sessionID) == s.(sessions := s.sessions - {sessionID})
  {
  }

  lemma UploadIs(s: State, sessionID: nat, fileIndex: nat, received: bool, pchCompiled: bool)
    requires Sane(s)
    ensures var r := Upload(s, sessionID, fileIndex, received, pchCompiled);
            if sessionID !in s.sessions || fileIndex >= |s.sessions[sessionID].names| then r == (s, UnknownSession)
            else
              var name := s.sessions[sessionID].names[fileIndex];
              && name in s.files
              && r == if received && pchCompiled then (Launched(Ended(s, name, Uploaded)), Received)
                      else (Ended(s, name, UploadError), CantReceive)
  {
  }

  /** The cases of a start, one by one. */
  lemma StartIs(s: State, sessionID: nat, required: seq<RequiredFile>, hit: bool, answers: seq<Answer>)
    requires |answers| == |required|
    ensures var (files, conflict) := Opened(s.files, required);
            var names, r := NamesOf(required), Start(s, sessionID, required, hit, answers);
            && (conflict.Some? ==> r == (s.(files := files), FileConflict(conflict.value)))
            && (conflict.None? ==> Known(files, names))
            && (conflict.None? && hit ==>
                  var info := SessionInfo(names, true, true);
                  r == (s.(files := files, sessions := s.sessions[sessionID := info]), FromObjCache))
            && (conflict.None? && !hit ==>
                  var looks := LookFrom(files, names, answers, 0);
                  r == if looks.differs.Some? then (s.(files := looks.files), SystemFileDiffers(looks.differs.value))
                       else (Launched(State(s.sessions[sessionID := SessionInfo(names, false, false)], looks.files,
                                            s.asked + Picked(names, looks.toUpload))),
                             WaitForUploads(looks.toUpload)))
  {
    hide Opened, LookFrom, Launched, Picked;
  }

  lemma RunNothing(events: seq<Event>)
    requires AllProper(events)
    ensures Run(events[..0]) == EMPTY
  {
  }

  function Before(toUpload: seq<nat>, rest: Looks): Looks { rest.(toUpload := toUpload + rest.toUpload) }

  lemma LookedBefore(all: Looks)
    ensures all == Before([], all)
  {
    assert [] + all.toUpload == all.toUpload;
  }

  lemma LookedStep(all: Looks, toUpload: seq<nat>, infos: map<string, FileInfo>, names: seq<string>,
                   answers: seq<Answer>, i: nat)
    requires |names| == |answers| && i < |names| && Known(infos, names)
    requires all == Before(toUpload, LookFrom(infos, names, answers, i))
    ensures var looked := Look(infos[names[i]].state, answers[i]);
            var infos' := infos[names[i] := infos[names[i]].(state := looked.state)];
            if looked.differs then all == Looks(infos', toUpload, Some(i))
            else all == Before(toUpload + (if looked.ask then [i] else []), LookFrom(infos', names, answers, i + 1))
  {
    LookedOneMore(infos, names, answers, i);
    hide LookFrom, Look;
    var looked := Look(infos[names[i]].state, answers[i]);
    var infos' := infos[names[i] := infos[names[i]].(state := looked.state)];
    if looked.differs {
      assert toUpload + [] == toUpload;
    } else {
      var here, rest := if looked.ask then [i] else [], LookFrom(infos', names, answers, i + 1);
      assert toUpload + (here + rest.toUpload) == toUpload + here + rest.toUpload;
    }
  }

  lemma LookedAll(all: Looks, toUpload: seq<nat>, infos: map<string, FileInfo>, names: seq<string>,
                  answers: seq<Answer>)
    requires |names| == |answers| && Known(infos, names)
    requires all == Before(toUpload, LookFrom(infos, names, answers, |names|))
    ensures all == Looks(infos, toUpload, None)
  {
    assert toUpload + [] == toUpload;
  }
}
