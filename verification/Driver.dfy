/** The driver's callbacks and requests over its real data structures: the process tree, the
    session ring and the lists reloaded from the registry.  Each refines one step of AccessControl. */
module Driver {
  import opened Names
  import opened VerdictCache
  import opened ProcessTree
  import opened MultiString
  import opened SessionBlacklist
  import opened AccessControl

  /** How a request to read a list is answered. */
  function GetStatus(listed: seq<string>, buffer: bool, bufferSizeInCharacters: nat): EncodeStatus
  {
    if !buffer then EncodeStatus.Success
    else if bufferSizeInCharacters < |Encode(listed)| then BufferTooSmall
    else if listed != [] && bufferSizeInCharacters > STRSAFE_MAX_CCH then InvalidParameter
    else EncodeStatus.Success
  }

  class ControlDevice {
    const sys: System
    const processes: ProcessTable
    const sessions: SessionList

    // CONTROL_DEVICE_CONTEXT
    var whitelistedFullImageNames: seq<string>
    var blacklistedDeviceInstancePaths: seq<string>
    var active: bool
    var whitelistedInverse: bool

    // The driver's registry parameters
    var registryWhitelist: string
    var registryBlacklist: string

    ghost function TableObjects(): set<object>
      reads processes
    {
      {processes} + processes.pool
    }

    ghost function SessionObjects(): set<object>
      reads sessions
    {
      {sessions} + sessions.pool
    }

    ghost predicate Valid()
      reads this, processes, sessions, TableObjects(), SessionObjects()
    {
      && processes.Valid() && sessions.Valid()
      && TableObjects() !! SessionObjects() && this !in TableObjects() + SessionObjects()
      && whitelistedFullImageNames == RegistryDecode(registryWhitelist)
      && blacklistedDeviceInstancePaths == RegistryDecode(registryBlacklist)
    }

    ghost function Value(): State
      reads this, processes, sessions
    {
      State(processes.contents, whitelistedFullImageNames, blacklistedDeviceInstancePaths,
            active, whitelistedInverse, sessions.Contents())
    }

    /** OnControlDeviceCreate: the configuration comes from the registry. */
    constructor (sys: System, registryWhitelist: string, registryBlacklist: string, active: bool, inverse: bool)
      ensures Valid() && Initial(Value())
      ensures Value().active == active && Value().inverse == inverse
    {
      this.sys, this.active, whitelistedInverse := sys, active, inverse;
      this.registryWhitelist, this.registryBlacklist := registryWhitelist, registryBlacklist;
      whitelistedFullImageNames := RegistryDecode(registryWhitelist);
      blacklistedDeviceInstancePaths := RegistryDecode(registryBlacklist);
      var p := new ProcessTable();
      var s := new SessionList();
      processes, sessions := p, s;
    }

    method OnSystemLoadImage(fullImageName: Option<string>, handle: nat, memory: bool)
      requires Valid()
      modifies processes, processes.pool`left, processes.pool`right
      ensures Valid() && Value() == Step(sys, old(Value()), LoadImage(handle, fullImageName, memory))
    {
      if fullImageName.Some? && handle != 0 {
        RegisterProcess(handle, fullImageName.value, memory);
      }
    }

    method RegisterProcess(handle: nat, fullImageName: string, memory: bool)
      requires Valid() && handle != 0
      modifies processes, processes.pool`left, processes.pool`right
      ensures Valid()
      ensures Value() == old(Value()).(table := Registered(old(Value()).table, ProcessId(handle), fullImageName, memory))
    {
      var _ := processes.Register(handle, fullImageName, memory);
    }

    method OnSystemProcessChange(handle: nat, create: bool)
      requires Valid()
      modifies processes, processes.pool`left, processes.pool`right
      modifies sessions`links, sessions.pool
      ensures Valid() && Value() == Step(sys, old(Value()), ProcessChange(handle, create))
    {
      if !create {
        UnregisterProcess(handle);
        CleanupSessions(handle);
      }
    }

    method UnregisterProcess(handle: nat)
      requires Valid()
      modifies processes, processes.pool`left, processes.pool`right
      ensures Valid() && Value() == old(Value()).(table := Unregistered(old(Value()).table, ProcessId(handle)))
      ensures processes.pool <= old(processes.pool) && sessions.pool == old(sessions.pool)
    {
      var _ := processes.Unregister(handle);
    }

    method CleanupSessions(handle: nat)
      requires Valid()
      modifies sessions`links, sessions.pool
      ensures Valid() && Value() == Step(sys, old(Value()), ClearSession(handle))
    {
      ghost var freed := sessions.CleanupForPid(handle);
    }

    /** SetWhitelist: registry write, reload, flush. */
    method SetWhitelist(buffer: string)
      requires Valid()
      modifies this`registryWhitelist, this`whitelistedFullImageNames
      modifies processes`contents, processes.pool`evaluationCache
      ensures Valid() && Value() == Step(sys, old(Value()), Event.SetWhitelist(buffer))
    {
      registryWhitelist := buffer;
      whitelistedFullImageNames := RegistryDecode(registryWhitelist);
      FlushVerdicts();
    }

    method FlushVerdicts()
      requires Valid()
      modifies processes`contents, processes.pool`evaluationCache
      ensures Valid() && Value() == old(Value()).(table := Flushed(old(Value()).table))
    {
      processes.Flush();
    }

    method SetBlacklist(buffer: string)
      requires Valid()
      modifies this`registryBlacklist, this`blacklistedDeviceInstancePaths
      ensures Valid() && Value() == Step(sys, old(Value()), Event.SetBlacklist(buffer))
    {
      registryBlacklist := buffer;
      blacklistedDeviceInstancePaths := RegistryDecode(registryBlacklist);
    }

    /** GetWhitelist and GetBlacklist: a fresh collection from the registry, encoded for the caller;
        without a buffer, only its size. */
    method GetWhitelist(buffer: array?<char>, bufferSizeInCharacters: nat)
      returns (status: EncodeStatus, neededSizeInCharacters: nat)
      requires Valid() && (buffer != null ==> bufferSizeInCharacters <= buffer.Length)
      modifies buffer
      ensures neededSizeInCharacters == |Encode(old(Value()).whitelist)|
      ensures status == GetStatus(old(Value()).whitelist, buffer != null, bufferSizeInCharacters)
      ensures buffer != null ==>
        buffer[..] == if status != EncodeStatus.Success then old(buffer[..])
                      else Encode(old(Value()).whitelist) + old(buffer[|Encode(Value().whitelist)|..])
    {
      status, neededSizeInCharacters :=
        CollectionToMultiString(RegistryDecode(registryWhitelist), buffer, bufferSizeInCharacters);
    }

    method GetBlacklist(buffer: array?<char>, bufferSizeInCharacters: nat)
      returns (status: EncodeStatus, neededSizeInCharacters: nat)
      requires Valid() && (buffer != null ==> bufferSizeInCharacters <= buffer.Length)
      modifies buffer
      ensures neededSizeInCharacters == |Encode(old(Value()).blacklist)|
      ensures status == GetStatus(old(Value()).blacklist, buffer != null, bufferSizeInCharacters)
      ensures buffer != null ==>
        buffer[..] == if status != EncodeStatus.Success then old(buffer[..])
                      else Encode(old(Value()).blacklist) + old(buffer[|Encode(Value().blacklist)|..])
    {
      status, neededSizeInCharacters :=
        CollectionToMultiString(RegistryDecode(registryBlacklist), buffer, bufferSizeInCharacters);
    }

    method SetActive(active: bool)
      requires Valid()
      modifies this`active
      ensures Valid() && Value() == Step(sys, old(Value()), Event.SetActive(active))
    {
      this.active := active;
    }

    method SetInverse(inverse: bool)
      requires Valid()
      modifies this`whitelistedInverse
      ensures Valid() && Value() == Step(sys, old(Value()), Event.SetInverse(inverse))
    {
      whitelistedInverse := inverse;
    }

    method AddSessionBlacklist(handle: nat, inputBufferLength: nat, buffer: string, outcome: nat -> AddStatus)
      returns (status: AddStatus)
      requires Valid() && |buffer| == inputBufferLength / 2
      modifies sessions`links, sessions`pool, sessions.pool
      ensures Valid() && status == AddResult(inputBufferLength, buffer, outcome)
      ensures Value() == Step(sys, old(Value()), AddSession(handle, inputBufferLength, buffer, outcome))
    {
      ghost var built, freed;
      status, built, freed := sessions.Add(handle, inputBufferLength, buffer, outcome);
      ghost var e := AddSession(handle, inputBufferLength, buffer, outcome);
      assert Value().session == Step(sys, old(Value()), e).session;
    }

    /** The same request with line 683 as written: it takes the state machine's step exactly if it
        is refused or lists no path. */
    method AddSessionBlacklistAsWritten(handle: nat, inputBufferLength: nat, buffer: string, outcome: nat -> AddStatus)
      returns (status: AddStatus)
      requires Valid() && |buffer| == inputBufferLength / 2
      modifies sessions`links, sessions`pool, sessions.pool
      ensures Valid() && status == AddResult(inputBufferLength, buffer, outcome)
      ensures var e := AddSession(handle, inputBufferLength, buffer, outcome);
        Value() == Step(sys, old(Value()), e) <==> !Entangles(e)
    {
      ghost var built, localHead;
      status, built, localHead := sessions.AddAsWritten(handle, inputBufferLength, buffer, outcome);
      ghost var e := AddSession(handle, inputBufferLength, buffer, outcome);
      assert Entangles(e) ==> |Value().session| == |Step(sys, old(Value()), e).session| + 1;
    }

    /** Blacklisted: the persistent list first, then the session list. */
    method IsBlacklisted(path: string, sessionId: nat) returns (hidden: bool)
      requires Valid()
      ensures hidden == Blacklisted(sys, Value().blacklist, Value().session, path, sessionId)
    {
      var index := 0;
      while index < |blacklistedDeviceInstancePaths|
        invariant 0 <= index <= |blacklistedDeviceInstancePaths|
        invariant Consult(sys, blacklistedDeviceInstancePaths, index, path, sessionId)
               == Consult(sys, blacklistedDeviceInstancePaths, 0, path, sessionId)
      {
        var devicePath, jailSessionId := SplitDeviceData(sys, blacklistedDeviceInstancePaths[index]);
        if SameName(sys.fold, devicePath, path) {
          return !(sessionId != 0 && jailSessionId != 0 && sessionId == jailSessionId);
        }
        index := index + 1;
      }
      hidden := sessions.Lists(sys.fold, path);
      ghost var listed := Value().session;
      assert forall i | 0 <= i < |listed| :: listed[i] == sessions.links[i].entry;
    }

    /** OnDeviceFileCreate: the verdict, and what asking for it leaves in the cache. */
    method OnDeviceFileCreate(handle: nat, sessionId: nat, path: string) returns (accessDenied: bool)
      requires Valid()
      modifies processes`contents, processes.pool`evaluationCache
      ensures Valid() && Value() == Step(sys, old(Value()), Open(handle, sessionId, path))
      ensures accessDenied == AccessDenied(sys, old(Value()), Open(handle, sessionId, path))
    {
      accessDenied := false;
      if ProcessId(handle) != SYSTEM_PID && active {
        var hidden := IsBlacklisted(path, sessionId);
        if hidden {
          var status, cacheHit := processes.Check(sys.fold, handle, whitelistedFullImageNames);
          var listed := status == InJob;
          accessDenied := !(if whitelistedInverse then !listed else listed);
        }
      }
    }
  }
}
