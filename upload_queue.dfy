/**
  Preparing an object for upload (lfs/upload_queue.go).

  Before an object is queued for upload the client reconciles it with the
  working copy: when the object is not in the local object store yet, the
  working-copy file is opened and cleaned, the staging file the clean leaves
  behind is torn down, and the OID the clean computed must equal the OID the
  store path names. `NewUploadable` then resolves the object's store path,
  runs that check when a working-copy file name is given, and records the
  object's size.

  The filesystem, the working directory, `LocalMediaPath` and `PointerClean`
  are all inputs (an `Env`); the two operations are functions of them that
  return an outcome and the trace of calls they made.
*/
module UploadQueue {
  import opened Wrappers
  import opened Paths
  import opened FileSystem

  /** The OID and size a clean computed. */
  datatype Pointer = Pointer(oid: string, size: int)

  /** What `PointerClean` hands back: the staging file to tear down, and the pointer. */
  datatype CleanedAsset = CleanedAsset(filename: Path, pointer: Pointer)

  /** A failure reported by `PointerClean`. */
  datatype CleanFailure = CleanFailure(reason: string)

  /** The `(cleaned, err)` pair `PointerClean` returns; either half may be nil. */
  datatype CleanReply = CleanReply(cleaned: Option<CleanedAsset>, err: Option<CleanFailure>)

  /**
    Everything the upload preparation consults: the filesystem, the working
    directory (`config.LocalWorkingDir`), the store layout (`LocalMediaPath`,
    which may fail) and the clean transform (`PointerClean`, called with the
    file's bytes, its name and its size).
  */
  datatype Env = Env(
    fs: Fs,
    localWorkingDir: Path,
    localMediaPath: string -> Result<Path, string>,
    pointerClean: (seq<bv8>, Path, int) -> CleanReply)

  /** The errors upload preparation returns. */
  datatype Error =
    | MediaPathFailed(reason: string)
    | StatFailed(path: Path)
    | OpenFailed(path: Path)
    | FstatFailed(path: Path)
    | CleanFailed(failure: CleanFailure)
    | OidMismatch(smudgePath: Path, expectedOid: string, dir: Path)
    | UploadFailed(cause: Error, filename: string, oid: string)  // errutil.Errorf's wrapping

  /**
    How a call ends: with a value, with an error, or with a nil-pointer panic
    (the dereference of a nil `cleaned` when `PointerClean` returns neither a
    pointer nor an error).
  */
  datatype Outcome<+T> = Ok(value: T) | Err(error: Error) | NilDereference

  /** An outcome together with the calls made to reach it. */
  datatype Run<+T> = Run(outcome: Outcome<T>, trace: seq<Effect>)

  /** The OID a store path stands for: its last element. */
  function ExpectedOid(cleanPath: Path): string {
    Base(cleanPath)
  }

  /** Where the working-copy file named `smudgePath` lives. */
  function WorkingCopyPath(env: Env, smudgePath: Path): Path {
    Join(env.localWorkingDir, smudgePath)
  }

  /** What `PointerClean` replies for the file at `localPath`, given its bytes, name and size. */
  function CleanOf(env: Env, localPath: Path): CleanReply
    requires localPath in env.fs
  {
    var content := env.fs[localPath].content;
    env.pointerClean(content, localPath, |content|)
  }

  /**
    Reference definition of a satisfied reconciliation: the object is already
    stored, or the working copy can be read and cleans, without error, to the
    OID that the store path names.
  */
  predicate Reconciled(env: Env, smudgePath: Path, cleanPath: Path) {
    cleanPath in env.fs ||
    var localPath := WorkingCopyPath(env, smudgePath);
    Opens(env.fs, localPath) && env.fs[localPath].canFstat &&
    var reply := CleanOf(env, localPath);
    reply.err.None? && reply.cleaned.Some? && reply.cleaned.value.pointer.oid == ExpectedOid(cleanPath)
  }

  /**
    `ensureFile`: makes sure the object at `cleanPath` is there, or that the
    working-copy file `smudgePath` cleans to the OID `cleanPath` names.
  */
  function EnsureFile(env: Env, smudgePath: Path, cleanPath: Path): (r: Run<()>)
    ensures r.outcome.Ok? <==> Reconciled(env, smudgePath, cleanPath)
    ensures |r.trace| > 0 && r.trace[0] == Stat(cleanPath)
    ensures OpenAttempted(r.trace) <==> cleanPath !in env.fs
    ensures Cleaned(r.trace) <==>
      cleanPath !in env.fs && Opens(env.fs, WorkingCopyPath(env, smudgePath)) &&
      env.fs[WorkingCopyPath(env, smudgePath)].canFstat
    ensures r.outcome.NilDereference? <==>
      Cleaned(r.trace) && CleanOf(env, WorkingCopyPath(env, smudgePath)) == CleanReply(None, None)
  {
    if cleanPath in env.fs then Run(Ok(()), [Stat(cleanPath)])
    else
      var expectedOid := ExpectedOid(cleanPath);
      var localPath := WorkingCopyPath(env, smudgePath);
      if !Opens(env.fs, localPath) then
        var trace := [Stat(cleanPath), Open(localPath)];
        assert trace[1].Open?;
        Run(Err(OpenFailed(localPath)), trace)
      else if !env.fs[localPath].canFstat then
        var trace := [Stat(cleanPath), Open(localPath), Fstat(localPath), Close(localPath)];
        assert trace[1].Open?;
        Run(Err(FstatFailed(localPath)), trace)
      else
        var size := |env.fs[localPath].content|;
        var reply := CleanOf(env, localPath);
        var teardown := if reply.cleaned.Some? then [Teardown(reply.cleaned.value.filename)] else [];
        var trace := [Stat(cleanPath), Open(localPath), Fstat(localPath), Clean(localPath, size)]
                     + teardown + [Close(localPath)];
        assert trace[1].Open? && trace[3].Clean?;
        if reply.err.Some? then Run(Err(CleanFailed(reply.err.value)), trace)
        else if reply.cleaned.None? then Run(NilDereference, trace)
        else if expectedOid != reply.cleaned.value.pointer.oid then
          Run(Err(OidMismatch(smudgePath, expectedOid, Dir(cleanPath))), trace)
        else Run(Ok(()), trace)
  }

  /** An object already in the store is accepted at once: nothing is opened or cleaned. */
  lemma EnsureFileSkipsStoredObject(env: Env, smudgePath: Path, cleanPath: Path)
    requires cleanPath in env.fs
    ensures var r := EnsureFile(env, smudgePath, cleanPath);
      r.outcome == Ok(()) && r.trace == [Stat(cleanPath)] && !OpenAttempted(r.trace) && !Cleaned(r.trace)
  {
  }

  /** A working copy that cannot be opened is reported as such, and nothing is cleaned or closed. */
  lemma EnsureFileOpenFailure(env: Env, smudgePath: Path, cleanPath: Path)
    requires cleanPath !in env.fs && !Opens(env.fs, WorkingCopyPath(env, smudgePath))
    ensures var r := EnsureFile(env, smudgePath, cleanPath);
      r.outcome == Err(OpenFailed(WorkingCopyPath(env, smudgePath))) && !Cleaned(r.trace) &&
      forall i :: 0 <= i < |r.trace| ==> !r.trace[i].Close?
  {
  }

  /** A working copy whose handle cannot be stat'ed is reported as such, not cleaned, and closed. */
  lemma EnsureFileFstatFailure(env: Env, smudgePath: Path, cleanPath: Path)
    requires cleanPath !in env.fs
    requires Opens(env.fs, WorkingCopyPath(env, smudgePath))
    requires !env.fs[WorkingCopyPath(env, smudgePath)].canFstat
    ensures var r := EnsureFile(env, smudgePath, cleanPath);
      r.outcome == Err(FstatFailed(WorkingCopyPath(env, smudgePath))) && !Cleaned(r.trace) &&
      r.trace[|r.trace| - 1] == Close(WorkingCopyPath(env, smudgePath))
  {
  }

  /**
    The staging file is torn down exactly once when the clean returned one,
    whether or not the clean also failed, and never otherwise.
  */
  lemma EnsureFileTeardownOnce(env: Env, smudgePath: Path, cleanPath: Path)
    ensures var r := EnsureFile(env, smudgePath, cleanPath);
      var localPath := WorkingCopyPath(env, smudgePath);
      TeardownCount(r.trace) ==
        (if Cleaned(r.trace) && CleanOf(env, localPath).cleaned.Some? then 1 else 0)
    ensures var r := EnsureFile(env, smudgePath, cleanPath);
      var localPath := WorkingCopyPath(env, smudgePath);
      Cleaned(r.trace) && CleanOf(env, localPath).cleaned.Some? ==>
        Teardown(CleanOf(env, localPath).cleaned.value.filename) in r.trace
  {
    var r := EnsureFile(env, smudgePath, cleanPath);
    var localPath := WorkingCopyPath(env, smudgePath);
    if Cleaned(r.trace) {
      var reply := CleanOf(env, localPath);
      var teardown := if reply.cleaned.Some? then [Teardown(reply.cleaned.value.filename)] else [];
      CleanedTraceShape(env, smudgePath, cleanPath);
      CleanedTraceTeardowns(r.trace[..4], teardown, r.trace[4 + |teardown|..]);
    } else {
      TeardownCountNone(r.trace);
    }
  }

  /** The calls of a run that reached the clean: four calls, the teardown if any, and the close. */
  lemma CleanedTraceShape(env: Env, smudgePath: Path, cleanPath: Path)
    requires Cleaned(EnsureFile(env, smudgePath, cleanPath).trace)
    ensures var r := EnsureFile(env, smudgePath, cleanPath);
      var localPath := WorkingCopyPath(env, smudgePath);
      var reply := CleanOf(env, localPath);
      var teardown := if reply.cleaned.Some? then [Teardown(reply.cleaned.value.filename)] else [];
      |r.trace| == 5 + |teardown| &&
      r.trace == r.trace[..4] + teardown + r.trace[4 + |teardown|..] &&
      (forall i :: 0 <= i < 4 ==> !r.trace[i].Teardown?) &&
      r.trace[4 + |teardown|] == Close(localPath)
  {
  }

  /** Counting the teardowns of such a run. */
  lemma CleanedTraceTeardowns(pre: seq<Effect>, teardown: seq<Effect>, post: seq<Effect>)
    requires forall i :: 0 <= i < |pre| ==> !pre[i].Teardown?
    requires |post| == 1 && post[0].Close?
    requires teardown == [] || (|teardown| == 1 && teardown[0].Teardown?)
    ensures TeardownCount(pre + teardown + post) == |teardown|
  {
    TeardownCountAppend(pre + teardown, post);
    TeardownCountAppend(pre, teardown);
    TeardownCountNone(pre);
    TeardownCountNone(post);
    if teardown != [] {
      assert teardown[1..] == [];
    }
  }

  /** Once the working copy is open, its handle is closed, as the last call. */
  lemma EnsureFileClosesHandle(env: Env, smudgePath: Path, cleanPath: Path)
    requires cleanPath !in env.fs && Opens(env.fs, WorkingCopyPath(env, smudgePath))
    ensures var r := EnsureFile(env, smudgePath, cleanPath);
      r.trace[|r.trace| - 1] == Close(WorkingCopyPath(env, smudgePath))
  {
  }

  /** A clean that fails is reported with its own error, whatever OID came back beside it. */
  lemma EnsureFileCleanError(env: Env, smudgePath: Path, cleanPath: Path)
    requires cleanPath !in env.fs
    requires Opens(env.fs, WorkingCopyPath(env, smudgePath))
    requires env.fs[WorkingCopyPath(env, smudgePath)].canFstat
    requires CleanOf(env, WorkingCopyPath(env, smudgePath)).err.Some?
    ensures EnsureFile(env, smudgePath, cleanPath).outcome ==
      Err(CleanFailed(CleanOf(env, WorkingCopyPath(env, smudgePath)).err.value))
  {
  }

  /**
    After a clean that succeeds, the check passes exactly when the cleaned OID
    is the one the store path names; otherwise the error names the working-copy
    file, the expected OID and the store directory.
  */
  lemma EnsureFileComparesOid(env: Env, smudgePath: Path, cleanPath: Path)
    requires cleanPath !in env.fs
    requires Opens(env.fs, WorkingCopyPath(env, smudgePath))
    requires env.fs[WorkingCopyPath(env, smudgePath)].canFstat
    requires CleanOf(env, WorkingCopyPath(env, smudgePath)).err.None?
    requires CleanOf(env, WorkingCopyPath(env, smudgePath)).cleaned.Some?
    ensures var oid := CleanOf(env, WorkingCopyPath(env, smudgePath)).cleaned.value.pointer.oid;
      EnsureFile(env, smudgePath, cleanPath).outcome ==
        if oid == ExpectedOid(cleanPath) then Ok(())
        else Err(OidMismatch(smudgePath, ExpectedOid(cleanPath), Dir(cleanPath)))
  {
  }

  /** The store layout: `<root>/<oid[0:2]>/<oid[2:4]>/<oid>`. */
  function ShardedMediaPath(root: Path, oid: string): Path
    requires |oid| >= 4
  {
    Join(Join(Join(root, oid[..2]), oid[2..4]), oid)
  }

  /** Under the sharded layout, the expected OID is the object's own OID and the directory is its shard. */
  lemma ExpectedOidOfShardedPath(root: Path, oid: string)
    requires IsElement(oid) && |oid| >= 4
    ensures ExpectedOid(ShardedMediaPath(root, oid)) == oid
    ensures Dir(ShardedMediaPath(root, oid)) == Join(Join(root, oid[..2]), oid[2..4])
  {
    var shard := Join(Join(root, oid[..2]), oid[2..4]);
    assert IsName(oid[2..4]) by {
      forall i | 0 <= i < 2 ensures oid[2..4][i] != Separator {
        assert oid[2..4][i] == oid[2 + i];
      }
    }
    assert shard[|shard| - 1] == oid[3];
    BaseOfJoin(shard, oid);
    DirOfJoin(shard, oid);
  }

  /**
    With the sharded layout, reconciling a working copy against the store path
    of `oid` rejects it exactly when the working copy cleans to another OID.
  */
  lemma EnsureFileAgainstShardedPath(env: Env, smudgePath: Path, root: Path, oid: string)
    requires IsElement(oid) && |oid| >= 4
    requires ShardedMediaPath(root, oid) !in env.fs
    requires Opens(env.fs, WorkingCopyPath(env, smudgePath))
    requires env.fs[WorkingCopyPath(env, smudgePath)].canFstat
    requires CleanOf(env, WorkingCopyPath(env, smudgePath)).err.None?
    requires CleanOf(env, WorkingCopyPath(env, smudgePath)).cleaned.Some?
    ensures var cleaned := CleanOf(env, WorkingCopyPath(env, smudgePath)).cleaned.value.pointer.oid;
      EnsureFile(env, smudgePath, ShardedMediaPath(root, oid)).outcome.Ok? <==> cleaned == oid
  {
    ExpectedOidOfShardedPath(root, oid);
  }

  /** The values an `Uploadable` is built from. */
  datatype UploadableFields = UploadableFields(oid: string, oidPath: Path, filename: string, size: int)

  /**
    What `NewUploadable(oid, filename)` computes: the store path of `oid`,
    then the reconciliation when `filename` is not empty, then the size of
    the object in the store.
  */
  function BuildUploadable(env: Env, oid: string, filename: string): (r: Run<UploadableFields>)
    ensures env.localMediaPath(oid).Failure? ==>
      r == Run(Err(UploadFailed(MediaPathFailed(env.localMediaPath(oid).error), filename, oid)), [])
    ensures filename == [] ==> !OpenAttempted(r.trace) && !Cleaned(r.trace)
    ensures (env.localMediaPath(oid).Success? && filename != [] &&
             !EnsureFile(env, filename, env.localMediaPath(oid).value).outcome.Ok?) ==>
        r.outcome == match EnsureFile(env, filename, env.localMediaPath(oid).value).outcome
          case Err(e) => Err(e)
          case _ => NilDereference
    ensures (env.localMediaPath(oid).Success? && env.localMediaPath(oid).value !in env.fs &&
             (filename == [] || EnsureFile(env, filename, env.localMediaPath(oid).value).outcome.Ok?)) ==>
        r.outcome == Err(UploadFailed(StatFailed(env.localMediaPath(oid).value), filename, oid))
    ensures r.outcome.Ok? ==>
      env.localMediaPath(oid).Success? && env.localMediaPath(oid).value in env.fs &&
      r.outcome.value == UploadableFields(oid, env.localMediaPath(oid).value, filename,
                                          |env.fs[env.localMediaPath(oid).value].content|)
  {
    match env.localMediaPath(oid)
    case Failure(reason) => Run(Err(UploadFailed(MediaPathFailed(reason), filename, oid)), [])
    case Success(mediaPath) =>
      var ensured := if |filename| > 0 then EnsureFile(env, filename, mediaPath) else Run(Ok(()), []);
      match ensured.outcome
      case Err(e) => Run(Err(e), ensured.trace)
      case NilDereference => Run(NilDereference, ensured.trace)
      case Ok(_) =>
        var trace := ensured.trace + [Stat(mediaPath)];
        if mediaPath !in env.fs then
          Run(Err(UploadFailed(StatFailed(mediaPath), filename, oid)), trace)
        else
          Run(Ok(UploadableFields(oid, mediaPath, filename, |env.fs[mediaPath].content|)), trace)
  }

  /**
    Since the clean does not put the object into the store, `NewUploadable`
    succeeds exactly when the store path resolves and the object is there.
  */
  lemma NewUploadableSucceedsIffStored(env: Env, oid: string, filename: string)
    ensures BuildUploadable(env, oid, filename).outcome.Ok? <==>
      env.localMediaPath(oid).Success? && env.localMediaPath(oid).value in env.fs
  {
  }

  /** The authorized-object record the remote returns (`api.ObjectResource`). */
  datatype ObjectResource = ObjectResource(oid: string, size: int, actions: map<string, Link>)

  /** One authorized transfer action (`api.LinkRelation`). */
  datatype Link = Link(href: string, header: map<string, string>)

  /** A file that can be uploaded. */
  class Uploadable {
    var oid: string
    var oidPath: Path
    var filename: string
    var size: int
    var resource: Option<ObjectResource>

    /** The values this object was constructed with. */
    ghost const fields: UploadableFields

    /** The OID, path, name and size are those given at construction. */
    ghost predicate Valid()
      reads this
    {
      oid == fields.oid && oidPath == fields.oidPath && filename == fields.filename && size == fields.size
    }

    constructor (f: UploadableFields)
      ensures Valid() && fields == f && resource == None
    {
      oid, oidPath, filename, size := f.oid, f.oidPath, f.filename, f.size;
      resource := None;
      fields := f;
    }

    function Oid(): (r: string)
      reads this
      requires Valid()
      ensures r == fields.oid
    {
      oid
    }

    function Size(): (r: int)
      reads this
      requires Valid()
      ensures r == fields.size
    {
      size
    }

    function Name(): (r: string)
      reads this
      requires Valid()
      ensures r == fields.filename
    {
      filename
    }

    function Object(): Option<ObjectResource>
      reads this
    {
      resource
    }

    /** Stores the authorized object; the OID, size and name stay as they were. */
    method SetObject(o: Option<ObjectResource>)
      requires Valid()
      modifies this`resource
      ensures Valid() && Object() == o
      ensures Oid() == old(Oid()) && Size() == old(Size()) && Name() == old(Name())
      ensures oidPath == old(oidPath)
    {
      resource := o;
    }
  }

  /**
    `NewUploadable`: builds the upload unit for `oid`, reconciling it with the
    working-copy file `filename` first when that name is not empty.
  */
  method NewUploadable(env: Env, oid: string, filename: string) returns (r: Outcome<Uploadable>)
    ensures r.Ok? <==> BuildUploadable(env, oid, filename).outcome.Ok?
    ensures r.NilDereference? <==> BuildUploadable(env, oid, filename).outcome.NilDereference?
    ensures r.Err? ==> BuildUploadable(env, oid, filename).outcome == Err(r.error)
    ensures r.Ok? ==>
      fresh(r.value) && r.value.Valid() && r.value.fields == BuildUploadable(env, oid, filename).outcome.value &&
      r.value.Object() == None
  {
    var mediaPath := env.localMediaPath(oid);
    if mediaPath.Failure? {
      return Err(UploadFailed(MediaPathFailed(mediaPath.error), filename, oid));
    }
    var localMediaPath := mediaPath.value;

    if |filename| > 0 {
      var ensured := EnsureFile(env, filename, localMediaPath).outcome;
      if ensured.Err? {
        return Err(ensured.error);
      } else if ensured.NilDereference? {
        return NilDereference;
      }
    }

    if localMediaPath !in env.fs {
      return Err(UploadFailed(StatFailed(localMediaPath), filename, oid));
    }

    var u := new Uploadable(UploadableFields(oid, localMediaPath, filename, |env.fs[localMediaPath].content|));
    return Ok(u);
  }
}
