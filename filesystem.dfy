/**
  The local filesystem as the upload queue sees it, and the steps it takes
  against it. A step list (a trace) records every filesystem call and every
  call into the clean collaborator, in order, so that "the file is closed",
  "the staging file is torn down exactly once" and "nothing was opened" can
  be stated about a run.
*/
module FileSystem {
  import opened Paths

  /** One file: its bytes, whether `os.Open` succeeds on it, and whether `Stat` on the open handle does. */
  datatype FileNode = FileNode(content: seq<bv8>, canOpen: bool, canFstat: bool)

  /** Every path `os.Stat` finds; a path that is not a key does not exist. */
  type Fs = map<Path, FileNode>

  /** `os.Open(p)` returns a handle. */
  predicate Opens(fs: Fs, p: Path) {
    p in fs && fs[p].canOpen
  }

  /** One observable call made while preparing an upload. */
  datatype Effect =
    | Stat(path: Path)            // os.Stat on a path
    | Open(path: Path)            // os.Open
    | Fstat(path: Path)           // Stat on the open handle
    | Clean(path: Path, size: int)  // PointerClean over the open handle, with its name and size
    | Teardown(path: Path)        // Teardown of the staging file PointerClean returned
    | Close(path: Path)           // the deferred Close of the handle

  /** How many teardowns `t` performs. */
  function TeardownCount(t: seq<Effect>): nat {
    if t == [] then 0 else (if t[0].Teardown? then 1 else 0) + TeardownCount(t[1..])
  }

  /** An open was attempted during `t` (whether or not it succeeded). */
  predicate OpenAttempted(t: seq<Effect>) {
    exists i :: 0 <= i < |t| && t[i].Open?
  }

  /** The clean collaborator was called during `t`. */
  predicate Cleaned(t: seq<Effect>) {
    exists i :: 0 <= i < |t| && t[i].Clean?
  }

  /** Counting teardowns distributes over concatenation of traces. */
  lemma {:induction false} TeardownCountAppend(a: seq<Effect>, b: seq<Effect>)
    ensures TeardownCount(a + b) == TeardownCount(a) + TeardownCount(b)
  {
    if a == [] {
      assert a + b == b;
    } else {
      assert (a + b)[0] == a[0];
      assert (a + b)[1..] == a[1..] + b;
      TeardownCountAppend(a[1..], b);
    }
  }

  /** A trace with no teardown in it counts none. */
  lemma {:induction false} TeardownCountNone(t: seq<Effect>)
    requires forall i :: 0 <= i < |t| ==> !t[i].Teardown?
    ensures TeardownCount(t) == 0
  {
    if t != [] {
      TeardownCountNone(t[1..]);
    }
  }
}
