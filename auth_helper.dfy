/**
 * The privileged helper that applies a batch of channel changes
 * (Helper::save) and reports the end of a cache refresh
 * (Helper::statusChanged).
 *
 * The filesystem is a map from resolved path to contents; the sources
 * directory configured for apt and the set of paths the helper may not
 * touch are the `Host`. The cache-update transaction is a sequence of
 * observations, one per turn of the polling loop.
 */
module AuthHelper {
  import opened Options
  import opened Strings

  type Path = string
  type Bytes = seq<bv8>

  /** The files on disk, keyed by resolved path (see Canonical). */
  type Files = map<Path, Bytes>

  /** The reserved argument that asks for a cache refresh instead of naming a file. */
  const RefreshKey: string := "/refreshCache"

  /** One entry of the helper's argument map: a path and the requested action code. */
  datatype Arg = Arg(key: string, code: int)

  /** QString's operator<: lexicographic on characters. */
  predicate StrLess(a: string, b: string)
  {
    if a == [] then b != []
    else if b == [] then false
    else if a[0] != b[0] then a[0] < b[0]
    else StrLess(a[1..], b[1..])
  }

  /** A QVariantMap enumerates its keys in strictly ascending order. */
  predicate IsQMap(args: seq<Arg>)
  {
    forall i, j :: 0 <= i < j < |args| ==> StrLess(args[i].key, args[j].key)
  }

  /** The entry stored under `key`, if any. */
  function Lookup(args: seq<Arg>, key: string): (r: Option<int>)
    ensures r.None? <==> forall i :: 0 <= i < |args| ==> args[i].key != key
    ensures r.Some? ==> exists i :: 0 <= i < |args| && args[i] == Arg(key, r.value)
  {
    if args == [] then None
    else if args[0].key == key then Some(args[0].code)
    else
      var r := Lookup(args[1..], key);
      assert r.Some? ==> args[1..][0..] == args[1..];
      r
  }

  /** `args.value(key).toInt()`: a missing key reads as 0. */
  function Value(args: seq<Arg>, key: string): int
  {
    match Lookup(args, key)
    case None => 0
    case Some(v) => v
  }

  /** A cache refresh is requested exactly when the reserved key carries code 2. */
  predicate RefreshRequested(args: seq<Arg>)
  {
    Value(args, RefreshKey) == 2
  }

  /** What the helper finds on the machine: apt's sources directory and the paths it may not change. */
  datatype Host = Host(sldDir: Path, denied: set<Path>)

  /** Why an entry could not be applied; each names the entry's key and, for file errors, the target. */
  datatype Failure =
    | RemoveFailed(key: string, target: Path)
    | CopyFailed(key: string, target: Path)
    | UnknownCode(key: string, code: int)

  /** The ActionReply: success by default, a helper error once an entry fails. */
  datatype Reply = Success | HelperError(failure: Failure)

  datatype Outcome = Outcome(files: Files, reply: Reply)

  /**
   * The file a path names: runs of '/' stand for one, so
   * "/etc/apt/sources.list.d//x.list" and "/etc/apt/sources.list.d/x.list"
   * are the same file.
   */
  function Resolve(p: Path): (r: Path)
    ensures |p| > 0 ==> |r| > 0 && r[0] == p[0]
    ensures forall i :: 0 <= i < |r| - 1 ==> !(r[i] == '/' && r[i + 1] == '/')
  {
    if |p| <= 1 then p
    else if p[0] == '/' && p[1] == '/' then Resolve(p[1..])
    else [p[0]] + Resolve(p[1..])
  }

  lemma {:induction false} ResolveNoSlash(n: string)
    requires '/' !in n
    ensures Resolve(n) == n
  {
    if |n| > 1 {
      ResolveNoSlash(n[1..]);
      assert [n[0]] + n[1..] == n;
    }
  }

  /** A slash-free tail is kept as it is. */
  lemma {:induction false} ResolveAppend(x: Path, n: string)
    requires '/' !in n
    ensures Resolve(x + n) == Resolve(x) + n
  {
    if x == [] {
      assert x + n == n;
      ResolveNoSlash(n);
    } else if |x| == 1 {
      if n != [] {
        assert (x + n)[1..] == n;
        ResolveNoSlash(n);
      } else {
        assert x + n == x;
      }
    } else {
      assert (x + n)[1..] == x[1..] + n;
      ResolveAppend(x[1..], n);
    }
  }

  lemma {:induction false} ResolveDoubleSlash(x: Path)
    ensures Resolve(x + "//") == Resolve(x + "/")
  {
    if |x| >= 2 {
      assert (x + "//")[1..] == x[1..] + "//";
      assert (x + "/")[1..] == x[1..] + "/";
      ResolveDoubleSlash(x[1..]);
    } else if |x| == 1 {
      assert (x + "//")[1..] == "//";
      assert (x + "/")[1..] == "/";
    }
  }

  /** The last '/'-separated component of a key: the file name it is installed under. */
  function FileName(key: string): string
  {
    LastPart(key, '/')
  }

  /**
   * Where an entry is installed: the sources directory, a '/', and the
   * key's last '/'-separated component, so the file lies directly inside
   * the sources directory.
   */
  function TargetPath(sldDir: Path, key: string): (t: Path)
    ensures |t| > |sldDir| && t[..|sldDir|] == sldDir && t[|sldDir|] == '/'
    ensures '/' !in t[|sldDir| + 1..]
  {
    LastPartIsFinalSegment(key, '/');
    sldDir + "/" + FileName(key)
  }

  /** The target's file name is the key's file name: the text after the key's last '/', or the whole key. */
  lemma TargetNamesKeyFile(sldDir: Path, key: string)
    ensures var name := FileName(key);
      TargetPath(sldDir, key) == sldDir + "/" + name &&
      '/' !in name && |name| <= |key| && name == key[|key| - |name|..] &&
      (|name| == |key| || key[|key| - |name| - 1] == '/')
  {
    LastPartIsFinalSegment(key, '/');
  }

  /**
   * A key that is already an installed path targets itself, so disabling
   * by the installed path and by the definition's path touch the same file.
   */
  lemma TargetOfTarget(sldDir: Path, key: string)
    ensures TargetPath(sldDir, TargetPath(sldDir, key)) == TargetPath(sldDir, key)
  {
    var name := FileName(key);
    assert sldDir + "/" + name == sldDir + ['/'] + name;
    LastPartAfterSeparator(sldDir, name, '/');
  }

  /** A trailing '/' on the configured directory (the default has one) names the same file. */
  lemma TrailingSlashSameFile(sldDir: Path, key: string)
    ensures Resolve(TargetPath(sldDir + "/", key)) == Resolve(TargetPath(sldDir, key))
  {
    var name := FileName(key);
    assert TargetPath(sldDir + "/", key) == (sldDir + "//") + name;
    assert TargetPath(sldDir, key) == (sldDir + "/") + name;
    ResolveAppend(sldDir + "//", name);
    ResolveAppend(sldDir + "/", name);
    ResolveDoubleSlash(sldDir);
  }

  /** A path without "//" is already resolved. */
  lemma {:induction false} ResolveFixed(q: Path)
    requires forall i :: 0 <= i < |q| - 1 ==> !(q[i] == '/' && q[i + 1] == '/')
    ensures Resolve(q) == q
  {
    if |q| > 1 {
      var tail := q[1..];
      forall i | 0 <= i < |tail| - 1
        ensures !(tail[i] == '/' && tail[i + 1] == '/')
      {
        assert tail[i] == q[i + 1] && tail[i + 1] == q[i + 2];
      }
      ResolveFixed(tail);
      assert [q[0]] + tail == q;
    }
  }

  /** Resolving twice is resolving once. */
  lemma ResolveIdempotent(p: Path)
    ensures Resolve(Resolve(p)) == Resolve(p)
  {
    ResolveFixed(Resolve(p));
  }

  /** Every file is stored under its resolved path. */
  predicate Canonical(files: Files)
  {
    forall p :: p in files ==> Resolve(p) == p
  }

  /** `a` and `b` agree on `p`: both lack it, or both hold the same contents. */
  predicate SameAt(a: Files, b: Files, p: Path)
  {
    (p in a <==> p in b) && (p in a ==> a[p] == b[p])
  }

  /**
   * One entry: code 0 removes the target (QFile::remove fails when it is
   * missing), code 2 copies the key's file to the target (QFile::copy fails
   * when the source is missing or the target exists), any other code is
   * refused. Paths in `denied` make the operation fail.
   */
  function ApplyEntry(files: Files, host: Host, key: string, code: int): (r: Result<Files, Failure>)
    ensures var t := Resolve(TargetPath(host.sldDir, key)); var src := Resolve(key);
      && (r.Ok? ==> (code == 0 || code == 2) && forall p :: p != t ==> SameAt(files, r.value, p))
      && (code == 0 ==> (r.Ok? <==> t in files && t !in host.denied))
      && (code == 0 && r.Ok? ==> t !in r.value)
      && (code == 2 ==> (r.Ok? <==> src in files && t !in files && src !in host.denied && t !in host.denied))
      && (code == 2 && r.Ok? ==> t in r.value && r.value[t] == files[src])
      && (code == 0 && r.Err? ==> r.error == RemoveFailed(key, TargetPath(host.sldDir, key)))
      && (code == 2 && r.Err? ==> r.error == CopyFailed(key, TargetPath(host.sldDir, key)))
      && (code != 0 && code != 2 ==> r == Err(UnknownCode(key, code)))
  {
    var listsFile := TargetPath(host.sldDir, key);
    var t := Resolve(listsFile);
    if code == 0 then
      if t in files && t !in host.denied then Ok(files - {t})
      else Err(RemoveFailed(key, listsFile))
    else if code == 2 then
      var src := Resolve(key);
      if src in files && t !in files && src !in host.denied && t !in host.denied then Ok(files[t := files[src]])
      else Err(CopyFailed(key, listsFile))
    else
      Err(UnknownCode(key, code))
  }

  /** Applying an entry stores files under resolved paths only. */
  lemma ApplyEntryKeepsCanonical(files: Files, host: Host, key: string, code: int)
    requires Canonical(files)
    ensures var r := ApplyEntry(files, host, key, code); r.Ok? ==> Canonical(r.value)
  {
    ResolveIdempotent(TargetPath(host.sldDir, key));
  }

  /** The file part of Helper::save: entries in order, the reserved key skipped, stop at the first failure. */
  function ApplyBatch(files: Files, host: Host, args: seq<Arg>): (o: Outcome)
    decreases |args|
  {
    if args == [] then Outcome(files, Success)
    else if args[0].key == RefreshKey then ApplyBatch(files, host, args[1..])
    else
      match ApplyEntry(files, host, args[0].key, args[0].code)
      case Err(f) => Outcome(files, HelperError(f))
      case Ok(next) => ApplyBatch(next, host, args[1..])
  }

  /** Go on with `rest` only if the batch so far succeeded. */
  function Continue(o: Outcome, host: Host, rest: seq<Arg>): Outcome
  {
    if o.reply.Success? then ApplyBatch(o.files, host, rest) else o
  }

  /** Applying `a + b` is applying `a`, then `b` only if `a` succeeded. */
  lemma {:induction false} BatchConcat(files: Files, host: Host, a: seq<Arg>, b: seq<Arg>)
    ensures ApplyBatch(files, host, a + b) == Continue(ApplyBatch(files, host, a), host, b)
    decreases |a|
  {
    if a == [] {
      assert a + b == b;
    } else {
      assert (a + b)[0] == a[0];
      assert (a + b)[1..] == a[1..] + b;
      if a[0].key == RefreshKey {
        BatchConcat(files, host, a[1..], b);
      } else {
        match ApplyEntry(files, host, a[0].key, a[0].code)
        case Err(f) =>
        case Ok(next) => BatchConcat(next, host, a[1..], b);
      }
    }
  }

  /**
   * The first failing entry ends the batch: the files keep every change
   * made before it (no rollback), the reply names its failure, and the
   * entries after it play no part.
   */
  lemma StopsAtFirstFailure(files: Files, host: Host, args: seq<Arg>, k: nat)
    requires k < |args| && args[k].key != RefreshKey
    requires ApplyBatch(files, host, args[..k]).reply.Success?
    requires ApplyEntry(ApplyBatch(files, host, args[..k]).files, host, args[k].key, args[k].code).Err?
    ensures var before := ApplyBatch(files, host, args[..k]).files;
      ApplyBatch(files, host, args) ==
        Outcome(before, HelperError(ApplyEntry(before, host, args[k].key, args[k].code).error))
  {
    assert args == args[..k] + args[k..];
    BatchConcat(files, host, args[..k], args[k..]);
    assert args[k..][0] == args[k];
  }

  /**
   * Conversely, a failed batch failed at one entry `k`: everything before it
   * succeeded, `k` itself failed with the reported failure, and the files
   * are those left by the entries before it.
   */
  lemma {:induction false} FailingEntry(files: Files, host: Host, args: seq<Arg>) returns (k: nat)
    requires ApplyBatch(files, host, args).reply.HelperError?
    ensures k < |args| && args[k].key != RefreshKey
    ensures ApplyBatch(files, host, args[..k]).reply.Success?
    ensures var before := ApplyBatch(files, host, args[..k]).files;
      ApplyEntry(before, host, args[k].key, args[k].code) == Err(ApplyBatch(files, host, args).reply.failure) &&
      ApplyBatch(files, host, args).files == before
    decreases |args|
  {
    assert args != [];
    var rest := args[1..];
    if args[0].key == RefreshKey {
      var j := FailingEntry(files, host, rest);
      k := j + 1;
      assert args[..k] == [args[0]] + rest[..j];
      assert (args[..k])[1..] == rest[..j];
    } else {
      match ApplyEntry(files, host, args[0].key, args[0].code)
      case Err(f) =>
        k := 0;
        assert args[..0] == [];
      case Ok(next) =>
        var j := FailingEntry(next, host, rest);
        k := j + 1;
        assert args[..k] == [args[0]] + rest[..j];
        assert (args[..k])[1..] == rest[..j];
    }
  }

  /** A batch that succeeds applied every entry, so none of them carried a code other than 0 or 2. */
  lemma {:induction false} SuccessMeansValidCodes(files: Files, host: Host, args: seq<Arg>)
    requires ApplyBatch(files, host, args).reply.Success?
    ensures forall i :: 0 <= i < |args| && args[i].key != RefreshKey ==> args[i].code == 0 || args[i].code == 2
    decreases |args|
  {
    if args != [] {
      var rest := args[1..];
      if args[0].key == RefreshKey {
        SuccessMeansValidCodes(files, host, rest);
      } else {
        var next := ApplyEntry(files, host, args[0].key, args[0].code).value;
        SuccessMeansValidCodes(next, host, rest);
      }
      assert forall i :: 1 <= i < |args| ==> args[i] == rest[i - 1];
    }
  }

  /** `args` without the reserved refresh entry, the other entries kept in order. */
  function WithoutRefresh(args: seq<Arg>): (r: seq<Arg>)
    ensures forall i :: 0 <= i < |r| ==> r[i].key != RefreshKey
    ensures forall a :: a in r <==> a in args && a.key != RefreshKey
    ensures |r| <= |args|
  {
    if args == [] then []
    else if args[0].key == RefreshKey then WithoutRefresh(args[1..])
    else [args[0]] + WithoutRefresh(args[1..])
  }

  /** A whole batch, successful or not, leaves every file under its resolved path. */
  lemma {:induction false} BatchKeepsCanonical(files: Files, host: Host, args: seq<Arg>)
    requires Canonical(files)
    ensures Canonical(ApplyBatch(files, host, args).files)
    decreases |args|
  {
    if args != [] && args[0].key != RefreshKey {
      ApplyEntryKeepsCanonical(files, host, args[0].key, args[0].code);
      match ApplyEntry(files, host, args[0].key, args[0].code)
      case Err(_) =>
      case Ok(next) => BatchKeepsCanonical(next, host, args[1..]);
    } else if args != [] {
      BatchKeepsCanonical(files, host, args[1..]);
    }
  }

  /** The reserved key is never a file operation: dropping it changes neither the files nor the reply. */
  lemma {:induction false} RefreshKeyIgnored(files: Files, host: Host, args: seq<Arg>)
    ensures ApplyBatch(files, host, args) == ApplyBatch(files, host, WithoutRefresh(args))
    decreases |args|
  {
    if args != [] {
      var rest := args[1..];
      if args[0].key == RefreshKey {
        RefreshKeyIgnored(files, host, rest);
      } else {
        var w := [args[0]] + WithoutRefresh(rest);
        assert w[0] == args[0] && w[1..] == WithoutRefresh(rest);
        match ApplyEntry(files, host, args[0].key, args[0].code)
        case Err(f) =>
        case Ok(next) => RefreshKeyIgnored(next, host, rest);
      }
    }
  }

  /** The resolved targets of the batch's file entries. */
  function Targets(host: Host, args: seq<Arg>): set<Path>
  {
    set i | 0 <= i < |args| && args[i].key != RefreshKey :: Resolve(TargetPath(host.sldDir, args[i].key))
  }

  /** Nothing outside the entries' targets changes, whatever the outcome. */
  lemma {:induction false} BatchFrame(files: Files, host: Host, args: seq<Arg>, p: Path)
    requires p !in Targets(host, args)
    ensures SameAt(files, ApplyBatch(files, host, args).files, p)
    decreases |args|
  {
    if args != [] {
      var rest := args[1..];
      forall q | q in Targets(host, rest)
        ensures q in Targets(host, args)
      {
        var i :| 0 <= i < |rest| && rest[i].key != RefreshKey && q == Resolve(TargetPath(host.sldDir, rest[i].key));
        assert args[i + 1] == rest[i];
      }
      if args[0].key == RefreshKey {
        BatchFrame(files, host, rest, p);
      } else {
        assert Resolve(TargetPath(host.sldDir, args[0].key)) in Targets(host, args);
        match ApplyEntry(files, host, args[0].key, args[0].code)
        case Err(f) =>
        case Ok(next) => BatchFrame(next, host, rest, p);
      }
    }
  }

  /** QApt::TransactionStatus. */
  datatype TransactionStatus =
    | SetupStatus | AuthenticationStatus | WaitingStatus | WaitingLockStatus
    | WaitingMediumStatus | WaitingConfigFilePromptStatus | RunningStatus
    | LoadingCacheStatus | DownloadingStatus | CommittingStatus | FinishedStatus

  /**
   * What one turn of the polling loop sees: the transaction's status, the
   * caller's stop request and whether the transaction can still be cancelled.
   */
  datatype Poll = Poll(status: TransactionStatus, stopRequested: bool, cancellable: bool)

  /**
   * A run of the polling loop: how many turns it took, whether it saw the
   * transaction finish, and the turns at which it called cancel().
   */
  datatype RefreshRun = RefreshRun(turns: nat, finished: bool, cancelCalls: seq<nat>)

  /** A turn at which cancel() may be called. */
  predicate CanCancel(p: Poll)
  {
    p.stopRequested && p.cancellable
  }

  /**
   * `run` is what the loop does on `polls`: it leaves at the first
   * FinishedStatus (or runs out of observations), calls cancel() at most
   * once, only on a turn with a stop request and a cancellable
   * transaction, and not later than the first such turn.
   */
  predicate IsRunOf(polls: seq<Poll>, run: RefreshRun)
  {
    && run.turns <= |polls|
    && (forall j :: 0 <= j < run.turns ==> polls[j].status != FinishedStatus)
    && (run.finished <==> run.turns < |polls|)
    && (run.finished ==> polls[run.turns].status == FinishedStatus)
    && |run.cancelCalls| <= 1
    && (forall k :: k in run.cancelCalls ==> k < run.turns && CanCancel(polls[k]))
    && (forall j :: 0 <= j < run.turns && CanCancel(polls[j]) ==> run.cancelCalls != [] && run.cancelCalls[0] <= j)
  }

  /** IsRunOf leaves no freedom: one sequence of observations has one run. */
  lemma RunIsDetermined(polls: seq<Poll>, r1: RefreshRun, r2: RefreshRun)
    requires IsRunOf(polls, r1) && IsRunOf(polls, r2)
    ensures r1 == r2
  {
    if r1.cancelCalls != [] {
      assert r1.cancelCalls[0] in r1.cancelCalls;
    }
    if r2.cancelCalls != [] {
      assert r2.cancelCalls[0] in r2.cancelCalls;
    }
  }

  /** The progress payload sent for a status change: only FinishedStatus produces one. */
  datatype StatusPayload = StatusPayload(status: TransactionStatus, statusDetails: string)

  /**
   * Helper::statusChanged. `signalled` is the status carried by the
   * signal; `current` and `details` are what the transaction reports when
   * it is asked.
   */
  function StatusChanged(signalled: TransactionStatus, current: TransactionStatus, details: string): (r: Option<StatusPayload>)
    ensures r.Some? <==> signalled == FinishedStatus
    ensures r.Some? ==> r.value.status == current && r.value.statusDetails == details
  {
    if signalled == FinishedStatus then Some(StatusPayload(current, details)) else None
  }

  /**
   * Helper::save: apply the entries in key order, stopping at the first
   * failure, then, if the reserved key asks for it, start a cache refresh
   * and poll it until it finishes, whatever the outcome of the files.
   */
  method Save(args: seq<Arg>, host: Host, files: Files, polls: seq<Poll>)
    returns (reply: Reply, after: Files, refresh: Option<RefreshRun>)
    requires IsQMap(args)
    requires Canonical(files)
    ensures Outcome(after, reply) == ApplyBatch(files, host, args)
    ensures Canonical(after)
    ensures refresh.Some? <==> RefreshRequested(args)
    ensures refresh.Some? ==> IsRunOf(polls, refresh.value)
  {
    reply := Success;
    after := files;
    var i := 0;
    while i < |args|
      invariant 0 <= i <= |args|
      invariant reply == Success
      invariant ApplyBatch(files, host, args) == ApplyBatch(after, host, args[i..])
    {
      assert args[i..][0] == args[i] && args[i..][1..] == args[i + 1..];
      var key := args[i].key;
      if key == RefreshKey {
        i := i + 1;
        continue;
      }
      var listsFile := TargetPath(host.sldDir, key);
      var target := Resolve(listsFile);
      var result := false;
      var code := args[i].code;
      if code == 0 {
        // disable: remove the installed file
        result := target in after && target !in host.denied;
        if result {
          after := after - {target};
        } else {
          reply := HelperError(RemoveFailed(key, listsFile));
        }
      } else if code == 2 {
        // enable: copy the definition into the sources directory
        var source := Resolve(key);
        result := source in after && target !in after && source !in host.denied && target !in host.denied;
        if result {
          after := after[target := after[source]];
        } else {
          reply := HelperError(CopyFailed(key, listsFile));
        }
      } else {
        reply := HelperError(UnknownCode(key, code));
      }
      if !result {
        break;
      }
      i := i + 1;
    }
    BatchKeepsCanonical(files, host, args);

    if Value(args, RefreshKey) == 2 {
      var run := PollUpdate(polls);
      refresh := Some(run);
    } else {
      refresh := None;
    }
  }

  /**
   * The refresh part of Helper::save: poll the transaction until it reports
   * FinishedStatus, calling cancel() once, at the first turn that sees a
   * stop request while the transaction is cancellable.
   */
  method PollUpdate(polls: seq<Poll>) returns (run: RefreshRun)
    ensures IsRunOf(polls, run)
  {
    var turn := 0;
    var cancelBegun := false;
    var cancelCalls: seq<nat> := [];
    while turn < |polls| && polls[turn].status != FinishedStatus
      invariant 0 <= turn <= |polls|
      invariant forall j :: 0 <= j < turn ==> polls[j].status != FinishedStatus
      invariant cancelBegun <==> cancelCalls != []
      invariant |cancelCalls| <= 1
      invariant cancelCalls != [] ==> cancelCalls[0] < turn
      invariant forall k :: k in cancelCalls ==> k < turn && CanCancel(polls[k])
      invariant forall j :: 0 <= j < turn && CanCancel(polls[j]) ==> cancelCalls != [] && cancelCalls[0] <= j
    {
      if !cancelBegun && polls[turn].stopRequested {
        if polls[turn].cancellable {
          cancelCalls := cancelCalls + [turn];
          cancelBegun := true;
        }
      }
      turn := turn + 1;
    }
    run := RefreshRun(turn, turn < |polls|, cancelCalls);
  }
}
