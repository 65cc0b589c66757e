/** `DownloadServices`: a list of download tasks, started a few at a time,
    each resuming into a temporary file, validated on completion and
    retried a bounded number of times. The frame loop and the web request
    are driven from outside: `Frame` is one resumption of `RunTask`'s loop,
    `Poll` one progress update, `OnRequestDone` the end of a request and
    `Resume` the end of a retry delay. */
module Downloads {
  import opened Wrappers
  import opened Strings
  import opened Collections
  import Handles

  /** `DownloadStatus`. */
  datatype Status = Pending | Processing | Finish | Retry

  /** A file on disk: its length and the digests `AssetUtility` computes
      from its content. */
  datatype Blob = Blob(size: nat, crc32: string, md5: string)

  /** A web request: its URL, its `Range` header, if set, and whether it
      was aborted. */
  datatype Request = Request(url: string, range: Option<string>, aborted: bool)

  /** The part of a task that starting it sets: status, request and the
      two byte offsets. */
  datatype Progress = Progress(status: Status, request: Option<Request>, beginBytes: nat, downloadBytes: nat)

  /** `q` follows `p` through a round of starts: either nothing changed,
      or a pending task took the progress `launch` of its start. */
  predicate StartsOrStays(p: Progress, q: Progress, launch: Progress) {
    q == p || (p.status == Pending && q == launch)
  }

  /** `TempLocalPath`: where a download is written before it is
      validated. */
  function TempPath(localPath: string): string {
    localPath + ".temp"
  }

  /** The temporary file is never the destination itself, and is the
      destination with `.temp` appended. */
  lemma TempPathDiffers(localPath: string)
    ensures TempPath(localPath) != localPath
    ensures EndsWith(TempPath(localPath), ".temp") && TempPath(localPath)[..|localPath|] == localPath
  {
    assert |TempPath(localPath)| == |localPath| + 5;
  }

  /** The `Range` header of a request resuming at byte `begin`: none when
      starting from the beginning. */
  function RangeHeader(begin: nat): Option<string> {
    if begin > 0 then Some("bytes=" + NatToString(begin) + "-") else None
  }

  /** The header names exactly the resume offset: reading the digits
      between `bytes=` and `-` gives `begin` back. */
  lemma RangeHeaderRoundTrip(begin: nat)
    requires begin > 0
    ensures var h := RangeHeader(begin).value;
      StartsWith(h, "bytes=") && EndsWith(h, "-") &&
      (forall i :: 6 <= i < |h| - 1 ==> '0' <= h[i] <= '9') &&
      DecimalValue(h[6..|h| - 1]) == begin
  {
    var h := RangeHeader(begin).value;
    assert h[6..|h| - 1] == NatToString(begin);
    NatToStringRoundTrip(begin);
  }

  /** The first pending position, or -1. */
  function FirstPending(ss: seq<Status>): (i: int)
    ensures -1 <= i < |ss|
    ensures i >= 0 ==> ss[i] == Pending
    ensures forall j :: 0 <= j < |ss| && (i < 0 || j < i) ==> ss[j] != Pending
  {
    if ss == [] then -1
    else if ss[0] == Pending then 0
    else
      var k := FirstPending(ss[1..]);
      assert forall j :: 1 <= j < |ss| ==> ss[j] == ss[1..][j - 1];
      if k < 0 then -1 else k + 1
  }

  /** The number of pending tasks. */
  function CountPending(ss: seq<Status>): nat {
    if ss == [] then 0 else (if ss[0] == Pending then 1 else 0) + CountPending(ss[1..])
  }

  /** Marking a pending task as processing leaves one pending task less. */
  lemma {:induction false} CountPendingMark(ss: seq<Status>, i: nat)
    requires i < |ss| && ss[i] == Pending
    ensures CountPending(ss[i := Processing]) == CountPending(ss) - 1
  {
    if i > 0 {
      assert ss[i := Processing][1..] == ss[1..][i - 1 := Processing];
      CountPendingMark(ss[1..], i - 1);
    }
  }

  /** Without a pending position, nothing is pending. */
  lemma {:induction false} NoPendingCount(ss: seq<Status>)
    requires FirstPending(ss) < 0
    ensures CountPending(ss) == 0
  {
    if ss != [] {
      assert forall j :: 0 <= j < |ss[1..]| ==> ss[1..][j] == ss[j + 1];
      NoPendingCount(ss[1..]);
    }
  }

  /** The statuses after `RunTask`'s inner loop with room for `n` more
      downloads: the first pending task, in list order, starts, then the
      next, until `n` have started or none is pending. */
  function Dispatched(ss: seq<Status>, n: nat): (r: seq<Status>)
    ensures |r| == |ss|
    decreases n
  {
    if n == 0 then ss
    else
      var i := FirstPending(ss);
      if i < 0 then ss else Dispatched(ss[i := Processing], n - 1)
  }

  function Min(a: int, b: int): int {
    if a <= b then a else b
  }

  /** `n` tasks start, or all pending ones when fewer are pending. */
  lemma {:induction false} DispatchedCount(ss: seq<Status>, n: nat)
    ensures CountPending(Dispatched(ss, n)) == CountPending(ss) - Min(n, CountPending(ss))
    decreases n
  {
    if n > 0 {
      var i := FirstPending(ss);
      if i < 0 {
        NoPendingCount(ss);
      } else {
        CountPendingMark(ss, i);
        DispatchedCount(ss[i := Processing], n - 1);
      }
    }
  }

  /** The only change is a pending task that starts processing. */
  lemma {:induction false} DispatchedOnlyStarts(ss: seq<Status>, n: nat, j: nat)
    requires j < |ss|
    ensures Dispatched(ss, n)[j] == ss[j] || (ss[j] == Pending && Dispatched(ss, n)[j] == Processing)
    decreases n
  {
    if n > 0 {
      var i := FirstPending(ss);
      if i >= 0 {
        DispatchedOnlyStarts(ss[i := Processing], n - 1, j);
      }
    }
  }

  /** Tasks start in list order: a task that starts was preceded only by
      pending tasks that start too. */
  lemma {:induction false} DispatchedInOrder(ss: seq<Status>, n: nat, i: nat, j: nat)
    requires i < j < |ss| && ss[i] == Pending && ss[j] == Pending
    requires Dispatched(ss, n)[j] == Processing
    ensures Dispatched(ss, n)[i] == Processing
    decreases n
  {
    var k := FirstPending(ss);
    if n > 0 && k >= 0 {
      var ss' := ss[k := Processing];
      if k == i {
        DispatchedOnlyStarts(ss', n - 1, i);
      } else {
        DispatchedInOrder(ss', n - 1, i, j);
      }
    }
  }

  /** The room left under the cap. */
  function Budget(count: int, max: int): nat {
    if count < max then max - count else 0
  }

  /** The tasks that survive the sweep of `RunTask`'s loop: those that are
      not finished, in order. */
  function Kept<T>(ts: seq<T>, ss: seq<Status>): (r: seq<T>)
    requires |ts| == |ss|
    ensures |r| <= |ts|
  {
    if ts == [] then []
    else (if ss[0] == Finish then [] else [ts[0]]) + Kept(ts[1..], ss[1..])
  }

  /** Every kept task was in the list, and every unfinished one is kept. */
  lemma {:induction false} KeptMembers<T>(ts: seq<T>, ss: seq<Status>)
    requires |ts| == |ss|
    ensures forall x :: x in Kept(ts, ss) ==> x in ts
    ensures forall k :: 0 <= k < |ts| && ss[k] != Finish ==> ts[k] in Kept(ts, ss)
  {
    if ts != [] {
      KeptMembers(ts[1..], ss[1..]);
      assert forall k :: 1 <= k < |ts| ==> ts[k] == ts[1..][k - 1] && ss[k] == ss[1..][k - 1];
    }
  }

  /** The number of finished tasks. */
  function CountFinished(ss: seq<Status>): nat {
    if ss == [] then 0 else (if ss[0] == Finish then 1 else 0) + CountFinished(ss[1..])
  }

  /** Exactly the finished tasks are dropped, and each is counted. */
  lemma {:induction false} KeptDropsFinished<T>(ts: seq<T>, ss: seq<Status>)
    requires |ts| == |ss|
    ensures |Kept(ts, ss)| == |ts| - CountFinished(ss)
    ensures forall j :: 0 <= j < |Kept(ts, ss)| ==>
      exists k :: 0 <= k < |ts| && ts[k] == Kept(ts, ss)[j] && ss[k] != Finish
  {
    if ts != [] {
      KeptDropsFinished(ts[1..], ss[1..]);
      var r := Kept(ts, ss);
      var rest := Kept(ts[1..], ss[1..]);
      forall j | 0 <= j < |r| ensures exists k :: 0 <= k < |ts| && ts[k] == r[j] && ss[k] != Finish {
        if ss[0] != Finish && j == 0 {
          assert ts[0] == r[j];
        } else {
          var j' := if ss[0] == Finish then j else j - 1;
          assert r[j] == rest[j'];
          var k' :| 0 <= k' < |ts[1..]| && ts[1..][k'] == rest[j'] && ss[1..][k'] != Finish;
          assert ts[k' + 1] == r[j] && ss[k' + 1] != Finish;
        }
      }
    }
  }

  /** Keeping a subsequence keeps the keys distinct. */
  lemma {:induction false} KeptDistinct<T>(ts: seq<T>, ss: seq<Status>)
    requires |ts| == |ss| && Distinct(ts)
    ensures Distinct(Kept(ts, ss))
  {
    if ts != [] {
      assert Distinct(ts[1..]) by {
        forall i, j | 0 <= i < j < |ts[1..]| ensures ts[1..][i] != ts[1..][j] {
          assert ts[1..][i] == ts[i + 1] && ts[1..][j] == ts[j + 1];
        }
      }
      KeptDistinct(ts[1..], ss[1..]);
      KeptMembers(ts[1..], ss[1..]);
      assert ts[0] !in ts[1..] by {
        forall k | 0 <= k < |ts[1..]| ensures ts[1..][k] != ts[0] {
          assert ts[1..][k] == ts[k + 1];
        }
      }
    }
  }

  /** How many times `ExecTask` runs for a task whose every run fails
      validation, from `retry` retries so far with the cap `maxRetry`:
      `DelayAndRetry` runs it again while `++Retry < MaxRetry`. */
  function Runs(retry: int, maxRetry: int): nat
    decreases maxRetry - retry
  {
    if retry + 1 < maxRetry then 1 + Runs(retry + 1, maxRetry) else 1
  }

  /** With `r` retries done and a cap above it, the task runs `maxRetry - r`
      more times; with the default cap of 5, five times in all. */
  lemma {:induction false} RunsCount(r: int, maxRetry: int)
    requires r < maxRetry
    ensures Runs(r, maxRetry) == maxRetry - r
    decreases maxRetry - r
  {
    if r + 1 < maxRetry {
      RunsCount(r + 1, maxRetry);
    }
  }

  /** A task. Its URL and local path never change after creation. */
  class DownloadTask {
    const url: string
    const localPath: string
    var status: Status
    var request: Option<Request>
    var beginBytes: nat
    var downloadBytes: nat
    var totalBytes: nat
    var maxRetry: int
    var retry: int
    var md5: string
    var crc32: string
    var success: bool
    /** `_complete`'s invocation list, as handler identities. */
    var handlers: seq<nat>
    /** Every handler invocation so far, in order. */
    var invoked: seq<nat>
    /** The completion source: `None` until `WaitCompleted`, then whether
        it has completed. */
    var source: Option<bool>
    /** A `DelayAndRetry` is waiting to run `ExecTask` again. */
    var delayed: bool

    /** The fields other than the progress as a new task has them: no
        size, hashes or handlers yet, five retries left and no source. */
    predicate Unstarted()
      reads this`totalBytes, this`maxRetry, this`retry, this`md5, this`crc32
      reads this`success, this`delayed, this`handlers, this`invoked, this`source
    {
      totalBytes == 0 && maxRetry == 5 && retry == 0 && md5 == "" && crc32 == "" &&
      !success && !delayed && handlers == [] && invoked == [] && source == None
    }

    /** The initializer of `DownloadFile`: pending, with five tries. A
        `null` digest is modelled as "", which `IsNullOrEmpty` treats
        alike. */
    constructor(url: string, localPath: string)
      ensures this.url == url && this.localPath == localPath
      ensures status == Pending && request == None && !success && !delayed
      ensures beginBytes == 0 && downloadBytes == 0 && totalBytes == 0
      ensures maxRetry == 5 && retry == 0 && md5 == "" && crc32 == ""
      ensures handlers == [] && invoked == [] && source == None
    {
      this.url := url;
      this.localPath := localPath;
      status := Pending;
      request := None;
      beginBytes, downloadBytes, totalBytes := 0, 0, 0;
      maxRetry, retry := 5, 0;
      md5, crc32 := "", "";
      success := false;
      handlers, invoked := [], [];
      source := None;
      delayed := false;
    }

    /** The part of the task that starting it sets. */
    function Snapshot(): Progress
      reads this
    {
      Progress(status, request, beginBytes, downloadBytes)
    }

    /** `Completed +=`: a finished task calls the handler at once, any
        other keeps it for completion; `null` is ignored. */
    method Subscribe(h: Option<nat>)
      modifies this`handlers, this`invoked
      ensures status == old(status) && source == old(source)
      ensures old(status) == Finish ==> handlers == old(handlers) && invoked == old(invoked) + (if h.Some? then [h.value] else [])
      ensures old(status) != Finish ==> invoked == old(invoked) && handlers == old(handlers) + (if h.Some? then [h.value] else [])
    {
      if status == Finish {
        if h.Some? {
          invoked := invoked + [h.value];
        }
      } else if h.Some? {
        handlers := handlers + [h.value];
      }
    }

    /** `Completed -=`: removes the last registration of the handler. */
    method Unsubscribe(h: Option<nat>)
      modifies this`handlers
      ensures h.None? ==> handlers == old(handlers)
      ensures h.Some? ==> handlers == RemoveLast(old(handlers), h.value)
      ensures invoked == old(invoked) && status == old(status)
    {
      if h.Some? {
        handlers := RemoveLast(handlers, h.value);
      }
    }

    /** `Abort`: aborts the request, if any, and finishes the task without
        calling its handlers. */
    method Abort()
      modifies this`request, this`status
      ensures status == Finish && invoked == old(invoked) && handlers == old(handlers)
      ensures request == if old(request).Some? then Some(old(request).value.(aborted := true)) else None
    {
      if request.Some? {
        request := Some(request.value.(aborted := true));
      }
      status := Finish;
    }

    /** `SetTotalBytes`. */
    method SetTotalBytes(size: nat)
      modifies this`totalBytes
      ensures totalBytes == size % Handles.ULongModulus && status == old(status)
    {
      totalBytes := size % Handles.ULongModulus;
    }

    /** `SetMD5`. */
    method SetMD5(md5: string)
      modifies this`md5
      ensures this.md5 == md5 && status == old(status)
    {
      this.md5 := md5;
    }

    /** `SetCrc32`. */
    method SetCrc32(crc32: string)
      modifies this`crc32
      ensures this.crc32 == crc32 && status == old(status)
    {
      this.crc32 := crc32;
    }

    /** `TempLocalPath`. */
    function TempLocalPath(): string {
      TempPath(localPath)
    }

    /** `WaitCompleted`: creates the completion source on first use and
        answers whether it has completed. A source first created after
        completion is never completed. */
    method WaitCompleted() returns (done: bool)
      modifies this`source
      ensures source.Some? && done == source.value
      ensures old(source).Some? ==> source == old(source)
      ensures old(source).None? ==> !done
      ensures status == old(status) && invoked == old(invoked)
    {
      if source.None? {
        source := Some(false);
      }
      done := source.value;
    }

    /** `SetCompleted`: finishes the task and calls every registered
        handler, in registration order, without unregistering any; an
        existing completion source completes. */
    method SetCompleted()
      modifies this`status, this`invoked, this`source
      ensures status == Finish
      ensures invoked == old(invoked) + old(handlers) && handlers == old(handlers)
      ensures source == if old(source).Some? then Some(true) else None
      ensures request == old(request) && success == old(success) && delayed == old(delayed)
      ensures retry == old(retry) && maxRetry == old(maxRetry)
    {
      status := Finish;
      invoked := invoked + handlers;
      if source.Some? {
        source := Some(true);
      }
    }
  }

  /** The (url, local path) pairs of the tasks. */
  function Keys(ts: seq<DownloadTask>): (r: seq<(string, string)>)
    ensures |r| == |ts|
    ensures forall i {:trigger r[i]} :: 0 <= i < |ts| ==> r[i] == (ts[i].url, ts[i].localPath)
  {
    seq(|ts|, i requires 0 <= i < |ts| => (ts[i].url, ts[i].localPath))
  }

  /** Distinct keys make distinct tasks. */
  lemma KeysDistinctTasks(ts: seq<DownloadTask>)
    requires Distinct(Keys(ts))
    ensures Distinct(ts)
  {
    forall i, j | 0 <= i < j < |ts| ensures ts[i] != ts[j] {
      assert Keys(ts)[i] != Keys(ts)[j];
    }
  }

  /** The position of the task with the key, or -1: `List.Find`. */
  function FindTask(ts: seq<DownloadTask>, url: string, localPath: string): (i: int)
    ensures -1 <= i < |ts|
    ensures i >= 0 ==> ts[i].url == url && ts[i].localPath == localPath
    ensures i < 0 ==> (url, localPath) !in Keys(ts)
  {
    if ts == [] then -1
    else if ts[0].url == url && ts[0].localPath == localPath then 0
    else
      var k := FindTask(ts[1..], url, localPath);
      assert forall j :: 1 <= j < |ts| ==> Keys(ts)[j] == Keys(ts[1..])[j - 1];
      if k < 0 then -1 else k + 1
  }

  /** A new key keeps the keys distinct. */
  lemma KeysSnoc(ts: seq<DownloadTask>, t: DownloadTask)
    requires Distinct(Keys(ts)) && (t.url, t.localPath) !in Keys(ts)
    ensures Distinct(Keys(ts + [t]))
  {
    assert Keys(ts + [t]) == Keys(ts) + [(t.url, t.localPath)];
    DistinctSnoc(Keys(ts), (t.url, t.localPath));
  }

  /** The sweep keeps the keys distinct. */
  lemma KeptKeys(ts: seq<DownloadTask>, ss: seq<Status>)
    requires |ts| == |ss|
    ensures Keys(Kept(ts, ss)) == Kept(Keys(ts), ss)
    decreases |ts|
  {
    if ts != [] {
      KeptKeys(ts[1..], ss[1..]);
      assert Keys(ts)[1..] == Keys(ts[1..]);
    }
  }

  /** The statuses of the tasks, in list order. */
  ghost function Statuses(ts: seq<DownloadTask>): (r: seq<Status>)
    reads ts
    ensures |r| == |ts|
    ensures forall i {:trigger r[i]} :: 0 <= i < |ts| ==> r[i] == ts[i].status
  {
    seq(|ts|, i requires 0 <= i < |ts| reads ts => ts[i].status)
  }

  /** Each task's `Progress`, in list order. */
  ghost function Progresses(ts: seq<DownloadTask>): (r: seq<Progress>)
    reads ts
    ensures |r| == |ts|
    ensures forall i {:trigger r[i]} :: 0 <= i < |ts| ==> r[i] == ts[i].Snapshot()
  {
    seq(|ts|, i requires 0 <= i < |ts| reads ts => ts[i].Snapshot())
  }

  /** The statuses within `ps`, in order. */
  function StatusesOf(ps: seq<Progress>): (r: seq<Status>)
    ensures |r| == |ps|
    ensures forall i {:trigger r[i]} :: 0 <= i < |ps| ==> r[i] == ps[i].status
  {
    seq(|ps|, i requires 0 <= i < |ps| => ps[i].status)
  }

  /** Position by position, `q` follows `p` through a round of starts,
      each task that starts taking its progress from `launches`. */
  predicate StartedFrom(p: seq<Progress>, q: seq<Progress>, launches: seq<Progress>) {
    |p| == |q| == |launches| && forall k {:trigger StartsOrStays(p[k], q[k], launches[k])} :: 0 <= k < |p| ==> StartsOrStays(p[k], q[k], launches[k])
  }

  /** No start at all is a round of starts. */
  lemma StartedFromSelf(p: seq<Progress>, launches: seq<Progress>)
    requires |p| == |launches|
    ensures StartedFrom(p, p, launches)
  {
  }

  /** The progress after `RunTask`'s inner loop with room for `n` more
      downloads: as `Dispatched`, each task that starts taking its
      progress from `launches`. */
  function DispatchedFrom(ps: seq<Progress>, n: nat, launches: seq<Progress>): (r: seq<Progress>)
    requires |launches| == |ps|
    ensures |r| == |ps|
    decreases n
  {
    if n == 0 then ps
    else
      var i := FirstPending(StatusesOf(ps));
      if i < 0 then ps else DispatchedFrom(ps[i := launches[i]], n - 1, launches)
  }

  /** The inner loop on progress agrees with `Dispatched` on statuses, and
      is a round of starts. */
  lemma {:induction false} DispatchedFromMeaning(ps: seq<Progress>, n: nat, launches: seq<Progress>)
    requires |launches| == |ps|
    requires forall k :: 0 <= k < |launches| ==> launches[k].status == Processing
    ensures StatusesOf(DispatchedFrom(ps, n, launches)) == Dispatched(StatusesOf(ps), n)
    ensures StartedFrom(ps, DispatchedFrom(ps, n, launches), launches)
    decreases n
  {
    var i := FirstPending(StatusesOf(ps));
    if n == 0 || i < 0 {
      StartedFromSelf(ps, launches);
    } else {
      var next := ps[i := launches[i]];
      assert StatusesOf(next) == StatusesOf(ps)[i := Processing];
      DispatchedFromMeaning(next, n - 1, launches);
      assert StartedFrom(ps, next, launches);
      StartedFromTrans(ps, next, DispatchedFrom(next, n - 1, launches), launches);
    }
  }

  /** Two rounds of starts make one: a task that started in the first
      keeps its launch progress through the second. */
  lemma StartedFromTrans(p: seq<Progress>, q: seq<Progress>, r: seq<Progress>, launches: seq<Progress>)
    requires StartedFrom(p, q, launches) && StartedFrom(q, r, launches)
    ensures StartedFrom(p, r, launches)
  {
    forall k | 0 <= k < |p|
      ensures StartsOrStays(p[k], r[k], launches[k])
    {
      assert StartsOrStays(p[k], q[k], launches[k]) && StartsOrStays(q[k], r[k], launches[k]);
    }
  }

  /** The resume offset with the files `files`: the temporary file's
      length, 0 without one. */
  function BeginIn(files: map<string, Blob>, localPath: string): nat {
    if TempPath(localPath) in files then files[TempPath(localPath)].size else 0
  }

  /** The progress `ExecTask` gives `t` when it starts it with the files
      `files`: processing, resuming after the bytes already in its
      temporary file, with a new request for its URL. */
  function LaunchIn(files: map<string, Blob>, t: DownloadTask): Progress {
    var begin := BeginIn(files, t.localPath);
    Progress(Processing, Some(Request(t.url, RangeHeader(begin), false)), begin, 0)
  }

  /** `LaunchIn` for each task, in list order. */
  ghost function Launches(files: map<string, Blob>, ts: seq<DownloadTask>): (r: seq<Progress>)
    ensures |r| == |ts|
    ensures forall i {:trigger r[i]} :: 0 <= i < |ts| ==> r[i] == LaunchIn(files, ts[i])
  {
    seq(|ts|, i requires 0 <= i < |ts| => LaunchIn(files, ts[i]))
  }

  /** Statuses are read in the same heap through a subsequence. */
  lemma KeptStatuses(ts: seq<DownloadTask>, ss: seq<Status>)
    requires ss == Statuses(ts)
    ensures Statuses(Kept(ts, ss)) == Kept(ss, ss)
    decreases |ts|
  {
    if ts != [] {
      KeptStatuses(ts[1..], ss[1..]);
    }
  }

  /** Without a pending task, or without room, nothing starts. */
  lemma DispatchedNone(ss: seq<Status>, n: nat)
    requires FirstPending(ss) < 0 || n == 0
    ensures Dispatched(ss, n) == ss
  {
  }

  /** What `ValidFile` answers for the temporary file `b` (`None` when it
      does not exist) and the expected size and digests; an empty digest
      is not checked. */
  function Verdict(b: Option<Blob>, total: nat, crc: string, md5: string): Result<bool> {
    if total > 0 && b.None? then Err(FileNotFound)
    else if total > 0 && b.value.size != total then Ok(false)
    else if crc != "" && crc != CrcOf(b) then Ok(false)
    else if md5 != "" && md5 != Md5Of(b) then Ok(false)
    else Ok(true)
  }

  /** `GetFileCRC32`: "" for a missing file. */
  function CrcOf(b: Option<Blob>): string {
    if b.Some? then b.value.crc32 else ""
  }

  /** `GetFileMD5`: "" for a missing file. */
  function Md5Of(b: Option<Blob>): string {
    if b.Some? then b.value.md5 else ""
  }

  /** Whether `ValidFile` deletes the temporary file: when it is longer
      than expected, or when a digest does not match. */
  predicate DeletesTemp(b: Option<Blob>, total: nat, crc: string, md5: string) {
    if total > 0 && (b.None? || b.value.size != total) then b.Some? && b.value.size > total
    else (crc != "" && crc != CrcOf(b)) || (md5 != "" && md5 != Md5Of(b))
  }

  /** A file passes exactly when it matches every expectation that is set,
      and the check throws only when a size is expected of a missing
      file. */
  lemma VerdictMeaning(b: Option<Blob>, total: nat, crc: string, md5: string)
    ensures Verdict(b, total, crc, md5).Err? <==> total > 0 && b.None?
    ensures Verdict(b, total, crc, md5) == Ok(true) <==>
      (total == 0 || (b.Some? && b.value.size == total)) &&
      (crc == "" || crc == CrcOf(b)) && (md5 == "" || md5 == Md5Of(b))
  {
  }

  /** The temporary file is deleted only when it fails, and a file shorter
      than expected is kept so that the next try resumes it. */
  lemma DeletesOnlyFailing(b: Option<Blob>, total: nat, crc: string, md5: string)
    ensures DeletesTemp(b, total, crc, md5) ==> Verdict(b, total, crc, md5) == Ok(false)
    ensures b.Some? && 0 < total && b.value.size < total ==>
      !DeletesTemp(b, total, crc, md5) && Verdict(b, total, crc, md5) == Ok(false)
  {
  }

  /** What `ProcessTaskCompleted` does next, from the request's result and
      response code. */
  datatype Step = Validate | RetryMore | Drop | Throttle

  function Policy(ok: bool, code: int): Step {
    if ok then Validate
    else if code == 200 then RetryMore
    else if code == 404 then Drop
    else if code == 503 then Throttle
    else Validate
  }

  /** A failed request is validated like a successful one unless its code
      is 200, 404 or 503. */
  lemma PolicyFailures(code: int)
    ensures Policy(false, code) == Validate <==> code != 200 && code != 404 && code != 503
    ensures Policy(true, code) == Validate
  {
  }

  /** `RunTask`'s guard lets a loop start when none runs, or when every
      task is still pending. */
  predicate Enters(running: bool, ss: seq<Status>) {
    !running || forall k :: 0 <= k < |ss| ==> ss[k] == Pending
  }

  function Max(a: int, b: int): int {
    if a >= b then a else b
  }

  /** One start of `RunTask`'s inner loop: the first pending task starts and
      there is one fewer pending and one less room. */
  lemma DispatchStep(ss: seq<Status>, i: nat, b: nat)
    requires b > 0 && i < |ss| && FirstPending(ss) == i
    ensures Dispatched(ss, b) == Dispatched(ss[i := Processing], b - 1)
    ensures CountPending(ss[i := Processing]) == CountPending(ss) - 1
    ensures Min(b - 1, CountPending(ss[i := Processing])) == Min(b, CountPending(ss)) - 1
  {
    CountPendingMark(ss, i);
  }

  /** One position of the sweep: the task at `i` is kept unless finished. */
  lemma KeptStep<T>(ts: seq<T>, ss: seq<Status>, i: nat)
    requires |ts| == |ss| && i < |ts|
    ensures Kept(ts[i..], ss[i..]) == (if ss[i] == Finish then [] else [ts[i]]) + Kept(ts[i + 1..], ss[i + 1..])
    ensures CountFinished(ss[i..]) == (if ss[i] == Finish then 1 else 0) + CountFinished(ss[i + 1..])
  {
    assert ts[i..][1..] == ts[i + 1..] && ss[i..][1..] == ss[i + 1..];
  }

  /** The backwards loop of the sweep: removes each finished task, from the
      last to the first, and counts the removals. */
  method Unfinished(ts: seq<DownloadTask>) returns (kept: seq<DownloadTask>, removed: nat)
    ensures kept == Kept(ts, Statuses(ts))
    ensures removed == CountFinished(Statuses(ts))
  {
    ghost var ss := Statuses(ts);
    kept := ts;
    removed := 0;
    var i := |ts|;
    while i > 0
      invariant 0 <= i <= |ts|
      invariant kept == ts[..i] + Kept(ts[i..], ss[i..])
      invariant removed == CountFinished(ss[i..])
    {
      i := i - 1;
      KeptStep(ts, ss, i);
      ghost var rest := Kept(ts[i + 1..], ss[i + 1..]);
      assert kept == ts[..i] + [ts[i]] + rest by {
        assert ts[..i + 1] == ts[..i] + [ts[i]];
      }
      if ts[i].status == Finish {
        removed := removed + 1;
        kept := kept[..i] + kept[i + 1..];
        assert kept == ts[..i] + rest;
      }
    }
    assert ts[0..] == ts && ss[0..] == ss;
  }

  /** The statuses `sts` and count `dc` after a turn of `RunTask`'s loop
      that found statuses `ss` and count `dc0`: the sweep, then a new
      round of starts with the room left. */
  ghost predicate Resumed(ss: seq<Status>, dc0: int, sts: seq<Status>, dc: int, max: int) {
    var b := Budget(dc0 - CountFinished(ss), max);
    sts == Dispatched(Kept(ss, ss), b) &&
    dc == dc0 - CountFinished(ss) + Min(b, CountPending(Kept(ss, ss)))
  }

  /** `Resumed` from the sweep's and the starts' results, one after the
      other. */
  lemma ResumedIntro(ss: seq<Status>, dc0: int, ks: seq<Status>, dc1: int, sts: seq<Status>, dc: int, max: int)
    requires ks == Kept(ss, ss) && dc1 == dc0 - CountFinished(ss)
    requires sts == Dispatched(ks, Budget(dc1, max)) && dc == dc1 + Min(Budget(dc1, max), CountPending(ks))
    ensures Resumed(ss, dc0, sts, dc, max)
  {
  }

  /** A turn starts downloads only while under the cap: the count it
      leaves is at most the cap, unless the sweep left it above. */
  lemma ResumedCap(ss: seq<Status>, dc0: int, sts: seq<Status>, dc: int, max: int)
    requires Resumed(ss, dc0, sts, dc, max)
    ensures dc <= max || dc == dc0 - CountFinished(ss)
    ensures dc >= dc0 - CountFinished(ss)
  {
  }

  /** The service: the task list, the number of running downloads, the
      concurrency cap, whether a `RunTask` loop runs, how many such loops
      wait for their next frame, and the file system as the downloads see
      it. */
  class DownloadServices {
    var tasks: seq<DownloadTask>
    var downloadCount: int
    var maxDownload: int
    var running: bool
    var loops: nat
    var files: map<string, Blob>

    /** One task per (url, local path), and a cap of at least two. */
    ghost predicate Valid()
      reads this
    {
      Distinct(Keys(tasks)) && maxDownload >= 2
    }

    constructor(files: map<string, Blob>)
      ensures Valid() && tasks == [] && downloadCount == 0 && maxDownload == 3
      ensures !running && loops == 0 && this.files == files
    {
      tasks := [];
      downloadCount := 0;
      maxDownload := 3;
      running := false;
      loops := 0;
      this.files := files;
    }

    /** `DownloadFile`: the task of the pair when there is one, otherwise a
        new pending task appended to the list; then `RunTask` on the list's
        progress `joined` at that point: when no loop starts nothing else
        changes, and otherwise the loop hands out the free slots to the
        pending tasks in list order. */
    method DownloadFile(url: string, localPath: string) returns (t: DownloadTask, ghost joined: seq<Progress>)
      requires Valid()
      modifies this`tasks, this`running, this`loops, this`downloadCount, tasks`status, tasks`request, tasks`beginBytes, tasks`downloadBytes
      ensures joined == if (url, localPath) in old(Keys(tasks)) then old(Progresses(tasks))
                        else old(Progresses(tasks)) + [Progress(Pending, None, 0, 0)]
      ensures Valid() && t.url == url && t.localPath == localPath
      ensures files == old(files) && maxDownload == old(maxDownload)
      ensures (url, localPath) in old(Keys(tasks)) ==> t in old(tasks) && tasks == old(tasks)
      ensures (url, localPath) !in old(Keys(tasks)) ==> fresh(t) && tasks == old(tasks) + [t] && t.Unstarted()
      ensures StartedFrom(joined, Progresses(tasks), Launches(files, tasks))
      ensures RanTask(old(running), old(downloadCount), old(loops), StatusesOf(joined))
    {
      t := TaskFor(url, localPath);
      joined := Progresses(tasks);
      assert StatusesOf(joined) == Statuses(tasks) by {
        assert forall k :: 0 <= k < |tasks| ==> StatusesOf(joined)[k] == Statuses(tasks)[k];
      }
      RunTask();
    }

    /** The first half of `DownloadFile`: the task of the pair when there
        is one, otherwise a new pending task appended to the list. */
    method TaskFor(url: string, localPath: string) returns (t: DownloadTask)
      requires Valid()
      modifies this`tasks
      ensures Valid() && t in tasks && t.url == url && t.localPath == localPath
      ensures (url, localPath) in old(Keys(tasks)) ==> t in old(tasks) && tasks == old(tasks)
      ensures (url, localPath) !in old(Keys(tasks)) ==>
        fresh(t) && tasks == old(tasks) + [t] && t.Snapshot() == Progress(Pending, None, 0, 0)
      ensures Progresses(tasks) == if (url, localPath) in old(Keys(tasks)) then old(Progresses(tasks))
                                   else old(Progresses(tasks)) + [Progress(Pending, None, 0, 0)]
      ensures (url, localPath) !in old(Keys(tasks)) ==>
        t.Unstarted()
      ensures Statuses(tasks) ==
        if (url, localPath) in old(Keys(tasks)) then old(Statuses(tasks)) else old(Statuses(tasks)) + [Pending]
    {
      ghost var ss := Statuses(tasks);
      ghost var ps := Progresses(tasks);
      var i := FindTask(tasks, url, localPath);
      if i < 0 {
        t := new DownloadTask(url, localPath);
        KeysSnoc(tasks, t);
        tasks := tasks + [t];
        ss := ss + [Pending];
        ps := ps + [t.Snapshot()];
      } else {
        t := tasks[i];
        assert Keys(tasks)[i] == (url, localPath);
      }
      assert Statuses(tasks) == ss;
      assert Progresses(tasks) == ps;
    }

    /** `RunTask` up to its first `NextFrame`: returns at once when a loop
        runs and some task is not pending; otherwise a loop starts, which
        stops at once on an empty list and else starts pending tasks up to
        the cap. */
    method RunTask()
      requires Valid()
      modifies this`running, this`loops, this`downloadCount, tasks`status, tasks`request, tasks`beginBytes, tasks`downloadBytes
      ensures StartedFrom(old(Progresses(tasks)), Progresses(tasks), Launches(files, tasks))
      ensures Valid() && tasks == old(tasks) && files == old(files) && maxDownload == old(maxDownload)
      ensures RanTask(old(running), old(downloadCount), old(loops), old(Statuses(tasks)))
    {
      ghost var ss := Statuses(tasks);
      var all := AllPending(tasks);
      assert forall k :: 0 <= k < |tasks| ==> ss[k] == tasks[k].status;
      assert Enters(running, ss) <==> !running || all;
      if running && !all {
        return;
      }
      running := true;
      if |tasks| == 0 {
        running := false;
        return;
      }
      loops := loops + 1;
      Dispatch();
    }

    /** What `RunTask` leaves when it starts from the flag `running0`, the
        count `dc0`, the loop count `loops0` and the statuses `ss`:
        nothing changes when no loop starts; a loop on an empty list stops
        at once; otherwise `running` is set, the loop is counted and the
        free slots go to the pending tasks in list order. */
    ghost predicate RanTask(running0: bool, dc0: int, loops0: nat, ss: seq<Status>)
      reads this, tasks
    {
      if !Enters(running0, ss) then
        Statuses(tasks) == ss && downloadCount == dc0 && running && loops == loops0
      else if tasks == [] then
        !running && loops == loops0 && downloadCount == dc0
      else
        running && loops == loops0 + 1
        && Statuses(tasks) == Dispatched(ss, Budget(dc0, maxDownload))
        && downloadCount == dc0 + Min(Budget(dc0, maxDownload), CountPending(ss))
    }

    /** `Any(v => v.Status != Pending)`, negated. */
    method AllPending(ts: seq<DownloadTask>) returns (r: bool)
      ensures r <==> forall k :: 0 <= k < |ts| ==> ts[k].status == Pending
    {
      var i := 0;
      while i < |ts|
        invariant 0 <= i <= |ts|
        invariant forall k :: 0 <= k < i ==> ts[k].status == Pending
      {
        if ts[i].status != Pending {
          return false;
        }
        i := i + 1;
      }
      return true;
    }

    /** `Find(v => v.Status == Pending)`, as a position. */
    method FindPending(ts: seq<DownloadTask>) returns (i: int)
      ensures i == FirstPending(Statuses(ts))
    {
      ghost var ss := Statuses(ts);
      i := 0;
      while i < |ts|
        invariant 0 <= i <= |ts|
        invariant forall k :: 0 <= k < i ==> ss[k] != Pending
      {
        assert ss[i] == ts[i].status;
        if ts[i].status == Pending {
          return;
        }
        i := i + 1;
      }
      return -1;
    }

    /** The inner loop of `RunTask`: while under the cap, starts the first
        pending task and counts it. */
    method Dispatch()
      requires Valid()
      modifies this`downloadCount, tasks`status, tasks`request, tasks`beginBytes, tasks`downloadBytes
      ensures Statuses(tasks) == Dispatched(old(Statuses(tasks)), Budget(old(downloadCount), maxDownload))
      ensures StartedFrom(old(Progresses(tasks)), Progresses(tasks), Launches(files, tasks))
      ensures downloadCount == old(downloadCount) + Min(Budget(old(downloadCount), maxDownload), CountPending(old(Statuses(tasks))))
    {
      KeysDistinctTasks(tasks);
      downloadCount := StartPending(tasks, downloadCount, maxDownload);
    }

    /** The inner loop of `RunTask` on the tasks `ts` with `count` downloads
        running under the cap `max`: while under the cap, starts the first
        pending task and counts it. */
    method StartPending(ts: seq<DownloadTask>, count: int, max: int) returns (n: int)
      requires Distinct(ts)
      modifies ts`status, ts`request, ts`beginBytes, ts`downloadBytes
      ensures Statuses(ts) == Dispatched(old(Statuses(ts)), Budget(count, max))
      ensures StartedFrom(old(Progresses(ts)), Progresses(ts), Launches(files, ts))
      ensures n == count + Min(Budget(count, max), CountPending(old(Statuses(ts))))
    {
      ghost var ps := Progresses(ts);
      ghost var launches := Launches(files, ts);
      ghost var b := Budget(count, max);
      ghost var goal := DispatchedFrom(ps, b, launches);
      ghost var total := Min(b, CountPending(StatusesOf(ps)));
      ghost var p0 := ps;
      assert StatusesOf(p0) == old(Statuses(ts));
      n := count;
      while n < max
        invariant ps == Progresses(ts) && b == Budget(n, max)
        invariant DispatchedFrom(ps, b, launches) == goal
        invariant n - count + Min(b, CountPending(StatusesOf(ps))) == total
        decreases max - n
      {
        var started;
        ghost var ps';
        started, ps' := StartNext(ts, ps, b, launches);
        ps := ps';
        if !started {
          break;
        }
        b := b - 1;
        n := n + 1;
      }
      assert Progresses(ts) == goal && Launches(files, ts) == launches;
      DispatchedFromMeaning(p0, Budget(count, max), launches);
      assert Statuses(ts) == StatusesOf(goal);
    }

    /** One start of the inner loop: the first pending task, when there is
        one, starts processing. `ps` is the progress before and `ps'`
        after, `b` the room left. */
    method StartNext(ts: seq<DownloadTask>, ghost ps: seq<Progress>, ghost b: nat, ghost launches: seq<Progress>)
        returns (started: bool, ghost ps': seq<Progress>)
      requires Distinct(ts) && ps == Progresses(ts) && launches == Launches(files, ts) && b > 0
      modifies ts`status, ts`request, ts`beginBytes, ts`downloadBytes
      ensures ps' == Progresses(ts)
      ensures started ==> DispatchedFrom(ps', b - 1, launches) == DispatchedFrom(ps, b, launches)
      ensures started ==> CountPending(StatusesOf(ps')) == CountPending(StatusesOf(ps)) - 1
      ensures !started ==> ps' == ps && DispatchedFrom(ps, b, launches) == ps && CountPending(StatusesOf(ps)) == 0
    {
      ghost var ss := StatusesOf(ps);
      assert ss == Statuses(ts);
      var i := FindPending(ts);
      if i < 0 {
        NoPendingCount(ss);
        return false, ps;
      }
      CountPendingMark(ss, i);
      Start(ts, i);
      ps' := Progresses(ts);
      assert StatusesOf(ps') == ss[i := Processing];
      return true, ps';
    }

    /** Starts the task at `i`, leaving the others as they are. */
    method Start(ts: seq<DownloadTask>, i: nat)
      requires i < |ts| && ts[i].status == Pending && Distinct(ts)
      modifies {ts[i]}`request, {ts[i]}`downloadBytes, {ts[i]}`beginBytes, {ts[i]}`status
      ensures Statuses(ts) == old(Statuses(ts))[i := Processing]
      ensures Progresses(ts) == old(Progresses(ts))[i := LaunchOf(ts[i])]
    {
      ExecTask(ts[i]);
      forall k | 0 <= k < |ts| ensures Statuses(ts)[k] == old(Statuses(ts))[i := Processing][k] {
        assert k != i ==> ts[k] != ts[i];
      }
      forall k | 0 <= k < |ts| ensures Progresses(ts)[k] == old(Progresses(ts))[i := LaunchOf(ts[i])][k] {
        assert k != i ==> ts[k] != ts[i];
      }
    }

    /** The resume offset: the temporary file's length, 0 without one. */
    function Begin(localPath: string): nat
      reads this
    {
      BeginIn(files, localPath)
    }

    /** `t` as `ExecTask` leaves a task it starts: processing, resuming
        after the bytes already in its temporary file, with a new request
        for its URL. */
    ghost predicate Launched(t: DownloadTask)
      reads this, t
    {
      t.Snapshot() == LaunchOf(t)
    }

    /** A round of starts over the list is one for each task in it. */
    twostate lemma EachLaunchedOrKept(ts: seq<DownloadTask>)
      requires StartedFrom(old(Progresses(ts)), Progresses(ts), Launches(files, ts))
      ensures forall t | t in ts :: LaunchedOrKept(t)
    {
      forall t | t in ts
        ensures LaunchedOrKept(t)
      {
        var k :| 0 <= k < |ts| && ts[k] == t;
        assert old(Progresses(ts))[k] == old(t.Snapshot()) && Progresses(ts)[k] == t.Snapshot();
        assert Launches(files, ts)[k] == LaunchOf(t);
      }
    }

    /** The progress `ExecTask` gives `t` when it starts it. */
    function LaunchOf(t: DownloadTask): Progress
      reads this
    {
      LaunchIn(files, t)
    }

    /** A task after a round of starts: a pending task that started is
        `Launched`; any other keeps its status, request and offsets. */
    twostate predicate LaunchedOrKept(t: DownloadTask)
      reads this, t
    {
      StartsOrStays(old(t.Snapshot()), t.Snapshot(), LaunchOf(t))
    }

    /** `ExecTask` up to its first `NextFrame`: nothing for a finished
        task; otherwise a request for the URL, resuming after the bytes
        already in the temporary file, with a `Range` header only when
        there are some, and the task processing. */
    method ExecTask(task: DownloadTask)
      modifies task`request, task`downloadBytes, task`beginBytes, task`status
      ensures old(task.status) == Finish ==> task.status == Finish && task.request == old(task.request)
      ensures old(task.status) == Finish ==> task.beginBytes == old(task.beginBytes) && task.downloadBytes == old(task.downloadBytes)
      ensures old(task.status) != Finish ==> Launched(task)
      ensures old(task.status) != Finish ==>
        task.status == Processing && task.beginBytes == Begin(task.localPath) && task.downloadBytes == 0 &&
        task.request == Some(Request(task.url, RangeHeader(task.beginBytes), false))
      ensures task.totalBytes == old(task.totalBytes) && task.retry == old(task.retry) && task.maxRetry == old(task.maxRetry)
      ensures task.handlers == old(task.handlers) && task.invoked == old(task.invoked) && task.source == old(task.source)
      ensures task.success == old(task.success) && task.delayed == old(task.delayed)
    {
      if task.status == Finish {
        return;
      }
      var begin := 0;
      if TempPath(task.localPath) in files {
        begin := files[TempPath(task.localPath)].size;
      }
      task.request := Some(Request(task.url, RangeHeader(begin), false));
      task.downloadBytes := 0;
      task.beginBytes := begin;
      task.status := Processing;
    }

    /** One turn of `RunTask`'s loop after its `NextFrame`: the finished
        tasks leave the list, each lowering the running count, and then
        the loop either stops on an empty list or starts pending tasks
        again. */
    method Frame()
      requires Valid() && loops > 0
      modifies this`tasks, this`running, this`loops, this`downloadCount, tasks`status, tasks`request, tasks`beginBytes, tasks`downloadBytes
      ensures forall t | t in old(tasks) :: LaunchedOrKept(t)
      ensures Valid() && files == old(files) && maxDownload == old(maxDownload)
      ensures tasks == Kept(old(tasks), old(Statuses(tasks)))
      ensures tasks == [] ==> !running && loops == old(loops) - 1
      ensures tasks == [] ==> downloadCount == old(downloadCount) - CountFinished(old(Statuses(tasks)))
      ensures tasks != [] ==> loops == old(loops)
      ensures tasks != [] ==> Resumed(old(Statuses(tasks)), old(downloadCount), Statuses(tasks), downloadCount, maxDownload)
    {
      ghost var ts := tasks;
      ghost var ss := Statuses(ts);
      ghost var dc0 := downloadCount;
      Sweep();
      KeptStatuses(ts, ss);
      ghost var ks := Statuses(tasks);
      ghost var dc := downloadCount;
      assert forall k :: 0 <= k < |tasks| ==> tasks[k] in ts;
      label Swept:
      Continue();
      EachLaunchedOrKept@Swept(tasks);
      forall t | t in ts
        ensures LaunchedOrKept(t)
      {
        if t !in tasks {
          assert t.Snapshot() == old(t.Snapshot());
        }
      }
      if tasks != [] {
        ResumedIntro(ss, dc0, ks, dc, Statuses(tasks), downloadCount, maxDownload);
      }
    }

    /** The rest of a turn after the sweep: stop on an empty list,
        otherwise start pending tasks again. */
    method Continue()
      requires Valid() && loops > 0
      modifies this`running, this`loops, this`downloadCount, tasks`status, tasks`request, tasks`beginBytes, tasks`downloadBytes
      ensures StartedFrom(old(Progresses(tasks)), Progresses(tasks), Launches(files, tasks))
      ensures Valid() && tasks == old(tasks) && files == old(files) && maxDownload == old(maxDownload)
      ensures tasks == [] ==> !running && loops == old(loops) - 1 && downloadCount == old(downloadCount)
      ensures tasks != [] ==> loops == old(loops)
      ensures tasks != [] ==>
        Statuses(tasks) == Dispatched(old(Statuses(tasks)), Budget(old(downloadCount), maxDownload))
      ensures tasks != [] ==>
        downloadCount == old(downloadCount) + Min(Budget(old(downloadCount), maxDownload), CountPending(old(Statuses(tasks))))
    {
      if |tasks| == 0 {
        running := false;
        loops := loops - 1;
      } else {
        Dispatch();
      }
    }

    /** The sweep of `RunTask`'s loop: finished tasks leave the list, each
        lowering the running count. */
    method Sweep()
      requires Valid()
      modifies this`tasks, this`downloadCount
      ensures Valid()
      ensures tasks == Kept(old(tasks), Statuses(old(tasks)))
      ensures downloadCount == old(downloadCount) - CountFinished(Statuses(old(tasks)))
      ensures forall k :: 0 <= k < |tasks| ==> tasks[k] in old(tasks)
    {
      ghost var ts := tasks;
      ghost var ss := Statuses(ts);
      var kept, removed := Unfinished(tasks);
      assert kept == Kept(ts, ss) && removed == CountFinished(ss);
      KeptKeys(ts, ss);
      KeptDistinct(Keys(ts), ss);
      KeptMembers(ts, ss);
      assert Distinct(Keys(kept));
      tasks := kept;
      downloadCount := downloadCount - removed;
      assert Statuses(ts) == ss;
    }
    /** `SetDownloadTotalBytes`: the total is set once, from the
        `Content-Length` header (0 when missing or unreadable) added to the
        resume offset; the downloaded count follows the request's received
        bytes once there are some. `ulong` sums wrap. */
    method Poll(task: DownloadTask, contentLength: int, received: nat)
      requires task.request.Some?
      modifies task`totalBytes, task`downloadBytes
      ensures old(task.totalBytes) == 0 && contentLength > 0 ==>
        task.totalBytes == (task.beginBytes + contentLength) % Handles.ULongModulus
      ensures !(old(task.totalBytes) == 0 && contentLength > 0) ==> task.totalBytes == old(task.totalBytes)
      ensures received > 0 ==> task.downloadBytes == (task.beginBytes + received) % Handles.ULongModulus
      ensures received == 0 ==> task.downloadBytes == old(task.downloadBytes)
      ensures task.status == old(task.status) && task.beginBytes == old(task.beginBytes) && task.request == old(task.request)
    {
      if task.totalBytes == 0 && contentLength > 0 {
        task.totalBytes := (task.beginBytes + contentLength) % Handles.ULongModulus;
      }
      if received > 0 {
        task.downloadBytes := (task.beginBytes + received) % Handles.ULongModulus;
      }
    }

    /** The temporary file of a task, `None` when it does not exist. */
    function TempBlob(task: DownloadTask): Option<Blob>
      reads this
    {
      if TempPath(task.localPath) in files then Some(files[TempPath(task.localPath)]) else None
    }

    /** What `ValidFile` answers for the task now. */
    function VerdictOf(task: DownloadTask): Result<bool>
      reads this, task
    {
      Verdict(TempBlob(task), task.totalBytes, task.crc32, task.md5)
    }

    /** `ValidFile`: the size when one is expected (reading the size of a
        missing file throws), then the CRC32, then the MD5, each when set;
        a longer file or a wrong digest is deleted. */
    method ValidFile(task: DownloadTask) returns (r: Result<bool>)
      modifies this`files
      ensures r == Verdict(old(TempBlob(task)), task.totalBytes, task.crc32, task.md5)
      ensures DeletesTemp(old(TempBlob(task)), task.totalBytes, task.crc32, task.md5) ==>
        files == old(files) - {TempPath(task.localPath)}
      ensures !DeletesTemp(old(TempBlob(task)), task.totalBytes, task.crc32, task.md5) ==> files == old(files)
    {
      var temp := TempPath(task.localPath);
      var b: Option<Blob> := if temp in files then Some(files[temp]) else None;
      if task.totalBytes > 0 {
        if b.None? {
          return Err(FileNotFound);
        }
        if task.totalBytes != b.value.size {
          if b.value.size > task.totalBytes {
            files := files - {temp};
          }
          return Ok(false);
        }
      }
      if task.crc32 != "" {
        var fileCrc := if b.Some? then b.value.crc32 else "";
        if task.crc32 != fileCrc {
          files := files - {temp};
          return Ok(false);
        }
      }
      if task.md5 != "" {
        var fileMd5 := if b.Some? then b.value.md5 else "";
        if task.md5 != fileMd5 {
          files := files - {temp};
          return Ok(false);
        }
      }
      return Ok(true);
    }

    /** The success branch after a valid file: the destination is deleted,
        the temporary file moved onto it (which throws when it is
        missing), and the task completes successfully. */
    method Accept(task: DownloadTask) returns (fault: Option<Fault>)
      modifies this`files, task`success, task`status, task`invoked, task`source
      ensures TempPath(task.localPath) in old(files) ==>
        task.source == if old(task.source).Some? then Some(true) else None
      ensures TempPath(task.localPath) !in old(files) ==> unchanged(task)
      ensures TempPath(task.localPath) in old(files) ==>
        fault.None? &&
        files == (old(files) - {TempPath(task.localPath)})[task.localPath := old(files)[TempPath(task.localPath)]]
      ensures TempPath(task.localPath) in old(files) ==>
        task.success && task.status == Finish && task.invoked == old(task.invoked) + old(task.handlers)
      ensures TempPath(task.localPath) !in old(files) ==>
        fault == Some(FileNotFound) && files == old(files) - {task.localPath}
      ensures TempPath(task.localPath) !in old(files) ==>
        task.success == old(task.success) && task.status == old(task.status) && task.invoked == old(task.invoked)
      ensures task.retry == old(task.retry) && task.maxRetry == old(task.maxRetry) && task.request == old(task.request)
    {
      var temp := TempPath(task.localPath);
      TempPathDiffers(task.localPath);
      files := files - {task.localPath};
      if temp !in files {
        return Some(FileNotFound);
      }
      var b := files[temp];
      files := (files - {temp})[task.localPath := b];
      task.success := true;
      task.SetCompleted();
      return None;
    }

    /** `DelayAndRetry`: counts the try; while tries remain the task waits
        for its delay (and `Resume` then executes it again), otherwise it
        completes without success. Each call uses up one of the `Runs` the
        task had left, and the task runs again exactly when more than one
        was left. */
    method DelayAndRetry(task: DownloadTask)
      modifies task`retry, task`delayed, task`status, task`invoked, task`source
      ensures task.retry < task.maxRetry ==> task.source == old(task.source)
      ensures task.retry >= task.maxRetry ==> task.source == if old(task.source).Some? then Some(true) else None
      ensures task.retry == old(task.retry) + 1
      ensures task.retry < task.maxRetry ==>
        task.delayed && task.status == old(task.status) && task.invoked == old(task.invoked)
      ensures task.retry >= task.maxRetry ==>
        task.status == Finish && task.invoked == old(task.invoked) + old(task.handlers) && task.delayed == old(task.delayed)
      ensures task.maxRetry == old(task.maxRetry) && task.success == old(task.success) && task.request == old(task.request)
      ensures old(task.retry) < task.maxRetry ==>
        (task.retry < task.maxRetry <==> Runs(old(task.retry), task.maxRetry) > 1)
      ensures task.retry < task.maxRetry ==> Runs(task.retry, task.maxRetry) == Runs(old(task.retry), task.maxRetry) - 1
    {
      task.retry := task.retry + 1;
      if task.retry < task.maxRetry {
        task.delayed := true;
      } else {
        task.SetCompleted();
      }
    }

    /** The end of a retry delay: the task executes again, which does
        nothing when it was finished meanwhile. */
    method Resume(task: DownloadTask)
      requires task.delayed
      modifies task`delayed, task`request, task`downloadBytes, task`beginBytes, task`status
      ensures !task.delayed
      ensures old(task.status) != Finish ==> Launched(task)
      ensures old(task.status) == Finish ==> task.beginBytes == old(task.beginBytes) && task.downloadBytes == old(task.downloadBytes)
      ensures old(task.status) == Finish ==> task.status == Finish && task.request == old(task.request)
      ensures old(task.status) != Finish ==>
        task.status == Processing && task.request == Some(Request(task.url, RangeHeader(Begin(task.localPath)), false))
      ensures task.retry == old(task.retry) && task.maxRetry == old(task.maxRetry)
    {
      task.delayed := false;
      ExecTask(task);
    }

    /** The validating branch of `ProcessTaskCompleted`: a valid file is
        accepted, an invalid one retried; a throw stops it. */
    method Complete(task: DownloadTask) returns (fault: Option<Fault>)
      modifies this`files, task`success, task`status, task`invoked, task`source, task`retry, task`delayed
      ensures old(VerdictOf(task)).Err? ==>
        fault == Some(FileNotFound) && task.status == old(task.status) && task.retry == old(task.retry)
      ensures old(VerdictOf(task)).Err? ==> files == old(files)
      ensures old(VerdictOf(task)) == Ok(false) ==>
        fault.None? && task.retry == old(task.retry) + 1 && task.success == old(task.success)
      ensures old(VerdictOf(task)) == Ok(false) ==>
        files == if old(DeletesTemp(TempBlob(task), task.totalBytes, task.crc32, task.md5))
                 then old(files) - {TempPath(task.localPath)} else old(files)
      ensures old(VerdictOf(task)) == Ok(true) && TempPath(task.localPath) !in old(files) ==>
        fault == Some(FileNotFound) && files == old(files) - {task.localPath} && task.status == old(task.status)
      ensures old(VerdictOf(task)) == Ok(true) && TempPath(task.localPath) in old(files) ==>
        fault.None? && task.success && task.status == Finish && task.retry == old(task.retry)
      ensures old(VerdictOf(task)) == Ok(true) && TempPath(task.localPath) in old(files) ==>
        task.localPath in files && files[task.localPath] == old(files)[TempPath(task.localPath)] &&
        TempPath(task.localPath) !in files
      ensures task.request == old(task.request) && task.maxRetry == old(task.maxRetry)
    {
      var v := ValidFile(task);
      if v.Err? {
        return Some(FileNotFound);
      }
      if v.value {
        TempPathDiffers(task.localPath);
        fault := Accept(task);
      } else {
        DelayAndRetry(task);
        fault := None;
      }
    }

    /** `ProcessTaskCompleted`: the request is released; then, as `Policy`
        says, the file is validated, or the task retried with one more
        try allowed (200), or its temporary file deleted and the task
        completed without success (404), or the cap lowered, never below
        two, and the task retried (503). */
    method OnRequestDone(task: DownloadTask, ok: bool, code: int) returns (fault: Option<Fault>)
      requires Valid()
      modifies this`files, this`maxDownload, task`request, task`maxRetry, task`success, task`status, task`invoked, task`source, task`retry, task`delayed
      ensures Valid() && task.request == None
      ensures Policy(ok, code) == RetryMore || Policy(ok, code) == Throttle ==> files == old(files)
      ensures Policy(ok, code) == Validate && old(VerdictOf(task)).Err? ==> files == old(files)
      ensures Policy(ok, code) == Validate && old(VerdictOf(task)) == Ok(false) ==>
        files == if old(DeletesTemp(TempBlob(task), task.totalBytes, task.crc32, task.md5))
                 then old(files) - {TempPath(task.localPath)} else old(files)
      ensures Policy(ok, code) == Validate && old(VerdictOf(task)) == Ok(true) && TempPath(task.localPath) !in old(files) ==>
        fault == Some(FileNotFound) && files == old(files) - {task.localPath} && task.status == old(task.status)
      ensures Policy(ok, code) == Throttle ==> maxDownload == Max(2, old(maxDownload) - 1)
      ensures Policy(ok, code) != Throttle ==> maxDownload == old(maxDownload)
      ensures Policy(ok, code) == Drop ==>
        fault.None? && files == old(files) - {TempPath(task.localPath)} &&
        task.status == Finish && task.success == old(task.success)
      ensures Policy(ok, code) == RetryMore ==>
        fault.None? && task.maxRetry == old(task.maxRetry) + 1 && task.retry == old(task.retry) + 1
      ensures Policy(ok, code) == RetryMore && old(task.retry) < old(task.maxRetry) ==> task.delayed
      ensures Policy(ok, code) == Throttle ==> fault.None? && task.retry == old(task.retry) + 1
      ensures Policy(ok, code) == Validate && old(VerdictOf(task)).Err? ==>
        fault == Some(FileNotFound) && task.status == old(task.status)
      ensures Policy(ok, code) == Validate && old(VerdictOf(task)) == Ok(false) ==>
        fault.None? && task.retry == old(task.retry) + 1
      ensures Policy(ok, code) == Validate && old(VerdictOf(task)) == Ok(true) && TempPath(task.localPath) in old(files) ==>
        fault.None? && task.success && task.status == Finish &&
        task.localPath in files && files[task.localPath] == old(files)[TempPath(task.localPath)]
    {
      task.request := None;
      match Policy(ok, code)
      case Validate =>
        fault := Complete(task);
      case RetryMore =>
        task.maxRetry := task.maxRetry + 1;
        DelayAndRetry(task);
        fault := None;
      case Drop =>
        files := files - {TempPath(task.localPath)};
        task.SetCompleted();
        fault := None;
      case Throttle =>
        maxDownload := Max(2, maxDownload - 1);
        DelayAndRetry(task);
        fault := None;
    }

    /** `AbortAll`: every task is aborted; none of their listeners runs. */
    method AbortAll()
      requires Valid()
      modifies tasks`request, tasks`status
      ensures forall k :: 0 <= k < |tasks| ==> tasks[k].status == Finish
      ensures forall k :: 0 <= k < |tasks| ==> tasks[k].invoked == old(tasks[k].invoked)
      ensures forall k :: 0 <= k < |tasks| ==>
        tasks[k].request == if old(tasks[k].request).Some? then Some(old(tasks[k].request).value.(aborted := true)) else None
    {
      var ts := tasks;
      KeysDistinctTasks(ts);
      var i := 0;
      while i < |ts|
        invariant 0 <= i <= |ts|
        invariant forall k :: 0 <= k < i ==> ts[k].status == Finish
        invariant forall k :: 0 <= k < |ts| ==> ts[k].invoked == old(ts[k].invoked)
        invariant forall k :: 0 <= k < i ==>
          ts[k].request == if old(ts[k].request).Some? then Some(old(ts[k].request).value.(aborted := true)) else None
        invariant forall k :: i <= k < |ts| ==> ts[k].request == old(ts[k].request)
      {
        ts[i].Abort();
        i := i + 1;
      }
    }
  }
}
