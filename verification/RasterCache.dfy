/**
  The single-flight raster cache: any number of tasks, interleaved at every point where the
  program awaits or touches shared state, ask for windows of remote rasters.

  A run is a list of events; an event advances one task by one step and says whether the
  input or output that the step performs fails.  A step that cannot be taken changes nothing,
  so every list of events is a run and every schedule is one.
 */
module RasterCache {
  import opened Prelude
  import opened TileGrid
  import opened WindowKey

  type Bytes = seq<u8>

  datatype Request = Request(kind: RasterKind, remote: string, window: Window)

  /**
    What is fixed around the cache: the file name of a request, and the file fetched for it from
    an immutable remote.
   */
  datatype Remote = Remote(name: Request -> string, content: Request -> Bytes) {
    /** A fetched window is a TIFF file, never an empty one. */
    ghost predicate Valid() {
      forall r :: content(r) != []
    }

    /** `canonical_window_path`: kind, hash of the remote path, and window. */
    ghost predicate Canonical(hash: string -> u64) {
      forall r :: name(r) == FileName(r.kind, hash(r.remote), r.window)
    }
  }

  /** Where a task stands.  A token names the notification of one fetch. */
  datatype Phase =
    | Preparing
    | Lookup
    | AtEntry
    | Cloned(token: nat)
    | Registered(token: nat)
    | Recheck
    | Fetching(token: nat)
    | Fetched(token: nat, ok: bool)
    | Removed(token: nat, ok: bool)
    | Returned(ok: bool)

  datatype Task = Task(request: Request, phase: Phase)

  /** `inFlight` is the map of the cache; `files` is the cache directory. */
  datatype State = State(inFlight: map<string, nat>, files: map<string, Bytes>, tasks: seq<Task>, nextToken: nat) {
    predicate Hit(name: string) {
      name in files && files[name] != []
    }
  }

  datatype Event = Event(task: nat, failed: bool)

  /** Look the file up: return it, or go on to the map. */
  function CheckHit(s: State, name: string, failed: bool): Phase {
    if failed then Returned(false) else if s.Hit(name) then Returned(true) else AtEntry
  }

  /** Where the moving task stands next. */
  function PhaseAfter(s: State, t: Task, name: string, failed: bool): Phase {
    match t.phase
    case Preparing => if failed then Returned(false) else Lookup
    case Lookup => CheckHit(s, name, failed)
    case AtEntry => if name in s.inFlight then Cloned(s.inFlight[name]) else Fetching(s.nextToken)
    case Cloned(token) => Registered(token)
    case Registered(token) => Registered(token)
    case Recheck => CheckHit(s, name, failed)
    case Fetching(token) => Fetched(token, !failed)
    case Fetched(token, ok) => Removed(token, ok)
    case Removed(_, ok) => Returned(ok)
    case Returned(ok) => Returned(ok)
  }

  /** A task at a vacant entry puts its token there; a task that has fetched removes its path. */
  function InFlightAfter(s: State, t: Task, name: string): map<string, nat> {
    if t.phase.AtEntry? && name !in s.inFlight then s.inFlight[name := s.nextToken]
    else if t.phase.Fetched? then s.inFlight - {name}
    else s.inFlight
  }

  /** A fetched file is persisted unless one is there already; both count as success. */
  function FilesAfter(s: State, t: Task, name: string, content: Bytes, failed: bool): map<string, Bytes> {
    if t.phase.Fetching? && !failed && name !in s.files then s.files[name := content] else s.files
  }

  /** `notify_waiters`: every registered waiter of the token goes on to look again. */
  function Woken(t: Task, mover: Task): Task {
    if mover.phase.Removed? && t.phase == Registered(mover.phase.token) then t.(phase := Recheck) else t
  }

  function TaskAfter(remote: Remote, s: State, e: Event, j: nat): Task
    requires e.task < |s.tasks| && j < |s.tasks|
  {
    var t := s.tasks[j];
    if j == e.task then t.(phase := PhaseAfter(s, t, remote.name(t.request), e.failed)) else Woken(t, s.tasks[e.task])
  }

  function Next(remote: Remote, s: State, e: Event): State {
    if e.task < |s.tasks| then
      var t := s.tasks[e.task];
      var name := remote.name(t.request);
      State(
        InFlightAfter(s, t, name),
        FilesAfter(s, t, name, remote.content(t.request), e.failed),
        seq(|s.tasks|, j requires 0 <= j < |s.tasks| => TaskAfter(remote, s, e, j)),
        if t.phase.AtEntry? && name !in s.inFlight then s.nextToken + 1 else s.nextToken)
    else s
  }

  function Start(files: map<string, Bytes>, requests: seq<Request>): State {
    State(map[], files, seq(|requests|, i requires 0 <= i < |requests| => Task(requests[i], Preparing)), 0)
  }

  function Run(remote: Remote, s: State, events: seq<Event>): State {
    if events == [] then s
    else Next(remote, Run(remote, s, events[..|events| - 1]), events[|events| - 1])
  }

  // ---- One step -----------------------------------------------------------------------

  /** A step moves one task, and otherwise only wakes waiters. */
  ghost predicate OneMoves(s: State, s': State, i: nat) {
    && |s'.tasks| == |s.tasks|
    && forall j :: 0 <= j < |s.tasks| ==>
      && s'.tasks[j].request == s.tasks[j].request
      && (j == i
          || s'.tasks[j].phase == s.tasks[j].phase
          || (s.tasks[j].phase.Registered? && s'.tasks[j].phase == Recheck))
  }

  lemma StepMovesOne(remote: Remote, s: State, e: Event)
    ensures OneMoves(s, Next(remote, s, e), e.task)
  {
    if e.task < |s.tasks| {
      var s' := Next(remote, s, e);
      forall j | 0 <= j < |s.tasks| ensures s'.tasks[j] == TaskAfter(remote, s, e, j) {
      }
    }
  }

  /** Nobody is woken by a task that has nothing to notify. */
  lemma OnlyMoverMoves(remote: Remote, s: State, e: Event)
    requires e.task < |s.tasks| && !s.tasks[e.task].phase.Removed?
    ensures var t := s.tasks[e.task];
            Next(remote, s, e).tasks ==
              s.tasks[e.task := t.(phase := PhaseAfter(s, t, remote.name(t.request), e.failed))]
  {
  }

  lemma {:induction false} RunKeepsTasks(remote: Remote, s: State, events: seq<Event>)
    ensures |Run(remote, s, events).tasks| == |s.tasks|
    ensures forall j :: 0 <= j < |s.tasks| ==> Run(remote, s, events).tasks[j].request == s.tasks[j].request
  {
    if events != [] {
      var front := events[..|events| - 1];
      RunKeepsTasks(remote, s, front);
      StepMovesOne(remote, Run(remote, s, front), events[|events| - 1]);
    }
  }

  lemma RequestsStay(remote: Remote, files: map<string, Bytes>, requests: seq<Request>, events: seq<Event>)
    ensures var s := Run(remote, Start(files, requests), events);
            |s.tasks| == |requests| && forall j :: 0 <= j < |requests| ==> s.tasks[j].request == requests[j]
  {
    RunKeepsTasks(remote, Start(files, requests), events);
  }

  // ---- Single flight ------------------------------------------------------------------

  /** Between entering its path into the map and removing it. */
  predicate Holds(t: Task) {
    t.phase.Fetching? || t.phase.Fetched?
  }

  predicate HasFetchToken(t: Task) {
    Holds(t) || t.phase.Removed?
  }

  ghost predicate TokensDistinct(s: State) {
    && (forall i :: 0 <= i < |s.tasks| && HasFetchToken(s.tasks[i]) ==> s.tasks[i].phase.token < s.nextToken)
    && (forall i, j :: 0 <= i < j < |s.tasks| && HasFetchToken(s.tasks[i]) && HasFetchToken(s.tasks[j]) ==>
          s.tasks[i].phase.token != s.tasks[j].phase.token)
  }

  /** Holders have their own token in the map. */
  ghost predicate HoldersListed(remote: Remote, s: State) {
    forall i :: 0 <= i < |s.tasks| && Holds(s.tasks[i]) ==>
      var name := remote.name(s.tasks[i].request);
      name in s.inFlight && s.inFlight[name] == s.tasks[i].phase.token
  }

  predicate HolderOf(remote: Remote, t: Task, name: string) {
    Holds(t) && remote.name(t.request) == name
  }

  ghost predicate ListedHeld(remote: Remote, s: State) {
    forall name :: name in s.inFlight ==> exists i :: 0 <= i < |s.tasks| && HolderOf(remote, s.tasks[i], name)
  }

  ghost predicate SingleFlight(remote: Remote, s: State) {
    TokensDistinct(s) && HoldersListed(remote, s) && ListedHeld(remote, s)
  }

  lemma OneHolder(remote: Remote, s: State, i: nat, j: nat, name: string)
    requires TokensDistinct(s) && HoldersListed(remote, s) && i < |s.tasks| && j < |s.tasks|
    requires HolderOf(remote, s.tasks[i], name) && HolderOf(remote, s.tasks[j], name)
    ensures i == j
  {
    assert s.tasks[i].phase.token == s.inFlight[name] == s.tasks[j].phase.token;
  }

  /** A fetch token is the one held before, or the next one, taken at a vacant entry. */
  lemma TokenBefore(remote: Remote, s: State, e: Event, j: nat)
    requires j < |s.tasks| && e.task < |s.tasks| && HasFetchToken(TaskAfter(remote, s, e, j))
    ensures var (t, t') := (s.tasks[j], TaskAfter(remote, s, e, j));
            if HasFetchToken(t) then t'.phase.token == t.phase.token && (Holds(t') ==> Holds(t))
            else
              && j == e.task && t.phase.AtEntry?
              && remote.name(t.request) !in s.inFlight && t'.phase == Fetching(s.nextToken)
  {
  }

  lemma StepKeepsTokens(remote: Remote, s: State, e: Event)
    requires TokensDistinct(s)
    ensures TokensDistinct(Next(remote, s, e))
  {
    var s' := Next(remote, s, e);
    if e.task < |s.tasks| {
      forall j | 0 <= j < |s'.tasks| && HasFetchToken(s'.tasks[j])
        ensures if HasFetchToken(s.tasks[j]) then s'.tasks[j].phase.token == s.tasks[j].phase.token
                else j == e.task && s'.tasks[j].phase.token == s.nextToken < s'.nextToken
      {
        assert s'.tasks[j] == TaskAfter(remote, s, e, j);
        TokenBefore(remote, s, e, j);
      }
    }
  }

  lemma StepKeepsHolders(remote: Remote, s: State, e: Event)
    requires TokensDistinct(s) && HoldersListed(remote, s)
    ensures HoldersListed(remote, Next(remote, s, e))
  {
    var s' := Next(remote, s, e);
    if e.task < |s.tasks| {
      forall j | 0 <= j < |s'.tasks| && Holds(s'.tasks[j])
        ensures var name := remote.name(s'.tasks[j].request);
            name in s'.inFlight && s'.inFlight[name] == s'.tasks[j].phase.token
      {
        assert s'.tasks[j] == TaskAfter(remote, s, e, j);
        HolderStaysListed(remote, s, e, j);
      }
    }
  }

  lemma HolderStaysListed(remote: Remote, s: State, e: Event, j: nat)
    requires TokensDistinct(s) && HoldersListed(remote, s) && e.task < |s.tasks| && j < |s.tasks|
    requires Holds(TaskAfter(remote, s, e, j))
    ensures var name := remote.name(s.tasks[j].request);
            var inFlight := InFlightAfter(s, s.tasks[e.task], remote.name(s.tasks[e.task].request));
            name in inFlight && inFlight[name] == TaskAfter(remote, s, e, j).phase.token
  {
    TokenBefore(remote, s, e, j);
    var name := remote.name(s.tasks[j].request);
    if HasFetchToken(s.tasks[j]) && s.tasks[e.task].phase.Fetched? && remote.name(s.tasks[e.task].request) == name {
      OneHolder(remote, s, j, e.task, name);
    }
  }

  lemma StepKeepsListed(remote: Remote, s: State, e: Event)
    requires SingleFlight(remote, s)
    ensures ListedHeld(remote, Next(remote, s, e))
  {
    var s' := Next(remote, s, e);
    if e.task < |s.tasks| {
      forall name | name in s'.inFlight ensures exists i :: 0 <= i < |s'.tasks| && HolderOf(remote, s'.tasks[i], name) {
        var i := StillHeld(remote, s, e, name);
        assert s'.tasks[i] == TaskAfter(remote, s, e, i);
      }
    }
  }

  lemma StillHeld(remote: Remote, s: State, e: Event, name: string) returns (i: nat)
    requires SingleFlight(remote, s) && e.task < |s.tasks|
    requires name in InFlightAfter(s, s.tasks[e.task], remote.name(s.tasks[e.task].request))
    ensures i < |s.tasks| && HolderOf(remote, TaskAfter(remote, s, e, i), name)
  {
    if name in s.inFlight {
      i :| 0 <= i < |s.tasks| && HolderOf(remote, s.tasks[i], name);
      HolderStays(remote, s, e, i, name);
    } else {
      i := e.task;
    }
  }

  lemma HolderStays(remote: Remote, s: State, e: Event, i: nat, name: string)
    requires e.task < |s.tasks| && i < |s.tasks| && HolderOf(remote, s.tasks[i], name)
    requires name in InFlightAfter(s, s.tasks[e.task], remote.name(s.tasks[e.task].request))
    ensures HolderOf(remote, TaskAfter(remote, s, e, i), name)
  {
  }

  lemma {:induction false} RunKeepsSingleFlight(remote: Remote, s: State, events: seq<Event>)
    requires SingleFlight(remote, s)
    ensures SingleFlight(remote, Run(remote, s, events))
  {
    if events != [] {
      var front := events[..|events| - 1];
      RunKeepsSingleFlight(remote, s, front);
      var before := Run(remote, s, front);
      StepKeepsTokens(remote, before, events[|events| - 1]);
      StepKeepsHolders(remote, before, events[|events| - 1]);
      StepKeepsListed(remote, before, events[|events| - 1]);
    }
  }

  /** In every reachable state a path is in flight exactly while one task is fetching it, and only one. */
  lemma InFlightWhileFetching(remote: Remote, files: map<string, Bytes>, requests: seq<Request>, events: seq<Event>,
                              name: string)
    ensures var s := Run(remote, Start(files, requests), events);
      && (name in s.inFlight <==> exists i :: 0 <= i < |s.tasks| && HolderOf(remote, s.tasks[i], name))
      && forall i, j :: (&& 0 <= i < |s.tasks| && 0 <= j < |s.tasks|
                         && HolderOf(remote, s.tasks[i], name) && HolderOf(remote, s.tasks[j], name)) ==> i == j
  {
    RunKeepsSingleFlight(remote, Start(files, requests), events);
    var s := Run(remote, Start(files, requests), events);
    forall i, j |
        && 0 <= i < |s.tasks| && 0 <= j < |s.tasks|
        && HolderOf(remote, s.tasks[i], name) && HolderOf(remote, s.tasks[j], name)
      ensures i == j
    {
      OneHolder(remote, s, i, j, name);
    }
  }

  // ---- Published files ----------------------------------------------------------------

  lemma {:induction false} RunKeepsFiles(remote: Remote, s: State, events: seq<Event>, more: seq<Event>, name: string)
    requires name in Run(remote, s, events).files
    ensures name in Run(remote, s, events + more).files
    ensures Run(remote, s, events + more).files[name] == Run(remote, s, events).files[name]
    decreases |more|
  {
    if more == [] {
      assert events + more == events;
    } else {
      var front := more[..|more| - 1];
      RunKeepsFiles(remote, s, events, front, name);
      assert (events + more)[..|events + more| - 1] == events + front;
    }
  }

  /** A file was there at the start, or is what some task fetched for its own request. */
  ghost predicate FilesExplained(remote: Remote, files: map<string, Bytes>, s: State) {
    && (forall name :: name in files ==> name in s.files && s.files[name] == files[name])
    && (forall name :: name in s.files && name !in files ==>
          exists i :: 0 <= i < |s.tasks| && Explains(remote, s.tasks[i], name, s.files[name]))
  }

  predicate Succeeded(t: Task) {
    (t.phase.Fetched? || t.phase.Removed? || t.phase.Returned?) && t.phase.ok
  }

  ghost predicate SuccessHasFile(remote: Remote, s: State) {
    forall i :: 0 <= i < |s.tasks| && Succeeded(s.tasks[i]) ==> remote.name(s.tasks[i].request) in s.files
  }

  /** Task `i` asked for this file, and this is what a fetch brings it. */
  predicate Explains(remote: Remote, t: Task, name: string, content: Bytes) {
    remote.name(t.request) == name && content == remote.content(t.request)
  }

  lemma FileExplained(remote: Remote, files: map<string, Bytes>, s: State, e: Event, name: string) returns (i: nat)
    requires FilesExplained(remote, files, s) && e.task < |s.tasks|
    requires name in Next(remote, s, e).files && name !in files
    ensures i < |s.tasks| && Explains(remote, s.tasks[i], name, Next(remote, s, e).files[name])
  {
    i := e.task;
    if name in s.files {
      i :| 0 <= i < |s.tasks| && Explains(remote, s.tasks[i], name, s.files[name]);
    }
  }

  lemma StepKeepsExplained(remote: Remote, files: map<string, Bytes>, s: State, e: Event)
    requires FilesExplained(remote, files, s)
    ensures FilesExplained(remote, files, Next(remote, s, e))
  {
    var s' := Next(remote, s, e);
    if e.task < |s.tasks| {
      forall name | name in s'.files && name !in files
        ensures exists i :: 0 <= i < |s'.tasks| && Explains(remote, s'.tasks[i], name, s'.files[name])
      {
        var i := FileExplained(remote, files, s, e, name);
        assert s'.tasks[i] == TaskAfter(remote, s, e, i);
      }
    }
  }

  lemma StepKeepsSuccess(remote: Remote, s: State, e: Event)
    requires SuccessHasFile(remote, s)
    ensures SuccessHasFile(remote, Next(remote, s, e))
  {
    StepMovesOne(remote, s, e);
  }

  lemma {:induction false} RunKeepsFileFacts(remote: Remote, files: map<string, Bytes>, requests: seq<Request>,
                                             events: seq<Event>)
    ensures FilesExplained(remote, files, Run(remote, Start(files, requests), events))
    ensures SuccessHasFile(remote, Run(remote, Start(files, requests), events))
  {
    if events != [] {
      var front := events[..|events| - 1];
      RunKeepsFileFacts(remote, files, requests, front);
      var before := Run(remote, Start(files, requests), front);
      StepKeepsExplained(remote, files, before, events[|events| - 1]);
      StepKeepsSuccess(remote, before, events[|events| - 1]);
    }
  }

  predicate ReturnsFile(s: State, i: nat) {
    i < |s.tasks| && s.tasks[i].phase == Returned(true)
  }

  /** Distinct remote paths of the requests have distinct hashes. */
  ghost predicate CollisionFree(hash: string -> u64, requests: seq<Request>) {
    forall i, j :: (&& 0 <= i < |requests| && 0 <= j < |requests|
                    && hash(requests[i].remote) == hash(requests[j].remote)) ==>
      requests[i].remote == requests[j].remote
  }

  /** What the cache directory holds at the start is what a fetch would bring. */
  ghost predicate CleanStart(remote: Remote, files: map<string, Bytes>, requests: seq<Request>) {
    forall i :: 0 <= i < |requests| && remote.name(requests[i]) in files ==>
        files[remote.name(requests[i])] == remote.content(requests[i])
  }

  /** Requests with one file name are the same request. */
  ghost predicate NamesDiffer(remote: Remote, requests: seq<Request>) {
    forall i, j :: (&& 0 <= i < |requests| && 0 <= j < |requests|
                    && remote.name(requests[i]) == remote.name(requests[j])) ==> requests[i] == requests[j]
  }

  lemma CanonicalNamesDiffer(remote: Remote, hash: string -> u64, requests: seq<Request>)
    requires remote.Canonical(hash) && CollisionFree(hash, requests)
    ensures NamesDiffer(remote, requests)
  {
    forall i, j | 0 <= i < |requests| && 0 <= j < |requests| && remote.name(requests[i]) == remote.name(requests[j])
      ensures requests[i] == requests[j]
    {
      var a, b := requests[i], requests[j];
      FileNameInjective(a.kind, hash(a.remote), a.window, b.kind, hash(b.remote), b.window);
    }
  }

  /** The file served under the name of request `i` is the one fetched for it. */
  lemma OwnFile(remote: Remote, files: map<string, Bytes>, requests: seq<Request>, s: State, i: nat)
    requires |s.tasks| == |requests| && forall j :: 0 <= j < |requests| ==> s.tasks[j].request == requests[j]
    requires NamesDiffer(remote, requests) && CleanStart(remote, files, requests) && FilesExplained(remote, files, s)
    requires i < |requests| && remote.name(requests[i]) in s.files
    ensures s.files[remote.name(requests[i])] == remote.content(requests[i])
  {
    var name := remote.name(requests[i]);
    if name !in files {
      var j :| 0 <= j < |s.tasks| && Explains(remote, s.tasks[j], name, s.files[name]);
      assert requests[j] == requests[i];
    }
  }

  /** With canonical names and no hash collision, a task that returns a file returns its own window, in every run. */
  lemma OwnWindowIsServed(remote: Remote, hash: string -> u64, files: map<string, Bytes>, requests: seq<Request>,
                          events: seq<Event>, i: nat)
    requires remote.Canonical(hash) && CollisionFree(hash, requests) && CleanStart(remote, files, requests)
    requires ReturnsFile(Run(remote, Start(files, requests), events), i)
    ensures i < |requests|
    ensures var s := Run(remote, Start(files, requests), events);
            var name := remote.name(requests[i]);
            name in s.files && s.files[name] == remote.content(requests[i])
  {
    var s := Run(remote, Start(files, requests), events);
    CanonicalNamesDiffer(remote, hash, requests);
    RequestsStay(remote, files, requests, events);
    RunKeepsFileFacts(remote, files, requests, events);
    assert Succeeded(s.tasks[i]);
    OwnFile(remote, files, requests, s, i);
  }

  // ---- Empty files --------------------------------------------------------------------

  /** `n` steps of task `i` alone, none of which fails. */
  function Alone(i: nat, n: nat): seq<Event> {
    if n == 0 then [] else Alone(i, n - 1) + [Event(i, false)]
  }

  /** Task `i` has come this far, and the files are those of the start. */
  predicate Stands(s: State, i: nat, task: Task, files: map<string, Bytes>) {
    i < |s.tasks| && s.tasks[i] == task && s.files == files
  }

  lemma AloneStep(remote: Remote, s: State, n: nat, i: nat, task: Task, files: map<string, Bytes>)
    requires Stands(Run(remote, s, Alone(i, n)), i, task, files) && remote.name(task.request) in files
    ensures var before := Run(remote, s, Alone(i, n));
            var name := remote.name(task.request);
            && Stands(Run(remote, s, Alone(i, n + 1)), i, task.(phase := PhaseAfter(before, task, name, false)), files)
            && Run(remote, s, Alone(i, n + 1)).inFlight == InFlightAfter(before, task, name)
  {
    var e := Event(i, false);
    var events := Alone(i, n);
    assert Alone(i, n + 1) == events + [e];
    assert (events + [e])[..|events + [e]| - 1] == events;
    var before := Run(remote, s, events);
    assert Run(remote, s, events + [e]) == Next(remote, before, e);
    assert Next(remote, before, e).tasks[i] == TaskAfter(remote, before, e, i);
  }

  /** Alone, a task that finds an empty file misses it and starts to fetch. */
  lemma AloneMisses(remote: Remote, files: map<string, Bytes>, requests: seq<Request>, i: nat) returns (token: nat)
    requires i < |requests| && remote.name(requests[i]) in files && files[remote.name(requests[i])] == []
    ensures Stands(Run(remote, Start(files, requests), Alone(i, 3)), i, Task(requests[i], Fetching(token)), files)
  {
    var s := Start(files, requests);
    var r := requests[i];
    assert Run(remote, s, Alone(i, 0)) == s;
    AloneStep(remote, s, 0, i, Task(r, Preparing), files);
    AloneStep(remote, s, 1, i, Task(r, Lookup), files);
    AloneStep(remote, s, 2, i, Task(r, AtEntry), files);
    token := Run(remote, s, Alone(i, 2)).nextToken;
  }

  /** Its fetch then succeeds without replacing the empty file. */
  lemma AloneReturns(remote: Remote, files: map<string, Bytes>, requests: seq<Request>, i: nat)
    requires i < |requests| && remote.name(requests[i]) in files && files[remote.name(requests[i])] == []
    ensures Stands(Run(remote, Start(files, requests), Alone(i, 6)), i, Task(requests[i], Returned(true)), files)
  {
    var s := Start(files, requests);
    var r := requests[i];
    var token := AloneMisses(remote, files, requests, i);
    AloneStep(remote, s, 3, i, Task(r, Fetching(token)), files);
    AloneStep(remote, s, 4, i, Task(r, Fetched(token, true)), files);
    AloneStep(remote, s, 5, i, Task(r, Removed(token, true)), files);
  }

  /**
    Every run hands task `i` a non-empty file, exactly when its path does not hold an empty
    file at the start: the lookup treats an empty file as absent, but publishing never
    replaces it.
   */
  lemma ServedFilesAreComplete(remote: Remote, files: map<string, Bytes>, requests: seq<Request>, i: nat)
    requires remote.Valid() && i < |requests|
    ensures (forall events :: ReturnsFile(Run(remote, Start(files, requests), events), i) ==>
               Run(remote, Start(files, requests), events).Hit(remote.name(requests[i])))
            <==> !(remote.name(requests[i]) in files && files[remote.name(requests[i])] == [])
  {
    var name := remote.name(requests[i]);
    if name in files && files[name] == [] {
      AloneReturns(remote, files, requests, i);
      assert ReturnsFile(Run(remote, Start(files, requests), Alone(i, 6)), i);
      assert !Run(remote, Start(files, requests), Alone(i, 6)).Hit(name);
    } else {
      forall events | ReturnsFile(Run(remote, Start(files, requests), events), i)
        ensures Run(remote, Start(files, requests), events).Hit(name)
      {
        RunKeepsTasks(remote, Start(files, requests), events);
        RunKeepsFileFacts(remote, files, requests, events);
        assert Succeeded(Run(remote, Start(files, requests), events).tasks[i]);
      }
    }
  }

  // ---- Failures and waiters -----------------------------------------------------------

  predicate Failed(t: Task) {
    (t.phase.Fetched? || t.phase.Removed? || t.phase.Returned?) && !t.phase.ok
  }

  lemma FailureAppears(remote: Remote, s: State, e: Event, i: nat)
    requires e.task < |s.tasks| && i < |s.tasks| && Failed(TaskAfter(remote, s, e, i))
    ensures Failed(s.tasks[i]) || e == Event(i, true)
  {
  }

  /** A task fails only by a failure of its own: a failed fetch never fails those waiting for it. */
  lemma {:induction false} FailuresAreOwn(remote: Remote, files: map<string, Bytes>, requests: seq<Request>,
                                          events: seq<Event>, i: nat)
    requires i < |requests|
    ensures i < |Run(remote, Start(files, requests), events).tasks|
    ensures Failed(Run(remote, Start(files, requests), events).tasks[i]) ==> Event(i, true) in events
  {
    RunKeepsTasks(remote, Start(files, requests), events);
    if events != [] {
      var front, e := events[..|events| - 1], events[|events| - 1];
      FailuresAreOwn(remote, files, requests, front, i);
      var before := Run(remote, Start(files, requests), front);
      assert events == front + [e] && e in events;
      if e.task < |before.tasks| && Failed(Next(remote, before, e).tasks[i]) {
        assert Next(remote, before, e).tasks[i] == TaskAfter(remote, before, e, i);
        FailureAppears(remote, before, e, i);
      }
    }
  }

  predicate Waits(t: Task) {
    t.phase.Cloned? || t.phase.Registered?
  }

  /** The end of `a`'s fetch is what `b` waits for. */
  predicate Serves(a: Task, b: Task) {
    HasFetchToken(a) && Waits(b) && a.phase.token == b.phase.token
  }

  /** A waiter waits for a fetch of its own path. */
  ghost predicate WaitersMatch(remote: Remote, s: State) {
    && (forall j :: 0 <= j < |s.tasks| && Waits(s.tasks[j]) ==> s.tasks[j].phase.token < s.nextToken)
    && (forall i, j :: 0 <= i < |s.tasks| && 0 <= j < |s.tasks| && Serves(s.tasks[i], s.tasks[j]) ==>
          remote.name(s.tasks[i].request) == remote.name(s.tasks[j].request))
  }

  /** A waiter's token is the one it had, or the one it found in the map under its path. */
  lemma WaitBefore(remote: Remote, s: State, e: Event, j: nat)
    requires j < |s.tasks| && e.task < |s.tasks| && Waits(TaskAfter(remote, s, e, j))
    ensures var (t, t') := (s.tasks[j], TaskAfter(remote, s, e, j));
            if Waits(t) then t'.phase.token == t.phase.token
            else
              && j == e.task && remote.name(t.request) in s.inFlight
              && t'.phase.token == s.inFlight[remote.name(t.request)]
  {
  }

  /** The token found in the map belongs to the one fetch of that path. */
  lemma MapTokenIsOwn(remote: Remote, s: State, name: string, i: nat)
    requires SingleFlight(remote, s) && name in s.inFlight && i < |s.tasks|
    ensures s.inFlight[name] < s.nextToken
    ensures HasFetchToken(s.tasks[i]) && s.tasks[i].phase.token == s.inFlight[name] ==>
              remote.name(s.tasks[i].request) == name
  {
    var k :| 0 <= k < |s.tasks| && HolderOf(remote, s.tasks[k], name);
    assert s.tasks[k].phase.token == s.inFlight[name];
  }

  lemma PairMatches(remote: Remote, s: State, e: Event, i: nat, j: nat)
    requires SingleFlight(remote, s) && WaitersMatch(remote, s) && e.task < |s.tasks| && i < |s.tasks| && j < |s.tasks|
    requires Serves(TaskAfter(remote, s, e, i), TaskAfter(remote, s, e, j))
    ensures remote.name(s.tasks[i].request) == remote.name(s.tasks[j].request)
  {
    TokenBefore(remote, s, e, i);
    WaitBefore(remote, s, e, j);
    if !Waits(s.tasks[j]) {
      MapTokenIsOwn(remote, s, remote.name(s.tasks[j].request), i);
    }
  }

  lemma StepKeepsMatch(remote: Remote, s: State, e: Event)
    requires SingleFlight(remote, s) && WaitersMatch(remote, s)
    ensures WaitersMatch(remote, Next(remote, s, e))
  {
    var s' := Next(remote, s, e);
    if e.task < |s.tasks| {
      forall j | 0 <= j < |s'.tasks| && Waits(s'.tasks[j]) ensures s'.tasks[j].phase.token < s'.nextToken {
        assert s'.tasks[j] == TaskAfter(remote, s, e, j);
        WaitBefore(remote, s, e, j);
        if !Waits(s.tasks[j]) {
          MapTokenIsOwn(remote, s, remote.name(s.tasks[j].request), j);
        }
      }
      forall i, j | 0 <= i < |s'.tasks| && 0 <= j < |s'.tasks| && Serves(s'.tasks[i], s'.tasks[j])
        ensures remote.name(s'.tasks[i].request) == remote.name(s'.tasks[j].request)
      {
        assert s'.tasks[i] == TaskAfter(remote, s, e, i) && s'.tasks[j] == TaskAfter(remote, s, e, j);
        PairMatches(remote, s, e, i, j);
      }
    }
  }

  lemma {:induction false} RunKeepsMatch(remote: Remote, s: State, events: seq<Event>)
    requires SingleFlight(remote, s) && WaitersMatch(remote, s)
    ensures WaitersMatch(remote, Run(remote, s, events))
  {
    if events != [] {
      var front := events[..|events| - 1];
      RunKeepsMatch(remote, s, front);
      RunKeepsSingleFlight(remote, s, front);
      StepKeepsMatch(remote, Run(remote, s, front), events[|events| - 1]);
    }
  }

  lemma StartMatches(remote: Remote, files: map<string, Bytes>, requests: seq<Request>)
    ensures SingleFlight(remote, Start(files, requests)) && WaitersMatch(remote, Start(files, requests))
  {
    var s := Start(files, requests);
    assert forall i :: 0 <= i < |s.tasks| ==> s.tasks[i].phase == Preparing;
  }

  lemma ReachableMatches(remote: Remote, files: map<string, Bytes>, requests: seq<Request>, events: seq<Event>)
    ensures var s := Run(remote, Start(files, requests), events); SingleFlight(remote, s) && WaitersMatch(remote, s)
  {
    StartMatches(remote, files, requests);
    RunKeepsSingleFlight(remote, Start(files, requests), events);
    RunKeepsMatch(remote, Start(files, requests), events);
  }

  /** Task `k` takes no step of its own. */
  predicate Without(events: seq<Event>, k: nat) {
    forall e :: e in events ==> e.task != k
  }

  lemma {:induction false} StaysPut(remote: Remote, s: State, events: seq<Event>, k: nat)
    requires k < |s.tasks| && !s.tasks[k].phase.Registered? && Without(events, k)
    ensures |Run(remote, s, events).tasks| == |s.tasks| && Run(remote, s, events).tasks[k] == s.tasks[k]
  {
    if events != [] {
      var front, e := events[..|events| - 1], events[|events| - 1];
      StaysPut(remote, s, front, k);
      StepMovesOne(remote, Run(remote, s, front), e);
      assert e in events;
    }
  }

  /** Until the holder of its token notifies, a waiter waits. */
  lemma {:induction false} WaitsForHolder(remote: Remote, s: State, events: seq<Event>, i: nat, j: nat, token: nat)
    requires SingleFlight(remote, s) && i < |s.tasks| && j < |s.tasks| && Without(events, i)
    requires s.tasks[i].phase.Removed? && s.tasks[i].phase.token == token && s.tasks[j].phase == Registered(token)
    ensures var s' := Run(remote, s, events);
            |s'.tasks| == |s.tasks| && s'.tasks[i] == s.tasks[i] && s'.tasks[j] == s.tasks[j]
  {
    if events != [] {
      var front, e := events[..|events| - 1], events[|events| - 1];
      assert e in events;
      WaitsForHolder(remote, s, front, i, j, token);
      RunKeepsSingleFlight(remote, s, front);
      var before := Run(remote, s, front);
      if e.task < |before.tasks| {
        var after := Next(remote, before, e);
        assert after.tasks[i] == TaskAfter(remote, before, e, i) && after.tasks[j] == TaskAfter(remote, before, e, j);
        assert !(before.tasks[e.task].phase.Removed? && before.tasks[e.task].phase.token == token);
      }
    }
  }

  /**
    What the waiter `j` does after the notification of `i`, while other tasks move: it looks for
    the file that is there by then; finding none, it goes back to the map as it is by then, and
    fetches for itself unless another fetch of its path is listed.
   */
  ghost predicate RetriesAlong(remote: Remote, s: State, i: nat, j: nat, quiet: seq<Event>, before: seq<Event>,
                               after: seq<Event>)
    requires i < |s.tasks| && j < |s.tasks|
  {
    var name := remote.name(s.tasks[j].request);
    var woken := Next(remote, Run(remote, s, quiet), Event(i, false));
    var looks := Run(remote, woken, before);
    var back := Run(remote, Next(remote, looks, Event(j, false)), after);
    var tried := Next(remote, back, Event(j, false));
    && |looks.tasks| == |back.tasks| == |tried.tasks| == |s.tasks|
    && looks.tasks[j].phase == Recheck
    && back.tasks[j].phase == (if looks.Hit(name) then Returned(true) else AtEntry)
    && (!looks.Hit(name) ==>
          if name in back.inFlight then tried.tasks[j].phase == Cloned(back.inFlight[name])
          else
            && tried.tasks[j].phase == Fetching(back.nextToken)
            && tried.inFlight == back.inFlight[name := back.nextToken])
  }

  lemma Retry(remote: Remote, s: State, i: nat, j: nat, token: nat, quiet: seq<Event>, before: seq<Event>,
              after: seq<Event>)
    requires SingleFlight(remote, s) && i < |s.tasks| && j < |s.tasks|
    requires s.tasks[i].phase.Removed? && s.tasks[i].phase.token == token && s.tasks[j].phase == Registered(token)
    requires Without(quiet, i) && Without(before, j) && Without(after, j)
    ensures RetriesAlong(remote, s, i, j, quiet, before, after)
  {
    var e, own := Event(i, false), Event(j, false);
    WaitsForHolder(remote, s, quiet, i, j, token);
    var ready := Run(remote, s, quiet);
    var woken := Next(remote, ready, e);
    assert woken.tasks[j] == TaskAfter(remote, ready, e, j) == s.tasks[j].(phase := Recheck);
    StaysPut(remote, woken, before, j);
    var looks := Run(remote, woken, before);
    var looked := Next(remote, looks, own);
    assert looked.tasks[j] == TaskAfter(remote, looks, own, j);
    StaysPut(remote, looked, after, j);
    var back := Run(remote, looked, after);
    assert Next(remote, back, own).tasks[j] == TaskAfter(remote, back, own, j);
  }

  /** However the other tasks move before the notification, before the look and before the way back. */
  ghost predicate Retries(remote: Remote, s: State, i: nat, j: nat)
    requires i < |s.tasks| && j < |s.tasks|
  {
    forall quiet, before, after :: Without(quiet, i) && Without(before, j) && Without(after, j) ==>
      RetriesAlong(remote, s, i, j, quiet, before, after)
  }

  /**
    In every run, the end of a fetch wakes only waiters of its own path, and each of them, if it
    finds no file when it looks, goes back to the map and fetches for itself unless another fetch
    of the path is listed when it gets there, whatever other tasks do in between.
   */
  lemma WaiterRetries(remote: Remote, files: map<string, Bytes>, requests: seq<Request>, events: seq<Event>, s: State,
                      i: nat, j: nat, token: nat)
    requires s == Run(remote, Start(files, requests), events) && i < |s.tasks| && j < |s.tasks|
    requires s.tasks[i].phase.Removed? && s.tasks[i].phase.token == token && s.tasks[j].phase == Registered(token)
    ensures remote.name(s.tasks[i].request) == remote.name(s.tasks[j].request) && Retries(remote, s, i, j)
  {
    ReachableMatches(remote, files, requests, events);
    assert Serves(s.tasks[i], s.tasks[j]);
    forall quiet, before, after | Without(quiet, i) && Without(before, j) && Without(after, j)
      ensures RetriesAlong(remote, s, i, j, quiet, before, after)
    {
      Retry(remote, s, i, j, token, quiet, before, after);
    }
  }

  /**
    A task that is about to look for its file first, while other tasks move, returns the file if
    it is there by then and not empty, and otherwise goes to the map; looking changes nothing.
   */
  lemma FirstLook(remote: Remote, s: State, j: nat, before: seq<Event>)
    requires j < |s.tasks| && s.tasks[j].phase == Lookup && Without(before, j)
    ensures var looks := Run(remote, s, before);
            var looked := Next(remote, looks, Event(j, false));
            var name := remote.name(s.tasks[j].request);
            && |looked.tasks| == |s.tasks|
            && looked.tasks[j].phase ==
                 (if name in looks.files && looks.files[name] != [] then Returned(true) else AtEntry)
            && looked.files == looks.files && looked.inFlight == looks.inFlight
  {
    StaysPut(remote, s, before, j);
    var looks := Run(remote, s, before);
    assert Next(remote, looks, Event(j, false)).tasks[j] == TaskAfter(remote, looks, Event(j, false), j);
  }

  /** Nobody is left to notify those who wait for this token. */
  ghost predicate Orphaned(s: State, token: nat) {
    token < s.nextToken && forall k ::
        0 <= k < |s.tasks| ==> !(HasFetchToken(s.tasks[k]) && s.tasks[k].phase.token == token)
  }

  lemma OrphanStays(remote: Remote, s: State, e: Event, j: nat, token: nat)
    requires j < |s.tasks| && s.tasks[j].phase == Registered(token) && Orphaned(s, token)
    ensures var s' := Next(remote, s, e);
        j < |s'.tasks| && s'.tasks[j].phase == Registered(token) && Orphaned(s', token)
  {
    if e.task < |s.tasks| {
      var s' := Next(remote, s, e);
      assert s'.tasks[j] == TaskAfter(remote, s, e, j);
      forall k | 0 <= k < |s'.tasks| ensures !(HasFetchToken(s'.tasks[k]) && s'.tasks[k].phase.token == token) {
        assert s'.tasks[k] == TaskAfter(remote, s, e, k);
        if HasFetchToken(s'.tasks[k]) {
          TokenBefore(remote, s, e, k);
        }
      }
    }
  }

  /** A waiter that registers after its notification was sent is never woken. */
  lemma {:induction false} LateWaiterIsNeverWoken(remote: Remote, s: State, j: nat, token: nat, events: seq<Event>)
    requires j < |s.tasks| && s.tasks[j].phase == Registered(token) && Orphaned(s, token)
    ensures var s' := Run(remote, s, events);
        j < |s'.tasks| && s'.tasks[j].phase == Registered(token) && Orphaned(s', token)
  {
    if events != [] {
      var front := events[..|events| - 1];
      LateWaiterIsNeverWoken(remote, s, j, token, front);
      OrphanStays(remote, Run(remote, s, front), events[|events| - 1], j, token);
    }
  }

  lemma {:induction false} RunAppend(remote: Remote, s: State, first: seq<Event>, more: seq<Event>)
    ensures Run(remote, Run(remote, s, first), more) == Run(remote, s, first + more)
    decreases |more|
  {
    if more == [] {
      assert first + more == first;
    } else {
      var front := more[..|more| - 1];
      RunAppend(remote, s, first, front);
      assert (first + more)[..|first + more| - 1] == first + front;
    }
  }

  lemma RunOne(remote: Remote, s: State, e: Event)
    ensures Run(remote, s, [e]) == Next(remote, s, e)
  {
    assert [e][..0] == [];
  }

  /** Steps from here to the notification. */
  function StepsLeft(t: Task): nat {
    match t.phase
    case Fetching(_) => 2
    case Fetched(_, _) => 1
    case _ => 0
  }

  /** The task that still holds the token notifies its waiters after at most three steps of its own. */
  lemma {:induction false} HolderWakes(remote: Remote, s: State, k: nat, j: nat, token: nat) returns (more: seq<Event>)
    requires k < |s.tasks| && j < |s.tasks| && HasFetchToken(s.tasks[k]) && s.tasks[k].phase.token == token
    requires s.tasks[j].phase == Registered(token)
    ensures |Run(remote, s, more).tasks| == |s.tasks| && Run(remote, s, more).tasks[j].phase == Recheck
    decreases StepsLeft(s.tasks[k])
  {
    var e := Event(k, false);
    var after := Next(remote, s, e);
    assert after.tasks[j] == TaskAfter(remote, s, e, j) && after.tasks[k] == TaskAfter(remote, s, e, k);
    RunOne(remote, s, e);
    if s.tasks[k].phase.Removed? {
      more := [e];
    } else {
      var rest := HolderWakes(remote, after, k, j, token);
      RunAppend(remote, s, [e], rest);
      more := [e] + rest;
    }
  }

  /**
    In every reachable state a registered waiter can be woken exactly as long as some task has
    yet to notify for its token.
   */
  lemma WaiterCanBeWoken(remote: Remote, files: map<string, Bytes>, requests: seq<Request>, events: seq<Event>,
                         s: State, j: nat, token: nat)
    requires s == Run(remote, Start(files, requests), events) && j < |s.tasks| && s.tasks[j].phase == Registered(token)
    ensures (exists more :: Wakes(remote, s, more, j)) <==> !Orphaned(s, token)
  {
    ReachableMatches(remote, files, requests, events);
    assert Waits(s.tasks[j]);
    if Orphaned(s, token) {
      forall more ensures !Wakes(remote, s, more, j) {
        LateWaiterIsNeverWoken(remote, s, j, token, more);
      }
    } else {
      var k: nat :| k < |s.tasks| && HasFetchToken(s.tasks[k]) && s.tasks[k].phase.token == token;
      var more := HolderWakes(remote, s, k, j, token);
      assert Wakes(remote, s, more, j);
    }
  }

  /** After these events the task looks again. */
  ghost predicate Wakes(remote: Remote, s: State, more: seq<Event>, j: nat) {
    j < |Run(remote, s, more).tasks| && Run(remote, s, more).tasks[j].phase == Recheck
  }

  /** Two tasks asking for the same window. */
  predicate Two(s: State, r: Request, a: Phase, b: Phase, inFlight: map<string, nat>, nextToken: nat) {
    s.tasks == [Task(r, a), Task(r, b)] && s.inFlight == inFlight && s.nextToken == nextToken
  }

  lemma TwoStep(remote: Remote, s: State, events: seq<Event>, e: Event, r: Request, a: Phase, b: Phase,
                inFlight: map<string, nat>, nextToken: nat)
    requires e.task < 2 && Two(Run(remote, s, events), r, a, b, inFlight, nextToken)
    ensures var before := Run(remote, s, events);
            var t := before.tasks[e.task];
            Two(Run(remote, s, events + [e]), r, TaskAfter(remote, before, e, 0).phase,
                TaskAfter(remote, before, e, 1).phase,
                InFlightAfter(before, t, remote.name(r)),
                if t.phase.AtEntry? && remote.name(r) !in inFlight then nextToken + 1 else nextToken)
  {
    assert (events + [e])[..|events + [e]| - 1] == events;
    var before := Run(remote, s, events);
    var after := Next(remote, before, e);
    assert after.tasks[0] == TaskAfter(remote, before, e, 0) && after.tasks[1] == TaskAfter(remote, before, e, 1);
  }

  /** The first task is fetching when the second one takes its notification from the map. */
  lemma SecondTaskWaits(remote: Remote, r: Request) returns (events: seq<Event>)
    ensures Two(Run(remote, Start(map[], [r, r]), events), r, Fetching(0), Cloned(0), map[remote.name(r) := 0], 1)
  {
    var s := Start(map[], [r, r]);
    var x, y := Event(0, false), Event(1, false);
    assert Run(remote, s, []) == s;
    TwoStep(remote, s, [], x, r, Preparing, Preparing, map[], 0);
    RunFiles(remote, s, [], x);
    events := [] + [x];
    TwoStep(remote, s, events, x, r, Lookup, Preparing, map[], 0);
    RunFiles(remote, s, events, x);
    events := events + [x];
    TwoStep(remote, s, events, x, r, AtEntry, Preparing, map[], 0);
    RunFiles(remote, s, events, x);
    events := events + [x];
    TwoStep(remote, s, events, y, r, Fetching(0), Preparing, map[remote.name(r) := 0], 1);
    RunFiles(remote, s, events, y);
    events := events + [y];
    TwoStep(remote, s, events, y, r, Fetching(0), Lookup, map[remote.name(r) := 0], 1);
    events := events + [y];
    TwoStep(remote, s, events, y, r, Fetching(0), AtEntry, map[remote.name(r) := 0], 1);
    events := events + [y];
  }

  lemma RunFiles(remote: Remote, s: State, events: seq<Event>, e: Event)
    requires e.task < |Run(remote, s, events).tasks| && !Run(remote, s, events).tasks[e.task].phase.Fetching?
    ensures Run(remote, s, events + [e]).files == Run(remote, s, events).files
  {
    assert (events + [e])[..|events + [e]| - 1] == events;
  }

  /** The fetch ends and leaves the map before the second task has registered. */
  lemma FetchEndsFirst(remote: Remote, r: Request) returns (events: seq<Event>)
    ensures Two(Run(remote, Start(map[], [r, r]), events), r, Removed(0, true), Cloned(0),
        map[remote.name(r) := 0] - {remote.name(r)}, 1)
  {
    var s := Start(map[], [r, r]);
    var x := Event(0, false);
    events := SecondTaskWaits(remote, r);
    var listed := map[remote.name(r) := 0];
    TwoStep(remote, s, events, x, r, Fetching(0), Cloned(0), listed, 1);
    events := events + [x];
    TwoStep(remote, s, events, x, r, Fetched(0, true), Cloned(0), listed, 1);
    events := events + [x];
  }

  /** It notifies nobody, and only then the second task registers. */
  lemma SecondTaskIsLate(remote: Remote, r: Request) returns (events: seq<Event>)
    ensures Two(Run(remote, Start(map[], [r, r]), events), r, Returned(true), Registered(0),
        map[remote.name(r) := 0] - {remote.name(r)}, 1)
  {
    var s := Start(map[], [r, r]);
    var x, y := Event(0, false), Event(1, false);
    events := FetchEndsFirst(remote, r);
    var listed := map[remote.name(r) := 0] - {remote.name(r)};
    TwoStep(remote, s, events, x, r, Removed(0, true), Cloned(0), listed, 1);
    events := events + [x];
    TwoStep(remote, s, events, y, r, Returned(true), Cloned(0), listed, 1);
    events := events + [y];
  }

  /** A notification can be lost: some schedule leaves a task waiting in every continuation. */
  lemma WakeupCanBeLost(remote: Remote, r: Request)
    ensures exists events :: forall more ::
      var s := Run(remote, Run(remote, Start(map[], [r, r]), events), more);
          |s.tasks| == 2 && s.tasks[1].phase == Registered(0)
  {
    var events := SecondTaskIsLate(remote, r);
    var stuck := Run(remote, Start(map[], [r, r]), events);
    forall more ensures var end := Run(remote, stuck, more); |end.tasks| == 2 && end.tasks[1].phase == Registered(0) {
      LateWaiterIsNeverWoken(remote, stuck, 1, 0, more);
      RunKeepsTasks(remote, stuck, more);
    }
  }

  // ---- The cache object ---------------------------------------------------------------

  /** The shared map, the cache directory, and the tasks at work on them. */
  class RemoteRasterCache {
    var inFlight: map<string, nat>
    var files: map<string, Bytes>
    var tasks: seq<Task>
    var nextToken: nat

    constructor (found: map<string, Bytes>, requests: seq<Request>)
      ensures Snapshot() == Start(found, requests)
    {
      inFlight := map[];
      files := found;
      tasks := seq(|requests|, i requires 0 <= i < |requests| => Task(requests[i], Preparing));
      nextToken := 0;
    }

    function Snapshot(): State
      reads this
    {
      State(inFlight, files, tasks, nextToken)
    }

    method Goto(i: nat, phase: Phase)
      requires i < |tasks|
      modifies this`tasks
      ensures tasks == old(tasks)[i := old(tasks)[i].(phase := phase)]
    {
      tasks := tasks[i := tasks[i].(phase := phase)];
    }

    /** `cache_hit`, then return the file or go to the map. */
    method Check(remote: Remote, i: nat, failed: bool)
      requires i < |tasks|
      modifies this`tasks
      ensures tasks == old(tasks)[i :=
          old(tasks)[i].(phase := CheckHit(old(Snapshot()), remote.name(old(tasks)[i].request), failed))]
    {
      var name := remote.name(tasks[i].request);
      if failed {
        Goto(i, Returned(false));
      } else if name in files && |files[name]| > 0 {
        Goto(i, Returned(true));
      } else {
        Goto(i, AtEntry);
      }
    }

    method NotifyWaiters(token: nat, except: nat)
      requires except < |tasks| && !tasks[except].phase.Registered?
      modifies this`tasks
      ensures |tasks| == |old(tasks)|
      ensures forall j :: 0 <= j < |tasks| ==>
                tasks[j] == Woken(old(tasks)[j], Task(old(tasks)[j].request, Removed(token, true)))
    {
      for k := 0 to |tasks|
        invariant |tasks| == |old(tasks)|
        invariant forall j :: 0 <= j < k ==>
                  tasks[j] == Woken(old(tasks)[j], Task(old(tasks)[j].request, Removed(token, true)))
        invariant forall j :: k <= j < |tasks| ==> tasks[j] == old(tasks)[j]
      {
        if tasks[k].phase == Registered(token) {
          Goto(k, Recheck);
        }
      }
    }

    /** One step of task `i`, between two points where other tasks may run. */
    method Step(remote: Remote, i: nat, failed: bool)
      requires i < |tasks|
      modifies this
      ensures Snapshot() == Next(remote, old(Snapshot()), Event(i, failed))
    {
      var name := remote.name(tasks[i].request);
      if !tasks[i].phase.Removed? {
        OnlyMoverMoves(remote, Snapshot(), Event(i, failed));
      }
      match tasks[i].phase
      case Preparing =>
        Goto(i, if failed then Returned(false) else Lookup);
      case Lookup =>
        Check(remote, i, failed);
      case AtEntry =>
        if name in inFlight {
          Goto(i, Cloned(inFlight[name]));
        } else {
          inFlight := inFlight[name := nextToken];
          Goto(i, Fetching(nextToken));
          nextToken := nextToken + 1;
        }
      case Cloned(token) =>
        Goto(i, Registered(token));
      case Registered(_) =>
      case Recheck =>
        Check(remote, i, failed);
      case Fetching(token) =>
        if !failed && name !in files {
          files := files[name := remote.content(tasks[i].request)];
        }
        Goto(i, Fetched(token, !failed));
      case Fetched(token, ok) =>
        inFlight := inFlight - {name};
        Goto(i, Removed(token, ok));
      case Removed(token, ok) =>
        Goto(i, Returned(ok));
        NotifyWaiters(token, i);
      case Returned(_) =>
    }
  }
}
