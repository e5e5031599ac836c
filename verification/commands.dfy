/** The pool commands: the fetched check, the fetch work queue, `clean`,
    `update` and the text `list_files` produces
    (hdlmake/action/commands.py). */
module Commands {
  import opened Results
  import opened Strings
  import Seqs
  import opened SrcFile
  import opened ModuleCore
  import opened Pool

  predicate IsFetched(arena: seq<PoolModule>, m: nat)
    requires m < |arena|
  {
    arena[m].config.isFetched
  }

  /** The test `not m.isfetched`. */
  function NotFetched(arena: seq<PoolModule>): nat -> bool {
    (m: nat) => m < |arena| && !arena[m].config.isFetched
  }

  /** The outcome of `_check_all_fetched`: silence, or an error listing the
      modules still to fetch. */
  datatype FetchCheck = AllFetched | Unfetched(modules: seq<nat>)

  /** `_check_all_fetched`: an error exactly when some module of the pool is
      not fetched; the message lists those modules in pool order. */
  function CheckAllFetched(arena: seq<PoolModule>, pool: seq<nat>): (r: FetchCheck)
    requires InArena(arena, pool)
    ensures r.AllFetched? <==> forall k :: 0 <= k < |pool| ==> IsFetched(arena, pool[k])
    ensures r.Unfetched? ==> |r.modules| > 0
    ensures r.Unfetched? ==> forall m :: m in r.modules <==> m in pool && !IsFetched(arena, m)
  {
    var missing := Seqs.Filter(pool, NotFetched(arena));
    if |missing| == 0 then
      assert forall k :: 0 <= k < |pool| ==> pool[k] !in missing;
      AllFetched
    else
      assert missing[0] in pool;
      Unfetched(missing)
  }

  // ---------------------------------------------------------------------
  // Fetching

  datatype Backend = SvnBackend | GitBackend | GitSubmoduleBackend

  /** The backend `_fetch_module` uses for a source; `None` is the failed
      assertion for any other source. */
  function BackendFor(source: Option<string>): (r: Option<Backend>)
    ensures r.Some? <==> source in {Some("svn"), Some("git"), Some("gitsm")}
    ensures r == Some(GitBackend) <==> source == Some("git")
    ensures r == Some(GitSubmoduleBackend) <==> source == Some("gitsm")
  {
    if source == Some("svn") then Some(SvnBackend)
    else if source == Some("git") then Some(GitBackend)
    else if source == Some("gitsm") then Some(GitSubmoduleBackend)
    else None
  }

  /** The work queue: the module objects, the pool, the stack of modules to
      visit, and the backend calls made so far. */
  datatype FetchState = FetchState(arena: seq<PoolModule>, pool: seq<nat>, queue: seq<nat>, calls: seq<(Backend, nat)>)

  predicate ValidState(s: FetchState) {
    && ValidArena(s.arena) && InArena(s.arena, s.pool) && InArena(s.arena, s.queue)
    && forall j :: 0 <= j < |s.calls| ==> s.calls[j].1 < |s.arena|
  }

  /** What a successful backend fetch leaves behind: the module is fetched. */
  function MarkFetched(m: PoolModule): (r: PoolModule)
    ensures r.config.isFetched && r.subs == m.subs && r.config.url == m.config.url
  {
    m.(config := m.config.(isFetched := true))
  }

  datatype FetchOutcome =
    | Complete(state: FetchState)
    | Pending(state: FetchState)
    | UnknownSource(failed: nat)
    | BackendFailed(failed: nat, url: Option<string>)

  /** `_add` of a child that is not fetched: the pool is left alone when the
      child's URL is present, and the child is appended otherwise. */
  function AddChild(arena: seq<PoolModule>, pool: seq<nat>, c: nat): (added: seq<nat>)
    requires ValidArena(arena) && InArena(arena, pool) && c < |arena| && !arena[c].config.isFetched
    ensures InArena(arena, added) && (added == pool || added == pool + [c])
    ensures DistinctUrls(arena, pool) ==> DistinctUrls(arena, added)
  {
    AddUnfetchedIsAddUnique(arena, pool, c, 0);
    AddUnique(arena, pool, c, 0).value.1
  }

  /** Children that are all not fetched, all naming module objects. */
  predicate AllUnfetched(arena: seq<PoolModule>, pending: seq<nat>) {
    forall j :: 0 <= j < |pending| ==> pending[j] < |arena| && !arena[pending[j]].config.isFetched
  }

  /** `_add` of each child in turn. */
  function AddChildren(arena: seq<PoolModule>, pool: seq<nat>, pending: seq<nat>): (added: seq<nat>)
    requires ValidArena(arena) && InArena(arena, pool) && AllUnfetched(arena, pending)
    ensures InArena(arena, added) && Prefix(pool, added)
    ensures forall k :: |pool| <= k < |added| ==> added[k] in pending
    decreases |pending|
  {
    if |pending| == 0 then pool
    else
      var mid := AddChild(arena, pool, pending[0]);
      assert AllUnfetched(arena, pending[1..]);
      var added := AddChildren(arena, mid, pending[1..]);
      assert added[..|pool|] == added[..|mid|][..|pool|];
      assert forall k :: |mid| <= k < |added| ==> added[k] in pending[1..];
      added
  }

  /** Adding children one by one keeps the URLs of the pool distinct. */
  lemma {:induction false} AddChildrenKeepsUrlsDistinct(arena: seq<PoolModule>, pool: seq<nat>, pending: seq<nat>)
    requires ValidArena(arena) && InArena(arena, pool) && AllUnfetched(arena, pending)
    requires DistinctUrls(arena, pool)
    ensures DistinctUrls(arena, AddChildren(arena, pool, pending))
    decreases |pending|
  {
    if |pending| > 0 {
      assert AllUnfetched(arena, pending[1..]);
      AddChildrenKeepsUrlsDistinct(arena, AddChild(arena, pool, pending[0]), pending[1..]);
    }
  }

  /** The children of a visited module that are not fetched, in order. */
  function PendingChildren(arena: seq<PoolModule>, children: seq<nat>): (pending: seq<nat>)
    ensures AllUnfetched(arena, pending)
    ensures forall x :: x in pending <==> x in children && x < |arena| && !arena[x].config.isFetched
    ensures pending == [] <==> forall x :: x in children && x < |arena| ==> arena[x].config.isFetched
  {
    var pending := Seqs.Filter(children, NotFetched(arena));
    assert forall j :: 0 <= j < |pending| ==> pending[j] in pending;
    assert pending != [] ==> pending[0] in pending;
    pending
  }

  /** The children of a visited module: each one not yet fetched is passed to
      `_add` and pushed on the queue, whether or not `_add` added it; fetched
      children are skipped. The two effects are independent, so the pool is
      computed from the same filtered children that are pushed. */
  function Enqueue(arena: seq<PoolModule>, pool: seq<nat>, queue: seq<nat>, children: seq<nat>): (r: (seq<nat>, seq<nat>))
    requires ValidArena(arena) && InArena(arena, pool) && InArena(arena, queue)
    ensures InArena(arena, r.0) && InArena(arena, r.1) && Prefix(pool, r.0)
    ensures r.1 == queue + Seqs.Filter(children, NotFetched(arena))
  {
    var pending := PendingChildren(arena, children);
    (AddChildren(arena, pool, pending), queue + pending)
  }

  /** The pool grows only by children that were not fetched. */
  lemma EnqueueAddsUnfetchedChildren(arena: seq<PoolModule>, pool: seq<nat>, queue: seq<nat>, children: seq<nat>)
    requires ValidArena(arena) && InArena(arena, pool) && InArena(arena, queue)
    ensures var r := Enqueue(arena, pool, queue, children);
            forall k :: |pool| <= k < |r.0| ==> r.0[k] in children && !IsFetched(arena, r.0[k])
  {
  }

  /** Queuing children keeps the URLs of the pool distinct. */
  lemma EnqueueKeepsUrlsDistinct(arena: seq<PoolModule>, pool: seq<nat>, queue: seq<nat>, children: seq<nat>)
    requires ValidArena(arena) && InArena(arena, pool) && InArena(arena, queue)
    requires DistinctUrls(arena, pool)
    ensures DistinctUrls(arena, Enqueue(arena, pool, queue, children).0)
  {
    AddChildrenKeepsUrlsDistinct(arena, pool, PendingChildren(arena, children));
  }

  /** Children that are all fetched leave the pool and the queue alone. */
  lemma EnqueueFetchedChildren(arena: seq<PoolModule>, pool: seq<nat>, queue: seq<nat>, children: seq<nat>)
    requires ValidArena(arena) && InArena(arena, pool) && InArena(arena, queue)
    requires forall j :: 0 <= j < |children| ==> children[j] < |arena| && IsFetched(arena, children[j])
    ensures Enqueue(arena, pool, queue, children) == (pool, queue)
  {
    var pending := PendingChildren(arena, children);
    assert forall x :: x in children && x < |arena| ==> arena[x].config.isFetched;
    assert pending == [] && queue + pending == queue;
  }

  /** Modules of the pool that are not fetched stay queued: the old ones were
      queued already and the new ones are pushed. */
  lemma EnqueueKeepsQueued(arena: seq<PoolModule>, pool: seq<nat>, queue: seq<nat>, children: seq<nat>)
    requires ValidArena(arena) && InArena(arena, pool) && InArena(arena, queue)
    requires forall k :: 0 <= k < |pool| ==> IsFetched(arena, pool[k]) || pool[k] in queue
    ensures var r := Enqueue(arena, pool, queue, children);
            forall k :: 0 <= k < |r.0| ==> IsFetched(arena, r.0[k]) || r.0[k] in r.1
  {
    var r := Enqueue(arena, pool, queue, children);
    EnqueueAddsUnfetchedChildren(arena, pool, queue, children);
    forall k | 0 <= k < |r.0| ensures IsFetched(arena, r.0[k]) || r.0[k] in r.1 {
      if k < |pool| {
        assert r.0[k] == pool[k];
      } else {
        assert NotFetched(arena)(r.0[k]);
        assert r.0[k] in Seqs.Filter(children, NotFetched(arena));
      }
    }
  }

  /** The pool's modules that are not fetched are all waiting in the queue. */
  predicate UnfetchedQueued(s: FetchState)
    requires ValidState(s)
  {
    forall k :: 0 <= k < |s.pool| ==> IsFetched(s.arena, s.pool[k]) || s.pool[k] in s.queue
  }

  /** Marking a module fetched keeps every URL, so distinctness carries over. */
  lemma MarkKeepsUrlsDistinct(arena: seq<PoolModule>, pool: seq<nat>, cur: nat)
    requires InArena(arena, pool) && cur < |arena| && DistinctUrls(arena, pool)
    ensures DistinctUrls(arena[cur := MarkFetched(arena[cur])], pool)
  {
    var marked := arena[cur := MarkFetched(arena[cur])];
    assert forall i :: 0 <= i < |arena| ==> Url(marked, i) == Url(arena, i);
  }

  /** The second half of an iteration: the children of the visited module
      are examined against the module objects of `s`, and the queue continues
      from `rest`. */
  function VisitChildren(s: FetchState, rest: seq<nat>, children: seq<nat>): (t: FetchState)
    requires ValidState(s) && InArena(s.arena, rest)
    ensures ValidState(t) && t.arena == s.arena && t.calls == s.calls
    ensures Prefix(s.pool, t.pool) && Prefix(rest, t.queue)
    ensures (forall k :: 0 <= k < |s.pool| ==> IsFetched(s.arena, s.pool[k]) || s.pool[k] in rest) ==>
              UnfetchedQueued(t)
    ensures DistinctUrls(s.arena, s.pool) ==> DistinctUrls(t.arena, t.pool)
    ensures children == [] ==> t == s.(queue := rest)
  {
    var (pool, queue) := Enqueue(s.arena, s.pool, rest, children);
    assert DistinctUrls(s.arena, s.pool) ==> DistinctUrls(s.arena, pool) by {
      if DistinctUrls(s.arena, s.pool) {
        EnqueueKeepsUrlsDistinct(s.arena, s.pool, rest, children);
      }
    }
    assert (forall k :: 0 <= k < |s.pool| ==> IsFetched(s.arena, s.pool[k]) || s.pool[k] in rest) ==>
             forall k :: 0 <= k < |pool| ==> IsFetched(s.arena, pool[k]) || pool[k] in queue by {
      if forall k :: 0 <= k < |s.pool| ==> IsFetched(s.arena, s.pool[k]) || s.pool[k] in rest {
        EnqueueKeepsQueued(s.arena, s.pool, rest, children);
      }
    }
    assert children == [] ==> pool == s.pool && queue == rest by {
      if children == [] {
        EnqueueFetchedChildren(s.arena, s.pool, rest, children);
      }
    }
    FetchState(s.arena, pool, queue, s.calls)
  }

  /** The first half of an iteration on an unfetched module: backend `b`
      fetched the last module of the queue, which is now marked fetched. */
  function Fetch(s: FetchState, b: Backend): (t: FetchState)
    requires ValidState(s) && |s.queue| > 0
    ensures var cur := s.queue[|s.queue| - 1];
            && ValidState(t) && t.pool == s.pool && t.queue == s.queue
            && t.arena == s.arena[cur := MarkFetched(s.arena[cur])] && t.calls == s.calls + [(b, cur)]
    ensures DistinctUrls(s.arena, s.pool) ==> DistinctUrls(t.arena, t.pool)
    ensures UnfetchedQueued(s) ==>
              forall k :: 0 <= k < |s.pool| ==> IsFetched(t.arena, s.pool[k]) || s.pool[k] in s.queue[..|s.queue| - 1]
  {
    var cur := s.queue[|s.queue| - 1];
    var rest := s.queue[..|s.queue| - 1];
    var arena := s.arena[cur := MarkFetched(s.arena[cur])];
    assert s.queue == rest + [cur];
    assert ValidArena(arena) by {
      forall i, j | 0 <= i < |arena| && 0 <= j < |arena[i].subs| ensures arena[i].subs[j] < |arena| {
        assert arena[i].subs == s.arena[i].subs;
      }
    }
    assert DistinctUrls(s.arena, s.pool) ==> DistinctUrls(arena, s.pool) by {
      if DistinctUrls(s.arena, s.pool) {
        MarkKeepsUrlsDistinct(s.arena, s.pool, cur);
      }
    }
    assert UnfetchedQueued(s) ==>
             forall k :: 0 <= k < |s.pool| ==> IsFetched(arena, s.pool[k]) || s.pool[k] in rest by {
      if UnfetchedQueued(s) {
        forall k | 0 <= k < |s.pool| ensures IsFetched(arena, s.pool[k]) || s.pool[k] in rest {
          if s.pool[k] != cur {
            assert arena[s.pool[k]] == s.arena[s.pool[k]];
          }
        }
      }
    }
    FetchState(arena, s.pool, s.queue, s.calls + [(b, cur)])
  }

  /** One iteration of the loop: pop the last module; a fetched one only has
      its children examined, any other one is fetched with the backend of its
      source first. */
  function Step(s: FetchState, ok: (Backend, nat) -> bool): (r: FetchOutcome)
    requires ValidState(s) && |s.queue| > 0
    ensures !r.Complete?
    ensures var cur := s.queue[|s.queue| - 1];
            && (r.UnknownSource? ==> r.failed == cur && !IsFetched(s.arena, cur)
                                      && BackendFor(s.arena[cur].config.source).None?)
            && (r.BackendFailed? ==> r.failed == cur && !IsFetched(s.arena, cur)
                                      && BackendFor(s.arena[cur].config.source).Some?
                                      && !ok(BackendFor(s.arena[cur].config.source).value, cur)
                                      && r.url == s.arena[cur].config.url)
    ensures r.Pending? ==> ValidState(r.state) && Prefix(s.pool, r.state.pool)
                           && Prefix(s.queue[..|s.queue| - 1], r.state.queue)
    ensures r.Pending? && IsFetched(s.arena, s.queue[|s.queue| - 1]) ==>
              r.state.arena == s.arena && r.state.calls == s.calls
    ensures r.Pending? && !IsFetched(s.arena, s.queue[|s.queue| - 1]) ==>
              var cur := s.queue[|s.queue| - 1];
              && BackendFor(s.arena[cur].config.source).Some?
              && ok(BackendFor(s.arena[cur].config.source).value, cur)
              && r.state.arena == s.arena[cur := MarkFetched(s.arena[cur])]
              && r.state.calls == s.calls + [(BackendFor(s.arena[cur].config.source).value, cur)]
    ensures r.Pending? && UnfetchedQueued(s) ==> UnfetchedQueued(r.state)
    ensures r.Pending? && DistinctUrls(s.arena, s.pool) ==> DistinctUrls(r.state.arena, r.state.pool)
    ensures r.Pending? && s.arena[s.queue[|s.queue| - 1]].subs == [] ==>
              r.state.pool == s.pool && r.state.queue == s.queue[..|s.queue| - 1]
  {
    var cur := s.queue[|s.queue| - 1];
    var rest := s.queue[..|s.queue| - 1];
    var m := s.arena[cur];
    assert UnfetchedQueued(s) ==> s.queue == rest + [cur];
    if m.config.isFetched then
      Pending(VisitChildren(s, rest, m.subs))
    else
      match BackendFor(m.config.source)
      case None => UnknownSource(cur)
      case Some(b) =>
        if !ok(b, cur) then BackendFailed(cur, m.config.url)
        else
          Pending(VisitChildren(Fetch(s, b), rest, m.subs))
  }

  /** The modules a run has fetched: each was not fetched at the start, was
      fetched with the backend of its source, is fetched now and appears once. */
  predicate CallsSound(a0: seq<PoolModule>, s: FetchState, ok: (Backend, nat) -> bool)
    requires ValidState(s) && |s.arena| == |a0|
  {
    && (forall j :: 0 <= j < |s.calls| ==>
          && !a0[s.calls[j].1].config.isFetched
          && IsFetched(s.arena, s.calls[j].1)
          && BackendFor(a0[s.calls[j].1].config.source) == Some(s.calls[j].0)
          && ok(s.calls[j].0, s.calls[j].1))
    && (forall j, l :: 0 <= j < l < |s.calls| ==> s.calls[j].1 != s.calls[l].1)
  }

  predicate Called(calls: seq<(Backend, nat)>, m: nat) {
    exists j :: 0 <= j < |calls| && calls[j].1 == m
  }

  /** Module objects change only by being fetched, and only those a backend
      fetched. */
  predicate OnlyCalledChanged(a0: seq<PoolModule>, s: FetchState)
    requires |s.arena| == |a0|
  {
    forall i :: 0 <= i < |a0| ==>
      s.arena[i] == a0[i] || (s.arena[i] == MarkFetched(a0[i]) && Called(s.calls, i))
  }

  /** What holds of the work queue between iterations. */
  predicate FetchInvariant(a0: seq<PoolModule>, pool0: seq<nat>, ok: (Backend, nat) -> bool, s: FetchState) {
    && ValidState(s) && |s.arena| == |a0| && Prefix(pool0, s.pool)
    && CallsSound(a0, s, ok) && OnlyCalledChanged(a0, s) && UnfetchedQueued(s)
  }

  /** A module not fetched now is as it was at the start and was never fetched. */
  lemma NotFetchedUnchanged(a0: seq<PoolModule>, pool0: seq<nat>, ok: (Backend, nat) -> bool, s: FetchState, m: nat)
    requires FetchInvariant(a0, pool0, ok, s) && m < |a0| && !IsFetched(s.arena, m)
    ensures s.arena[m] == a0[m] && !Called(s.calls, m)
  {
  }

  /** A backend call on a module not fetched before keeps the calls sound. */
  lemma FetchKeepsCallsSound(a0: seq<PoolModule>, s: FetchState, ok: (Backend, nat) -> bool, t: FetchState, cur: nat)
    requires ValidState(s) && |s.arena| == |a0| && CallsSound(a0, s, ok)
    requires cur < |a0| && s.arena[cur] == a0[cur] && !a0[cur].config.isFetched && !Called(s.calls, cur)
    requires BackendFor(a0[cur].config.source).Some? && ok(BackendFor(a0[cur].config.source).value, cur)
    requires ValidState(t) && t.arena == s.arena[cur := MarkFetched(s.arena[cur])]
    requires t.calls == s.calls + [(BackendFor(a0[cur].config.source).value, cur)]
    ensures CallsSound(a0, t, ok)
  {
    forall j | 0 <= j < |t.calls|
      ensures && !a0[t.calls[j].1].config.isFetched
              && IsFetched(t.arena, t.calls[j].1)
              && BackendFor(a0[t.calls[j].1].config.source) == Some(t.calls[j].0)
              && ok(t.calls[j].0, t.calls[j].1)
    {
      if j < |s.calls| {
        assert t.calls[j] == s.calls[j];
      }
    }
    forall j, l | 0 <= j < l < |t.calls| ensures t.calls[j].1 != t.calls[l].1 {
      if l == |s.calls| {
        assert t.calls[j] == s.calls[j];
      } else {
        assert t.calls[j] == s.calls[j] && t.calls[l] == s.calls[l];
      }
    }
  }

  /** Marking the called module fetched changes only a called module. */
  lemma FetchKeepsOnlyCalledChanged(a0: seq<PoolModule>, s: FetchState, t: FetchState, cur: nat, b: Backend)
    requires |s.arena| == |a0| && OnlyCalledChanged(a0, s) && cur < |a0| && s.arena[cur] == a0[cur]
    requires t.arena == s.arena[cur := MarkFetched(s.arena[cur])] && t.calls == s.calls + [(b, cur)]
    ensures OnlyCalledChanged(a0, t)
  {
    forall i | 0 <= i < |a0|
      ensures t.arena[i] == a0[i] || (t.arena[i] == MarkFetched(a0[i]) && Called(t.calls, i))
    {
      if i == cur {
        assert t.calls[|s.calls|].1 == cur;
      } else if s.arena[i] != a0[i] {
        var j :| 0 <= j < |s.calls| && s.calls[j].1 == i;
        assert t.calls[j] == s.calls[j];
      }
    }
  }

  lemma {:induction false} StepKeepsInvariant(a0: seq<PoolModule>, pool0: seq<nat>, ok: (Backend, nat) -> bool, s: FetchState)
    requires FetchInvariant(a0, pool0, ok, s) && |s.queue| > 0 && Step(s, ok).Pending?
    ensures FetchInvariant(a0, pool0, ok, Step(s, ok).state)
  {
    var cur := s.queue[|s.queue| - 1];
    var t := Step(s, ok).state;
    assert Prefix(pool0, t.pool) by {
      assert t.pool[..|pool0|] == t.pool[..|s.pool|][..|pool0|];
    }
    if !IsFetched(s.arena, cur) {
      NotFetchedUnchanged(a0, pool0, ok, s, cur);
      FetchKeepsCallsSound(a0, s, ok, t, cur);
      FetchKeepsOnlyCalledChanged(a0, s, t, cur, BackendFor(a0[cur].config.source).value);
    } else {
      assert t.arena == s.arena && t.calls == s.calls;
      assert CallsSound(a0, t, ok);
      assert OnlyCalledChanged(a0, t);
    }
  }

  /** Once every module object is fetched, an iteration only pops the queue. */
  lemma StepWhenAllFetched(s: FetchState, ok: (Backend, nat) -> bool)
    requires ValidState(s) && |s.queue| > 0
    requires forall i :: 0 <= i < |s.arena| ==> s.arena[i].config.isFetched
    ensures Step(s, ok) == Pending(s.(queue := s.queue[..|s.queue| - 1]))
  {
    var cur := s.queue[|s.queue| - 1];
    var rest := s.queue[..|s.queue| - 1];
    EnqueueFetchedChildren(s.arena, s.pool, rest, s.arena[cur].subs);
  }

  /** `_fetch_all`, with at most `fuel` iterations: the source's loop need not
      end, and `Pending` is what remains when the bound is reached. */
  method FetchAll(arena: seq<PoolModule>, pool: seq<nat>, ok: (Backend, nat) -> bool, fuel: nat) returns (r: FetchOutcome)
    requires ValidArena(arena) && InArena(arena, pool)
    ensures (r.Complete? || r.Pending?) ==> FetchInvariant(arena, pool, ok, r.state)
    ensures r.Complete? ==> r.state.queue == [] && CheckAllFetched(r.state.arena, r.state.pool).AllFetched?
    ensures r.UnknownSource? ==> r.failed < |arena| && !arena[r.failed].config.isFetched
                                 && BackendFor(arena[r.failed].config.source).None?
    ensures r.BackendFailed? ==> r.failed < |arena| && !arena[r.failed].config.isFetched
                                 && BackendFor(arena[r.failed].config.source).Some?
                                 && !ok(BackendFor(arena[r.failed].config.source).value, r.failed)
                                 && r.url == arena[r.failed].config.url
    ensures (r.Complete? || r.Pending?) && DistinctUrls(arena, pool) ==> DistinctUrls(r.state.arena, r.state.pool)
    ensures (forall i :: 0 <= i < |arena| ==> arena[i].config.isFetched) && fuel >= |pool| ==>
              r == Complete(FetchState(arena, pool, [], []))
  {
    var s := FetchState(arena, pool, pool, []);
    var allFetched := forall i :: 0 <= i < |arena| ==> arena[i].config.isFetched;
    var steps := 0;
    while |s.queue| > 0 && steps < fuel
      invariant FetchInvariant(arena, pool, ok, s)
      invariant DistinctUrls(arena, pool) ==> DistinctUrls(s.arena, s.pool)
      invariant allFetched ==> s.arena == arena && s.pool == pool && s.calls == [] && |s.queue| + steps == |pool|
      invariant steps <= fuel
      decreases fuel - steps
    {
      var next := Step(s, ok);
      if !next.Pending? {
        NotFetchedUnchanged(arena, pool, ok, s, s.queue[|s.queue| - 1]);
        return next;
      }
      StepKeepsInvariant(arena, pool, ok, s);
      if allFetched {
        StepWhenAllFetched(s, ok);
      }
      s := next.state;
      steps := steps + 1;
    }
    if |s.queue| > 0 {
      return Pending(s);
    }
    return Complete(s);
  }

  // ---------------------------------------------------------------------
  // The same URL fetched twice

  /** A fetched top module lists two module objects for the same URL, neither
      fetched: the second is not added to the pool but is queued anyway. */
  function Diamond(): seq<PoolModule> {
    [Remote("top", true, [1, 2]), Remote("x", false, []), Remote("x", false, [])]
  }

  function AlwaysFetches(b: Backend, m: nat): bool {
    true
  }

  lemma DiamondValid()
    ensures ValidArena(Diamond())
  {
  }

  lemma DiamondAddsFirstCopy()
    ensures ValidArena(Diamond())
    ensures AddChild(Diamond(), [0], 1) == [0, 1]
  {
    DiamondValid();
    var arena := Diamond();
    assert !Contains(arena, [0], 1) by {
      assert Url(arena, [0][0]) == Some("top") && Url(arena, 1) == Some("x");
      assert "top" != "x" by {
        assert "top"[0] != "x"[0];
      }
    }
    assert AddUnique(arena, [0], 1, 0) == Some((true, [0] + [1]));
    assert [0] + [1] == [0, 1];
  }

  lemma DiamondSkipsSecondCopy()
    ensures ValidArena(Diamond())
    ensures AddChild(Diamond(), [0, 1], 2) == [0, 1]
  {
    DiamondValid();
    var arena := Diamond();
    assert Contains(arena, [0, 1], 2) by {
      assert Url(arena, [0, 1][1]) == Url(arena, 2);
    }
    assert AddUnique(arena, [0, 1], 2, 0) == Some((false, [0, 1]));
  }

  lemma DiamondChildren()
    ensures ValidArena(Diamond())
    ensures PendingChildren(Diamond(), [1, 2]) == [1, 2]
    ensures AddChildren(Diamond(), [0], [1, 2]) == [0, 1]
  {
    DiamondValid();
    var arena := Diamond();
    var children: seq<nat> := [1, 2];
    Seqs.FilterCons(children, NotFetched(arena));
    Seqs.FilterCons(children[1..], NotFetched(arena));
    assert children[1..][1..] == [];
    DiamondAddsFirstCopy();
    DiamondSkipsSecondCopy();
    assert AllUnfetched(arena, children);
    assert children[1..] == [2] && [2][1..] == [];
    assert AddChildren(arena, [0, 1], []) == [0, 1];
    assert AddChildren(arena, [0, 1], [2]) == [0, 1];
  }

  /** The first iteration queues both copies but adds only one to the pool. */
  lemma DiamondFirstStep()
    ensures ValidArena(Diamond())
    ensures var s := FetchState(Diamond(), [0], [0], []);
            ValidState(s) && Step(s, AlwaysFetches) == Pending(FetchState(Diamond(), [0, 1], [1, 2], []))
  {
    DiamondChildren();
    var arena := Diamond();
    assert [0][..0] == [] && [] + [1, 2] == [1, 2];
    assert Enqueue(arena, [0], [], [1, 2]) == ([0, 1], [1, 2]);
  }

  /** The module objects once the backend has fetched module `i`. */
  function FetchedCopy(arena: seq<PoolModule>, i: nat): (r: seq<PoolModule>)
    requires i < |arena|
    ensures |r| == |arena| && r[i].config.isFetched
    ensures forall k :: 0 <= k < |arena| ==>
              r[k].subs == arena[k].subs && r[k].config.url == arena[k].config.url && r[k].config.source == arena[k].config.source
    ensures forall k :: 0 <= k < |arena| && k != i ==> r[k] == arena[k]
  {
    arena[i := MarkFetched(arena[i])]
  }

  lemma FetchedCopyValid(arena: seq<PoolModule>, i: nat)
    requires i < |arena| && ValidArena(arena)
    ensures ValidArena(FetchedCopy(arena, i))
  {
    var r := FetchedCopy(arena, i);
    forall k, j | 0 <= k < |r| && 0 <= j < |r[k].subs| ensures r[k].subs[j] < |r| {
      assert r[k].subs == arena[k].subs;
    }
  }

  /** The second iteration fetches the last queued copy. */
  lemma DiamondSecondStep()
    ensures ValidState(FetchState(Diamond(), [0, 1], [1, 2], []))
    ensures Step(FetchState(Diamond(), [0, 1], [1, 2], []), AlwaysFetches)
            == Pending(FetchState(FetchedCopy(Diamond(), 2), [0, 1], [1], [(GitBackend, 2)]))
  {
    DiamondValid();
    var arena := Diamond();
    var s := FetchState(arena, [0, 1], [1, 2], []);
    assert ValidState(s);
    assert s.queue[|s.queue| - 1] == 2 && s.queue[..|s.queue| - 1] == [1];
    assert arena[2].subs == [] && !arena[2].config.isFetched;
    assert BackendFor(arena[2].config.source) == Some(GitBackend);
    assert Step(s, AlwaysFetches).Pending?;
  }

  /** The third iteration fetches the other copy, with the same URL. */
  lemma DiamondThirdStep()
    ensures ValidState(FetchState(FetchedCopy(Diamond(), 2), [0, 1], [1], [(GitBackend, 2)]))
    ensures Step(FetchState(FetchedCopy(Diamond(), 2), [0, 1], [1], [(GitBackend, 2)]), AlwaysFetches)
            == Pending(FetchState(FetchedCopy(FetchedCopy(Diamond(), 2), 1), [0, 1], [], [(GitBackend, 2), (GitBackend, 1)]))
  {
    DiamondValid();
    FetchedCopyValid(Diamond(), 2);
    var arena := FetchedCopy(Diamond(), 2);
    var s := FetchState(arena, [0, 1], [1], [(GitBackend, 2)]);
    assert ValidState(s);
    assert s.queue[|s.queue| - 1] == 1 && s.queue[..|s.queue| - 1] == [];
    assert arena[1] == Diamond()[1];
    assert arena[1].subs == [] && !arena[1].config.isFetched;
    assert BackendFor(arena[1].config.source) == Some(GitBackend);
    assert Step(s, AlwaysFetches).Pending?;
    assert [(GitBackend, 2)] + [(GitBackend, 1)] == [(GitBackend, 2), (GitBackend, 1)];
  }

  /** After that first step (`DiamondFirstStep`) two backend calls fetch the
      same URL: fetching happens at most once per module object, not once per
      URL. */
  lemma FetchesSameUrlTwice()
    ensures var s := FetchState(Diamond(), [0, 1], [1, 2], []);
            && ValidState(s) && Step(s, AlwaysFetches).Pending?
            && var t := Step(s, AlwaysFetches).state;
               && t.queue == [1] && t.calls == [(GitBackend, 2)]
               && Step(t, AlwaysFetches).Pending?
               && Step(t, AlwaysFetches).state.queue == []
               && Step(t, AlwaysFetches).state.calls == [(GitBackend, 2), (GitBackend, 1)]
    ensures Url(Diamond(), 1) == Url(Diamond(), 2)
  {
    DiamondSecondStep();
    DiamondThirdStep();
  }

  // ---------------------------------------------------------------------
  // clean and update

  /** A module `clean` removes: fetched, from git, gitsm or svn. */
  predicate Removable(arena: seq<PoolModule>, m: nat) {
    m < |arena| && arena[m].config.source in {Some("git"), Some("gitsm"), Some("svn")} && arena[m].config.isFetched
  }

  function RemovableTest(arena: seq<PoolModule>): nat -> bool {
    (m: nat) => Removable(arena, m)
  }

  /** `clean`: the modules whose local copy is removed, in removal order. */
  function Clean(arena: seq<PoolModule>, pool: seq<nat>): (r: seq<nat>)
    ensures |r| <= |pool|
    ensures forall m :: m in r <==> m in pool && Removable(arena, m)
  {
    var kept := Seqs.Filter(pool, RemovableTest(arena));
    var r := Seqs.Reverse(kept);
    assert forall m :: m in r <==> m in kept by {
      forall m | m in kept ensures m in r {
        var k :| 0 <= k < |kept| && kept[k] == m;
        assert r[|kept| - 1 - k] == m;
      }
    }
    r
  }

  /** Each removable module is removed as many times as it is in the pool. */
  lemma CleanCounts(arena: seq<PoolModule>, pool: seq<nat>)
    ensures forall m :: multiset(Clean(arena, pool))[m] == (if Removable(arena, m) then multiset(pool)[m] else 0)
  {
    Seqs.FilterCounts(pool, RemovableTest(arena));
    Seqs.ReverseCounts(Seqs.Filter(pool, RemovableTest(arena)));
  }

  /** Modules are removed in the reverse of their pool order. */
  lemma CleanReversesPoolOrder(arena: seq<PoolModule>, pool: seq<nat>, a: nat, b: nat)
    requires a < b < |pool| && Removable(arena, pool[a]) && Removable(arena, pool[b])
    ensures exists i, j :: 0 <= i < j < |Clean(arena, pool)|
                           && Clean(arena, pool)[i] == pool[b] && Clean(arena, pool)[j] == pool[a]
  {
    var kept := Seqs.Filter(pool, RemovableTest(arena));
    Seqs.FilterKeepsOrder(pool, RemovableTest(arena), a, b);
    var ia, ib :| 0 <= ia < ib < |kept| && kept[ia] == pool[a] && kept[ib] == pool[b];
    var r := Clean(arena, pool);
    assert r[|kept| - 1 - ib] == pool[b];
    assert r[|kept| - 1 - ia] == pool[a];
  }

  /** A fetched module "a" with one fetched submodule "b". */
  function ParentChild(): seq<PoolModule> {
    [Remote("a", true, [1]), Remote("b", true, [])]
  }

  lemma ParentChildValid()
    ensures ValidArena(ParentChild())
  {
  }

  lemma ParentChildSubmodule(recheck: bool)
    ensures ValidArena(ParentChild())
    ensures InsertAll(ParentChild(), [], [1], 1, recheck) == Some([1])
  {
    ParentChildValid();
    var arena := ParentChild();
    assert !Contains(arena, [], 1);
    assert InsertAll(arena, [], [], 0, recheck) == Some([]);
    assert Insert(arena, [], 1, 1, recheck) == Some((true, [1]));
    assert InsertAll(arena, [1], [], 1, recheck) == Some([1]);
  }

  lemma ParentChildUrlsDiffer()
    ensures ValidArena(ParentChild())
    ensures !Contains(ParentChild(), [], 0) && !Contains(ParentChild(), [1], 0)
  {
    ParentChildValid();
    var arena := ParentChild();
    assert Url(arena, 1) == Some("b") && Url(arena, 0) == Some("a");
    assert "b" != "a" by {
      assert "b"[0] != "a"[0];
    }
    forall k | 0 <= k < |[1]|
      ensures Url(arena, [1][k]) != Url(arena, 0)
    {
      assert [1][k] == 1;
    }
  }

  lemma ParentChildInserted(recheck: bool)
    ensures ValidArena(ParentChild())
    ensures Insert(ParentChild(), [], 0, 2, recheck) == Some((true, [1, 0]))
  {
    var arena := ParentChild();
    ParentChildSubmodule(recheck);
    ParentChildUrlsDiffer();
    assert arena[0].subs == [1];
    assert Insert(arena, [], 0, 2, recheck) == Some((true, [1] + [0]));
    assert [1] + [0] == [1, 0];
  }

  /** `_add` as written and corrected agree here: the child is put first. */
  lemma ParentChildAdded()
    ensures ValidArena(ParentChild())
    ensures Add(ParentChild(), [], 0, 2) == Some((true, [1, 0]))
    ensures AddUnique(ParentChild(), [], 0, 2) == Some((true, [1, 0]))
  {
    ParentChildInserted(false);
    ParentChildInserted(true);
  }

  lemma ParentChildCleaned()
    ensures Clean(ParentChild(), [1, 0]) == [0, 1]
  {
    var pool: seq<nat> := [1, 0];
    assert Removable(ParentChild(), 1) && Removable(ParentChild(), 0);
    assert pool[1..] == [0] && pool[1..][1..] == [];
    assert Seqs.Filter(pool, RemovableTest(ParentChild())) == pool;
    assert Seqs.Reverse(pool) == [0, 1];
  }

  /** Removal follows the pool, not the module tree: when a fetched module A
      with a fetched submodule B is added, B comes first in the pool, so
      `clean` removes the parent A before its child B. */
  lemma CleanCanRemoveParentFirst()
    ensures var arena := ParentChild();
            && ValidArena(arena)
            && arena[0].subs == [1]
            && Add(arena, [], 0, 2) == Some((true, [1, 0]))
            && Clean(arena, [1, 0]) == [0, 1]
  {
    ParentChildAdded();
    ParentChildCleaned();
  }

  /** Every module `clean` removes has a fetch backend, and a local or
      unfetched module is never removed. */
  lemma CleanRemovesOnlyFetchedRemotes(arena: seq<PoolModule>, pool: seq<nat>, m: nat)
    requires m in Clean(arena, pool)
    ensures m < |arena| && arena[m].config.isFetched
    ensures BackendFor(arena[m].config.source).Some?
    ensures arena[m].config.source != Some("local")
  {
  }

  /** `update`: the modules whose git backend is asked to update, in pool
      order: the fetched ones from git. */
  function Update(arena: seq<PoolModule>, pool: seq<nat>): (r: seq<nat>)
    ensures |r| <= |pool|
    ensures forall m :: m in r <==>
              m in pool && m < |arena| && arena[m].config.isFetched && arena[m].config.source == Some("git")
  {
    Seqs.Filter(pool, UpdatableTest(arena))
  }

  predicate Updatable(arena: seq<PoolModule>, m: nat) {
    m < |arena| && arena[m].config.isFetched && arena[m].config.source == Some("git")
  }

  function UpdatableTest(arena: seq<PoolModule>): nat -> bool {
    (m: nat) => Updatable(arena, m)
  }

  /** Each updatable module is updated as many times as it is in the pool. */
  lemma UpdateCounts(arena: seq<PoolModule>, pool: seq<nat>)
    ensures forall m :: multiset(Update(arena, pool))[m] == (if Updatable(arena, m) then multiset(pool)[m] else 0)
  {
    Seqs.FilterCounts(pool, UpdatableTest(arena));
  }

  /** Modules are updated in their pool order. */
  lemma UpdateKeepsPoolOrder(arena: seq<PoolModule>, pool: seq<nat>, a: nat, b: nat)
    requires a < b < |pool| && Updatable(arena, pool[a]) && Updatable(arena, pool[b])
    ensures exists i, j :: 0 <= i < j < |Update(arena, pool)|
                           && Update(arena, pool)[i] == pool[a] && Update(arena, pool)[j] == pool[b]
  {
    Seqs.FilterKeepsOrder(pool, UpdatableTest(arena), a, b);
    var r := Update(arena, pool);
    var i, j :| 0 <= i < j < |r| && r[i] == pool[a] && r[j] == pool[b];
  }

  /** A module that is updated would also be removed by `clean`, and it is
      updated with the backend that fetched it. */
  lemma UpdatedAreRemovable(arena: seq<PoolModule>, pool: seq<nat>, m: nat)
    requires m in Update(arena, pool)
    ensures m in Clean(arena, pool)
    ensures BackendFor(arena[m].config.source) == Some(GitBackend)
  {
  }

  // ---------------------------------------------------------------------
  // list_files output

  /** The text `list_files` prints for the dependency-sorted paths. */
  function ListFilesText(paths: seq<string>, reverse: bool, delimiter: Option<string>): (text: string)
    ensures |paths| == 0 ==> text == ""
  {
    Join(if reverse then Seqs.Reverse(paths) else paths, delimiter.GetOr("\n"))
  }

  /** With a one-character delimiter that no path contains, splitting the
      output on it gives back the paths, reversed when asked; the default
      delimiter is a newline. */
  lemma ListFilesRoundTrip(paths: seq<string>, reverse: bool, c: char)
    requires |paths| >= 1
    requires forall k :: 0 <= k < |paths| ==> c !in paths[k]
    ensures Split(ListFilesText(paths, reverse, Some([c])), c) == (if reverse then Seqs.Reverse(paths) else paths)
    ensures ListFilesText(paths, reverse, None) == ListFilesText(paths, reverse, Some("\n"))
  {
    var ordered := if reverse then Seqs.Reverse(paths) else paths;
    assert forall k :: 0 <= k < |ordered| ==> c !in ordered[k] by {
      if reverse {
        forall k | 0 <= k < |ordered| ensures c !in ordered[k] {
          assert ordered[k] == paths[|paths| - 1 - k];
        }
      }
    }
    SplitJoin(ordered, c);
  }

  // ---------------------------------------------------------------------
  // The Quartus IP file

  /** The file type `_write_qip` gives a file class. */
  function QipType(k: FileKind): (t: string)
    ensures t == "VHDL_FILE" <==> k == VHDL
    ensures t == "VERILOG_FILE" <==> IsA(k, Verilog)
    ensures t == "IP_FILE" <==> k == IP
    ensures t == "QSYS_FILE" <==> k == QSYS
    ensures t == "MISC_FILE" <==> k !in {VHDL, Verilog, SV, IP, QSYS}
  {
    if k == VHDL then "VHDL_FILE"
    else if IsA(k, Verilog) then "VERILOG_FILE"
    else if k == IP then "IP_FILE"
    else if k == QSYS then "QSYS_FILE"
    else "MISC_FILE"
  }

  /** One assignment of the IP file; only source files carry a library. */
  function QipLine(f: HdlFile, relPath: string -> string): (r: Result<string>)
    ensures r.Ok? <==> f.library.Some?
  {
    match f.library
    case None => Err("'" + f.path + "' has no attribute 'library'")
    case Some(lib) =>
      Ok("set_global_assignment -library \"" + lib + "\" -name " + QipType(f.kind) + "  \"" + relPath(f.path) + "\"")
  }

  /** The lines of the IP file, one per file in list order. */
  function QipLines(files: seq<HdlFile>, relPath: string -> string): (r: Result<seq<string>>)
    ensures r.Ok? <==> forall k :: 0 <= k < |files| ==> files[k].library.Some?
    ensures r.Ok? ==> |r.value| == |files| && forall k :: 0 <= k < |files| ==> r.value[k] == QipLine(files[k], relPath).value
  {
    if |files| == 0 then Ok([])
    else
      match (QipLine(files[0], relPath), QipLines(files[1..], relPath))
      case (Err(e), _) => Err(e)
      case (_, Err(e)) =>
        assert exists k :: 1 <= k < |files| && files[k] == files[1..][k - 1] && files[k].library.None?;
        Err(e)
      case (Ok(first), Ok(rest)) =>
        assert forall k :: 1 <= k < |files| ==> files[k] == files[1..][k - 1];
        Ok([first] + rest)
  }

  /** `_write_qip`: the text written to the IP file. */
  function QipText(files: seq<HdlFile>, relPath: string -> string): (r: Result<string>)
    ensures r.Ok? <==> forall k :: 0 <= k < |files| ==> files[k].library.Some?
    ensures r.Ok? ==> |r.value| > 0 && r.value[|r.value| - 1] == '\n'
  {
    var lines :- QipLines(files, relPath);
    Ok(Join(lines, "\n") + "\n")
  }

  /** The assignment for a file with a library, which holds no newline when
      neither the library nor the path does. */
  lemma QipLineText(f: HdlFile, relPath: string -> string)
    requires f.library.Some?
    ensures QipLine(f, relPath).value ==
              "set_global_assignment -library \"" + f.library.value + "\" -name "
              + QipType(f.kind) + "  \"" + relPath(f.path) + "\""
    ensures '\n' !in f.library.value && '\n' !in relPath(f.path) ==> '\n' !in QipLine(f, relPath).value
  {
    QipTypeHasNoNewline(f.kind);
    QipFixedPartsHaveNoNewline();
  }

  lemma QipTypeHasNoNewline(k: FileKind)
    ensures '\n' !in QipType(k)
  {
  }

  lemma QipFixedPartsHaveNoNewline()
    ensures '\n' !in "set_global_assignment -library \""
    ensures '\n' !in "\" -name " && '\n' !in "  \"" && '\n' !in "\""
  {
  }

  /** When no library and no path contains a newline, the IP file has one
      line per file, in list order, each naming its library, its type and its
      path. */
  lemma QipTextHasOneLinePerFile(files: seq<HdlFile>, relPath: string -> string)
    requires |files| >= 1
    requires forall k :: 0 <= k < |files| ==> files[k].library.Some?
    requires forall k :: 0 <= k < |files| ==> '\n' !in files[k].library.value && '\n' !in relPath(files[k].path)
    ensures var text := QipText(files, relPath).value;
            && |Split(DropLast(text, 1), '\n')| == |files|
            && forall k :: 0 <= k < |files| ==>
                 Split(DropLast(text, 1), '\n')[k] ==
                   "set_global_assignment -library \"" + files[k].library.value + "\" -name "
                   + QipType(files[k].kind) + "  \"" + relPath(files[k].path) + "\""
  {
    var lines := QipLines(files, relPath).value;
    forall k | 0 <= k < |lines| ensures '\n' !in lines[k] {
      QipLineText(files[k], relPath);
    }
    SplitJoin(lines, '\n');
    var text := Join(lines, "\n") + "\n";
    assert DropLast(text, 1) == Join(lines, "\n");
    forall k | 0 <= k < |files|
      ensures lines[k] == "set_global_assignment -library \"" + files[k].library.value + "\" -name "
                          + QipType(files[k].kind) + "  \"" + relPath(files[k].path) + "\""
    {
      QipLineText(files[k], relPath);
    }
  }
}
