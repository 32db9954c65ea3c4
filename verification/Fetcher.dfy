/** gitsource/fetcher.go: one in-memory clone per repository, fetched on every call. go-git's own promises
    are built in: a clone or fetch sets the remote-tracking ref of every branch the remote listed, removes
    none, leaves HEAD and the local heads alone, and adds every commit reachable from the listed refs. */
module Fetcher {
  import opened Values

  type Commit = string

  type Refs = map<string, Commit>

  /** What a remote answers: its refs, its default branch `head`, and what is reachable from the refs. */
  datatype Listing = Listing(branches: Refs, tags: Refs, head: string, ancestors: set<Commit>)

  /** A cached repository: its remote-tracking branches, local heads, the one of these that HEAD stands
      for, tags, and the commits it has. */
  datatype Clone = Clone(tracking: Refs, heads: Refs, head: string, tags: Refs, objects: set<Commit>)

  datatype FetchError = RefRequired | FetchFailed | RevisionNotFound | CommitMissing | FileNotFound

  // ---- go-git ----

  function Commits(l: Listing): set<Commit> {
    l.branches.Values + l.tags.Values + l.ancestors
  }

  function FreshClone(l: Listing): Clone {
    Clone(l.branches,
          if l.head in l.branches then map[l.head := l.branches[l.head]] else map[],
          l.head,
          l.tags,
          Commits(l))
  }

  function FetchInto(c: Clone, l: Listing): Clone {
    Clone(c.tracking + l.branches, c.heads, c.head, c.tags + l.tags, c.objects + Commits(l))
  }

  /** `repo.ResolveRevision` on a raw ref: HEAD, full commit hashes, tags, then local heads. */
  function ResolveRaw(c: Clone, ref: string): Option<Commit> {
    if ref == "HEAD" && c.head in c.heads then Some(c.heads[c.head])
    else if ref in c.objects then Some(ref)
    else if ref in c.tags then Some(c.tags[ref])
    else if ref in c.heads then Some(c.heads[ref])
    else None
  }

  // ---- the fetcher ----

  /** The cache after one locked clone or fetch; no listing means the remote could not be reached. */
  function AfterRepo(repos: map<string, Clone>, url: string, answer: Option<Listing>): map<string, Clone> {
    match answer
    case None => repos
    case Some(l) => repos[url := if url in repos then FetchInto(repos[url], l) else FreshClone(l)]
  }

  /** `resolveRevision`: the remote-tracking ref first, the raw ref as a fallback. */
  function ResolveRevision(c: Clone, ref: string): Result<Commit, FetchError> {
    if ref in c.tracking then Ok(c.tracking[ref])
    else match ResolveRaw(c, ref)
         case Some(commit) => Ok(commit)
         case None => Err(RevisionNotFound)
  }

  // ---- a clone and its listings ----

  /** The clone that the first of some listings made and the others were fetched into. */
  function CloneOf(ls: seq<Listing>): Clone
    requires ls != []
    decreases |ls|
  {
    var n := |ls| - 1;
    if n == 0 then FreshClone(ls[0]) else FetchInto(CloneOf(ls[..n]), ls[n])
  }

  function Branches(ls: seq<Listing>): seq<Refs> {
    seq(|ls|, i requires 0 <= i < |ls| => ls[i].branches)
  }

  function Tags(ls: seq<Listing>): seq<Refs> {
    seq(|ls|, i requires 0 <= i < |ls| => ls[i].tags)
  }

  /** Later refs replace earlier ones of the same name, and none is removed. */
  function Kept(refs: seq<Refs>): Refs
    decreases |refs|
  {
    if refs == [] then map[] else Kept(refs[..|refs| - 1]) + refs[|refs| - 1]
  }

  /** The last of the refs to have the name are those at `i`. */
  ghost predicate LastNamed(refs: seq<Refs>, name: string, i: int) {
    && 0 <= i < |refs|
    && name in refs[i]
    && forall j | i < j < |refs| :: name !in refs[j]
  }

  ghost predicate Named(refs: seq<Refs>, name: string) {
    exists i :: 0 <= i < |refs| && name in refs[i]
  }

  ghost predicate HasCommit(ls: seq<Listing>, commit: Commit) {
    exists i :: 0 <= i < |ls| && commit in Commits(ls[i])
  }

  lemma {:induction false} KeptIsLastNamed(refs: seq<Refs>, name: string)
    ensures name in Kept(refs) <==> Named(refs, name)
    ensures Named(refs, name) ==> exists i :: LastNamed(refs, name, i)
    ensures forall i | LastNamed(refs, name, i) :: name in Kept(refs) && Kept(refs)[name] == refs[i][name]
    decreases |refs|
  {
    if refs != [] {
      var n := |refs| - 1;
      var before := refs[..n];
      KeptIsLastNamed(before, name);
      if name in refs[n] {
        assert LastNamed(refs, name, n);
      } else {
        forall i ensures LastNamed(before, name, i) <==> LastNamed(refs, name, i) {
          if i != n { assert forall j | i < j < n && 0 <= j :: before[j] == refs[j]; }
        }
        assert Named(refs, name) ==> Named(before, name) by {
          if Named(refs, name) {
            var i :| 0 <= i < |refs| && name in refs[i];
            assert before[i] == refs[i];
          }
        }
      }
    }
  }

  /** The last listed branches and tags, and the first listing's HEAD and local head. */
  lemma {:induction false} CloneRemembers(ls: seq<Listing>)
    requires ls != []
    ensures CloneOf(ls).tracking == Kept(Branches(ls)) && CloneOf(ls).tags == Kept(Tags(ls))
    ensures CloneOf(ls).head == ls[0].head && CloneOf(ls).heads == FreshClone(ls[0]).heads
    decreases |ls|
  {
    var n := |ls| - 1;
    var before := ls[..n];
    assert Branches(ls)[..n] == Branches(before) && Tags(ls)[..n] == Tags(before);
    if n == 0 {
      assert Kept([]) == map[];
      assert map[] + ls[0].branches == ls[0].branches && map[] + ls[0].tags == ls[0].tags;
    } else {
      CloneRemembers(before);
    }
  }

  /** Commits accumulate. */
  lemma {:induction false} CloneHasCommits(ls: seq<Listing>, commit: Commit)
    requires ls != []
    ensures commit in CloneOf(ls).objects <==> HasCommit(ls, commit)
    decreases |ls|
  {
    hide Commits;
    var n := |ls| - 1;
    var before := ls[..n];
    assert forall i | 0 <= i < n :: before[i] == ls[i];
    if n > 0 { CloneHasCommits(before, commit); }
    if commit in Commits(ls[n]) { assert HasCommit(ls, commit); }
  }

  /** A ref that some listing has as a branch resolves to its commit in the last listing that does. */
  lemma BranchIsLastListed(ls: seq<Listing>, branch: string)
    requires ls != []
    ensures branch in CloneOf(ls).tracking <==> Named(Branches(ls), branch)
    ensures Named(Branches(ls), branch) ==> exists i :: LastNamed(Branches(ls), branch, i)
    ensures forall i | LastNamed(Branches(ls), branch, i) ::
              ResolveRevision(CloneOf(ls), branch) == Ok(ls[i].branches[branch])
  {
    CloneRemembers(ls);
    KeptIsLastNamed(Branches(ls), branch);
  }

  /** Any other ref: HEAD is the first listing's default branch, a full hash of a commit ever listed is
      itself, a tag is the last one listed, and there is nothing else. */
  lemma OtherRefsFallBack(ls: seq<Listing>, ref: string)
    requires ls != [] && !Named(Branches(ls), ref)
    ensures ref == "HEAD" && ls[0].head in ls[0].branches ==>
              ResolveRevision(CloneOf(ls), ref) == Ok(ls[0].branches[ls[0].head])
    ensures !(ref == "HEAD" && ls[0].head in ls[0].branches) ==>
              && (HasCommit(ls, ref) ==> ResolveRevision(CloneOf(ls), ref) == Ok(ref))
              && (!HasCommit(ls, ref) ==>
                    && (forall i | LastNamed(Tags(ls), ref, i) ::
                          ResolveRevision(CloneOf(ls), ref) == Ok(ls[i].tags[ref]))
                    && (!Named(Tags(ls), ref) <==> ResolveRevision(CloneOf(ls), ref) == Err(RevisionNotFound)))
  {
    CloneRemembers(ls);
    CloneHasCommits(ls, ref);
    KeptIsLastNamed(Branches(ls), ref);
    KeptIsLastNamed(Tags(ls), ref);
    assert Branches(ls)[0] == ls[0].branches;
  }

  // ---- the cache ----

  /** Every commit a ref of the clone names is in the clone. */
  ghost predicate Complete(c: Clone) {
    c.tracking.Values + c.heads.Values + c.tags.Values <= c.objects
  }

  ghost predicate AllComplete(repos: map<string, Clone>) {
    forall url | url in repos :: Complete(repos[url])
  }

  lemma RepoKeepsComplete(repos: map<string, Clone>, url: string, answer: Option<Listing>)
    requires AllComplete(repos)
    ensures AllComplete(AfterRepo(repos, url, answer))
  {
  }

  /** Hence a resolved revision can always be loaded. */
  lemma ResolvedIsPresent(c: Clone, ref: string)
    requires Complete(c) && ResolveRevision(c, ref).Ok?
    ensures ResolveRevision(c, ref).value in c.objects
  {
  }

  /** None of the fetches from `start` on gets a listing of the remote. */
  ghost predicate NoListing(fetches: seq<(string, Option<Listing>)>, start: nat, url: string) {
    forall j | start <= j < |fetches| && fetches[j].0 == url :: fetches[j].1 == None
  }

  /** After some fetches a branch is where the last listing of its remote has it. */
  lemma {:induction false} LastAnswerCounts(repos: map<string, Clone>, fetches: seq<(string, Option<Listing>)>, k: nat,
                                            l: Listing, branch: string)
    requires k < |fetches| && fetches[k].1 == Some(l) && NoListing(fetches, k + 1, fetches[k].0)
    requires branch in l.branches
    ensures var url, after := fetches[k].0, AfterAll(repos, fetches);
            url in after && ResolveRevision(after[url], branch) == Ok(l.branches[branch])
    decreases |fetches|
  {
    if k < |fetches| - 1 {
      LastAnswerCounts(repos, fetches[..|fetches| - 1], k, l, branch);
    }
  }

  /** In the cache a call of Content resolves its branch in. */
  lemma BranchIsLastAnswered(repos: map<string, Clone>, src: Source, l: Listing,
                             later: seq<(string, Option<Listing>)>)
    ensures var after := AfterAll(AfterRepo(repos, src.repo, Some(l)), later);
            && src.repo in after
            && (src.ref in l.branches && NoListing(later, 0, src.repo) ==>
                  ResolveRevision(after[src.repo], src.ref) == Ok(l.branches[src.ref]))
            && forall k | && 0 <= k < |later| && later[k].0 == src.repo && later[k].1.Some?
                          && NoListing(later, k + 1, src.repo) && src.ref in later[k].1.value.branches ::
                 ResolveRevision(after[src.repo], src.ref) == Ok(later[k].1.value.branches[src.ref])
  {
    var installed := AfterRepo(repos, src.repo, Some(l));
    ClonesStay(installed, later, src.repo);
    if src.ref in l.branches && NoListing(later, 0, src.repo) { OthersLeave(installed, later, src.repo); }
    forall k | && 0 <= k < |later| && later[k].0 == src.repo && later[k].1.Some?
               && NoListing(later, k + 1, src.repo) && src.ref in later[k].1.value.branches
      ensures ResolveRevision(AfterAll(installed, later)[src.repo], src.ref) == Ok(later[k].1.value.branches[src.ref])
    {
      LastAnswerCounts(installed, later, k, later[k].1.value, src.ref);
    }
  }

  lemma {:induction false} ClonesStay(repos: map<string, Clone>, fetches: seq<(string, Option<Listing>)>, url: string)
    requires url in repos
    ensures url in AfterAll(repos, fetches)
    decreases |fetches|
  {
    if fetches != [] {
      ClonesStay(repos, fetches[..|fetches| - 1], url);
    }
  }

  lemma {:induction false} OthersLeave(repos: map<string, Clone>, fetches: seq<(string, Option<Listing>)>, url: string)
    requires url in repos && NoListing(fetches, 0, url)
    ensures url in AfterAll(repos, fetches) && AfterAll(repos, fetches)[url] == repos[url]
    decreases |fetches|
  {
    if fetches != [] {
      OthersLeave(repos, fetches[..|fetches| - 1], url);
    }
  }

  class Fetcher {
    var repos: map<string, Clone>

    constructor ()
      ensures repos == map[]
    {
      repos := map[];
    }

    /** `Fetcher.repo`, under the mutex. `answer` is what the network gives for the credentials in use. */
    method Repo(url: string, answer: Option<Listing>) returns (ok: bool)
      modifies this
      ensures ok == answer.Some?
      ensures repos == AfterRepo(old(repos), url, answer)
    {
      if url in repos {
        if answer.None? { return false; }
        repos := repos[url := FetchInto(repos[url], answer.value)];
        return true;
      }
      if answer.None? { return false; }
      repos := repos[url := FreshClone(answer.value)];
      return true;
    }

    /** `Content`. `later` is what other callers fetch between this call's unlock and its use of the clone. */
    method Content(src: Source, answer: Option<Listing>, later: seq<(string, Option<Listing>)>,
                   files: Commit -> map<string, string>)
      returns (r: Result<string, FetchError>)
      requires AllComplete(repos)
      modifies this
      ensures AllComplete(repos)
      ensures src.ref == "" ==> r == Err(RefRequired) && repos == old(repos)
      ensures src.ref != "" && answer.None? ==> r == Err(FetchFailed) && repos == old(repos)
      ensures src.ref != "" && answer.Some? ==>
                && repos == AfterAll(AfterRepo(old(repos), src.repo, answer), later)
                && src.repo in repos
                && match ResolveRevision(repos[src.repo], src.ref)
                   case Err(_) => r == Err(RevisionNotFound)
                   case Ok(commit) =>
                     r == if src.path in files(commit) then Ok(files(commit)[src.path]) else Err(FileNotFound)
      // a branch is read where this call's listing has it, unless a later one of the same remote came in between
      ensures src.ref != "" && answer.Some? && src.ref in answer.value.branches && NoListing(later, 0, src.repo) ==>
                var text := files(answer.value.branches[src.ref]);
                r == if src.path in text then Ok(text[src.path]) else Err(FileNotFound)
      ensures src.ref != "" && answer.Some? ==>
                forall k | && 0 <= k < |later| && later[k].0 == src.repo && later[k].1.Some?
                           && NoListing(later, k + 1, src.repo) && src.ref in later[k].1.value.branches ::
                  var text := files(later[k].1.value.branches[src.ref]);
                  r == if src.path in text then Ok(text[src.path]) else Err(FileNotFound)
    {
      if src.ref == "" { return Err(RefRequired); }
      RepoKeepsComplete(repos, src.repo, answer);
      ghost var before := repos;
      var ok := Repo(src.repo, answer);
      if !ok { return Err(FetchFailed); }
      BranchIsLastAnswered(before, src, answer.value, later);
      OthersFetch(later);
      var hash := ResolveRevision(repos[src.repo], src.ref);
      if hash.Err? { return Err(hash.error); }
      ResolvedIsPresent(repos[src.repo], src.ref);
      if hash.value !in repos[src.repo].objects { return Err(CommitMissing); }
      if src.path !in files(hash.value) { return Err(FileNotFound); }
      return Ok(files(hash.value)[src.path]);
    }

    method OthersFetch(later: seq<(string, Option<Listing>)>)
      requires AllComplete(repos)
      modifies this
      ensures AllComplete(repos) && repos == AfterAll(old(repos), later) && old(repos).Keys <= repos.Keys
    {
      for i := 0 to |later|
        invariant AllComplete(repos) && repos == AfterAll(old(repos), later[..i]) && old(repos).Keys <= repos.Keys
      {
        assert later[..i + 1][..i] == later[..i];
        RepoKeepsComplete(repos, later[i].0, later[i].1);
        var _ := Repo(later[i].0, later[i].1);
      }
      assert later[..|later|] == later;
    }
  }

  function AfterAll(repos: map<string, Clone>, fetches: seq<(string, Option<Listing>)>): map<string, Clone>
    decreases |fetches|
  {
    if fetches == [] then repos
    else
      var last := fetches[|fetches| - 1];
      AfterRepo(AfterAll(repos, fetches[..|fetches| - 1]), last.0, last.1)
  }

  // ---- concurrent calls ----

  /** All remotes at one moment; a url that is missing cannot be reached. */
  type Remotes = map<string, Listing>

  datatype Phase =
    | Waiting
    | Fetching(listed: nat)
    | Fetched
    | Done(end: nat, result: Result<Commit, FetchError>)

  /** One call of Content; `start` and the numbers in its phase are moments of the history. */
  datatype Call = Call(src: Source, start: nat, phase: Phase)

  /** `history` is everything the remotes ever were, the present last. `listed` remembers when the
      listings installed in each clone were taken, oldest first. */
  datatype World = World(history: seq<Remotes>, repos: map<string, Clone>, listed: map<string, seq<nat>>,
                         lock: Option<nat>, calls: map<nat, Call>)

  datatype Event =
    | RemotesMove(remotes: Remotes)
    | Begin(id: nat, src: Source)
    | LockAndList(id: nat)
    | Install(id: nat)
    | GiveUp(id: nat)
    | Resolve(id: nat)

  function Now(w: World): nat
    requires w.history != []
  {
    |w.history| - 1
  }

  function Moments(w: World, url: string): seq<nat> {
    if url in w.listed then w.listed[url] else []
  }

  function WithPhase(w: World, id: nat, phase: Phase): World
    requires id in w.calls
  {
    w.(calls := w.calls[id := w.calls[id].(phase := phase)])
  }

  function Unlocked(w: World, id: nat): World {
    if w.lock == Some(id) then w.(lock := None) else w
  }

  /** One event. The mutex is held from the listing to the installation of its refs, and released
      before the revision is resolved. An event that does not apply changes nothing. */
  function After(w: World, e: Event): World
    requires w.history != []
  {
    match e
    case RemotesMove(remotes) => w.(history := w.history + [remotes])
    case Begin(id, src) =>
      if id in w.calls then w
      else
        w.(calls := w.calls[id := Call(src, Now(w), if src.ref == "" then Done(Now(w), Err(RefRequired)) else Waiting)])
    case LockAndList(id) =>
      if id in w.calls && w.calls[id].phase.Waiting? && w.lock == None
      then WithPhase(w.(lock := Some(id)), id, Fetching(Now(w)))
      else w
    case Install(id) =>
      if id !in w.calls || !w.calls[id].phase.Fetching? then w
      else
        var url, at := w.calls[id].src.repo, w.calls[id].phase.listed;
        var free := Unlocked(w, id);
        if at >= |w.history| || url !in w.history[at] then WithPhase(free, id, Done(Now(w), Err(FetchFailed)))
        else
          var repos := AfterRepo(w.repos, url, Some(w.history[at][url]));
          WithPhase(free.(repos := repos, listed := w.listed[url := Moments(w, url) + [at]]), id, Fetched)
    case GiveUp(id) =>
      if id in w.calls && (w.calls[id].phase.Waiting? || w.calls[id].phase.Fetching?)
      then WithPhase(Unlocked(w, id), id, Done(Now(w), Err(FetchFailed)))
      else w
    case Resolve(id) =>
      if id in w.calls && w.calls[id].phase.Fetched? && w.calls[id].src.repo in w.repos
      then WithPhase(w, id, Done(Now(w), ResolveRevision(w.repos[w.calls[id].src.repo], w.calls[id].src.ref)))
      else w
  }

  function RunFrom(remotes: Remotes, events: seq<Event>): (w: World)
    ensures w.history != []
    decreases |events|
  {
    if events == [] then World([remotes], map[], map[], None, map[])
    else After(RunFrom(remotes, events[..|events| - 1]), events[|events| - 1])
  }

  predicate Reachable(history: seq<Remotes>, url: string, t: nat) {
    t < |history| && url in history[t]
  }

  /** What the remote would answer at moment `t`; nothing when it cannot be reached. */
  function ListingAt(history: seq<Remotes>, url: string, t: nat): Listing {
    if Reachable(history, url, t) then history[t][url] else Listing(map[], map[], "", {})
  }

  function ListingsAt(history: seq<Remotes>, url: string, moments: seq<nat>): seq<Listing> {
    seq(|moments|, i requires 0 <= i < |moments| => ListingAt(history, url, moments[i]))
  }

  /** The listings a clone was made from and updated with. */
  function Listings(w: World, url: string): seq<Listing> {
    ListingsAt(w.history, url, Moments(w, url))
  }

  function Latest(moments: seq<nat>): nat {
    if moments == [] then 0 else moments[|moments| - 1]
  }

  /** At all the moments the remote could be reached, at none later than at the last one. */
  predicate InOrder(history: seq<Remotes>, url: string, moments: seq<nat>) {
    moments != []
    && forall i | 0 <= i < |moments| :: Reachable(history, url, moments[i]) && moments[i] <= Latest(moments)
  }

  /** The clone is what its listings make it. */
  ghost predicate Tracked(history: seq<Remotes>, url: string, c: Clone, moments: seq<nat>) {
    InOrder(history, url, moments) && c == CloneOf(ListingsAt(history, url, moments))
  }

  ghost predicate TracksListings(history: seq<Remotes>, repos: map<string, Clone>, listed: map<string, seq<nat>>) {
    repos.Keys == listed.Keys && forall url | url in repos :: Tracked(history, url, repos[url], listed[url])
  }

  /** `commit` is what the remote branch pointed at at some moment from `start` to `end`. */
  ghost predicate PointedAt(history: seq<Remotes>, url: string, branch: string, commit: Commit, start: nat, end: nat) {
    exists t: nat :: start <= t <= end && branch in ListingAt(history, url, t).branches
                  && ListingAt(history, url, t).branches[branch] == commit
  }

  /** Whenever the remote could be reached, from `start` to `end`, it had the branch. */
  ghost predicate AlwaysThere(history: seq<Remotes>, url: string, branch: string, start: nat, end: nat) {
    forall t: nat | start <= t <= end && Reachable(history, url, t) :: branch in ListingAt(history, url, t).branches
  }

  /** Where a call stands is consistent with the mutex and with how recent its clone is. */
  ghost predicate CallOk(history: seq<Remotes>, listed: map<string, seq<nat>>, lock: Option<nat>, id: nat, c: Call) {
    && c.start < |history|
    && match c.phase
       case Waiting => true
       case Fetching(at) =>
         && lock == Some(id)
         && c.start <= at < |history|
         && forall url | url in listed :: Latest(listed[url]) <= at
       case Fetched => c.src.repo in listed && c.start <= Latest(listed[c.src.repo])
       case Done(end, result) =>
         && end < |history|
         && (result.Ok? && AlwaysThere(history, c.src.repo, c.src.ref, c.start, end) ==>
               PointedAt(history, c.src.repo, c.src.ref, result.value, c.start, end))
  }

  ghost predicate Invariant(w: World) {
    && w.history != []
    && TracksListings(w.history, w.repos, w.listed)
    && forall id | id in w.calls :: CallOk(w.history, w.listed, w.lock, id, w.calls[id])
  }

  lemma ListingsStay(history: seq<Remotes>, remotes: Remotes, url: string, moments: seq<nat>)
    requires forall i | 0 <= i < |moments| :: moments[i] < |history|
    ensures ListingsAt(history + [remotes], url, moments) == ListingsAt(history, url, moments)
  {
    assert forall t: nat | t < |history| :: (history + [remotes])[t] == history[t];
  }

  lemma TrackedStays(history: seq<Remotes>, remotes: Remotes, url: string, c: Clone, moments: seq<nat>)
    requires Tracked(history, url, c, moments)
    ensures Tracked(history + [remotes], url, c, moments)
  {
    ListingsStay(history, remotes, url, moments);
  }

  /** Moments of the past stay what they were. */
  lemma MoveKeepsInvariant(w: World, remotes: Remotes)
    requires Invariant(w)
    ensures Invariant(After(w, RemotesMove(remotes)))
  {
    var v := After(w, RemotesMove(remotes));
    assert TracksListings(v.history, w.repos, w.listed) by {
      forall url | url in w.repos ensures Tracked(v.history, url, w.repos[url], w.listed[url]) {
        TrackedStays(w.history, remotes, url, w.repos[url], w.listed[url]);
      }
    }
    hide TracksListings;
    forall id | id in w.calls ensures CallOk(v.history, w.listed, w.lock, id, w.calls[id]) {
      PastCallStays(w.history, remotes, w.listed, w.lock, id, w.calls[id]);
    }
  }

  lemma PastCallStays(history: seq<Remotes>, remotes: Remotes, listed: map<string, seq<nat>>, lock: Option<nat>,
                      id: nat, c: Call)
    requires CallOk(history, listed, lock, id, c)
    ensures CallOk(history + [remotes], listed, lock, id, c)
  {
    var longer := history + [remotes];
    var url, branch := c.src.repo, c.src.ref;
    assert forall t: nat | t < |history| ::
      longer[t] == history[t] && ListingAt(longer, url, t) == ListingAt(history, url, t);
    if c.phase.Done? && c.phase.result.Ok? && AlwaysThere(longer, url, branch, c.start, c.phase.end) {
      assert AlwaysThere(history, url, branch, c.start, c.phase.end);
      var t: nat :| c.start <= t <= c.phase.end && branch in ListingAt(history, url, t).branches
                    && ListingAt(history, url, t).branches[branch] == c.phase.result.value;
      assert branch in ListingAt(longer, url, t).branches;
    }
  }

  lemma InstallTracks(history: seq<Remotes>, repos: map<string, Clone>, listed: map<string, seq<nat>>, url: string,
                      at: nat)
    requires TracksListings(history, repos, listed) && Reachable(history, url, at)
    requires url in listed ==> Latest(listed[url]) <= at
    ensures var moments := (if url in listed then listed[url] else []) + [at];
            TracksListings(history, AfterRepo(repos, url, Some(history[at][url])), listed[url := moments])
  {
    var moments := if url in listed then listed[url] else [];
    hide Tracked, AfterRepo;
    CloneGrows(history, repos, url, moments, at);
  }

  lemma CloneGrows(history: seq<Remotes>, repos: map<string, Clone>, url: string, moments: seq<nat>, at: nat)
    requires Reachable(history, url, at)
    requires if url in repos then Tracked(history, url, repos[url], moments) && Latest(moments) <= at else moments == []
    ensures exists c :: && Tracked(history, url, c, moments + [at])
                        && AfterRepo(repos, url, Some(history[at][url])) == repos[url := c]
  {
    ListingsGrow(history, url, moments, at);
    var repos' := AfterRepo(repos, url, Some(history[at][url]));
    assert repos' == repos[url := repos'[url]];
    assert Tracked(history, url, repos'[url], moments + [at]) by { hide CloneOf, FetchInto, FreshClone, ListingsAt; }
  }

  lemma ListingsGrow(history: seq<Remotes>, url: string, moments: seq<nat>, at: nat)
    requires Reachable(history, url, at)
    ensures var ls, l := ListingsAt(history, url, moments), history[at][url];
            && ListingsAt(history, url, moments + [at]) == ls + [l]
            && CloneOf(ls + [l]) == (if moments == [] then FreshClone(l) else FetchInto(CloneOf(ls), l))
  {
    var ls, l := ListingsAt(history, url, moments), history[at][url];
    assert (ls + [l])[..|ls|] == ls;
  }

  /** When the call that holds the mutex installs and lets go, every other call stays where it was. */
  lemma OtherCallsStay(history: seq<Remotes>, listed: map<string, seq<nat>>, listed': map<string, seq<nat>>,
                       calls: map<nat, Call>, id: nat)
    requires forall i | i in calls :: CallOk(history, listed, Some(id), i, calls[i])
    requires forall url | url in listed :: url in listed' && Latest(listed[url]) <= Latest(listed'[url])
    ensures forall i | i in calls && i != id :: CallOk(history, listed', None, i, calls[i])
  {
    hide PointedAt, AlwaysThere;
  }

  lemma InstalledWorld(w: World, id: nat)
    requires w.history != [] && id in w.calls && w.calls[id].phase.Fetching? && w.lock == Some(id)
    requires w.calls[id].phase.listed < |w.history|
    ensures var c := w.calls[id];
            var url, at := c.src.repo, c.phase.listed;
            After(w, Install(id)) ==
              if url in w.history[at] then
                World(w.history, AfterRepo(w.repos, url, Some(w.history[at][url])),
                      w.listed[url := Moments(w, url) + [at]], None, w.calls[id := c.(phase := Fetched)])
              else
                World(w.history, w.repos, w.listed, None, w.calls[id := c.(phase := Done(Now(w), Err(FetchFailed)))])
  {
  }

  lemma InvariantRestored(history: seq<Remotes>, repos: map<string, Clone>, listed: map<string, seq<nat>>,
                          calls: map<nat, Call>, id: nat, c: Call)
    requires history != [] && TracksListings(history, repos, listed)
    requires forall i | i in calls && i != id :: CallOk(history, listed, None, i, calls[i])
    requires CallOk(history, listed, None, id, c)
    ensures Invariant(World(history, repos, listed, None, calls[id := c]))
  {
    hide TracksListings, CallOk;
  }

  lemma LatestIsPast(w: World)
    requires Invariant(w)
    ensures forall url | url in w.listed :: Latest(w.listed[url]) < |w.history|
  {
    forall url | url in w.listed ensures Latest(w.listed[url]) < |w.history| {
      assert Tracked(w.history, url, w.repos[url], w.listed[url]);
    }
  }

  /** Installing a listing brings the clone up to it and no other clone back. */
  lemma InstallKeepsInvariant(w: World, id: nat)
    requires Invariant(w) && id in w.calls && w.calls[id].phase.Fetching?
    ensures Invariant(After(w, Install(id)))
  {
    hide AfterRepo, InOrder, CloneOf;
    var c := w.calls[id];
    assert CallOk(w.history, w.listed, w.lock, id, c);
    InstalledWorld(w, id);
    if c.src.repo in w.history[c.phase.listed] {
      InstallSucceeds(w, id, c.src.repo, c.phase.listed);
    } else {
      OtherCallsStay(w.history, w.listed, w.listed, w.calls, id);
      InvariantRestored(w.history, w.repos, w.listed, w.calls, id, c.(phase := Done(Now(w), Err(FetchFailed))));
    }
  }

  lemma InstallSucceeds(w: World, id: nat, url: string, at: nat)
    requires Invariant(w) && id in w.calls && w.lock == Some(id)
    requires w.calls[id].phase == Fetching(at) && w.calls[id].src.repo == url
    requires at < |w.history| && url in w.history[at]
    ensures Invariant(World(w.history, AfterRepo(w.repos, url, Some(w.history[at][url])),
                            w.listed[url := Moments(w, url) + [at]], None,
                            w.calls[id := w.calls[id].(phase := Fetched)]))
  {
    var c := w.calls[id];
    assert CallOk(w.history, w.listed, w.lock, id, c);
    assert forall u | u in w.listed :: Latest(w.listed[u]) <= at;
    assert TracksListings(w.history, w.repos, w.listed);
    assert forall i | i in w.calls :: CallOk(w.history, w.listed, Some(id), i, w.calls[i]);
    hide TracksListings, AfterRepo, InOrder, Invariant;
    var repos, listed := AfterRepo(w.repos, url, Some(w.history[at][url])), w.listed[url := Moments(w, url) + [at]];
    assert CallOk(w.history, listed, None, id, c.(phase := Fetched));
    hide CallOk;
    InstallTracks(w.history, w.repos, w.listed, url, at);
    OtherCallsStay(w.history, w.listed, listed, w.calls, id);
    InvariantRestored(w.history, repos, listed, w.calls, id, c.(phase := Fetched));
  }

  /** One call moves on, possibly taking the free mutex or letting it go. */
  lemma CallMoves(w: World, lock: Option<nat>, id: nat, c: Call)
    requires Invariant(w) && CallOk(w.history, w.listed, lock, id, c)
    requires lock == w.lock || (w.lock == None && lock == Some(id)) || (w.lock == Some(id) && lock == None)
    ensures Invariant(World(w.history, w.repos, w.listed, lock, w.calls[id := c]))
  {
    hide PointedAt, AlwaysThere, TracksListings;
  }

  lemma CurrentAtLatest(history: seq<Remotes>, url: string, c: Clone, moments: seq<nat>, branch: string)
    requires Tracked(history, url, c, moments)
    ensures Reachable(history, url, Latest(moments))
    ensures var l := ListingAt(history, url, Latest(moments));
            branch in l.branches ==> ResolveRevision(c, branch) == Ok(l.branches[branch])
  {
    var ls := ListingsAt(history, url, moments);
    if branch in ls[|ls| - 1].branches {
      assert LastNamed(Branches(ls), branch, |ls| - 1);
      BranchIsLastListed(ls, branch);
    }
  }

  /** A call whose own fetch is installed resolves a branch to a commit of its own time. */
  lemma ResolveKeepsInvariant(w: World, id: nat)
    requires Invariant(w)
    ensures Invariant(After(w, Resolve(id)))
  {
    var v := After(w, Resolve(id));
    hide ResolveRevision, TracksListings, AlwaysThere, PointedAt;
    if v != w {
      assert CallOk(w.history, w.listed, w.lock, id, w.calls[id]);
      ResolvedInTime(w, id, v.calls[id]);
      hide Invariant, CallOk;
      CallMoves(w, w.lock, id, v.calls[id]);
    }
  }

  lemma ResolvedInTime(w: World, id: nat, done: Call)
    requires Invariant(w) && id in w.calls && w.calls[id].phase.Fetched? && w.calls[id].src.repo in w.repos
    requires var c := w.calls[id];
             done == c.(phase := Done(Now(w), ResolveRevision(w.repos[c.src.repo], c.src.ref)))
    ensures CallOk(w.history, w.listed, w.lock, id, done)
  {
    hide ResolveRevision, ListingAt, Tracked, Reachable;
    var url, branch := done.src.repo, done.src.ref;
    assert CallOk(w.history, w.listed, w.lock, id, w.calls[id]);
    assert Tracked(w.history, url, w.repos[url], w.listed[url]);
    CurrentAtLatest(w.history, url, w.repos[url], w.listed[url], branch);
    LatestIsPast(w);
    if AlwaysThere(w.history, url, branch, done.start, Now(w)) {
      assert branch in ListingAt(w.history, url, Latest(w.listed[url])).branches;
    }
  }

  lemma OtherEventsKeepInvariant(w: World, e: Event)
    requires Invariant(w) && (e.Begin? || e.LockAndList? || e.GiveUp?)
    ensures Invariant(After(w, e))
  {
    hide AlwaysThere, AfterRepo, ResolveRevision, TracksListings;
    var v := After(w, e);
    if v != w {
      var c := v.calls[e.id];
      LatestIsPast(w);
      assert e.id in w.calls ==> CallOk(w.history, w.listed, w.lock, e.id, w.calls[e.id]);
      assert CallOk(w.history, w.listed, v.lock, e.id, c);
      hide CallOk, Invariant;
      CallMoves(w, v.lock, e.id, c);
    }
  }

  lemma RunAppend(remotes: Remotes, events: seq<Event>, e: Event)
    ensures RunFrom(remotes, events + [e]) == After(RunFrom(remotes, events), e)
  {
    assert (events + [e])[..|events|] == events;
  }

  lemma {:induction false} EveryRunKeepsInvariant(remotes: Remotes, events: seq<Event>)
    ensures Invariant(RunFrom(remotes, events))
    decreases |events|
  {
    if events != [] {
      var before, e := events[..|events| - 1], events[|events| - 1];
      EveryRunKeepsInvariant(remotes, before);
      var w := RunFrom(remotes, before);
      match e
      case RemotesMove(r) => MoveKeepsInvariant(w, r);
      case Install(id) => if id in w.calls && w.calls[id].phase.Fetching? { InstallKeepsInvariant(w, id); }
      case Resolve(id) => ResolveKeepsInvariant(w, id);
      case _ => OtherEventsKeepInvariant(w, e);
    }
  }

  /** Over any run of remote moves and concurrent calls: a call that succeeds for a branch the remote had
      whenever it could be reached during the call used a commit the branch pointed at between the call's
      start and its return. */
  lemma ContentIsFresh(remotes: Remotes, events: seq<Event>, id: nat)
    requires var w := RunFrom(remotes, events);
             id in w.calls && w.calls[id].phase.Done? && w.calls[id].phase.result.Ok?
    requires var w := RunFrom(remotes, events);
             var c := w.calls[id];
             AlwaysThere(w.history, c.src.repo, c.src.ref, c.start, c.phase.end)
    ensures var w := RunFrom(remotes, events);
            var c := w.calls[id];
            PointedAt(w.history, c.src.repo, c.src.ref, c.phase.result.value, c.start, c.phase.end)
  {
    EveryRunKeepsInvariant(remotes, events);
    var w := RunFrom(remotes, events);
    assert CallOk(w.history, w.listed, w.lock, id, w.calls[id]);
  }

  /** After any run each clone is what the listings installed in it make it. */
  lemma CloneIsItsListings(remotes: Remotes, events: seq<Event>, url: string)
    requires url in RunFrom(remotes, events).repos
    ensures var w := RunFrom(remotes, events);
            && Listings(w, url) != []
            && w.repos[url] == CloneOf(Listings(w, url))
            && forall i | 0 <= i < |Moments(w, url)| ::
                 && Reachable(w.history, url, Moments(w, url)[i])
                 && Listings(w, url)[i] == w.history[Moments(w, url)[i]][url]
  {
    EveryRunKeepsInvariant(remotes, events);
    var w := RunFrom(remotes, events);
    assert Tracked(w.history, url, w.repos[url], w.listed[url]);
  }

  /** After any run, and whether or not the branch still exists: a branch resolves through its tracking
      ref exactly when some listing installed in the clone had it, and then to the commit it pointed at
      in the last such listing. A deleted branch keeps resolving to that commit. */
  lemma TrackingIsLastSeen(remotes: Remotes, events: seq<Event>, url: string, branch: string)
    requires url in RunFrom(remotes, events).repos
    ensures var w := RunFrom(remotes, events);
            var ls := Listings(w, url);
            && (branch in w.repos[url].tracking <==> exists i :: LastNamed(Branches(ls), branch, i))
            && forall i | LastNamed(Branches(ls), branch, i) ::
                 ResolveRevision(w.repos[url], branch) == Ok(ls[i].branches[branch])
  {
    CloneIsItsListings(remotes, events, url);
    var ls := Listings(RunFrom(remotes, events), url);
    BranchIsLastListed(ls, branch);
    if i :| LastNamed(Branches(ls), branch, i) {
      assert branch in Branches(ls)[i];
    }
  }

  /** The raw ref alone would not do: whatever is fetched later, it keeps naming the commit the default
      branch had when it was cloned, while `resolveRevision` follows the last listing that has the branch. */
  lemma RawRefIsFrozen(remotes: Remotes, events: seq<Event>, url: string)
    requires url in RunFrom(remotes, events).repos
    ensures var w := RunFrom(remotes, events);
            var c, ls := w.repos[url], Listings(w, url);
            && ls != []
            && var branch := ls[0].head;
               branch in ls[0].branches ==>
                 && (!HasCommit(ls, branch) && !Named(Tags(ls), branch) ==>
                       ResolveRaw(c, branch) == Some(ls[0].branches[branch]))
                 && exists i :: LastNamed(Branches(ls), branch, i)
                             && ResolveRevision(c, branch) == Ok(ls[i].branches[branch])
  {
    CloneIsItsListings(remotes, events, url);
    var ls := Listings(RunFrom(remotes, events), url);
    CloneRemembers(ls);
    CloneHasCommits(ls, ls[0].head);
    KeptIsLastNamed(Tags(ls), ls[0].head);
    BranchIsLastListed(ls, ls[0].head);
    assert Branches(ls)[0] == ls[0].branches;
  }

  /** A source whose ref is HEAD. Only a branch that is itself called HEAD makes it move: it is at the
      default branch's commit of the first clone exactly unless the last listing to have such a branch
      shows another commit there, and it is current exactly when the default branch is now where this
      one is, or, without such a branch, where it was at the first clone. */
  lemma HeadIsFrozen(remotes: Remotes, events: seq<Event>, url: string)
    requires url in RunFrom(remotes, events).repos
    ensures var w := RunFrom(remotes, events);
            var ls := Listings(w, url);
            && ls != []
            && var r, first, last := ResolveRevision(w.repos[url], "HEAD"), ls[0], ls[|ls| - 1];
               first.head in first.branches ==>
                 && (r == Ok(first.branches[first.head]) <==>
                       forall i | LastNamed(Branches(ls), "HEAD", i) ::
                         ls[i].branches["HEAD"] == first.branches[first.head])
                 && (last.head in last.branches ==>
                       (r == Ok(last.branches[last.head]) <==>
                          if Named(Branches(ls), "HEAD") then
                            forall i | LastNamed(Branches(ls), "HEAD", i) ::
                              last.branches[last.head] == ls[i].branches["HEAD"]
                          else
                            last.branches[last.head] == first.branches[first.head]))
  {
    CloneIsItsListings(remotes, events, url);
    var ls := Listings(RunFrom(remotes, events), url);
    BranchIsLastListed(ls, "HEAD");
    if Named(Branches(ls), "HEAD") {
      var i :| LastNamed(Branches(ls), "HEAD", i);
      assert forall j | LastNamed(Branches(ls), "HEAD", j) :: j == i;
    } else {
      OtherRefsFallBack(ls, "HEAD");
    }
  }

  /** The events of a call that meets no other call. */
  function OneCall(id: nat, src: Source): seq<Event> {
    [Begin(id, src), LockAndList(id), Install(id), Resolve(id)]
  }

  lemma CallAlone(remotes: Remotes, events: seq<Event>, id: nat, src: Source)
    requires var w := RunFrom(remotes, events);
             w.lock == None && id !in w.calls && src.ref != "" && src.repo in w.history[Now(w)]
    ensures var w := RunFrom(remotes, events);
            var repos := AfterRepo(w.repos, src.repo, Some(w.history[Now(w)][src.repo]));
            RunFrom(remotes, events + OneCall(id, src)) ==
              World(w.history, repos, w.listed[src.repo := Moments(w, src.repo) + [Now(w)]], None,
                    w.calls[id := Call(src, Now(w), Done(Now(w), ResolveRevision(repos[src.repo], src.ref)))])
  {
    var es := OneCall(id, src);
    assert events + es == events + [es[0]] + [es[1]] + [es[2]] + [es[3]];
    RunAppend(remotes, events, es[0]);
    RunAppend(remotes, events + [es[0]], es[1]);
    RunAppend(remotes, events + [es[0]] + [es[1]], es[2]);
    RunAppend(remotes, events + [es[0]] + [es[1]] + [es[2]], es[3]);
    hide RunFrom, After;
    CallFetches(RunFrom(remotes, events), id, src);
    CallResolves(RunFrom(remotes, events), id, src);
  }

  /** The world after a call that met no other call has installed its listing. */
  function FetchedWorld(w: World, id: nat, src: Source): World
    requires w.history != [] && src.repo in w.history[Now(w)]
  {
    World(w.history, AfterRepo(w.repos, src.repo, Some(w.history[Now(w)][src.repo])),
          w.listed[src.repo := Moments(w, src.repo) + [Now(w)]], None, w.calls[id := Call(src, Now(w), Fetched)])
  }

  lemma CallFetches(w: World, id: nat, src: Source)
    requires w.history != [] && w.lock == None && id !in w.calls && src.ref != "" && src.repo in w.history[Now(w)]
    ensures After(After(After(w, Begin(id, src)), LockAndList(id)), Install(id)) == FetchedWorld(w, id, src)
  {
    hide AfterRepo, ResolveRevision;
    var now := Now(w);
    var w1 := After(w, Begin(id, src));
    assert w1 == w.(calls := w.calls[id := Call(src, now, Waiting)]);
    var w2 := After(w1, LockAndList(id));
    assert w2 == w.(lock := Some(id), calls := w.calls[id := Call(src, now, Fetching(now))]);
    InstalledWorld(w2, id);
  }

  lemma CallResolves(w: World, id: nat, src: Source)
    requires w.history != [] && src.repo in w.history[Now(w)]
    ensures var v := FetchedWorld(w, id, src);
            && src.repo in v.repos
            && After(v, Resolve(id)) ==
                 v.(calls := w.calls[id :=
                   Call(src, Now(w), Done(Now(w), ResolveRevision(v.repos[src.repo], src.ref)))])
  {
    RepoIsThere(w.repos, src.repo, w.history[Now(w)][src.repo]);
    hide AfterRepo, ResolveRevision;
  }

  lemma RepoIsThere(repos: map<string, Clone>, url: string, l: Listing)
    ensures url in AfterRepo(repos, url, Some(l))
  {
  }

  /** One call for HEAD, a move of the default branch, another call for HEAD: the second call starts
      after the move and still gets the commit from before it. */
  lemma HeadGoesStale(url: string, path: string, branch: string, earlier: Commit, moved: Commit)
    requires branch != "HEAD"
    ensures var src := Source(url, path, "HEAD");
            var before := map[url := Listing(map[branch := earlier], map[], branch, {})];
            var after := map[url := Listing(map[branch := moved], map[], branch, {})];
            var w := RunFrom(before, OneCall(0, src) + [RemotesMove(after)] + OneCall(1, src));
            && w.history == [before, after]
            && 1 in w.calls && w.calls[1] == Call(src, 1, Done(1, Ok(earlier)))
  {
    var src := Source(url, path, "HEAD");
    var before := map[url := Listing(map[branch := earlier], map[], branch, {})];
    var after := map[url := Listing(map[branch := moved], map[], branch, {})];
    assert [] + OneCall(0, src) == OneCall(0, src);
    CallAlone(before, [], 0, src);
    RunAppend(before, OneCall(0, src), RemotesMove(after));
    CallAlone(before, OneCall(0, src) + [RemotesMove(after)], 1, src);
  }

  lemma {:induction false} ListingsOnlyGrow(remotes: Remotes, events: seq<Event>, more: seq<Event>, url: string)
    ensures Listings(RunFrom(remotes, events), url) <= Listings(RunFrom(remotes, events + more), url)
    decreases |more|
  {
    if more == [] {
      assert events + more == events;
    } else {
      var n := |more| - 1;
      ListingsOnlyGrow(remotes, events, more[..n], url);
      assert events + more == events + more[..n] + [more[n]];
      RunAppend(remotes, events + more[..n], more[n]);
      EveryRunKeepsInvariant(remotes, events + more[..n]);
      var w := RunFrom(remotes, events + more[..n]);
      hide RunFrom, After, Listings, Invariant;
      EventKeepsListings(w, more[n], url);
    }
  }

  lemma EventKeepsListings(w: World, e: Event, url: string)
    requires Invariant(w)
    ensures Listings(w, url) <= Listings(After(w, e), url)
  {
    assert url in w.listed ==> Tracked(w.history, url, w.repos[url], w.listed[url]);
    EventExtends(w, e, url);
    hide After, Invariant, CloneOf, TracksListings;
    var v := After(w, e);
    PrefixOfListings(w.history, v.history, url, Moments(w, url), Moments(v, url));
  }

  lemma PrefixOfListings(history: seq<Remotes>, longer: seq<Remotes>, url: string, moments: seq<nat>, more: seq<nat>)
    requires history <= longer && moments <= more && forall i | 0 <= i < |moments| :: moments[i] < |history|
    ensures ListingsAt(history, url, moments) <= ListingsAt(longer, url, more)
  {
  }

  lemma EventExtends(w: World, e: Event, url: string)
    requires w.history != []
    ensures w.history <= After(w, e).history && Moments(w, url) <= Moments(After(w, e), url)
  {
    hide AfterRepo, ResolveRevision;
  }

  /** A commit hash, once fetched as or from behind a ref, resolves to itself for good, exactly unless the
      last listing to have a branch of that very name shows another commit there. */
  lemma HashIsItself(remotes: Remotes, events: seq<Event>, more: seq<Event>, url: string, at: nat, hash: Commit)
    requires hash != "HEAD" && at < |Listings(RunFrom(remotes, events), url)|
    requires var l := Listings(RunFrom(remotes, events), url)[at];
             hash in l.branches.Values || hash in l.tags.Values || hash in l.ancestors
    ensures var w := RunFrom(remotes, events + more);
            var ls := Listings(w, url);
            && url in w.repos
            && (ResolveRevision(w.repos[url], hash) == Ok(hash) <==>
                  forall i | LastNamed(Branches(ls), hash, i) :: ls[i].branches[hash] == hash)
  {
    ListingsOnlyGrow(remotes, events, more, url);
    EveryRunKeepsInvariant(remotes, events + more);
    var w := RunFrom(remotes, events + more);
    var ls := Listings(w, url);
    assert hash in Commits(ls[at]);
    assert url in w.listed;
    CloneIsItsListings(remotes, events + more, url);
    BranchIsLastListed(ls, hash);
    if Named(Branches(ls), hash) {
      var i :| LastNamed(Branches(ls), hash, i);
      assert forall j | LastNamed(Branches(ls), hash, j) :: j == i;
    } else {
      OtherRefsFallBack(ls, hash);
    }
  }

  /** Any other ref is the tag of that name in the last listing that has one, and is not found exactly
      when none has. */
  lemma TagIsLastSeen(remotes: Remotes, events: seq<Event>, url: string, tag: string)
    requires url in RunFrom(remotes, events).repos
    ensures var w := RunFrom(remotes, events);
            var r, ls := ResolveRevision(w.repos[url], tag), Listings(w, url);
            && ls != []
            && (!Named(Branches(ls), tag) && !HasCommit(ls, tag) && !(tag == "HEAD" && ls[0].head in ls[0].branches) ==>
                  && (forall i | LastNamed(Tags(ls), tag, i) :: r == Ok(ls[i].tags[tag]))
                  && (r == Err(RevisionNotFound) <==> !exists i :: LastNamed(Tags(ls), tag, i)))
  {
    CloneIsItsListings(remotes, events, url);
    var ls := Listings(RunFrom(remotes, events), url);
    if !Named(Branches(ls), tag) {
      OtherRefsFallBack(ls, tag);
      KeptIsLastNamed(Tags(ls), tag);
      if i :| LastNamed(Tags(ls), tag, i) { assert tag in Tags(ls)[i]; }
    }
  }
}
