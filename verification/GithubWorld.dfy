/**
  The incremental GitHub ingestion protocol as a transition system.

  A repository has one metadata row, at most one directory on disk, and a remote head that
  moves as it likes.  The row separates the commit last *observed* from the commit last
  *ingested*; an ingestion skips a repository when the fetched commit equals the ingested one.
  `Machine` adds what no table stores, the walks that completed, so that "skipped" can be
  compared with "walked" over every run, whatever processes are killed on the way.
*/
module GithubWorld {
  import opened Wrappers

  type Url = string

  // A commit id as git reports it is never empty; "" in a row stands for "none recorded".
  type Sha = s: string | s != "" witness "0"

  datatype Path = Path(owner: string, name: string)

  datatype Status = Registered | Cloned | Ingested | Failed

  datatype Row = Row(path: Path, branch: string, commit: string, ingested: string, status: Status, error: string)

  // What sits at a clone path: a git work tree at some commit, or a directory without `.git`.
  datatype Dir = Clone(tree: Sha) | Debris

  // `order` lists the registered urls by `added_at`.
  datatype World = World(rows: map<Url, Row>, order: seq<Url>, disk: map<Path, Dir>)

  // What git answers when asked to clone or fetch.
  datatype GitReply = Head(sha: Sha) | GitError(message: string)

  datatype CloneResult = CloneResult(sha: Sha, changed: bool, freshClone: bool)

  ghost predicate NoDuplicates(order: seq<Url>) {
    forall i, j :: 0 <= i < j < |order| ==> order[i] != order[j]
  }

  ghost predicate WellFormed(w: World) {
    NoDuplicates(w.order) && forall u :: u in w.order <==> u in w.rows
  }

  /******* Row updates *******/

  function NewRow(path: Path, branch: string): Row {
    Row(path, branch, "", "", Registered, "")
  }

  function UpsertRow(row: Row, path: Path, branch: string): Row {
    row.(path := path, branch := branch)
  }

  function ClonedRow(row: Row, sha: string): Row {
    row.(commit := sha, status := Cloned, error := "")
  }

  function IngestedRow(row: Row, sha: string): Row {
    row.(ingested := sha, status := Ingested, error := "")
  }

  function ErrorRow(row: Row, error: string): Row {
    row.(status := Failed, error := error)
  }

  function ClearedRow(row: Row): Row {
    row.(commit := "", status := Registered)
  }

  /******* Git work on one directory *******/

  predicate IsRepo(disk: map<Path, Dir>, path: Path) {
    path in disk && disk[path].Clone?
  }

  // The row's commit is trusted: when the remote head equals it, the work tree is not touched.
  predicate TrustsTree(disk: map<Path, Dir>, path: Path, previous: string, head: Sha) {
    IsRepo(disk, path) && previous != "" && head == previous
  }

  function DiskAfterGit(disk: map<Path, Dir>, path: Path, previous: string, reply: GitReply): map<Path, Dir> {
    match reply
    case GitError(_) => if IsRepo(disk, path) then disk else disk - {path}
    case Head(sha) => if TrustsTree(disk, path, previous, sha) then disk else disk[path := Clone(sha)]
  }

  function GitResult(disk: map<Path, Dir>, path: Path, previous: string, reply: GitReply): Option<CloneResult> {
    match reply
    case GitError(_) => None
    case Head(sha) => Some(CloneResult(sha, !TrustsTree(disk, path, previous, sha), !IsRepo(disk, path)))
  }

  /******* One repository in one ingestion *******/

  function EnsureFresh(w: World, url: Url, reply: GitReply): (World, Option<CloneResult>) {
    if url !in w.rows then (w, None) else
    var row := w.rows[url];
    var disk := DiskAfterGit(w.disk, row.path, row.commit, reply);
    match reply
    case GitError(message) =>
      (w.(disk := disk, rows := w.rows[url := ErrorRow(row, message)]), None)
    case Head(sha) =>
      (w.(disk := disk, rows := w.rows[url := ClonedRow(row, sha)]), GitResult(w.disk, row.path, row.commit, reply))
  }

  predicate IsIngested(w: World, url: Url, sha: string) {
    url in w.rows && w.rows[url].ingested != "" && w.rows[url].ingested == sha
  }

  function RecordIngest(w: World, url: Url, sha: string): World {
    if url in w.rows then w.(rows := w.rows[url := IngestedRow(w.rows[url], sha)]) else w
  }

  datatype Verdict =
    | Warned                  // the fetch failed, the repository is left for the next run
    | Skipped                 // fetched commit already ingested
    | MustWalk(sha: Sha)      // the clone has to be walked

  // What the extraction loop decides after `ensure_fresh`.
  function Decide(w: World, clone: Option<CloneResult>, url: Url): Verdict {
    match clone
    case None => Warned
    case Some(r) => if !r.changed && IsIngested(w, url, r.sha) then Skipped else MustWalk(r.sha)
  }

  // One iteration: fetch, decide, and record the ingest unless the walk raised.
  function Visit(w: World, url: Url, reply: GitReply, walkOk: bool): (World, Verdict) {
    var (fetched, clone) := EnsureFresh(w, url, reply);
    var verdict := Decide(fetched, clone, url);
    (if verdict.MustWalk? && walkOk then RecordIngest(fetched, url, verdict.sha) else fetched, verdict)
  }

  /******* Registry steps *******/

  function AddRepo(w: World, url: Url, path: Path, branch: string): World {
    if url in w.rows
    then w.(rows := w.rows[url := UpsertRow(w.rows[url], path, branch)])
    else w.(rows := w.rows[url := NewRow(path, branch)], order := w.order + [url])
  }

  function Without(order: seq<Url>, url: Url): (r: seq<Url>)
    ensures forall u :: u in r <==> u in order && u != url
    ensures NoDuplicates(order) ==> NoDuplicates(r)
  {
    if order == [] then []
    else
      var last := order[|order| - 1];
      var init := Without(order[..|order| - 1], url);
      assert order == order[..|order| - 1] + [last];
      assert NoDuplicates(order) ==> last !in order[..|order| - 1];
      if last == url then init else init + [last]
  }

  function RemoveRepo(w: World, url: Url, deleteClone: bool): World {
    if url !in w.rows then w
    else World(w.rows - {url}, Without(w.order, url),
               if deleteClone then w.disk - {w.rows[url].path} else w.disk)
  }

  function CleanRepo(w: World, url: Url): World {
    if url in w.rows && w.rows[url].path in w.disk
    then w.(disk := w.disk - {w.rows[url].path}, rows := w.rows[url := ClearedRow(w.rows[url])])
    else w
  }

  function CleanAll(w: World): World {
    w.(disk := map[], rows := map u | u in w.rows :: ClearedRow(w.rows[u]))
  }

  /******* What rows and directories look like after one step *******/

  // The directory goes exactly if the removal says so; everything else stays, the order of the rest included.
  lemma RemovalIsExact(w: World, url: Url, deleteClone: bool)
    ensures var after := RemoveRepo(w, url, deleteClone);
            && (forall u :: u in after.rows <==> u in w.rows && u != url)
            && (forall u :: u in after.rows ==> after.rows[u] == w.rows[u])
            && (forall path :: path in after.disk
                  <==> path in w.disk && !(url in w.rows && deleteClone && path == w.rows[url].path))
            && (forall path :: path in after.disk ==> after.disk[path] == w.disk[path])
            && (forall u :: u in after.order ==> u in w.order)
            && (url in w.rows ==> forall u :: u in w.order && u != url ==> u in after.order)
  {
  }

  // So a repository that is registered again is cloned anew after a removal with its clone, and finds its old
  // clone after one without; a clone that is found is reset, not trusted.
  lemma RemovedIsClonedAgain(w: World, url: Url, branch: string, deleteClone: bool, sha: Sha)
    requires url in w.rows
    ensures var path := w.rows[url].path;
            var again := AddRepo(RemoveRepo(w, url, deleteClone), url, path, branch);
            var (after, clone) := EnsureFresh(again, url, Head(sha));
            && clone == Some(CloneResult(sha, true, deleteClone || !IsRepo(w.disk, path)))
            && after.disk[path] == Clone(sha) && after.rows[url].ingested == ""
  {
  }

  // A fetch records the head and clears the error, or records the error and keeps both commits; an ingest
  // records its commit and keeps the observed one; a clean forgets the observed commit and keeps the ingested
  // one.  The status says which was last.
  lemma StepsAreRecorded(w: World, url: Url, sha: Sha, message: string)
    requires url in w.rows
    ensures var row, cleaned := w.rows[url], CleanAll(w).rows;
            var fetched, failed := EnsureFresh(w, url, Head(sha)).0, EnsureFresh(w, url, GitError(message)).0;
            var ingested := RecordIngest(w, url, sha);
            && fetched.rows[url] == Row(row.path, row.branch, sha, row.ingested, Cloned, "")
            && failed.rows[url] == Row(row.path, row.branch, row.commit, row.ingested, Failed, message)
            && ingested.rows[url] == Row(row.path, row.branch, row.commit, sha, Ingested, "")
            && cleaned[url] == Row(row.path, row.branch, "", row.ingested, Registered, row.error)
            && CleanRepo(w, url).rows[url] == (if row.path in w.disk then cleaned[url] else row)
  {
  }

  // What a new row says, and what a registration changes in an old one.  A fetch puts the tree at the head; one
  // that fails leaves a clone as it is and nothing else in its place.
  lemma RegisteredAndFetched(w: World, url: Url, path: Path, branch: string, sha: Sha, message: string)
    ensures var added := AddRepo(w, url, path, branch);
            var fetched, failed := EnsureFresh(added, url, Head(sha)).0, EnsureFresh(added, url, GitError(message)).0;
            && added.disk == w.disk
            && (url !in w.rows ==> added.rows[url] == Row(path, branch, "", "", Registered, ""))
            && (url in w.rows ==> added.rows[url] == w.rows[url].(path := path, branch := branch))
            && path in fetched.disk && fetched.disk[path].Clone?
            && (fetched.disk[path].tree == sha
                || (url in w.rows && w.rows[url].commit == sha && fetched.disk == w.disk))
            && (path in failed.disk <==> path in w.disk && w.disk[path].Clone?)
            && (forall other :: other != path ==>
                  (other in fetched.disk <==> other in w.disk) && (other in failed.disk <==> other in w.disk))
            && (forall other :: other in w.disk && other in failed.disk ==> failed.disk[other] == w.disk[other])
            && (forall other :: other in w.disk && other != path ==> fetched.disk[other] == w.disk[other])
  {
  }

  /******* Runs *******/

  // A walk that completed and was recorded: which url, under which commit, reading which tree.
  datatype Walk = Walk(url: Url, sha: Sha, tree: Sha)

  datatype Machine = Machine(world: World, walks: set<Walk>)

  datatype Event =
    | Add(url: Url, path: Path, branch: string)
    | Remove(url: Url, deleteClone: bool)
    | Clean(url: Url)
    | CleanEverything
    | Fetch(url: Url, reply: GitReply)         // `ensure_fresh`; also an extraction killed right after it
    | FetchKilled(url: Url, reply: GitReply)   // killed after the git work, before the row is written
    | Ingest(url: Url, reply: GitReply, walkOk: bool)  // one iteration of the extraction loop
    | LoseDirs(paths: set<Path>)               // directories deleted, e.g. by a killed clean
    | LeaveDebris(path: Path)                  // a non-git directory appears where there was none
    | Tear(path: Path, left: Sha)              // a removal, a clone or a reset that stopped midway: `.git` is
                                               // there, and files that `left` names, of any commit or of none

  function InitialMachine(disk: map<Path, Dir>): Machine {
    Machine(World(map[], [], disk), {})
  }

  function Step(m: Machine, e: Event): Machine {
    var w := m.world;
    match e
    case Add(url, path, branch) => m.(world := AddRepo(w, url, path, branch))
    case Remove(url, deleteClone) => m.(world := RemoveRepo(w, url, deleteClone))
    case Clean(url) => m.(world := CleanRepo(w, url))
    case CleanEverything => m.(world := CleanAll(w))
    case Fetch(url, reply) => m.(world := EnsureFresh(w, url, reply).0)
    case FetchKilled(url, reply) =>
      if url in w.rows
      then m.(world := w.(disk := DiskAfterGit(w.disk, w.rows[url].path, w.rows[url].commit, reply)))
      else m
    case Ingest(url, reply, walkOk) =>
      var (after, verdict) := Visit(w, url, reply, walkOk);
      // A verdict other than Warned is only reached with a work tree in place.
      if verdict.MustWalk? && walkOk && url in w.rows && IsRepo(after.disk, w.rows[url].path)
      then Machine(after, m.walks + {Walk(url, verdict.sha, after.disk[w.rows[url].path].tree)})
      else m.(world := after)
    case LoseDirs(paths) => m.(world := w.(disk := w.disk - paths))
    case LeaveDebris(path) => if path in w.disk then m else m.(world := w.(disk := w.disk[path := Debris]))
    case Tear(path, left) => m.(world := w.(disk := w.disk[path := Clone(left)]))
  }

  function Run(m: Machine, events: seq<Event>): Machine {
    if events == [] then m else Step(Run(m, events[..|events| - 1]), events[|events| - 1])
  }

  /******* Safety: a skip has a recorded walk behind it *******/

  ghost predicate IngestedWasWalked(m: Machine) {
    forall url :: url in m.world.rows && m.world.rows[url].ingested != "" ==>
      exists tree: Sha :: Walk(url, m.world.rows[url].ingested, tree) in m.walks
  }

  lemma StepKeepsIngestedWasWalked(m: Machine, e: Event)
    requires IngestedWasWalked(m)
    ensures IngestedWasWalked(Step(m, e))
  {
    var n := Step(m, e);
    forall url | url in n.world.rows && n.world.rows[url].ingested != ""
      ensures exists tree: Sha :: Walk(url, n.world.rows[url].ingested, tree) in n.walks
    {
      if url in m.world.rows && m.world.rows[url].ingested == n.world.rows[url].ingested {
        var tree: Sha :| Walk(url, m.world.rows[url].ingested, tree) in m.walks;
        assert Walk(url, n.world.rows[url].ingested, tree) in n.walks;
      } else {
        assert e.Ingest? && e.url == url;
        var path := m.world.rows[url].path;
        assert Walk(url, n.world.rows[url].ingested, n.world.disk[path].tree) in n.walks;
      }
    }
  }

  lemma {:induction false} RunKeepsIngestedWasWalked(disk: map<Path, Dir>, events: seq<Event>)
    ensures IngestedWasWalked(Run(InitialMachine(disk), events))
  {
    if events != [] {
      RunKeepsIngestedWasWalked(disk, events[..|events| - 1]);
      StepKeepsIngestedWasWalked(Run(InitialMachine(disk), events[..|events| - 1]), events[|events| - 1]);
    }
  }

  // `walks` holds nothing but completed iterations: each member has its own event in the run.
  lemma {:induction false} WalksAreCompletedIterations(disk: map<Path, Dir>, events: seq<Event>, walk: Walk)
    requires walk in Run(InitialMachine(disk), events).walks
    ensures exists i :: 0 <= i < |events| && events[i] == Ingest(walk.url, Head(walk.sha), true)
  {
    if events != [] {
      var n := |events| - 1;
      if walk in Run(InitialMachine(disk), events[..n]).walks {
        WalksAreCompletedIterations(disk, events[..n], walk);
        var i :| 0 <= i < n && events[..n][i] == Ingest(walk.url, Head(walk.sha), true);
        assert events[i] == Ingest(walk.url, Head(walk.sha), true);
      } else {
        assert events[n] == Ingest(walk.url, Head(walk.sha), true);
      }
    }
  }

  // Over every run, kills included: an iteration skips only if an earlier iteration fetched this
  // very commit and completed its walk.
  lemma {:induction false} SkipHasEarlierWalk(disk: map<Path, Dir>, events: seq<Event>, url: Url, reply: GitReply,
      walkOk: bool)
    requires Visit(Run(InitialMachine(disk), events).world, url, reply, walkOk).1 == Skipped
    ensures reply.Head?
    ensures exists i :: 0 <= i < |events| && events[i] == Ingest(url, reply, true)
  {
    var m := Run(InitialMachine(disk), events);
    RunKeepsIngestedWasWalked(disk, events);
    var tree: Sha :| Walk(url, m.world.rows[url].ingested, tree) in m.walks;
    WalksAreCompletedIterations(disk, events, Walk(url, m.world.rows[url].ingested, tree));
  }

  /******* Safety: trees are where the rows say they are *******/

  ghost predicate DistinctPaths(w: World) {
    forall u, v :: u in w.rows && v in w.rows && u != v ==> w.rows[u].path != w.rows[v].path
  }

  ghost predicate TreesMatchRows(w: World) {
    forall u :: u in w.rows && w.rows[u].commit != "" && IsRepo(w.disk, w.rows[u].path) ==>
      w.disk[w.rows[u].path].tree == w.rows[u].commit
  }

  ghost predicate HonestWalks(m: Machine) {
    forall walk :: walk in m.walks ==> walk.tree == walk.sha
  }

  // An iteration adds a dishonest walk exactly when the fast path trusts a tree that sits elsewhere and the
  // commit is not ingested yet.
  lemma WalkIsHonestExactlyWhen(m: Machine, url: Url, sha: Sha)
    requires HonestWalks(m) && url in m.world.rows
    ensures var row, disk := m.world.rows[url], m.world.disk;
            HonestWalks(Step(m, Ingest(url, Head(sha), true)))
            <==> (TrustsTree(disk, row.path, row.commit, sha) && row.ingested != sha ==>
                    disk[row.path].tree == row.commit)
  {
    var row, n := m.world.rows[url], Step(m, Ingest(url, Head(sha), true));
    var tree := if TrustsTree(m.world.disk, row.path, row.commit, sha) then m.world.disk[row.path].tree else sha;
    var skipped := TrustsTree(m.world.disk, row.path, row.commit, sha) && row.ingested == sha;
    assert n.walks == if skipped then m.walks else m.walks + {Walk(url, sha, tree)};
    assert !skipped ==> Walk(url, sha, tree) in n.walks;
  }

  ghost predicate Sound(m: Machine) {
    SoundWorld(m.world) && HonestWalks(m)
  }

  // A row that the fast path would trust over the directory: its commit is set, to something else.
  predicate Trusted(w: World, path: Path, left: Sha) {
    exists u :: u in w.rows && w.rows[u].path == path && w.rows[u].commit != "" && w.rows[u].commit != left
  }

  // No kill between the git work and the row update, none that tears a directory whose row still names a
  // commit, and one clone path per registered url.
  ghost predicate Disciplined(w: World, e: Event) {
    match e
    case FetchKilled(_, _) => false
    case Tear(path, left) => !Trusted(w, path, left)
    case Add(url, path, _) => forall u :: u in w.rows ==> (w.rows[u].path == path <==> u == url)
    case _ => true
  }

  ghost predicate SoundWorld(w: World) {
    WellFormed(w) && DistinctPaths(w) && TreesMatchRows(w)
  }

  lemma FetchKeepsSound(w: World, url: Url, reply: GitReply)
    requires SoundWorld(w)
    ensures var after := EnsureFresh(w, url, reply).0;
            && SoundWorld(after)
            && (url in w.rows && reply.Head? ==>
                  after.rows[url].path in after.disk && after.disk[after.rows[url].path] == Clone(reply.sha))
  {
  }

  lemma RecordIngestKeepsSound(w: World, url: Url, sha: string)
    requires SoundWorld(w)
    ensures SoundWorld(RecordIngest(w, url, sha))
  {
  }

  lemma IngestKeepsSound(m: Machine, url: Url, reply: GitReply, walkOk: bool)
    requires Sound(m)
    ensures Sound(Step(m, Ingest(url, reply, walkOk)))
  {
    var n := Step(m, Ingest(url, reply, walkOk));
    var fetched := EnsureFresh(m.world, url, reply).0;
    FetchKeepsSound(m.world, url, reply);
    if reply.Head? {
      RecordIngestKeepsSound(fetched, url, reply.sha);
    }
    assert n.world == fetched || (reply.Head? && n.world == RecordIngest(fetched, url, reply.sha));
    assert n.walks <= m.walks + (if reply.Head? then {Walk(url, reply.sha, reply.sha)} else {});
  }

  lemma RegistryKeepsSound(w: World, e: Event)
    requires SoundWorld(w) && Disciplined(w, e)
    ensures e.Add? ==> SoundWorld(AddRepo(w, e.url, e.path, e.branch))
    ensures e.Remove? ==> SoundWorld(RemoveRepo(w, e.url, e.deleteClone))
    ensures e.Clean? ==> SoundWorld(CleanRepo(w, e.url))
    ensures SoundWorld(CleanAll(w))
  {
    if e.Add? && e.url !in w.rows {
      var after := AddRepo(w, e.url, e.path, e.branch);
      assert NoDuplicates(after.order);
      assert forall u :: u in after.order <==> u in w.order || u == e.url;
    }
  }

  lemma {:induction false} StepKeepsSound(m: Machine, e: Event)
    requires Sound(m) && Disciplined(m.world, e)
    ensures Sound(Step(m, e))
  {
    match e
    case Fetch(url, reply) => FetchKeepsSound(m.world, url, reply);
    case Ingest(url, reply, walkOk) => IngestKeepsSound(m, url, reply, walkOk);
    case LoseDirs(_) =>
    case LeaveDebris(_) =>
    case Tear(_, _) =>
    case _ => RegistryKeepsSound(m.world, e);
  }

  ghost predicate DisciplinedRun(disk: map<Path, Dir>, events: seq<Event>) {
    forall i :: 0 <= i < |events| ==> Disciplined(Run(InitialMachine(disk), events[..i]).world, events[i])
  }

  lemma {:induction false} RunKeepsSound(disk: map<Path, Dir>, events: seq<Event>)
    requires DisciplinedRun(disk, events)
    ensures Sound(Run(InitialMachine(disk), events))
  {
    if events != [] {
      var n := |events| - 1;
      assert forall i :: 0 <= i < n ==> events[..n][..i] == events[..i];
      RunKeepsSound(disk, events[..n]);
      StepKeepsSound(Run(InitialMachine(disk), events[..n]), events[n]);
    }
  }

  // Over every disciplined run a skipped commit was walked in a tree at exactly that commit.
  lemma {:induction false} SkipHasHonestWalk(disk: map<Path, Dir>, events: seq<Event>, url: Url, reply: GitReply,
      walkOk: bool)
    requires DisciplinedRun(disk, events)
    requires Visit(Run(InitialMachine(disk), events).world, url, reply, walkOk).1 == Skipped
    ensures reply.Head? && Walk(url, reply.sha, reply.sha) in Run(InitialMachine(disk), events).walks
  {
    var m := Run(InitialMachine(disk), events);
    RunKeepsIngestedWasWalked(disk, events);
    RunKeepsSound(disk, events);
    var tree: Sha :| Walk(url, m.world.rows[url].ingested, tree) in m.walks;
  }
}
