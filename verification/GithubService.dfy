/**
  The store, the cloner, the service and the adapter of the GitHub ingestor, each method proved
  against the transition functions of `GithubWorld` and `GithubExtraction`.
*/
module GithubService {
  import opened Wrappers
  import opened GithubWorld
  import opened RepoUrl
  import opened GithubExtraction
  import opened Sorting

  class GitHubStore {
    var rows: map<Url, Row>
    var order: seq<Url>

    ghost predicate Valid()
      reads this
    {
      NoDuplicates(order) && forall u :: u in order <==> u in rows
    }

    constructor ()
      ensures Valid() && rows == map[] && order == []
    {
      rows, order := map[], [];
    }

    // Neither of the recorded commits changes when a known repository is registered again.
    method UpsertRepo(url: Url, path: Path, branch: string)
      requires Valid()
      modifies this
      ensures Valid()
      ensures order == if url in old(rows) then old(order) else old(order) + [url]
      ensures rows
           == old(rows)[url := if url in old(rows) then UpsertRow(old(rows)[url], path, branch)
                 else NewRow(path, branch)]
      ensures url in old(rows) ==>
        rows[url].ingested == old(rows)[url].ingested && rows[url].commit == old(rows)[url].commit
    {
      if url in rows {
        rows := rows[url := rows[url].(path := path, branch := branch)];
      } else {
        rows, order := rows[url := Row(path, branch, "", "", Registered, "")], order + [url];
      }
    }

    method GetRepo(url: Url) returns (record: Option<Row>)
      ensures record == if url in rows then Some(rows[url]) else None
    {
      if url in rows { record := Some(rows[url]); } else { record := None; }
    }

    method DeleteRepo(url: Url) returns (deleted: bool)
      requires Valid()
      modifies this
      ensures Valid()
      ensures deleted == (url in old(rows)) && rows == old(rows) - {url}
      ensures order == Without(old(order), url)
    {
      deleted := url in rows;
      rows, order := rows - {url}, Without(order, url);
    }

    method RecordClone(url: Url, sha: string)
      requires Valid()
      modifies `rows
      ensures Valid()
      ensures rows == if url in old(rows) then old(rows)[url := ClonedRow(old(rows)[url], sha)] else old(rows)
      ensures url in rows ==> rows[url].ingested == old(rows)[url].ingested
    {
      if url in rows {
        rows := rows[url := rows[url].(commit := sha, status := Cloned, error := "")];
      }
    }

    method RecordIngest(url: Url, sha: string)
      requires Valid()
      modifies `rows
      ensures Valid()
      ensures rows == if url in old(rows) then old(rows)[url := IngestedRow(old(rows)[url], sha)] else old(rows)
      ensures url in rows ==> rows[url].commit == old(rows)[url].commit
    {
      if url in rows {
        rows := rows[url := rows[url].(ingested := sha, status := Ingested, error := "")];
      }
    }

    method MarkError(url: Url, error: string)
      requires Valid()
      modifies `rows
      ensures Valid()
      ensures rows == if url in old(rows) then old(rows)[url := ErrorRow(old(rows)[url], error)] else old(rows)
      ensures url in rows ==> rows[url].ingested == old(rows)[url].ingested && rows[url].commit == old(rows)[url].commit
    {
      if url in rows {
        rows := rows[url := rows[url].(status := Failed, error := error)];
      }
    }

    method ClearSha(url: Url)
      requires Valid()
      modifies `rows
      ensures Valid()
      ensures rows == if url in old(rows) then old(rows)[url := ClearedRow(old(rows)[url])] else old(rows)
      ensures url in rows ==> rows[url].ingested == old(rows)[url].ingested
    {
      if url in rows {
        rows := rows[url := rows[url].(commit := "", status := Registered)];
      }
    }
  }

  class RepoCloner {
    var disk: map<Path, Dir>

    constructor (disk: map<Path, Dir>)
      ensures this.disk == disk
    {
      this.disk := disk;
    }

    // None stands for the exception raised when git fails.
    method CloneOrUpdate(path: Path, previous: string, reply: GitReply) returns (result: Option<CloneResult>)
      modifies this
      ensures disk == DiskAfterGit(old(disk), path, previous, reply)
      ensures result == GitResult(old(disk), path, previous, reply)
    {
      if !(path in disk && disk[path].Clone?) {
        disk := disk - {path};
        if reply.GitError? {
          return None;
        }
        disk := disk[path := Clone(reply.sha)];
        return Some(CloneResult(reply.sha, true, true));
      }
      if reply.GitError? {
        return None;
      }
      if previous != "" && reply.sha == previous {
        return Some(CloneResult(reply.sha, false, false));
      }
      disk := disk[path := Clone(reply.sha)];
      return Some(CloneResult(reply.sha, true, false));
    }

    method RemoveClone(path: Path) returns (removed: bool)
      modifies this
      ensures removed == (path in old(disk)) && disk == old(disk) - {path}
    {
      removed := path in disk;
      disk := disk - {path};
    }

    method CleanAll() returns (removed: nat)
      modifies this
      ensures disk == map[] && removed == |old(disk)|
    {
      removed := 0;
      var left := disk.Keys;
      while left != {}
        invariant left == disk.Keys
        invariant removed + |disk.Keys| == |old(disk).Keys|
        decreases left
      {
        var path :| path in left;
        disk := disk - {path};
        left := left - {path};
        removed := removed + 1;
      }
    }
  }

  // How `ensure_fresh` ends: `Rejected` stands for the ValueError about the url, `Unfetched` for the
  // IngestionError, for an unregistered url as for a failed fetch.
  datatype Freshness = Rejected | Unfetched | Fresh(path: Path, clone: CloneResult)

  datatype RepoStatus = RepoStatus(url: Url, record: Row, cloneExists: bool, needsIngest: bool)

  // Every operation canonicalises the url it is given; None stands for the ValueError about an invalid one.
  class GitHubService {
    const store: GitHubStore
    const cloner: RepoCloner

    constructor (store: GitHubStore, cloner: RepoCloner)
      ensures this.store == store && this.cloner == cloner
    {
      this.store, this.cloner := store, cloner;
    }

    ghost function State(): World
      reads store, cloner
    {
      World(store.rows, store.order, cloner.disk)
    }

    method AddRepo(value: string, path: Path, branch: string) returns (record: Option<Row>)
      requires store.Valid()
      modifies store
      ensures store.Valid()
      ensures match Normalize(value)
              case None => record == None && State() == old(State())
              case Some(url) =>
                && State() == GithubWorld.AddRepo(old(State()), url, path, branch)
                && url in store.rows && record == Some(store.rows[url])
    {
      var url := Normalize(value);
      if url.None? {
        return None;
      }
      store.UpsertRepo(url.value, path, branch);
      record := store.GetRepo(url.value);
    }

    method RemoveRepo(value: string, deleteClone: bool) returns (removed: Option<bool>)
      requires store.Valid()
      modifies store, cloner
      ensures store.Valid()
      ensures match Normalize(value)
              case None => removed == None && State() == old(State())
              case Some(url) =>
                && State() == GithubWorld.RemoveRepo(old(State()), url, deleteClone)
                && removed == Some(url in old(store.rows))
    {
      var url := Normalize(value);
      if url.None? {
        return None;
      }
      var record := store.GetRepo(url.value);
      if record.None? {
        return Some(false);
      }
      if deleteClone {
        var _ := cloner.RemoveClone(record.value.path);
      }
      var _ := store.DeleteRepo(url.value);
      return Some(true);
    }

    method CleanOne(value: string) returns (removed: Option<nat>)
      requires store.Valid()
      modifies store, cloner
      ensures store.Valid()
      ensures match Normalize(value)
              case None => removed == None && State() == old(State())
              case Some(url) =>
                State() == CleanRepo(old(State()), url) && removed == Some(|old(cloner.disk)| - |cloner.disk|)
    {
      var url := Normalize(value);
      if url.None? {
        return None;
      }
      var record := store.GetRepo(url.value);
      if record.None? {
        return Some(0);
      }
      var gone := cloner.RemoveClone(record.value.path);
      if gone {
        store.ClearSha(url.value);
        assert cloner.disk.Keys == old(cloner.disk).Keys - {record.value.path};
        return Some(1);
      }
      assert cloner.disk == old(cloner.disk);
      return Some(0);
    }

    method CleanClones() returns (removed: nat)
      requires store.Valid()
      modifies store, cloner
      ensures store.Valid()
      ensures State() == GithubWorld.CleanAll(old(State()))
      ensures removed == |old(cloner.disk)|
    {
      removed := cloner.CleanAll();
      var urls := store.order;
      for i := 0 to |urls|
        invariant store.Valid() && store.order == urls == old(store.order) && cloner.disk == map[]
        invariant store.rows.Keys == old(store.rows).Keys
        invariant forall u :: u in store.rows ==>
          store.rows[u] == if u in urls[..i] then ClearedRow(old(store.rows)[u]) else old(store.rows)[u]
      {
        assert urls[..i + 1] == urls[..i] + [urls[i]];
        store.ClearSha(urls[i]);
      }
    }

    method EnsureFresh(value: string, git: Url -> GitReply) returns (outcome: Freshness)
      requires store.Valid()
      modifies store, cloner
      ensures store.Valid()
      ensures match FetchUrl(old(State()), value, git)
              case Invalid => outcome == Rejected && State() == old(State())
              case Answered(after, None) => outcome == Unfetched && State() == after
              case Answered(after, Some(clone)) =>
                && State() == after && Normalize(value).value in store.rows
                && outcome == Fresh(store.rows[Normalize(value).value].path, clone)
    {
      var url := Normalize(value);
      if url.None? {
        return Rejected;
      }
      var record := store.GetRepo(url.value);
      if record.None? {
        return Unfetched;
      }
      var reply := git(url.value);
      var clone := cloner.CloneOrUpdate(record.value.path, record.value.commit, reply);
      if clone.None? {
        store.MarkError(url.value, reply.message);
        return Unfetched;
      }
      store.RecordClone(url.value, clone.value.sha);
      return Fresh(record.value.path, clone.value);
    }

    method IsIngested(value: string, sha: string) returns (done: Option<bool>)
      ensures match Normalize(value)
              case None => done == None
              case Some(url) => done == Some(GithubWorld.IsIngested(State(), url, sha))
    {
      var url := Normalize(value);
      if url.None? {
        return None;
      }
      var record := store.GetRepo(url.value);
      if record.None? {
        return Some(false);
      }
      return Some(record.value.ingested != "" && record.value.ingested == sha);
    }

    method RecordIngest(value: string, sha: string) returns (ok: bool)
      requires store.Valid()
      modifies store
      ensures store.Valid() && ok == Normalize(value).Some?
      ensures State()
           == if ok then GithubWorld.RecordIngest(old(State()), Normalize(value).value, sha) else old(State())
    {
      var url := Normalize(value);
      if url.None? {
        return false;
      }
      store.RecordIngest(url.value, sha);
      return true;
    }

    // One entry per registered repository; an ingest is due unless the last one saw this commit.
    method GetStatus() returns (out: seq<RepoStatus>)
      requires store.Valid()
      ensures |out| == |store.order|
      ensures forall i :: 0 <= i < |out| ==>
        && out[i].url == store.order[i] && out[i].record == store.rows[out[i].url]
        && (out[i].cloneExists <==> out[i].record.path in cloner.disk)
        && (!out[i].needsIngest <==> exists sha: Sha :: RowCaughtUp(State(), out[i].url, sha))
    {
      out := [];
      for i := 0 to |store.order|
        invariant |out| == i
        invariant forall j :: 0 <= j < i ==>
          && out[j].url == store.order[j] && out[j].record == store.rows[out[j].url]
          && (out[j].cloneExists <==> out[j].record.path in cloner.disk)
          && (!out[j].needsIngest <==> exists sha: Sha :: RowCaughtUp(State(), out[j].url, sha))
      {
        var url := store.order[i];
        var record := store.rows[url];
        var needs := record.ingested == "" || record.ingested != record.commit;
        assert !needs ==> RowCaughtUp(State(), url, record.ingested);
        out := out + [RepoStatus(url, record, record.path in cloner.disk, needs)];
      }
    }
  }

  // `skipped` counts the urls that the coverage note mentions.
  datatype AdapterResult = AdapterResult(services: seq<string>, artifacts: seq<string>, warned: seq<Url>,
                                         scanned: nat, total: nat, skipped: nat)

  // How one pass of the loop over the repositories ends.
  datatype RepoVisit = Warned | Skipped | Raised | Built(records: Records)

  type Records = r: WalkReply | r.Walked? witness Walked([], [])

  // The canonical forms of the urls asked for, None if one of them is invalid.
  function Canonical(repos: seq<string>): (allowed: Option<set<Url>>)
    ensures allowed.None? <==> exists r :: r in repos && Normalize(r).None?
    ensures allowed.Some? ==> forall u :: u in allowed.value <==> exists r :: r in repos && Normalize(r) == Some(u)
  {
    if exists r :: r in repos && Normalize(r).None? then None
    else Some(set r | r in repos && Normalize(r).Some? :: Normalize(r).value)
  }

  class GitHubAdapter {
    const service: GitHubService

    constructor (service: GitHubService)
      ensures this.service == service
    {
      this.service := service;
    }

    // `None` stands for the exception that drops everything collected so far.  No urls in `repos` means all.
    method Extract(repos: seq<string>, git: Url -> GitReply, walk: (Url, Sha) -> WalkReply)
      returns (result: Option<AdapterResult>)
      requires service.store.Valid()
      modifies service.store, service.cloner
      ensures service.store.Valid()
      ensures old(service.store.order) != [] && Canonical(repos).None? ==>
                result == None && service.State() == old(service.State())
      ensures old(service.store.order) == [] || Canonical(repos).Some? ==>
                var urls := Selected(old(service.store.order), if repos == [] then None else Canonical(repos));
                var p := Extraction(old(service.State()), urls, git, walk);
                && service.State() == p.world
                && result == if p.raised then None
                             else Some(AdapterResult(p.services, p.artifacts, p.warned, |p.built|, |urls|, |p.skipped|))
    {
      var urls := service.store.order;
      if urls == [] {
        return Some(AdapterResult([], [], [], 0, 0, 0));
      }
      if repos != [] {
        var allowed := Canonical(repos);
        if allowed.None? {
          return None;
        }
        urls := Selected(urls, allowed);
      }
      var services, artifacts, warned, scanned, skipped := [], [], [], 0, 0;
      ghost var w := service.State();
      ghost var p := Extraction(w, [], git, walk);
      assert urls[..0] == [];
      for i := 0 to |urls|
        invariant service.store.Valid()
        invariant p == Extraction(w, urls[..i], git, walk) && !p.raised && service.State() == p.world
        invariant services == p.services && artifacts == p.artifacts && warned == p.warned
        invariant scanned == |p.built| && skipped == |p.skipped|
      {
        OneMoreRepo(w, urls, i, git, walk);
        var visit := ExtractOne(urls[i], git, walk, p);
        p := OneRepo(p, urls[i], git, walk);
        match visit {
          case Warned => warned := warned + [urls[i]];
          case Skipped => skipped := skipped + 1;
          case Raised =>
            RaisedStaysRaised(w, urls, i + 1, git, walk);
            return None;
          case Built(built) =>
            services, artifacts := services + built.services, artifacts + built.artifacts;
            scanned := scanned + 1;
        }
      }
      assert urls[..|urls|] == urls;
      return Some(AdapterResult(services, artifacts, warned, scanned, |urls|, skipped));
    }

    // The body of the loop for one repository.
    method ExtractOne(url: Url, git: Url -> GitReply, walk: (Url, Sha) -> WalkReply, ghost p: Progress)
        returns (visit: RepoVisit)
      requires service.store.Valid() && p.world == service.State() && !p.raised
      modifies service.store, service.cloner
      ensures service.store.Valid()
      ensures var after := OneRepo(p, url, git, walk);
              && service.State() == after.world && after.raised == visit.Raised?
              && after.warned == p.warned + (if visit.Warned? then [url] else [])
              && |after.skipped| == |p.skipped| + (if visit.Skipped? then 1 else 0)
              && after.services == p.services + (if visit.Built? then visit.records.services else [])
              && after.artifacts == p.artifacts + (if visit.Built? then visit.records.artifacts else [])
              && |after.built| == |p.built| + if visit.Built? then 1 else 0
    {
      var outcome := service.EnsureFresh(url, git);
      assert Normalize(url).Some? ==>
        OneRepo(p, url, git, walk) == OneRow(p, url, Normalize(url).value, git(Normalize(url).value), walk);
      match outcome {
        case Rejected => return Raised;
        case Unfetched => return RepoVisit.Warned;
        case Fresh(path, clone) =>
          if !clone.changed {
            var done := service.IsIngested(url, clone.sha);
            if done == Some(true) {
              return RepoVisit.Skipped;
            }
          }
          var built := walk(url, service.cloner.disk[path].tree);
          if built.WalkFailed? {
            return Raised;
          }
          var _ := service.RecordIngest(url, clone.sha);
          return Built(built);
      }
    }
  }

  // The allowed urls, none repeated, in the order of registration.
  function Selected(order: seq<Url>, allowed: Option<set<Url>>): (urls: seq<Url>)
    ensures forall u :: u in urls <==> u in order && (allowed.Some? ==> u in allowed.value)
    ensures forall u, v :: Before(urls, u, v) ==> Before(order, u, v)
    ensures NoDuplicates(order) ==> NoDuplicates(urls)
    ensures allowed.None? ==> urls == order
  {
    if allowed.None? then order
    else if order == [] then []
    else
      var init, last := order[..|order| - 1], order[|order| - 1];
      var before := Selected(init, allowed);
      SelectedSnoc(init, last, before);
      assert order == init + [last];
      before + if last in allowed.value then [last] else []
  }

  lemma SelectedSnoc(init: seq<Url>, last: Url, before: seq<Url>)
    requires forall u :: u in before ==> u in init
    requires forall u, v :: Before(before, u, v) ==> Before(init, u, v)
    requires NoDuplicates(init) ==> NoDuplicates(before)
    ensures forall u, v :: Before(before, u, v) ==> Before(init + [last], u, v)
    ensures forall u, v :: Before(before + [last], u, v) ==> Before(init + [last], u, v)
    ensures NoDuplicates(init + [last]) ==> NoDuplicates(before) && NoDuplicates(before + [last])
  {
    forall u, v | Before(before, u, v) ensures Before(init + [last], u, v) {
      BeforeInLonger(init, last, u, v);
    }
    forall u, v | Before(before + [last], u, v) ensures Before(init + [last], u, v) {
      var i, j :| 0 <= i < j < |before + [last]| && (before + [last])[i] == u && (before + [last])[j] == v;
      if j < |before| {
        assert before[i] == u && before[j] == v;
        BeforeInLonger(init, last, u, v);
      } else {
        assert before[i] == u;
        LastIsAfter(init, last, u);
      }
    }
    if NoDuplicates(init + [last]) {
      forall i, j | 0 <= i < j < |init| ensures init[i] != init[j] {
        assert (init + [last])[i] != (init + [last])[j];
      }
      forall u | u in init ensures u != last {
        var i :| 0 <= i < |init| && init[i] == u;
        assert (init + [last])[i] != (init + [last])[|init|];
      }
      forall i, j | 0 <= i < j < |before + [last]| ensures (before + [last])[i] != (before + [last])[j] {
        assert before[i] in before;
      }
    }
  }

  lemma OneMoreRepo(w: World, urls: seq<Url>, i: nat, git: Url -> GitReply, walk: (Url, Sha) -> WalkReply)
    requires i < |urls| && !Extraction(w, urls[..i], git, walk).raised
    ensures Extraction(w, urls[..i + 1], git, walk)
         == OneRepo(Extraction(w, urls[..i], git, walk), urls[i], git, walk)
  {
    assert urls[..i + 1][..i] == urls[..i];
  }

  lemma {:induction false} RaisedStaysRaised(w: World, urls: seq<Url>, k: nat, git: Url -> GitReply,
      walk: (Url, Sha) -> WalkReply)
    requires k <= |urls| && Extraction(w, urls[..k], git, walk).raised
    ensures Extraction(w, urls, git, walk) == Extraction(w, urls[..k], git, walk)
  {
    if k == |urls| {
      assert urls[..k] == urls;
    } else {
      assert urls[..|urls| - 1][..k] == urls[..k];
      RaisedStaysRaised(w, urls[..|urls| - 1], k, git, walk);
    }
  }
}
