/**
  One extraction over the registered repositories, and what it guarantees from any state a run of
  the protocol can leave behind.

  The service canonicalises a registered url again before it looks for the row.  So a url may be turned
  away, may lead to the row of another url, and two urls may lead to one row.
*/
module GithubExtraction {
  import opened Wrappers
  import opened GithubWorld
  import opened RepoUrl

  // What walking a work tree yields: the records built from it, or an exception.
  datatype WalkReply = Walked(services: seq<string>, artifacts: seq<string>) | WalkFailed

  // The loop state of an extraction.  `built` lists what was walked and recorded; once `raised`
  // is set nothing further happens and the collected records are dropped with the exception.
  datatype Progress = Progress(world: World, services: seq<string>, artifacts: seq<string>,
                               warned: seq<Url>, skipped: seq<Url>, built: seq<(Url, Sha)>, raised: bool)

  function Start(w: World): Progress {
    Progress(w, [], [], [], [], [], false)
  }

  // The turn of `url`, whose row is that of `key`.
  function OneRow(p: Progress, url: Url, key: Url, reply: GitReply, walk: (Url, Sha) -> WalkReply): Progress {
    var (fetched, clone) := EnsureFresh(p.world, key, reply);
    match Decide(fetched, clone, key)
    case Warned => p.(world := fetched, warned := p.warned + [url])
    case Skipped => p.(world := fetched, skipped := p.skipped + [url])
    case MustWalk(sha) =>
      match walk(url, fetched.disk[fetched.rows[key].path].tree)
      case WalkFailed => p.(world := fetched, raised := true)
      case Walked(services, artifacts) =>
        p.(world := RecordIngest(fetched, key, sha), services := p.services + services,
           artifacts := p.artifacts + artifacts, built := p.built + [(url, sha)])
  }

  // A url that cannot be canonicalised again ends the extraction like a failing walk.
  function OneRepo(p: Progress, url: Url, git: Url -> GitReply, walk: (Url, Sha) -> WalkReply): Progress {
    match Normalize(url)
    case None => p.(raised := true)
    case Some(key) => OneRow(p, url, key, git(key), walk)
  }

  function Extraction(w: World, urls: seq<Url>, git: Url -> GitReply, walk: (Url, Sha) -> WalkReply): Progress {
    if urls == [] then Start(w) else
    var n := |urls| - 1;
    var p := Extraction(w, urls[..n], git, walk);
    if p.raised then p else OneRepo(p, urls[n], git, walk)
  }

  /******* An extraction is a run of the protocol *******/

  // The iteration of a url as an event: none if the url is turned away, which changes nothing.
  function EventsOfOne(p: Progress, url: Url, git: Url -> GitReply, walk: (Url, Sha) -> WalkReply): seq<Event> {
    match Normalize(url)
    case None => []
    case Some(key) => [Ingest(key, git(key), !OneRow(p, url, key, git(key), walk).raised)]
  }

  function EventsOf(w: World, urls: seq<Url>, git: Url -> GitReply, walk: (Url, Sha) -> WalkReply): seq<Event> {
    if urls == [] then [] else
    var n := |urls| - 1;
    var p := Extraction(w, urls[..n], git, walk);
    var events := EventsOf(w, urls[..n], git, walk);
    if p.raised then events else events + EventsOfOne(p, urls[n], git, walk)
  }

  lemma RunSnoc(m: Machine, events: seq<Event>, e: Event)
    ensures Run(m, events + [e]) == Step(Run(m, events), e)
  {
    assert (events + [e])[..|events|] == events;
  }

  lemma OneRowIsAVisit(p: Progress, url: Url, key: Url, reply: GitReply, walk: (Url, Sha) -> WalkReply)
    requires !p.raised
    ensures var q := OneRow(p, url, key, reply, walk);
            q.world == Visit(p.world, key, reply, !q.raised).0
  {
    var (fetched, clone) := EnsureFresh(p.world, key, reply);
    if Decide(fetched, clone, key).MustWalk? {
      var built := walk(url, fetched.disk[fetched.rows[key].path].tree);
      assert OneRow(p, url, key, reply, walk).raised == built.WalkFailed?;
    }
  }

  lemma IngestStepIsAVisit(m: Machine, url: Url, reply: GitReply, walkOk: bool)
    ensures Step(m, Ingest(url, reply, walkOk)).world == Visit(m.world, url, reply, walkOk).0
  {
  }

  // Every theorem about runs of events therefore speaks about extractions too, and a kill after k
  // repositories leaves the state of the extraction over the first k.
  lemma {:induction false} ExtractionIsRun(m: Machine, urls: seq<Url>, git: Url -> GitReply,
      walk: (Url, Sha) -> WalkReply)
    ensures Run(m, EventsOf(m.world, urls, git, walk)).world == Extraction(m.world, urls, git, walk).world
  {
    if urls != [] {
      var n := |urls| - 1;
      ExtractionIsRun(m, urls[..n], git, walk);
      var p := Extraction(m.world, urls[..n], git, walk);
      var events := EventsOf(m.world, urls[..n], git, walk);
      if !p.raised {
        match Normalize(urls[n])
        case None => assert events + [] == events;
        case Some(key) =>
          var e := Ingest(key, git(key), !OneRow(p, urls[n], key, git(key), walk).raised);
          RunSnoc(m, events, e);
          IngestStepIsAVisit(Run(m, events), key, e.reply, e.walkOk);
          OneRowIsAVisit(p, urls[n], key, git(key), walk);
      }
    }
  }

  /******* Recovery *******/

  predicate RowCaughtUp(w: World, url: Url, sha: Sha) {
    url in w.rows && w.rows[url].ingested == sha && w.rows[url].commit == sha
  }

  predicate TreeAt(w: World, url: Url, sha: Sha) {
    url in w.rows && w.rows[url].path in w.disk && w.disk[w.rows[url].path] == Clone(sha)
  }

  // Some url of the list leads to the row of `key`.
  ghost predicate Reaches(urls: seq<Url>, key: Url) {
    exists u :: u in urls && Normalize(u) == Some(key)
  }

  lemma ReachesSnoc(urls: seq<Url>, key: Url)
    requires urls != []
    ensures var n := |urls| - 1;
            Reaches(urls, key) <==> Reaches(urls[..n], key) || Normalize(urls[n]) == Some(key)
  {
    var n := |urls| - 1;
    assert urls == urls[..n] + [urls[n]];
    if Normalize(urls[n]) == Some(key) {
      assert urls[n] in urls;
    }
  }

  // Leaving every other row, and the directories of other paths, as they were.
  predicate OthersUntouched(w: World, after: World, url: Url) {
    && after.rows.Keys == w.rows.Keys && after.order == w.order
    && (forall u :: u in w.rows && u != url ==> after.rows[u] == w.rows[u])
    && (url in w.rows ==> after.rows[url].path == w.rows[url].path)
    && (forall path :: path in w.disk && !(url in w.rows && path == w.rows[url].path) ==>
          path in after.disk && after.disk[path] == w.disk[path])
  }

  lemma FetchTouchesOneRepo(w: World, url: Url, reply: GitReply)
    ensures OthersUntouched(w, EnsureFresh(w, url, reply).0, url)
  {
  }

  lemma VisitTouchesOneRepo(w: World, url: Url, reply: GitReply, walkOk: bool)
    ensures OthersUntouched(w, Visit(w, url, reply, walkOk).0, url)
  {
    FetchTouchesOneRepo(w, url, reply);
  }

  lemma VisitKeepsSound(w: World, url: Url, reply: GitReply, walkOk: bool)
    requires SoundWorld(w)
    ensures var after := Visit(w, url, reply, walkOk).0;
            SoundWorld(after) && (url in w.rows && reply.Head? ==> TreeAt(after, url, reply.sha))
  {
    FetchKeepsSound(w, url, reply);
    if reply.Head? {
      RecordIngestKeepsSound(EnsureFresh(w, url, reply).0, url, reply.sha);
    }
  }

  lemma VisitCatchesUp(w: World, url: Url, reply: GitReply, walkOk: bool)
    requires url in w.rows && reply.Head?
    requires Visit(w, url, reply, walkOk).1.MustWalk? ==> walkOk
    ensures RowCaughtUp(Visit(w, url, reply, walkOk).0, url, reply.sha)
  {
  }

  // What one repository's turn does to the row and the tree it is about, and that it leaves the others
  // alone; a url that is turned away changes nothing.
  lemma {:induction false} OneRepoSettles(p: Progress, url: Url, git: Url -> GitReply, walk: (Url, Sha) -> WalkReply)
    requires !p.raised
    ensures var q := OneRepo(p, url, git, walk);
            match Normalize(url)
            case None => q == p.(raised := true)
            case Some(key) =>
              && OthersUntouched(p.world, q.world, key)
              && (key in p.world.rows && git(key).Head? && !q.raised ==> RowCaughtUp(q.world, key, git(key).sha))
              && (SoundWorld(p.world) ==> SoundWorld(q.world))
              && (SoundWorld(p.world) && key in p.world.rows && git(key).Head? ==> TreeAt(q.world, key, git(key).sha))
  {
    var q := OneRepo(p, url, git, walk);
    match Normalize(url)
    case None =>
    case Some(key) =>
      OneRowIsAVisit(p, url, key, git(key), walk);
      VisitTouchesOneRepo(p.world, key, git(key), !q.raised);
      if SoundWorld(p.world) {
        VisitKeepsSound(p.world, key, git(key), !q.raised);
      }
      if key in p.world.rows && git(key).Head? && !q.raised {
        VisitCatchesUp(p.world, key, git(key), true);
      }
  }

  lemma TreesOfOthersStay(w: World, after: World, url: Url, u: Url, sha: Sha)
    requires DistinctPaths(w) && OthersUntouched(w, after, url) && u != url && TreeAt(w, u, sha)
    ensures TreeAt(after, u, sha)
  {
  }

  // What a row looks like after an extraction that did not raise: ingested at the head if some url leads to
  // it and its fetch succeeds, as before if none does.
  ghost predicate Settled(w: World, after: World, urls: seq<Url>, git: Url -> GitReply, key: Url) {
    && key in w.rows && key in after.rows
    && (Reaches(urls, key) && git(key).Head? ==> RowCaughtUp(after, key, git(key).sha))
    && (!Reaches(urls, key) ==> after.rows[key] == w.rows[key])
  }

  // From any state at all, whatever was killed before: an extraction that raises nothing leaves every row
  // that some url leads to, and whose fetch succeeds, ingested at the observed head, and the rows that no
  // url leads to as they were.  If the state is sound the work trees are there too.
  lemma {:induction false} FailureFreeExtractionCatchesUp(
      w: World, urls: seq<Url>, git: Url -> GitReply, walk: (Url, Sha) -> WalkReply)
    requires !Extraction(w, urls, git, walk).raised
    ensures var after := Extraction(w, urls, git, walk).world;
            && after.rows.Keys == w.rows.Keys && after.order == w.order
            && (forall u :: u in urls ==> Normalize(u).Some?)
            && (forall key :: key in w.rows ==> Settled(w, after, urls, git, key))
            && (SoundWorld(w) ==>
                  SoundWorld(after) && forall key :: key in w.rows && Reaches(urls, key) && git(key).Head? ==>
                                         TreeAt(after, key, git(key).sha))
  {
    if urls != [] {
      var n := |urls| - 1;
      var p, after := Extraction(w, urls[..n], git, walk), Extraction(w, urls, git, walk).world;
      assert forall u :: u in urls <==> u in urls[..n] || u == urls[n];
      FailureFreeExtractionCatchesUp(w, urls[..n], git, walk);
      OneRepoSettles(p, urls[n], git, walk);
      var k := Normalize(urls[n]).value;
      forall key | key in w.rows
        ensures Settled(w, after, urls, git, key)
        ensures SoundWorld(w) && Reaches(urls, key) && git(key).Head? ==> TreeAt(after, key, git(key).sha)
      {
        ReachesSnoc(urls, key);
        if key != k && SoundWorld(w) && Reaches(urls, key) && git(key).Head? {
          TreesOfOthersStay(p.world, after, k, key, git(key).sha);
        }
      }
    }
  }

  // The promise of the split between observed and ingested: after any disciplined run, one failure-free
  // extraction over all registered repositories brings row, tree and head together for every row that a
  // registered url still leads to, its own if it is stable; the other rows stay as they are.
  lemma {:induction false} RecoveryAfterAnyRun(disk: map<Path, Dir>, events: seq<Event>, git: Url -> GitReply,
      walk: (Url, Sha) -> WalkReply)
    requires DisciplinedRun(disk, events)
    requires var w := Run(InitialMachine(disk), events).world;
             && (forall key :: key in w.rows && Reaches(w.order, key) ==> git(key).Head?)
             && !Extraction(w, w.order, git, walk).raised
    ensures var w := Run(InitialMachine(disk), events).world;
            var after := Extraction(w, w.order, git, walk).world;
            forall key :: key in w.rows ==>
              && key in after.rows
              && (Normalize(key) == Some(key) ==> Reaches(w.order, key))
              && if Reaches(w.order, key) then
                   && git(key).Head? && after.rows[key].ingested == after.rows[key].commit == git(key).sha
                   && TreeAt(after, key, git(key).sha)
                 else after.rows[key] == w.rows[key]
  {
    RunKeepsSound(disk, events);
    var w := Run(InitialMachine(disk), events).world;
    FailureFreeExtractionCatchesUp(w, w.order, git, walk);
    var after := Extraction(w, w.order, git, walk).world;
    forall key | key in w.rows ensures Settled(w, after, w.order, git, key) && key in w.order {
    }
  }

  lemma CaughtUpIsSkipped(p: Progress, url: Url, key: Url, sha: Sha, walk: (Url, Sha) -> WalkReply)
    requires RowCaughtUp(p.world, key, sha) && IsRepo(p.world.disk, p.world.rows[key].path)
    ensures OneRow(p, url, key, Head(sha), walk)
         == p.(world := p.world.(rows := p.world.rows[key := p.world.rows[key].(status := Cloned, error := "")]),
               skipped := p.skipped + [url])
  {
  }

  // The url leads to a row that is ingested at the head, with a clone in place.
  predicate UpToDate(w: World, url: Url, git: Url -> GitReply) {
    match Normalize(url)
    case None => false
    case Some(key) => git(key).Head? && RowCaughtUp(w, key, git(key).sha) && IsRepo(w.disk, w.rows[key].path)
  }

  // With heads that have not moved, a second extraction walks nothing and changes nothing but the
  // status: a skipped repository is shown as `cloned`, no longer as `ingested`.
  lemma {:induction false} SecondExtractionSkipsAll(
      w: World, urls: seq<Url>, git: Url -> GitReply, walk: (Url, Sha) -> WalkReply)
    requires forall u :: u in urls ==> UpToDate(w, u, git)
    ensures SkippedAll(w, Extraction(w, urls, git, walk), urls)
  {
    if urls != [] {
      var n := |urls| - 1;
      assert forall u :: u in urls <==> u in urls[..n] || u == urls[n];
      SecondExtractionSkipsAll(w, urls[..n], git, walk);
      SkippedOneMore(w, Extraction(w, urls[..n], git, walk), urls, git, walk);
    }
  }

  // Every url was skipped, and nothing came of it.
  ghost predicate SkippedAll(w: World, p: Progress, urls: seq<Url>) {
    && !p.raised && p.skipped == urls && p.warned == []
    && p.built == [] && p.services == [] && p.artifacts == []
    && OnlyStatusChanged(w, p.world, urls)
  }

  lemma SkippedOneMore(w: World, p: Progress, urls: seq<Url>, git: Url -> GitReply, walk: (Url, Sha) -> WalkReply)
    requires urls != [] && SkippedAll(w, p, urls[..|urls| - 1]) && UpToDate(w, urls[|urls| - 1], git)
    ensures SkippedAll(w, OneRepo(p, urls[|urls| - 1], git, walk), urls)
  {
    var init, last := urls[..|urls| - 1], urls[|urls| - 1];
    StillUpToDate(w, p.world, init, last, git);
    UpToDateIsSkipped(p, last, git, walk);
    OnlyStatusChangedSnoc(w, p.world, urls, Normalize(last).value);
    assert urls == init + [last];
  }

  // Rows that some url leads to are shown as cloned; nothing else is different.
  ghost predicate OnlyStatusChanged(w: World, after: World, urls: seq<Url>) {
    && after.disk == w.disk && after.order == w.order && after.rows.Keys == w.rows.Keys
    && forall key :: key in w.rows ==>
         after.rows[key] == if Reaches(urls, key) then Refreshed(w.rows[key]) else w.rows[key]
  }

  function Refreshed(row: Row): Row {
    row.(status := Cloned, error := "")
  }

  lemma OnlyStatusChangedSnoc(w: World, before: World, urls: seq<Url>, key: Url)
    requires urls != [] && OnlyStatusChanged(w, before, urls[..|urls| - 1])
    requires Normalize(urls[|urls| - 1]) == Some(key) && key in w.rows
    ensures OnlyStatusChanged(w, before.(rows := before.rows[key := Refreshed(before.rows[key])]), urls)
  {
    forall k | k in w.rows ensures Reaches(urls, k) <==> Reaches(urls[..|urls| - 1], k) || key == k {
      ReachesSnoc(urls, k);
    }
  }

  lemma StillUpToDate(w: World, after: World, urls: seq<Url>, url: Url, git: Url -> GitReply)
    requires OnlyStatusChanged(w, after, urls) && UpToDate(w, url, git)
    ensures UpToDate(after, url, git)
  {
  }

  lemma UpToDateIsSkipped(p: Progress, url: Url, git: Url -> GitReply, walk: (Url, Sha) -> WalkReply)
    requires UpToDate(p.world, url, git)
    ensures var key, w := Normalize(url).value, p.world;
            OneRepo(p, url, git, walk)
            == p.(world := w.(rows := w.rows[key := Refreshed(w.rows[key])]), skipped := p.skipped + [url])
  {
    var key := Normalize(url).value;
    CaughtUpIsSkipped(p, url, key, git(key).sha, walk);
  }

  /******* Built is not delivered *******/

  // What was built under a url is recorded in the row it leads to.
  ghost predicate Recorded(w: World, urls: seq<Url>, git: Url -> GitReply, b: (Url, Sha)) {
    && b.0 in urls && Normalize(b.0).Some?
    && var key := Normalize(b.0).value;
       git(key) == Head(b.1) && RowCaughtUp(w, key, b.1) && TreeAt(w, key, b.1)
  }

  // Whatever an extraction built is recorded, whether or not a later repository raises.
  lemma {:induction false} BuiltIsRecordedEvenIfRaised(
      w: World, urls: seq<Url>, git: Url -> GitReply, walk: (Url, Sha) -> WalkReply)
    requires SoundWorld(w)
    ensures var p := Extraction(w, urls, git, walk);
            SoundWorld(p.world) && forall b :: b in p.built ==> Recorded(p.world, urls, git, b)
  {
    if urls != [] {
      var n := |urls| - 1;
      BuiltIsRecordedEvenIfRaised(w, urls[..n], git, walk);
      assert forall u :: u in urls <==> u in urls[..n] || u == urls[n];
      var p := Extraction(w, urls[..n], git, walk);
      if !p.raised {
        OneRepoSettles(p, urls[n], git, walk);
        forall b | b in OneRepo(p, urls[n], git, walk).built
          ensures Recorded(OneRepo(p, urls[n], git, walk).world, urls, git, b)
        {
          if b in p.built {
            RecordedStays(p, urls[..n], urls[n], git, walk, b);
          } else {
            NewlyBuiltIsRecorded(p, urls, urls[n], git, walk, b);
          }
        }
      }
    }
  }

  lemma NewlyBuiltIsRecorded(p: Progress, urls: seq<Url>, url: Url, git: Url -> GitReply,
      walk: (Url, Sha) -> WalkReply, b: (Url, Sha))
    requires SoundWorld(p.world) && !p.raised && url in urls
    requires b in OneRepo(p, url, git, walk).built && b !in p.built
    ensures Recorded(OneRepo(p, url, git, walk).world, urls, git, b)
  {
    OneRepoSettles(p, url, git, walk);
    if Normalize(url).Some? {
      var key := Normalize(url).value;
      OneRowOutcome(p, url, key, git(key), walk);
    }
  }

  lemma RecordedStays(p: Progress, urls: seq<Url>, url: Url, git: Url -> GitReply, walk: (Url, Sha) -> WalkReply,
      b: (Url, Sha))
    requires SoundWorld(p.world) && !p.raised && Recorded(p.world, urls, git, b)
    ensures Recorded(OneRepo(p, url, git, walk).world, urls, git, b)
  {
    var key := Normalize(b.0).value;
    OneRepoSettles(p, url, git, walk);
    if Normalize(url) == Some(key) {
      CaughtUpIsSkipped(p, url, key, b.1, walk);
    } else if Normalize(url).Some? {
      TreesOfOthersStay(p.world, OneRepo(p, url, git, walk).world, Normalize(url).value, key, b.1);
    }
  }

  // The row has something to walk: it is fetched, and not skipped.
  predicate Due(w: World, key: Url, reply: GitReply) {
    && key in w.rows && reply.Head?
    && !(TrustsTree(w.disk, w.rows[key].path, w.rows[key].commit, reply.sha) && w.rows[key].ingested == reply.sha)
  }

  // The turn of the i-th url walks a tree: its row is due, and no earlier url leads to that row.
  ghost predicate DueAt(w: World, urls: seq<Url>, git: Url -> GitReply, i: int) {
    && 0 <= i < |urls| && Normalize(urls[i]).Some?
    && var key := Normalize(urls[i]).value;
       Due(w, key, git(key)) && !Reaches(urls[..i], key)
  }

  // The i-th url cannot be canonicalised, or what it walks cannot be read.
  ghost predicate FailsAt(w: World, urls: seq<Url>, git: Url -> GitReply, walk: (Url, Sha) -> WalkReply, i: int) {
    && 0 <= i < |urls|
    && (Normalize(urls[i]).None?
        || (DueAt(w, urls, git, i) && walk(urls[i], git(Normalize(urls[i]).value).sha).WalkFailed?))
  }

  // Due, and nothing fails up to this one.
  ghost predicate DueInTime(w: World, urls: seq<Url>, git: Url -> GitReply, walk: (Url, Sha) -> WalkReply, i: int) {
    DueAt(w, urls, git, i) && forall j :: 0 <= j <= i ==> !FailsAt(w, urls, git, walk, j)
  }

  // `b` names the i-th url and the head of its row.
  ghost predicate Names(urls: seq<Url>, git: Url -> GitReply, i: int, b: (Url, Sha)) {
    0 <= i < |urls| && urls[i] == b.0 && Normalize(b.0).Some? && git(Normalize(b.0).value) == Head(b.1)
  }

  lemma OneRowOutcome(p: Progress, url: Url, key: Url, reply: GitReply, walk: (Url, Sha) -> WalkReply)
    requires SoundWorld(p.world) && !p.raised
    ensures var q := OneRow(p, url, key, reply, walk);
            && (q.raised <==> Due(p.world, key, reply) && walk(url, reply.sha).WalkFailed?)
            && q.built == p.built + if Due(p.world, key, reply) && !q.raised then [(url, reply.sha)] else []
  {
    FetchKeepsSound(p.world, key, reply);
  }

  // What the turn of a row depends on is as it was before the extraction reached it.
  ghost predicate NotYetTouched(w: World, after: World, u: Url) {
    u in w.rows ==>
      && u in after.rows && after.rows[u] == w.rows[u]
      && (w.rows[u].path in w.disk <==> w.rows[u].path in after.disk)
      && (w.rows[u].path in w.disk ==> after.disk[w.rows[u].path] == w.disk[w.rows[u].path])
  }

  lemma OneRowTouchesNoOther(p: Progress, url: Url, key: Url, reply: GitReply, walk: (Url, Sha) -> WalkReply, u: Url)
    requires SoundWorld(p.world) && u != key
    ensures NotYetTouched(p.world, OneRow(p, url, key, reply, walk).world, u)
  {
  }

  lemma TouchedLater(w: World, middle: World, after: World, u: Url)
    requires NotYetTouched(w, middle, u) && NotYetTouched(middle, after, u)
    ensures NotYetTouched(w, after, u)
  {
  }

  lemma {:induction false} LaterRowsUntouched(
      w: World, urls: seq<Url>, git: Url -> GitReply, walk: (Url, Sha) -> WalkReply, key: Url)
    requires SoundWorld(w)
    ensures var p := Extraction(w, urls, git, walk);
            && SoundWorld(p.world) && p.world.rows.Keys == w.rows.Keys
            && (!Reaches(urls, key) ==> NotYetTouched(w, p.world, key))
  {
    if urls != [] {
      var n := |urls| - 1;
      LaterRowsUntouched(w, urls[..n], git, walk, key);
      ReachesSnoc(urls, key);
      var p := Extraction(w, urls[..n], git, walk);
      if !p.raised {
        OneRepoSettles(p, urls[n], git, walk);
        if !Reaches(urls, key) && Normalize(urls[n]).Some? {
          var k := Normalize(urls[n]).value;
          OneRowTouchesNoOther(p, urls[n], k, git(k), walk, key);
          TouchedLater(w, p.world, OneRepo(p, urls[n], git, walk).world, key);
        }
      }
    }
  }

  // A row is due when its turn comes exactly when it was due at the start and no earlier url led to it.
  lemma DueWhenReached(w: World, urls: seq<Url>, git: Url -> GitReply, walk: (Url, Sha) -> WalkReply, key: Url)
    requires SoundWorld(w) && !Extraction(w, urls, git, walk).raised
    ensures Due(Extraction(w, urls, git, walk).world, key, git(key)) <==> Due(w, key, git(key)) && !Reaches(urls, key)
  {
    LaterRowsUntouched(w, urls, git, walk, key);
    FailureFreeExtractionCatchesUp(w, urls, git, walk);
    if key in w.rows {
      assert Settled(w, Extraction(w, urls, git, walk).world, urls, git, key);
    }
  }

  // What happens at an index does not depend on the urls behind it.
  lemma DueAndFailsSnoc(w: World, urls: seq<Url>, git: Url -> GitReply, walk: (Url, Sha) -> WalkReply, i: int)
    requires urls != [] && i < |urls| - 1
    ensures var init := urls[..|urls| - 1];
            && DueAt(w, init, git, i) == DueAt(w, urls, git, i)
            && FailsAt(w, init, git, walk, i) == FailsAt(w, urls, git, walk, i)
  {
    if i >= 0 {
      assert urls[..|urls| - 1][..i] == urls[..i];
    }
  }

  lemma DueInTimeSnoc(w: World, urls: seq<Url>, git: Url -> GitReply, walk: (Url, Sha) -> WalkReply, i: int)
    requires urls != [] && i < |urls| - 1
    ensures DueInTime(w, urls[..|urls| - 1], git, walk, i) == DueInTime(w, urls, git, walk, i)
  {
    var init := urls[..|urls| - 1];
    DueAndFailsSnoc(w, urls, git, walk, i);
    forall j | 0 <= j <= i ensures FailsAt(w, init, git, walk, j) <==> FailsAt(w, urls, git, walk, j) {
      DueAndFailsSnoc(w, urls, git, walk, j);
    }
    assert (forall j :: 0 <= j <= i ==> !FailsAt(w, init, git, walk, j))
      <==> forall j :: 0 <= j <= i ==> !FailsAt(w, urls, git, walk, j);
  }

  ghost predicate SomeFails(w: World, urls: seq<Url>, git: Url -> GitReply, walk: (Url, Sha) -> WalkReply) {
    exists i :: FailsAt(w, urls, git, walk, i)
  }

  lemma SomeFailsSnoc(w: World, urls: seq<Url>, git: Url -> GitReply, walk: (Url, Sha) -> WalkReply)
    requires urls != []
    ensures var n := |urls| - 1;
            SomeFails(w, urls, git, walk) <==> SomeFails(w, urls[..n], git, walk) || FailsAt(w, urls, git, walk, n)
  {
    var n := |urls| - 1;
    if i :| FailsAt(w, urls, git, walk, i) {
      if i < n {
        DueAndFailsSnoc(w, urls, git, walk, i);
      }
    }
    if i :| FailsAt(w, urls[..n], git, walk, i) {
      DueAndFailsSnoc(w, urls, git, walk, i);
    }
  }

  ghost predicate BuiltInTime(w: World, urls: seq<Url>, git: Url -> GitReply, walk: (Url, Sha) -> WalkReply,
      b: (Url, Sha)) {
    exists i :: DueInTime(w, urls, git, walk, i) && Names(urls, git, i, b)
  }

  lemma BuiltInTimeSnoc(w: World, urls: seq<Url>, git: Url -> GitReply, walk: (Url, Sha) -> WalkReply, b: (Url, Sha))
    requires urls != []
    ensures var n := |urls| - 1;
            BuiltInTime(w, urls, git, walk, b)
            <==> BuiltInTime(w, urls[..n], git, walk, b)
                 || (Names(urls, git, n, b) && DueAt(w, urls, git, n) && !SomeFails(w, urls, git, walk))
  {
    var n := |urls| - 1;
    if i :| DueInTime(w, urls, git, walk, i) && Names(urls, git, i, b) {
      if i < n {
        DueInTimeSnoc(w, urls, git, walk, i);
        assert Names(urls[..n], git, i, b);
      }
    }
    if i :| DueInTime(w, urls[..n], git, walk, i) && Names(urls[..n], git, i, b) {
      DueInTimeSnoc(w, urls, git, walk, i);
      assert Names(urls, git, i, b);
    }
    if Names(urls, git, n, b) && DueAt(w, urls, git, n) && !SomeFails(w, urls, git, walk) {
      assert DueInTime(w, urls, git, walk, n);
    }
  }

  // An extraction raises exactly when some url fails; it builds exactly what is due before any fails.
  lemma {:induction false} ExtractionOutcome(
      w: World, urls: seq<Url>, git: Url -> GitReply, walk: (Url, Sha) -> WalkReply)
    requires SoundWorld(w)
    ensures var p := Extraction(w, urls, git, walk);
            && (p.raised <==> SomeFails(w, urls, git, walk))
            && forall b :: b in p.built <==> BuiltInTime(w, urls, git, walk, b)
  {
    if urls != [] {
      var n := |urls| - 1;
      var u, init := urls[n], urls[..n];
      ExtractionOutcome(w, init, git, walk);
      SomeFailsSnoc(w, urls, git, walk);
      LaterRowsUntouched(w, init, git, walk, "");
      var p := Extraction(w, init, git, walk);
      if !p.raised && Normalize(u).Some? {
        var key := Normalize(u).value;
        DueWhenReached(w, init, git, walk, key);
        OneRowOutcome(p, u, key, git(key), walk);
      }
      forall b ensures b in Extraction(w, urls, git, walk).built <==> BuiltInTime(w, urls, git, walk, b) {
        BuiltInTimeSnoc(w, urls, git, walk, b);
      }
    }
  }

  /******* What is returned *******/

  // The turn of the i-th url fetches nothing: its row is unknown, or git fails.
  ghost predicate WarnedAt(w: World, urls: seq<Url>, git: Url -> GitReply, i: int) {
    && 0 <= i < |urls| && Normalize(urls[i]).Some?
    && var key := Normalize(urls[i]).value;
       key !in w.rows || git(key).GitError?
  }

  // What an extraction hands on, and what it reports.
  datatype Delivery = Delivery(services: seq<string>, artifacts: seq<string>, built: seq<(Url, Sha)>,
                               warned: seq<Url>, skipped: seq<Url>)

  function Joined(a: Delivery, b: Delivery): Delivery {
    Delivery(a.services + b.services, a.artifacts + b.artifacts, a.built + b.built, a.warned + b.warned,
             a.skipped + b.skipped)
  }

  // What the i-th url adds, told from the state before the extraction: the records of its walk at the head if
  // it is due, itself among the warned or the skipped otherwise.
  ghost function Share(w: World, urls: seq<Url>, git: Url -> GitReply, walk: (Url, Sha) -> WalkReply, i: int)
    : Delivery
    requires 0 <= i < |urls| && !FailsAt(w, urls, git, walk, i)
  {
    var url := urls[i];
    if DueAt(w, urls, git, i) then
      var sha := git(Normalize(url).value).sha;
      Delivery(walk(url, sha).services, walk(url, sha).artifacts, [(url, sha)], [], [])
    else if WarnedAt(w, urls, git, i) then Delivery([], [], [], [url], [])
    else Delivery([], [], [], [], [url])
  }

  // The shares of the first `n` urls, in order.
  ghost function Shares(w: World, urls: seq<Url>, git: Url -> GitReply, walk: (Url, Sha) -> WalkReply, n: nat)
    : Delivery
    requires n <= |urls| && !SomeFails(w, urls, git, walk)
  {
    if n == 0 then Delivery([], [], [], [], [])
    else Joined(Shares(w, urls, git, walk, n - 1), Share(w, urls, git, walk, n - 1))
  }

  lemma {:induction false} SharesOfPrefix(w: World, urls: seq<Url>, git: Url -> GitReply,
      walk: (Url, Sha) -> WalkReply, n: nat)
    requires n < |urls| && !SomeFails(w, urls, git, walk) && !SomeFails(w, urls[..|urls| - 1], git, walk)
    ensures Shares(w, urls[..|urls| - 1], git, walk, n) == Shares(w, urls, git, walk, n)
  {
    var init := urls[..|urls| - 1];
    forall i: nat | i < n ensures Share(w, init, git, walk, i) == Share(w, urls, git, walk, i) {
      ShareOfPrefix(w, urls, git, walk, i);
    }
    SharesAgree(w, init, urls, git, walk, n);
  }

  lemma {:induction false} SharesAgree(w: World, a: seq<Url>, b: seq<Url>, git: Url -> GitReply,
      walk: (Url, Sha) -> WalkReply, n: nat)
    requires n <= |a| && n <= |b| && !SomeFails(w, a, git, walk) && !SomeFails(w, b, git, walk)
    requires forall i: nat :: i < n ==> Share(w, a, git, walk, i) == Share(w, b, git, walk, i)
    ensures Shares(w, a, git, walk, n) == Shares(w, b, git, walk, n)
  {
    if n > 0 {
      SharesAgree(w, a, b, git, walk, n - 1);
    }
  }

  lemma ShareOfPrefix(w: World, urls: seq<Url>, git: Url -> GitReply, walk: (Url, Sha) -> WalkReply, i: nat)
    requires i < |urls| - 1 && !FailsAt(w, urls, git, walk, i)
    ensures var init := urls[..|urls| - 1];
            !FailsAt(w, init, git, walk, i) && Share(w, init, git, walk, i) == Share(w, urls, git, walk, i)
  {
    DueAndFailsSnoc(w, urls, git, walk, i);
    assert WarnedAt(w, urls[..|urls| - 1], git, i) == WarnedAt(w, urls, git, i);
  }

  // One turn adds to what was collected exactly its share.
  lemma OneRepoShares(w: World, urls: seq<Url>, git: Url -> GitReply, walk: (Url, Sha) -> WalkReply)
    requires SoundWorld(w) && urls != [] && !SomeFails(w, urls, git, walk)
    ensures !Extraction(w, urls[..|urls| - 1], git, walk).raised
    ensures DeliveryOf(Extraction(w, urls, git, walk))
         == Joined(DeliveryOf(Extraction(w, urls[..|urls| - 1], git, walk)),
                   Share(w, urls, git, walk, |urls| - 1))
  {
    var n := |urls| - 1;
    var url, init := urls[n], urls[..n];
    SomeFailsSnoc(w, urls, git, walk);
    ExtractionOutcome(w, init, git, walk);
    assert !FailsAt(w, urls, git, walk, n);
    var p, key := Extraction(w, init, git, walk), Normalize(url).value;
    LaterRowsUntouched(w, init, git, walk, key);
    DueWhenReached(w, init, git, walk, key);
    RowShares(p, url, key, git(key), walk);
  }

  function DeliveryOf(p: Progress): Delivery {
    Delivery(p.services, p.artifacts, p.built, p.warned, p.skipped)
  }

  lemma RowShares(p: Progress, url: Url, key: Url, reply: GitReply, walk: (Url, Sha) -> WalkReply)
    requires SoundWorld(p.world) && !(Due(p.world, key, reply) && walk(url, reply.sha).WalkFailed?)
    ensures DeliveryOf(OneRow(p, url, key, reply, walk))
         == Joined(DeliveryOf(p),
                   if Due(p.world, key, reply) then
                     Delivery(walk(url, reply.sha).services, walk(url, reply.sha).artifacts, [(url, reply.sha)], [], [])
                   else if key !in p.world.rows || reply.GitError? then Delivery([], [], [], [url], [])
                   else Delivery([], [], [], [], [url]))
  {
    FetchKeepsSound(p.world, key, reply);
  }

  // An extraction that raises nothing returns, in the order of the urls, the services and artifacts of every
  // walk that was due at its head, and nothing else; it reports what could not be fetched and what was skipped.
  lemma {:induction false} ExtractionDelivers(w: World, urls: seq<Url>, git: Url -> GitReply,
      walk: (Url, Sha) -> WalkReply)
    requires SoundWorld(w) && !SomeFails(w, urls, git, walk)
    ensures !Extraction(w, urls, git, walk).raised
    ensures DeliveryOf(Extraction(w, urls, git, walk)) == Shares(w, urls, git, walk, |urls|)
  {
    ExtractionOutcome(w, urls, git, walk);
    if urls != [] {
      SomeFailsSnoc(w, urls, git, walk);
      ExtractionDelivers(w, urls[..|urls| - 1], git, walk);
      SharesOfPrefix(w, urls, git, walk, |urls| - 1);
      OneRepoShares(w, urls, git, walk);
    }
  }

  // Records are lost, that is, recorded as ingested and never returned, exactly when some url fails and a
  // due one stands before every failing one.
  lemma {:induction false} RecordsAreLostExactlyWhen(
      w: World, urls: seq<Url>, git: Url -> GitReply, walk: (Url, Sha) -> WalkReply)
    requires SoundWorld(w)
    ensures var p := Extraction(w, urls, git, walk);
            p.raised && p.built != []
            <==> (exists j :: FailsAt(w, urls, git, walk, j))
                 && exists i :: DueAt(w, urls, git, i) && forall j :: FailsAt(w, urls, git, walk, j) ==> i < j
  {
    var p := Extraction(w, urls, git, walk);
    ExtractionOutcome(w, urls, git, walk);
    if p.built != [] {
      assert p.built[0] in p.built;
      var i :| DueInTime(w, urls, git, walk, i) && Names(urls, git, i, p.built[0]);
    }
    if i :| DueAt(w, urls, git, i) && forall j :: FailsAt(w, urls, git, walk, j) ==> i < j {
      assert DueInTime(w, urls, git, walk, i);
      var b := (urls[i], git(Normalize(urls[i]).value).sha);
      assert Names(urls, git, i, b);
      assert b in p.built;
    }
  }

  // And the next extraction over the same heads skips the repositories whose records were lost.
  lemma {:induction false} LostRecordsAreSkipped(w: World, urls: seq<Url>, git: Url -> GitReply,
      walk: (Url, Sha) -> WalkReply, again: seq<Url>)
    requires SoundWorld(w)
    requires forall u :: u in again ==> exists i :: DueInTime(w, urls, git, walk, i) && urls[i] == u
    ensures var next := Extraction(Extraction(w, urls, git, walk).world, again, git, walk);
            next.skipped == again && next.services == [] && next.artifacts == []
  {
    var p := Extraction(w, urls, git, walk);
    ExtractionOutcome(w, urls, git, walk);
    BuiltIsRecordedEvenIfRaised(w, urls, git, walk);
    forall u | u in again ensures UpToDate(p.world, u, git) {
      var i :| DueInTime(w, urls, git, walk, i) && urls[i] == u;
      var b := (u, git(Normalize(u).value).sha);
      assert Names(urls, git, i, b);
      assert Recorded(p.world, urls, git, b);
    }
    SecondExtractionSkipsAll(p.world, again, git, walk);
  }

  // Two repositories at stable urls, neither fetched yet.
  ghost predicate TwoFreshRows(w: World, a: Url, b: Url) {
    && Normalize(a) == Some(a) && a != b
    && w == World(map[a := NewRow(Path("o", "a"), ""), b := NewRow(Path("o", "b"), "")], [a, b], map[])
  }

  lemma FirstIsBuilt(w: World, a: Url, b: Url, git: Url -> GitReply, walk: (Url, Sha) -> WalkReply)
    requires TwoFreshRows(w, a, b) && git(a) == Head("1") && walk(a, "1") == Walked(["svc"], [])
    ensures var p := Extraction(w, [a], git, walk);
            && p.built == [(a, "1")] && !p.raised && RowCaughtUp(p.world, a, "1")
            && b in p.world.rows && p.world.rows[b] == w.rows[b] && w.rows[b].path !in p.world.disk
  {
    assert [a][..0] == [];
    assert Extraction(w, [], git, walk) == Start(w);
    assert Extraction(w, [a], git, walk) == OneRow(Start(w), a, a, Head("1"), walk);
  }

  // An instance: the first repository is built and recorded, the second one's walk fails.
  lemma LostRecordsExample(w: World, a: Url, b: Url, git: Url -> GitReply, walk: (Url, Sha) -> WalkReply)
    requires TwoFreshRows(w, a, b) && Normalize(b) == Some(b)
    requires git(a) == Head("1") && walk(a, "1") == Walked(["svc"], [])
    requires git(b) == Head("2") && walk(b, "2") == WalkFailed
    ensures var p := Extraction(w, w.order, git, walk);
            p.raised && p.built == [(a, "1")] && RowCaughtUp(p.world, a, "1")
  {
    FirstIsBuilt(w, a, b, git, walk);
    assert w.order[..1] == [a];
    assert Extraction(w, w.order, git, walk) == OneRow(Extraction(w, [a], git, walk), b, b, Head("2"), walk);
  }

  // Another, in which no walk fails: the second url is turned away when it is canonicalised again.
  lemma InvalidUrlLosesRecordsExample(w: World, a: Url, git: Url -> GitReply, walk: (Url, Sha) -> WalkReply)
    requires TwoFreshRows(w, a, ".git") && git(a) == Head("1") && walk(a, "1") == Walked(["svc"], [])
    ensures var p := Extraction(w, w.order, git, walk);
            p.raised && p.built == [(a, "1")] && RowCaughtUp(p.world, a, "1")
  {
    FirstIsBuilt(w, a, ".git", git, walk);
    InvalidOnTheSecondCallExample();
    assert w.order[..1] == [a];
  }

  /******* Why the discipline is needed *******/

  // Killed between the git work and the row update, then a remote that rewinds: the tree at "2" is
  // walked and recorded as "1".
  lemma KilledFetchMisleadsTheWalk(url: Url, path: Path)
    ensures var events := [Add(url, path, ""), Fetch(url, Head("1")), FetchKilled(url, Head("2")),
          Ingest(url, Head("1"), true)];
            Run(InitialMachine(map[]), events).walks == {Walk(url, "1", "2")}
  {
    var m0 := InitialMachine(map[]);
    RunOfFour(m0, Add(url, path, ""), Fetch(url, Head("1")), FetchKilled(url, Head("2")), Ingest(url, Head("1"), true));
    FetchedOnce(url, path);
    var row := ClonedRow(NewRow(path, ""), "1");
    assert Step(Machine(World(map[url := row], [url], map[path := Clone("1")]), {}), FetchKilled(url, Head("2"))).world
        == World(map[url := row], [url], map[path := Clone("2")]);
  }

  lemma FetchedOnce(url: Url, path: Path)
    ensures Step(Step(InitialMachine(map[]), Add(url, path, "")), Fetch(url, Head("1")))
         == Machine(World(map[url := ClonedRow(NewRow(path, ""), "1")], [url], map[path := Clone("1")]), {})
  {
    assert Step(InitialMachine(map[]), Add(url, path, "")).world == World(map[url := NewRow(path, "")], [url], map[]);
  }

  // A clean, or a removal, killed while it deletes the files of a fetched clone: the row still names the
  // commit, so the next fetch leaves the torn tree alone, and what is left of it is walked.
  lemma TornCloneMisleadsTheWalk(url: Url, path: Path, left: Sha)
    requires left != "1"
    ensures var events := [Add(url, path, ""), Fetch(url, Head("1")), Tear(path, left), Ingest(url, Head("1"), true)];
            Run(InitialMachine(map[]), events).walks == {Walk(url, "1", left)}
  {
    var m0 := InitialMachine(map[]);
    RunOfFour(m0, Add(url, path, ""), Fetch(url, Head("1")), Tear(path, left), Ingest(url, Head("1"), true));
    FetchedOnce(url, path);
  }

  lemma RunOfFour(m: Machine, a: Event, b: Event, c: Event, d: Event)
    ensures Run(m, [a, b, c, d]) == Step(Step(Step(Step(m, a), b), c), d)
    ensures Run(m, [a, b]) == Step(Step(m, a), b)
  {
    RunSnoc(m, [], a);
    RunSnoc(m, [a], b);
    RunSnoc(m, [a, b], c);
    RunSnoc(m, [a, b, c], d);
    assert [] + [a] == [a] && [a] + [b] == [a, b] && [a, b] + [c] == [a, b, c] && [a, b, c] + [d] == [a, b, c, d];
  }

  // Two registered urls that share an owner/name share a directory, with the same outcome.
  lemma SharedPathMisleadsTheWalk(u: Url, v: Url, path: Path)
    requires u != v
    ensures var m := Machine(World(map[u := NewRow(path, ""), v := NewRow(path, "")], [u, v], map[]), {});
            var after := Step(Step(Step(m, Fetch(u, Head("1"))), Fetch(v, Head("2"))), Ingest(u, Head("1"), true));
            after.walks == {Walk(u, "1", "2")}
  {
  }
}
