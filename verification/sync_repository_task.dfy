/** The per-site repository sync task: it checks that the site's repository on disk is the
    one the site registry knows (the site-UUID marker file), reads the last verified commit
    and, only then, asks the site service to replay the repository into the database from
    that commit. Every failure is contained: the task always returns normally. */
module SyncRepositoryTask {
  import opened Wrappers
  import opened Strings

  /** The registry record of a site; the stored UUID may be null. */
  datatype SiteFeed = SiteFeed(siteUuid: Option<string>)

  /** A call the task makes into the site service, in the order it makes them. */
  datatype ServiceCall =
    | GetSite(site: string)
    | GetLastVerifiedGitlogCommitId(site: string)
    | SyncDatabaseWithRepo(site: string, commitId: string)

  /** The exception that leaves `syncRepository` (and is logged by `executeInternal`). */
  datatype SyncError =
    | SiteNotFound          // `getSite` threw SiteNotFoundException
    | MarkerPathInvalid     // building the marker path threw a runtime exception
    | ServiceFailure        // the commit lookup or the replay threw

  /** What a call into code outside this model answers. */
  datatype Reply<+T> = Returns(value: T) | Throws

  /** Everything the task reads from the outside world.
      - `sites`: the site registry; a site absent from it makes `getSite` throw.
      - `markerPath`: the path of a site's UUID marker, built from the repository base path,
        the sites path, the site id and the marker file name; None when building it throws
        (for example on a null configuration property).
      - `files`: the file system; a path absent from it makes `Files.readAllLines` throw an IOException.
      - `lastVerifiedCommit`: `getLastVerifiedGitlogCommitId`, whose answer may be null.
      - `replaySucceeds`: whether `syncDatabaseWithRepo(site, commit)` returns normally. */
  datatype Environment = Environment(
    sites: map<string, SiteFeed>,
    markerPath: string -> Option<string>,
    files: map<string, seq<string>>,
    lastVerifiedCommit: string -> Reply<Option<string>>,
    replaySucceeds: (string, string) -> bool)

  /** One marker line names the stored UUID: it is not a comment and equals the UUID exactly.
      A null UUID equals no line. */
  predicate LineMatches(line: string, siteUuid: Option<string>) {
    !StartsWith(line, "#") && siteUuid == Some(line)
  }

  /** Some line of the marker names the stored UUID. */
  predicate HasMatchingLine(lines: seq<string>, siteUuid: Option<string>) {
    exists i :: 0 <= i < |lines| && LineMatches(lines[i], siteUuid)
  }

  /** The scan `checkSiteUuid` performs over the marker's lines, stopping at the first match. */
  function ScanLines(lines: seq<string>, siteUuid: Option<string>): (found: bool)
    ensures found <==> HasMatchingLine(lines, siteUuid)
  {
    if |lines| == 0 then false
    else if LineMatches(lines[0], siteUuid) then true
    else
      var found := ScanLines(lines[1..], siteUuid);
      assert found ==> exists i :: 0 <= i < |lines| && LineMatches(lines[i], siteUuid) by {
        if found {
          var k :| 0 <= k < |lines[1..]| && LineMatches(lines[1..][k], siteUuid);
          assert LineMatches(lines[k + 1], siteUuid);
        }
      }
      assert HasMatchingLine(lines, siteUuid) ==> found by {
        if HasMatchingLine(lines, siteUuid) {
          var k :| 0 <= k < |lines| && LineMatches(lines[k], siteUuid);
          assert k != 0;
          assert LineMatches(lines[1..][k - 1], siteUuid);
        }
      }
      found
  }

  /** `checkSiteUuid`: a marker that cannot be read counts as no match; a failure while
      building its path escapes. */
  function CheckSiteUuid(env: Environment, siteId: string, siteUuid: Option<string>): (r: Result<bool, SyncError>)
    ensures r.Failure? <==> env.markerPath(siteId).None?
    ensures r.Failure? ==> r.error == MarkerPathInvalid
    ensures r == Success(true) <==>
              env.markerPath(siteId).Some? && env.markerPath(siteId).value in env.files
              && HasMatchingLine(env.files[env.markerPath(siteId).value], siteUuid)
  {
    match env.markerPath(siteId)
    case None => Failure(MarkerPathInvalid)
    case Some(path) =>
      if path in env.files then Success(ScanLines(env.files[path], siteUuid))
      else Success(false)
  }

  /** The service calls one run made, and the exception it ended with, if any. */
  datatype Run = Run(calls: seq<ServiceCall>, failure: Option<SyncError>)

  /** `syncRepository`: look the site up, check its marker, read the last verified commit
      and replay from it when it is non-empty. */
  function SyncRepository(env: Environment, site: string): (r: Run)
    ensures r.calls == [GetSite(site)]
                       + (if MarkerConfirms(env, site) then [GetLastVerifiedGitlogCommitId(site)] else [])
                       + (match Gate(env, site) case Sync(c) => [SyncDatabaseWithRepo(site, c)] case Skip => [])
    ensures site !in env.sites ==> r.failure == Some(SiteNotFound)
    ensures site in env.sites && env.markerPath(site).None? ==> r.failure == Some(MarkerPathInvalid)
    ensures Gate(env, site).Sync? ==>
              (r.failure.None? <==> env.replaySucceeds(site, Gate(env, site).commitId))
    ensures r.failure.Some? <==> EndsInException(env, site)
    ensures MarkerConfirms(env, site) && env.lastVerifiedCommit(site).Throws? ==> r.failure == Some(ServiceFailure)
    ensures Gate(env, site).Sync? && !env.replaySucceeds(site, Gate(env, site).commitId) ==>
              r.failure == Some(ServiceFailure)
  {
    if site !in env.sites then Run([GetSite(site)], Some(SiteNotFound))
    else
      match CheckSiteUuid(env, site, env.sites[site].siteUuid)
      case Failure(e) => Run([GetSite(site)], Some(e))
      case Success(matches) =>
        if !matches then Run([GetSite(site)], None)
        else
          var calls := [GetSite(site), GetLastVerifiedGitlogCommitId(site)];
          match env.lastVerifiedCommit(site)
          case Throws => Run(calls, Some(ServiceFailure))
          case Returns(commit) =>
            if IsNotEmpty(commit) then
              Run(calls + [SyncDatabaseWithRepo(site, commit.value)],
                  if env.replaySucceeds(site, commit.value) then None else Some(ServiceFailure))
            else Run(calls, None)
  }

  /** What a run leaves behind: the calls made, and the exception `executeInternal` catches and
      logs (informational log lines are not recorded). The type has no exception channel:
      `executeInternal` returns normally whatever happened. */
  datatype Report = Report(calls: seq<ServiceCall>, logged: Option<SyncError>)

  /** The site is registered and its readable marker names the UUID the registry stores. */
  predicate MarkerConfirms(env: Environment, site: string) {
    && site in env.sites
    && env.markerPath(site).Some?
    && env.markerPath(site).value in env.files
    && HasMatchingLine(env.files[env.markerPath(site).value], env.sites[site].siteUuid)
  }

  /** When `syncRepository` ends in an exception: the site is unknown, the marker path cannot be
      built, the confirmed site's commit lookup throws, or the replay the gate asks for throws.
      A mismatching or unreadable marker and a null or empty commit end the run quietly. */
  predicate EndsInException(env: Environment, site: string) {
    || site !in env.sites
    || env.markerPath(site).None?
    || (MarkerConfirms(env, site) && env.lastVerifiedCommit(site).Throws?)
    || (Gate(env, site).Sync? && !env.replaySucceeds(site, Gate(env, site).commitId))
  }

  /** The sync decision: Sync(c) when the replay is to be requested from commit c. */
  datatype Decision = Skip | Sync(commitId: string)

  /** The gate as a flat condition: the site is registered, its marker is readable and names
      the stored UUID, and the last verified commit is non-null and non-empty. */
  function Gate(env: Environment, site: string): Decision
  {
    if && MarkerConfirms(env, site)
       && env.lastVerifiedCommit(site).Returns?
       && IsNotEmpty(env.lastVerifiedCommit(site).value)
    then Sync(env.lastVerifiedCommit(site).value.value)
    else Skip
  }

  /** How many replays a sequence of calls requests. */
  function Replays(calls: seq<ServiceCall>): nat
  {
    if |calls| == 0 then 0
    else (if calls[0].SyncDatabaseWithRepo? then 1 else 0) + Replays(calls[1..])
  }

  lemma {:induction false} ReplaysAppend(xs: seq<ServiceCall>, ys: seq<ServiceCall>)
    ensures Replays(xs + ys) == Replays(xs) + Replays(ys)
  {
    if |xs| > 0 {
      assert (xs + ys)[1..] == xs[1..] + ys;
      ReplaysAppend(xs[1..], ys);
    } else {
      assert xs + ys == ys;
    }
  }

  /** `executeInternal`: run the sync and log whatever it throws. The replay is requested at
      most once, exactly when the gate opens, and with exactly the commit the gate read. */
  function ExecuteInternal(env: Environment, site: string): (r: Report)
    ensures Replays(r.calls) <= 1
    ensures forall c :: SyncDatabaseWithRepo(site, c) in r.calls <==> Gate(env, site) == Sync(c)
    ensures forall i :: 0 <= i < |r.calls| && r.calls[i].SyncDatabaseWithRepo? ==> r.calls[i].site == site
    ensures Gate(env, site) == Skip ==> Replays(r.calls) == 0
    ensures r.logged.Some? <==> EndsInException(env, site)
    ensures site !in env.sites ==> r.logged == Some(SiteNotFound)
    ensures site in env.sites && env.markerPath(site).None? ==> r.logged == Some(MarkerPathInvalid)
    ensures r.logged.Some? && site in env.sites && env.markerPath(site).Some? ==> r.logged == Some(ServiceFailure)
  {
    var run := SyncRepository(env, site);
    var head := [GetSite(site)] + (if MarkerConfirms(env, site) then [GetLastVerifiedGitlogCommitId(site)] else []);
    assert Replays(head) == 0 by {
      assert Replays(head[1..]) == 0 by {
        if |head| == 2 {
          assert head[1..][1..] == [];
        }
      }
    }
    ReplaysAppend(head, run.calls[|head|..]);
    assert run.calls == head + run.calls[|head|..];
    Report(run.calls, run.failure)
  }

  /** A line starting with `#` is a comment even when the stored UUID itself starts with `#`:
      such a UUID matches no marker at all. */
  lemma CommentUuidNeverMatches(lines: seq<string>, siteUuid: Option<string>)
    requires siteUuid.Some? && StartsWith(siteUuid.value, "#")
    ensures !HasMatchingLine(lines, siteUuid)
  {
  }

  /** A null stored UUID matches no marker. */
  lemma NullUuidNeverMatches(lines: seq<string>)
    ensures !HasMatchingLine(lines, None)
  {
  }

  /** Only the presence of a matching line counts: reordering the lines changes nothing. */
  lemma {:induction false} MarkerOrderIrrelevant(lines: seq<string>, reordered: seq<string>, siteUuid: Option<string>)
    requires multiset(lines) == multiset(reordered)
    ensures HasMatchingLine(lines, siteUuid) <==> HasMatchingLine(reordered, siteUuid)
  {
    if HasMatchingLine(lines, siteUuid) {
      var i :| 0 <= i < |lines| && LineMatches(lines[i], siteUuid);
      assert lines[i] in multiset(reordered);
      var j :| 0 <= j < |reordered| && reordered[j] == lines[i];
      assert LineMatches(reordered[j], siteUuid);
    }
    if HasMatchingLine(reordered, siteUuid) {
      var j :| 0 <= j < |reordered| && LineMatches(reordered[j], siteUuid);
      assert reordered[j] in multiset(lines);
      var i :| 0 <= i < |lines| && lines[i] == reordered[j];
      assert LineMatches(lines[i], siteUuid);
    }
  }

  /** Only the presence of a matching line counts: inserting non-matching lines anywhere
      (comments, blank lines, other UUIDs) changes nothing. */
  lemma {:induction false} NonMatchingLinesIrrelevant(before: seq<string>, extra: seq<string>, after: seq<string>, siteUuid: Option<string>)
    requires forall i :: 0 <= i < |extra| ==> !LineMatches(extra[i], siteUuid)
    ensures HasMatchingLine(before + extra + after, siteUuid) <==> HasMatchingLine(before + after, siteUuid)
  {
    var full := before + extra + after;
    var kept := before + after;
    if HasMatchingLine(full, siteUuid) {
      var i :| 0 <= i < |full| && LineMatches(full[i], siteUuid);
      if i < |before| {
        assert kept[i] == full[i];
      } else {
        assert i >= |before| + |extra|;
        assert kept[i - |extra|] == full[i];
      }
    }
    if HasMatchingLine(kept, siteUuid) {
      var i :| 0 <= i < |kept| && LineMatches(kept[i], siteUuid);
      if i < |before| {
        assert full[i] == kept[i];
      } else {
        assert full[i + |extra|] == kept[i];
      }
    }
  }

  /** The marker `# comment`, blank line, `abc-123` names the UUID `abc-123`. The comment line
      names nothing, but the blank line is compared like any other line, so an empty stored
      UUID matches it too. */
  lemma ExampleMarker(siteUuid: Option<string>)
    ensures HasMatchingLine(["# comment", "", "abc-123"], siteUuid)
            <==> siteUuid == Some("abc-123") || siteUuid == Some("")
  {
    var lines := ["# comment", "", "abc-123"];
    assert !StartsWith(lines[2], "#") by {
      assert lines[2][0] == 'a';
    }
    assert StartsWith(lines[0], "#") by {
      assert lines[0][..1] == "#";
    }
    if siteUuid == Some("abc-123") {
      assert LineMatches(lines[2], siteUuid);
    } else if siteUuid == Some("") {
      assert LineMatches(lines[1], siteUuid);
    }
  }

  /** A marker that cannot be read is "no match": the run ends normally after the site lookup,
      without reading the commit or replaying, and no exception reaches `executeInternal`. */
  lemma UnreadableMarkerSkipsQuietly(env: Environment, site: string)
    requires site in env.sites
    requires env.markerPath(site).Some? && env.markerPath(site).value !in env.files
    ensures ExecuteInternal(env, site) == Report([GetSite(site)], None)
  {
  }

  /** A site the registry does not know leads to no replay and a logged failure, never to an
      exception leaving the task. */
  lemma MissingSiteSkips(env: Environment, site: string)
    requires site !in env.sites
    ensures ExecuteInternal(env, site) == Report([GetSite(site)], Some(SiteNotFound))
  {
  }

  /** When the marker does not confirm the repository, the run touches nothing past the site
      lookup: no commit lookup and no replay. */
  lemma MismatchTouchesNothing(env: Environment, site: string)
    requires !MarkerConfirms(env, site)
    ensures ExecuteInternal(env, site).calls == [GetSite(site)]
  {
  }

  /** A commit lookup that throws for a confirmed site is logged; nothing is replayed. */
  lemma CommitLookupFailureIsLogged(env: Environment, site: string)
    requires MarkerConfirms(env, site) && env.lastVerifiedCommit(site).Throws?
    ensures ExecuteInternal(env, site) ==
              Report([GetSite(site), GetLastVerifiedGitlogCommitId(site)], Some(ServiceFailure))
  {
  }

  /** A null or empty last verified commit ends the run quietly after the lookup. */
  lemma EmptyCommitSkipsQuietly(env: Environment, site: string)
    requires MarkerConfirms(env, site)
    requires env.lastVerifiedCommit(site).Returns? && !IsNotEmpty(env.lastVerifiedCommit(site).value)
    ensures ExecuteInternal(env, site) == Report([GetSite(site), GetLastVerifiedGitlogCommitId(site)], None)
  {
  }

  /** A failing replay is requested once and logged; the task still returns normally. */
  lemma FailedReplayIsContained(env: Environment, site: string, commit: string)
    requires Gate(env, site) == Sync(commit) && !env.replaySucceeds(site, commit)
    ensures ExecuteInternal(env, site) ==
              Report([GetSite(site), GetLastVerifiedGitlogCommitId(site), SyncDatabaseWithRepo(site, commit)],
                     Some(ServiceFailure))
  {
  }
}
