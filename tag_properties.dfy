/** What the `tag` task guarantees: which effects a run has, in which order
    and with which arguments, and what it leaves in the repository. */
module TagProperties {
  import opened Flags
  import opened Versions
  import opened Git
  import opened TagSpec

  // ----- Gate 1: no tag for the current version -----

  /** Without a tag for the current version the editor is never launched and
      the commit log is never asked: the run goes straight to the tag. */
  lemma UntaggedSkipsEditor(force: string, push: string, w: World, edited: Edit)
    requires !CodeVersionIsTagged(w)
    ensures var r := Tag(force, push, w, edited);
      r.outcome == Done &&
      r.trace == [QueryTag(w.version.loaded.short), Say(AlreadyUpdatedMessage)]
                 + TagAndPushTrace(IsAffirmative(force), push, w.version.loaded) &&
      r.world.version == w.version
    ensures forall e :: e in Tag(force, push, w, edited).trace ==>
      !e.QueryLog? && !e.Prompt? && !e.LaunchEditor? && !e.QueryDiff? && !e.ReloadVersion? && !e.GitAdd?
  {
  }

  // ----- Gate 2: no work since the tag -----

  /** A tagged version with no commits after its tag and `force` off aborts
      right after the two queries, leaving the repository and the version as they were. */
  lemma NoWorkSinceTagAborts(force: string, push: string, w: World, edited: Edit)
    requires CodeVersionIsTagged(w) && |CommitsSinceTag(w)| == 0 && !IsAffirmative(force)
    ensures Tag(force, push, w, edited) ==
      Run(Abort(NoWorkMessage), [QueryTag(w.version.loaded.short), QueryLog(w.version.loaded.short)], w)
  {
  }

  /** With `force` on, the same state goes on to the edit step. */
  lemma ForceOverridesNoWork(force: string, push: string, w: World, edited: Edit)
    requires CodeVersionIsTagged(w) && |CommitsSinceTag(w)| == 0 && IsAffirmative(force)
    ensures var r := Tag(force, push, w, edited);
      |r.trace| >= 5 && r.trace[2] == Prompt(EditPrompt) && r.trace[3] == LaunchEditor(VersionFile)
  {
  }

  // ----- The edit step -----

  /** The operator quits the editor without saving and `force` is off: the run
      aborts after the diff query, before reload, staging, tagging or pushing,
      and nothing in the repository or the version module has changed. */
  lemma AbortedEditAborts(force: string, push: string, w: World, edited: Edit)
    requires CodeVersionIsTagged(w) && |CommitsSinceTag(w)| > 0 && !IsAffirmative(force)
    requires EditLooksAborted(w, edited)
    ensures Tag(force, push, w, edited) ==
      Run(Abort(EditAbortedMessage),
          [QueryTag(w.version.loaded.short), QueryLog(w.version.loaded.short),
           Prompt(EditPrompt), LaunchEditor(VersionFile), QueryDiff(VersionFile)],
          w)
  {
  }

  /** With `force` on, an unchanged descriptor file does not stop the run: the
      version it still holds is tagged again, with the overwrite modifier. */
  lemma ForcedEmptyEditStillTags(force: string, push: string, w: World, edited: Edit)
    requires CodeVersionIsTagged(w) && IsAffirmative(force)
    requires EditLooksAborted(w, edited)
    ensures var r := Tag(force, push, w, edited);
      r.outcome == Done &&
      GitTag(w.version.source.short, TagMessage(w.version.source.verbose), true) in r.trace
  {
  }

  /** On the edit path the run reloads the version before it stages the file
      and tags, so the suggested commit, the tag name and the tag message all
      come from the edited version. */
  lemma EditPathTrace(force: string, push: string, w: World, edited: Edit)
    requires CodeVersionIsTagged(w)
    requires |CommitsSinceTag(w)| > 0 || IsAffirmative(force)
    requires !EditLooksAborted(w, edited) || IsAffirmative(force)
    ensures var r := Tag(force, push, w, edited);
      r.outcome == Done &&
      r.trace == [QueryTag(w.version.loaded.short), QueryLog(w.version.loaded.short),
                  Prompt(EditPrompt), LaunchEditor(VersionFile), QueryDiff(VersionFile),
                  ReloadVersion, GitAdd(VersionFile), Say(CommitCommand(edited.defines.normal))]
                 + TagAndPushTrace(IsAffirmative(force), push, edited.defines) &&
      r.world.version == ModuleState(edited.defines, edited.defines) &&
      VersionFile in r.world.repo.staged && VersionFile !in r.world.repo.modified
  {
  }

  /** If the operator saves an edit that keeps the short version of an existing
      tag and `force` is off, git refuses the tag, the old tag stays where it
      was, and the run still reports success (and pushes when asked). */
  lemma UnbumpedVersionKeepsOldTag(force: string, push: string, w: World, edited: Edit)
    requires CodeVersionIsTagged(w) && |CommitsSinceTag(w)| > 0 && !IsAffirmative(force)
    requires !EditLooksAborted(w, edited) && edited.defines.short in w.repo.tags
    ensures var r := Tag(force, push, w, edited);
      r.outcome == Done && r.world.repo.tags == w.repo.tags
  {
  }

  // ----- Tag creation and push -----

  /** Every tag a run creates is named by the short rendering of the version
      the accessor holds at that point, annotated with "Fabric " and the
      verbose rendering, and overwrites exactly when `force` is on; a run
      creates a tag exactly when it is not aborted. */
  lemma TagUsesShortAndVerbose(force: string, push: string, w: World, edited: Edit)
    ensures var r := Tag(force, push, w, edited);
      forall e :: e in r.trace && e.GitTag? ==>
        e == GitTag(r.world.version.loaded.short, TagMessage(r.world.version.loaded.verbose), IsAffirmative(force))
    ensures var r := Tag(force, push, w, edited);
      r.outcome.Done? <==> exists e :: e in r.trace && e.GitTag?
  {
    var r := Tag(force, push, w, edited);
    var v := r.world.version.loaded;
    if !CodeVersionIsTagged(w) {
      UntaggedSkipsEditor(force, push, w, edited);
      assert r.trace[2] == GitTag(v.short, TagMessage(v.verbose), IsAffirmative(force));
    } else if |CommitsSinceTag(w)| == 0 && !IsAffirmative(force) {
      NoWorkSinceTagAborts(force, push, w, edited);
    } else if EditLooksAborted(w, edited) && !IsAffirmative(force) {
      AbortedEditAborts(force, push, w, edited);
    } else {
      EditPathTrace(force, push, w, edited);
      assert r.trace[8] == GitTag(v.short, TagMessage(v.verbose), IsAffirmative(force));
    }
  }

  /** A push happens exactly when the run is not aborted and `push` is
      affirmative; it is the last effect, right after the tag creation, and
      names the same short version. */
  lemma PushOnlyWhenAsked(force: string, push: string, w: World, edited: Edit)
    ensures var r := Tag(force, push, w, edited);
      (exists e :: e in r.trace && e.GitPush?) <==> r.outcome.Done? && IsAffirmative(push)
    ensures var r := Tag(force, push, w, edited);
      r.outcome.Done? && IsAffirmative(push) ==>
        |r.trace| >= 2 &&
        r.trace[|r.trace| - 1] == GitPush(Origin, r.world.version.loaded.short) &&
        r.trace[|r.trace| - 2].GitTag? && r.trace[|r.trace| - 2].name == r.world.version.loaded.short
  {
    var r := Tag(force, push, w, edited);
    if !CodeVersionIsTagged(w) {
      UntaggedSkipsEditor(force, push, w, edited);
      if IsAffirmative(push) {
        assert r.trace[3] == GitPush(Origin, w.version.loaded.short);
      } else {
        assert |r.trace| == 3;
        forall e | e in r.trace ensures !e.GitPush? {
        }
      }
    } else if |CommitsSinceTag(w)| == 0 && !IsAffirmative(force) {
      NoWorkSinceTagAborts(force, push, w, edited);
    } else if EditLooksAborted(w, edited) && !IsAffirmative(force) {
      AbortedEditAborts(force, push, w, edited);
    } else {
      EditPathTrace(force, push, w, edited);
      if IsAffirmative(push) {
        assert r.trace[9] == GitPush(Origin, edited.defines.short);
      } else {
        assert |r.trace| == 9;
        forall e | e in r.trace ensures !e.GitPush? {
        }
      }
    }
  }

  // ----- What a run leaves in the repository -----

  /** A run that tags a new version at the head and is asked to push
      publishes that tag on `origin`: the published tag is the local one,
      pointing at the head with the "Fabric " message. */
  lemma PushPublishesNewTag(force: string, push: string, w: World, edited: Edit)
    requires IsAffirmative(push) && |w.repo.history| > 0
    requires var r := Tag(force, push, w, edited);
      r.outcome == Done && r.world.version.loaded.short !in w.repo.tags &&
      r.world.version.loaded.short !in w.repo.remote
    ensures var r := Tag(force, push, w, edited);
      var v := r.world.version.loaded;
      v.short in r.world.repo.tags && v.short in r.world.repo.remote &&
      r.world.repo.remote[v.short] == r.world.repo.tags[v.short] == TagObject(|w.repo.history|, TagMessage(v.verbose)) &&
      r.world.repo.remote - {v.short} == w.repo.remote - {v.short}
  {
  }

  /** A forced re-tag of a version whose tag `origin` already holds, pointing
      elsewhere or with another message: the local tag moves to the head, but
      the plain `git push` is refused, so `origin` keeps its old tag. */
  lemma ForcedRetagNotReuploaded(force: string, push: string, w: World, edited: Edit)
    requires IsAffirmative(force) && IsAffirmative(push) && |w.repo.history| > 0
    requires var r := Tag(force, push, w, edited);
      var v := r.world.version.loaded;
      r.outcome == Done && v.short in w.repo.remote &&
      w.repo.remote[v.short] != TagObject(|w.repo.history|, TagMessage(v.verbose))
    ensures var r := Tag(force, push, w, edited);
      var v := r.world.version.loaded;
      v.short in r.world.repo.tags && r.world.repo.tags[v.short] == TagObject(|w.repo.history|, TagMessage(v.verbose)) &&
      r.world.repo.remote == w.repo.remote
  {
  }

  /** The task never commits: the history is untouched, the only path it ever
      stages is the version descriptor, and the commit is only suggested. */
  lemma NeverCommits(force: string, push: string, w: World, edited: Edit)
    ensures var r := Tag(force, push, w, edited);
      r.world.repo.history == w.repo.history &&
      r.world.repo.staged <= w.repo.staged + {VersionFile} &&
      w.repo.staged <= r.world.repo.staged &&
      r.world.repo.modified - {VersionFile} == w.repo.modified - {VersionFile} &&
      forall e :: e in r.trace && e.GitAdd? ==> e == GitAdd(VersionFile)
  {
  }

  /** A run keeps every tag, local or published, inside the history. */
  lemma TagPreservesValid(force: string, push: string, w: World, edited: Edit)
    requires Valid(w.repo)
    ensures Valid(Tag(force, push, w, edited).world.repo)
  {
    var f := IsAffirmative(force);
    if CodeVersionIsTagged(w) && !(|CommitsSinceTag(w)| == 0 && !f) {
      var u := UpdateCodeVersion(f, w, edited);
      if u.outcome.Done? {
        FinalStepPreservesValid(f, push, u.world.repo, u.world.version.loaded);
      }
    } else if !CodeVersionIsTagged(w) {
      FinalStepPreservesValid(f, push, w.repo, w.version.loaded);
    }
  }

  /** Tagging the head and pushing keep every tag inside the history. */
  lemma FinalStepPreservesValid(force: bool, push: string, r: RepoState, v: VersionInfo)
    requires Valid(r)
    ensures Valid(TagAndPushRepo(force, push, r, v))
  {
    var t := TagCreated(r, v.short, TagMessage(v.verbose), force);
    assert Valid(t);
  }

  /** Once a run has tagged the head (which needs a non-empty history), running the task again without new
      commits and without `force` aborts with "No work done since last tag!". */
  lemma RetagWithoutWorkAborts(
    force: string, push: string, w: World, edited: Edit,
    force2: string, push2: string, edited2: Edit)
    requires Tag(force, push, w, edited).outcome == Done
    requires |w.repo.history| > 0
    requires Tag(force, push, w, edited).world.version.loaded.short !in w.repo.tags || IsAffirmative(force)
    requires !IsAffirmative(force2)
    ensures Tag(force2, push2, Tag(force, push, w, edited).world, edited2).outcome == Abort(NoWorkMessage)
  {
  }

  // ----- Concrete runs -----

  const V120 := VersionInfo("1.2.0", "1.2", "1.2 final")
  const V130 := VersionInfo("1.3.0", "1.3", "1.3 final")

  /** Tag "1.2.0" on the head and defaults for both flags: abort, nothing changes. */
  lemma ScenarioNoWork()
    ensures var w := World(RepoState(["a", "b"], map["1.2.0" := TagObject(2, "Fabric 1.2 final")], {}, {}, map[]),
                           ModuleState(V120, V120));
      var r := Tag("no", "no", w, Edit(V120, false));
      r.outcome == Abort(NoWorkMessage) && r.world == w
  {
  }

  /** Tag "1.2.0" with three commits after it, the operator bumps to 1.3.0:
      the file is staged and "1.3.0" is tagged without overwrite and not pushed. */
  lemma ScenarioBump()
    ensures var w := World(RepoState(["a", "b", "c", "d"], map["1.2.0" := TagObject(1, "Fabric 1.2 final")], {}, {}, map[]),
                           ModuleState(V120, V120));
      var r := Tag("no", "no", w, Edit(V130, false));
      r.outcome == Done && VersionFile in r.world.repo.staged &&
      r.trace[|r.trace| - 1] == GitTag("1.3.0", "Fabric 1.3 final", false) &&
      r.world.repo.tags["1.3.0"] == TagObject(4, "Fabric 1.3 final") && r.world.repo.remote == map[]
  {
  }

  /** Tag "1.2.0" with commits after it; the operator saves the descriptor
      file with only a comment changed. git shows a diff, so the run goes on,
      but the tag "1.2.0" exists and is not overwritten. */
  lemma ScenarioCommentOnlyEdit()
    ensures var w := World(RepoState(["a", "b"], map["1.2.0" := TagObject(1, "Fabric 1.2 final")], {}, {}, map[]),
                           ModuleState(V120, V120));
      var r := Tag("no", "no", w, Edit(V120, true));
      r.outcome == Done && VersionFile in r.world.repo.staged &&
      r.world.repo.tags == w.repo.tags
  {
  }

  /** A repository without commits has no head to tag: `git tag` and `git push`
      are both refused, and the run still ends as done with no tag anywhere. */
  lemma ScenarioEmptyHistory()
    ensures var w := World(RepoState([], map[], {}, {}, map[]), ModuleState(V130, V130));
      var r := Tag("no", "y", w, Edit(V130, false));
      r.outcome == Done && r.world.repo.tags == map[] && r.world.repo.remote == map[]
  {
  }

  /** `force="YES"`, `push="y"`: the tag is created with overwrite and pushed. */
  lemma ScenarioForcePush()
    ensures var w := World(RepoState(["a"], map[], {}, {}, map[]), ModuleState(V130, V130));
      Tag("YES", "y", w, Edit(V130, false)).trace ==
        [QueryTag("1.3.0"), Say(AlreadyUpdatedMessage), GitTag("1.3.0", "Fabric 1.3 final", true), GitPush(Origin, "1.3.0")]
  {
    assert TagMessage(V130.verbose) == "Fabric 1.3 final";
  }
}
