/** The `tag` task as the step-by-step procedure it is: each query, prompt,
    edit and git command happens in turn against the repository and the
    version module, and an `abort` ends the run early. Each method is proved to
    do exactly what TagSpec says. */
module TagWorkflow {
  import opened Flags
  import opened Versions
  import opened Git
  import opened TagSpec

  /** `update_code_version(force)`; `edited` is what the operator leaves in
      the descriptor file when the editor exits. */
  method UpdateCodeVersion(force: bool, repo: Repository, version: VersionModule, edited: Edit)
    returns (outcome: Outcome, trace: seq<Effect>)
    modifies repo, version
    ensures var r := TagSpec.UpdateCodeVersion(force, old(World(repo.State(), version.State())), edited);
      outcome == r.outcome && trace == r.trace &&
      repo.State() == r.world.repo && version.State() == r.world.version
  {
    trace := [Prompt(EditPrompt)];
    trace := trace + [LaunchEditor(VersionFile)];
    var before := version.source;
    version.Write(edited.defines);
    if edited.defines != before || edited.otherText {
      repo.MarkModified(VersionFile);
    }
    trace := trace + [QueryDiff(VersionFile)];
    if VersionFile !in repo.modified && !force {
      outcome := Abort(EditAbortedMessage);
      return;
    }
    version.Reload();
    trace := trace + [ReloadVersion];
    repo.Stage(VersionFile);
    trace := trace + [GitAdd(VersionFile)];
    trace := trace + [Say(CommitCommand(version.loaded.normal))];
    outcome := Done;
  }

  /** The last step of `tag`: tag the head with the current version, then push
      the tag when `push` is affirmative. */
  method TagAndPush(force: bool, push: string, repo: Repository, version: VersionModule)
    returns (trace: seq<Effect>)
    modifies repo
    ensures trace == TagAndPushTrace(force, push, version.loaded)
    ensures repo.State() == TagAndPushRepo(force, push, old(repo.State()), version.loaded)
  {
    var name := version.loaded.short;
    repo.CreateTag(name, TagMessage(version.loaded.verbose), force);
    trace := [GitTag(name, TagMessage(version.loaded.verbose), force)];
    if IsAffirmative(push) {
      repo.PushTag(name);
      trace := trace + [GitPush(Origin, name)];
    }
  }

  /** `tag(force, push)`. */
  method Tag(force: string, push: string, repo: Repository, version: VersionModule, edited: Edit)
    returns (outcome: Outcome, trace: seq<Effect>)
    modifies repo, version
    ensures var r := TagSpec.Tag(force, push, old(World(repo.State(), version.State())), edited);
      outcome == r.outcome && trace == r.trace &&
      repo.State() == r.world.repo && version.State() == r.world.version
  {
    var f := IsAffirmative(force);
    var short := version.loaded.short;
    trace := [QueryTag(short)];
    if CodeVersionIsTagged(World(repo.State(), version.State())) {
      trace := trace + [QueryLog(short)];
      if |CommitsSinceTag(World(repo.State(), version.State()))| == 0 && !f {
        outcome := Abort(NoWorkMessage);
        return;
      }
      var edit;
      outcome, edit := UpdateCodeVersion(f, repo, version, edited);
      trace := trace + edit;
      if outcome.Abort? {
        return;
      }
    } else {
      trace := trace + [Say(AlreadyUpdatedMessage)];
    }
    var last := TagAndPush(f, push, repo, version);
    trace := trace + last;
    outcome := Done;
  }
}
