/** What the `tag` task does, as a function of the repository, the version
    module, the two task arguments and what the operator leaves in the
    descriptor file when the editor exits. A run is its outcome, the ordered
    trace of what it asked, printed and executed, and the world it leaves. */
module TagSpec {
  import opened Flags
  import opened Versions
  import opened Git

  const VersionFile: Path := "fabric/version.py"
  const Origin: string := "origin"

  const EditPrompt: string :=
    "Work has been done since last tag, version update is needed. Hit Enter to load version info in your editor: "
  const EditAbortedMessage: string := "You seem to have aborted the file edit, so I'm aborting too."
  const NoWorkMessage: string := "No work done since last tag!"
  const AlreadyUpdatedMessage: string := "Version has already been updated, no need to edit..."

  /** One observable step of a run, in the order it happens. */
  datatype Effect =
    | QueryTag(name: string)                               // git tag | egrep "^<name>$"
    | QueryLog(name: string)                               // git log <name>..
    | Prompt(text: string)                                 // raw_input, waits for Enter
    | LaunchEditor(path: Path)                             // $EDITOR <path>
    | QueryDiff(path: Path)                                // git diff -- <path>
    | ReloadVersion                                        // reload(fabric.version)
    | GitAdd(path: Path)                                   // git add <path>
    | Say(text: string)                                    // a line printed to the operator
    | GitTag(name: string, message: string, overwrite: bool) // git tag -[f]am <message> <name>
    | GitPush(remote: string, name: string)                // git push <remote> <name>

  /** A run either reaches its end or stops at an `abort` with its message. */
  datatype Outcome = Done | Abort(message: string)

  datatype World = World(repo: RepoState, version: ModuleState)

  datatype Run = Run(outcome: Outcome, trace: seq<Effect>, world: World)

  /** The commit the task suggests to the operator instead of making it. */
  function CommitCommand(normal: string): string
  {
    "git commit -m \"Cut " + normal + "\""
  }

  function TagMessage(verbose: string): string
  {
    "Fabric " + verbose
  }

  /** `code_version_is_tagged`: a tag named by the current short version
      exists. Without one, `git log <short>..` has nothing to report. */
  function CodeVersionIsTagged(w: World): (tagged: bool)
    ensures tagged <==> w.version.loaded.short in w.repo.tags
    ensures !tagged ==> CommitsSince(w.repo, w.version.loaded.short) == []
  {
    w.version.loaded.short in w.repo.tags
  }

  /** `commits_since_tag`: the commits that follow the current version's tag.
      They are the newest commits of the history, and there are none exactly
      when the tag is on the head. */
  function CommitsSinceTag(w: World): (cs: seq<string>)
    ensures |cs| <= |w.repo.history| && cs == w.repo.history[|w.repo.history| - |cs|..]
    ensures Valid(w.repo) && CodeVersionIsTagged(w) ==>
      (cs == [] <==> w.repo.tags[w.version.loaded.short].target == |w.repo.history|)
  {
    CommitsSince(w.repo, w.version.loaded.short)
  }

  /** The editor exits leaving `edited` in the descriptor file; git reports a
      diff for the file once its text changed, whether in the version it
      defines or elsewhere. */
  function AfterEditor(w: World, edited: Edit): (w': World)
    ensures w'.version == w.version.(source := edited.defines)
    ensures w'.repo.history == w.repo.history && w'.repo.tags == w.repo.tags
    ensures w'.repo.staged == w.repo.staged && w'.repo.remote == w.repo.remote
    ensures w'.repo.modified - {VersionFile} == w.repo.modified - {VersionFile}
    ensures VersionFile in w'.repo.modified <==>
      edited.defines != w.version.source || edited.otherText || VersionFile in w.repo.modified
  {
    var changed := edited.defines != w.version.source || edited.otherText;
    World(if changed then Modified(w.repo, VersionFile) else w.repo,
          w.version.(source := edited.defines))
  }

  /** The diff gate after the editor: `git diff` on the descriptor file is
      empty, which the task reads as the operator quitting without saving. That
      happens exactly when the file's text is unchanged and had no diff before. */
  function EditLooksAborted(w: World, edited: Edit): (aborted: bool)
    ensures aborted <==> VersionFile !in AfterEditor(w, edited).repo.modified
    ensures aborted ==> AfterEditor(w, edited) == w
  {
    edited.defines == w.version.source && !edited.otherText && VersionFile !in w.repo.modified
  }

  /** `update_code_version(force)`: prompt, edit, diff gate, reload, stage and
      print the suggested commit. */
  function UpdateCodeVersion(force: bool, w: World, edited: Edit): (r: Run)
    ensures r.outcome.Abort? <==> EditLooksAborted(w, edited) && !force
    ensures r.outcome.Abort? ==> r.outcome.message == EditAbortedMessage && r.world.version.loaded == w.version.loaded
    ensures r.outcome.Done? ==> r.world.version.loaded == edited.defines && VersionFile in r.world.repo.staged
    ensures r.world.repo.history == w.repo.history && r.world.repo.tags == w.repo.tags
    ensures r.world.repo.remote == w.repo.remote
    ensures r.world.repo.staged - {VersionFile} == w.repo.staged - {VersionFile}
    ensures r.world.repo.modified - {VersionFile} == w.repo.modified - {VersionFile}
  {
    var w1 := AfterEditor(w, edited);
    var asked := [Prompt(EditPrompt), LaunchEditor(VersionFile), QueryDiff(VersionFile)];
    if EditLooksAborted(w, edited) && !force then
      Run(Abort(EditAbortedMessage), asked, w1)
    else
      var v := w1.version.(loaded := w1.version.source);
      Run(Done, asked + [ReloadVersion, GitAdd(VersionFile), Say(CommitCommand(v.loaded.normal))],
          World(Staged(w1.repo, VersionFile), v))
  }

  /** The effects of the final step, which every run that is not aborted reaches:
      tag the head, then push the tag when asked to. */
  function TagAndPushTrace(force: bool, push: string, v: VersionInfo): (t: seq<Effect>)
    ensures |t| == if IsAffirmative(push) then 2 else 1
    ensures |t| >= 1 && t[0].GitTag? && t[0].name == v.short && t[0].message == "Fabric " + v.verbose
    ensures t[0].overwrite == force
    ensures t[|t| - 1].GitPush? <==> IsAffirmative(push)
    ensures forall e :: e in t && e.GitPush? ==> e == GitPush(Origin, v.short) && e == t[|t| - 1]
  {
    [GitTag(v.short, TagMessage(v.verbose), force)] + (if IsAffirmative(push) then [GitPush(Origin, v.short)] else [])
  }

  /** The repository after the final step. The local tags are those `git tag`
      leaves; `origin` changes only under the pushed name, and only when `push`
      is on and git accepts the push, which then publishes the local tag. */
  function TagAndPushRepo(force: bool, push: string, r: RepoState, v: VersionInfo): (r': RepoState)
    ensures r'.history == r.history && r'.staged == r.staged && r'.modified == r.modified
    ensures r'.tags == TagCreated(r, v.short, TagMessage(v.verbose), force).tags
    ensures r'.remote - {v.short} == r.remote - {v.short}
    ensures IsAffirmative(push) && PushAccepted(r.(tags := r'.tags), v.short) ==>
      v.short in r'.remote && r'.remote[v.short] == r'.tags[v.short]
    ensures !(IsAffirmative(push) && PushAccepted(r.(tags := r'.tags), v.short)) ==> r'.remote == r.remote
  {
    var tagged := TagCreated(r, v.short, TagMessage(v.verbose), force);
    if IsAffirmative(push) then Pushed(tagged, v.short) else tagged
  }

  /** The `tag` task. */
  function Tag(force: string, push: string, w: World, edited: Edit): (r: Run)
    ensures r.world.repo.history == w.repo.history
    ensures r.outcome.Abort? ==> r.world.repo.tags == w.repo.tags && r.world.repo.remote == w.repo.remote
  {
    var f := IsAffirmative(force);
    var short := w.version.loaded.short;
    if CodeVersionIsTagged(w) then
      var checks := [QueryTag(short), QueryLog(short)];
      if |CommitsSinceTag(w)| == 0 && !f then
        Run(Abort(NoWorkMessage), checks, w)
      else
        var u := UpdateCodeVersion(f, w, edited);
        if u.outcome.Abort? then
          Run(u.outcome, checks + u.trace, u.world)
        else
          var v := u.world.version.loaded;
          Run(Done, checks + u.trace + TagAndPushTrace(f, push, v),
              u.world.(repo := TagAndPushRepo(f, push, u.world.repo, v)))
    else
      Run(Done, [QueryTag(short), Say(AlreadyUpdatedMessage)] + TagAndPushTrace(f, push, w.version.loaded),
          w.(repo := TagAndPushRepo(f, push, w.repo, w.version.loaded)))
  }
}
