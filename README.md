# Fabric release tagging, modelled in Dafny

This project models the `tag` task of Fabric's own fabfile (`fabfile/tag.py`),
the routine its maintainers run to cut a release. The task:

- normalises its two string arguments, `force` and `push`;
- asks git whether the current short version is already a tag;
- if it is, asks whether any commits follow that tag. With none and `force` off, it aborts.
- otherwise it runs the edit step: it waits for Enter, opens `$EDITOR` on
  `fabric/version.py`, and aborts if `git diff` shows no change (unless `force` is on).
  It then reloads the version module, stages the file and prints the
  `git commit` command it suggests.
- finally it creates an annotated tag named by the `short` version with the message
  `"Fabric " + verbose` (`-f` when forced), and pushes it to `origin` when asked.

Layout:

- `flags.dfy`, module `Flags`: the case-insensitive `"y"`/`"yes"` rule.
- `version.dfy`, module `Versions`: the version triple and the imported version module.
  The module's answers change only on `Reload`.
- `git.dfy`, module `Git`: the repository as the task sees it. It has the branch
  history, annotated tags, the index, the files with unstaged changes and the
  tags published on `origin`. There is a value form (`RepoState`, one function per
  command) and a `Repository` class whose methods update it in place.
- `tag_spec.dfy`, module `TagSpec`: the whole task as a function. Its result is the
  outcome (`Done` or `Abort(message)`), the ordered trace of effects, and the world
  the task leaves. `CodeVersionIsTagged` and `CommitsSinceTag` are the two queries
  (`fabfile/tag.py` lines 11-12 and 33-37).
- `tag_workflow.dfy`, module `TagWorkflow`: the task as the step-by-step procedure
  it is, over a `Repository` and a `VersionModule`. Each method is proved to do
  exactly what `TagSpec` says.
- `tag_properties.dfy`, module `TagProperties`: the guarantees. They cover which
  effects appear, in which order, with which arguments, and what the repository
  holds afterwards.

The operator's part of the edit is a parameter, `edited`: the version the
descriptor file defines when the editor exits, and whether other text of the
file (a comment, spacing, quoting) was changed too. git shows a diff for the
file when either changed. The operator quitting without saving changes neither.

Every command of the task runs under `warn_only`. A failing query reads as a
negative answer, and no git failure aborts the run. The model follows the code.
A `git tag` without `-f` on a name that already exists is refused and leaves
the tags as they were; so is any `git tag` in a repository without commits. A
refused `git push` leaves `origin` as it was. Either way the run still ends
as `Done`. `UnbumpedVersionKeepsOldTag` shows one
consequence: an edit that keeps the short version of an existing tag, with
`force` off, ends "successfully" and the old tag is not moved.
`ForcedRetagNotReuploaded` shows another: the task's own description promises
that `force` re-tags and re-uploads, but the push carries no `-f`. When `origin`
already holds a different tag of that name, the local tag moves and `origin`
keeps the old one. This follows git from version 1.8.2 on, which refuses to
update an existing tag on a remote without `-f`. Older git accepted the update
when it was a fast-forward.

## Model

| member | source | states |
|---|---|---|
| Flags.Lower | fabfile/tag.py:55 | the lower-cased flag has the same length, and each character is the lower-case form of the one at the same place |
| Flags.NormalisedSpellings | fabfile/tag.py:55 | lower-casing gives "y" or "yes" for exactly the ten case variants of those words, and for no other text |
| Flags.IsAffirmative | fabfile/tag.py:55 | a flag is on exactly when its text is one of the ten case variants of "y" or "yes" (the same rule for `force` and `push`) |
| Flags.DefaultIsOff | fabfile/tag.py:41 | the default argument "no" leaves the flag off |
| Versions.VersionModule.Write | fabfile/tag.py:23 | the editor rewrites the descriptor file; the loaded module keeps its old version |
| Versions.VersionModule.Reload | fabfile/tag.py:28 | after reload the accessor answers with what the file now defines |
| Git.CommitsSince | fabfile/tag.py:33-37 | the commits after a tag are a suffix of the history, as many as the commits the tag does not cover; an unknown tag gives none |
| Git.Modified | fabfile/tag.py:23 | a written file shows a diff; nothing else changes |
| Git.Staged | fabfile/tag.py:30 | `git add` records the path as added and clears its diff; history, tags and remote are unchanged |
| Git.TagCreated | fabfile/tag.py:72-77 | with a head, the named tag points at it with the given message, unless the name existed and `-f` was not given; without a head or on that refusal nothing changes; other tags, history and remote are unchanged |
| Git.Pushed | fabfile/tag.py:79-80 | an accepted push publishes the local tag under its name; a refused push changes nothing; local state is unchanged |
| Git.Repository.MarkModified | fabfile/tag.py:23 | the repository becomes `Modified` of its old state |
| Git.Repository.Stage | fabfile/tag.py:30 | the repository becomes `Staged` of its old state |
| Git.Repository.CreateTag | fabfile/tag.py:72-77 | the repository becomes `TagCreated` of its old state |
| Git.Repository.PushTag | fabfile/tag.py:79-80 | the repository becomes `Pushed` of its old state |
| TagSpec.AfterEditor | fabfile/tag.py:22-25 | the file now defines the edited version; git shows a diff for it exactly when the defined version or other text of the file changed, or a diff was already there; diffs of other files, tags, index, history and remote are untouched |
| TagSpec.CodeVersionIsTagged | fabfile/tag.py:11-12 | true exactly when a tag named by the loaded short version exists; without one, the log query has no commits to report |
| TagSpec.CommitsSinceTag | fabfile/tag.py:33-37 | the commits after the current version's tag are the newest commits of the history, and there are none exactly when that tag is on the head |
| TagSpec.EditLooksAborted | fabfile/tag.py:23-26 | the diff gate fires exactly when `git diff` on the version file is empty after the editor, and then the editor changed nothing |
| TagSpec.TagAndPushTrace | fabfile/tag.py:72-80 | the final effects start with a tag named by `short`, annotated "Fabric " + `verbose`, overwriting exactly when forced; they end with a push of that same name exactly when `push` is on, and a push appears nowhere else; there is nothing else, so one tag and at most one push |
| TagSpec.UpdateCodeVersion | fabfile/tag.py:14-31 | the edit step aborts exactly when the edit looks abandoned and `force` is off, and then the loaded version is unchanged; otherwise the loaded version is the edited one and the file is staged; it never touches history, tags or remote, nor the staged paths and diffs of other files |
| TagSpec.TagAndPushRepo | fabfile/tag.py:72-80 | the local tags are what `git tag` leaves; `origin` changes only under the short name, and it then holds the local tag exactly when `push` is on and git accepts the push; otherwise it is unchanged; history, index and diffs stay |
| TagSpec.Tag | fabfile/tag.py:40-80 | the task never changes the history, and an aborted run leaves local and published tags as they were |
| TagWorkflow.UpdateCodeVersion | fabfile/tag.py:14-31 | the step-by-step edit step returns the outcome and trace of `TagSpec.UpdateCodeVersion` and leaves the repository and the version module in its world |
| TagWorkflow.TagAndPush | fabfile/tag.py:72-80 | tagging and the optional push produce `TagAndPushTrace` and leave the repository as `TagAndPushRepo` says |
| TagWorkflow.Tag | fabfile/tag.py:40-80 | the step-by-step task returns the outcome and trace of `TagSpec.Tag` and leaves the repository and version module in its world |
| TagProperties.UntaggedSkipsEditor | fabfile/tag.py:60-80 | with no tag for the current version, the run is the tag query, the "already updated" message, the tag and the optional push; there is no log query, prompt, editor, diff, reload or staging |
| TagProperties.NoWorkSinceTagAborts | fabfile/tag.py:60-63 | tagged, no commits since and `force` off: abort with "No work done since last tag!" after the two queries, with the world unchanged |
| TagProperties.ForceOverridesNoWork | fabfile/tag.py:62-65 | the same state with `force` on goes on to the prompt and the editor |
| TagProperties.AbortedEditAborts | fabfile/tag.py:23-26 | an unchanged file after the editor with `force` off aborts after the diff query, before reload, staging, tagging or pushing, with the world unchanged |
| TagProperties.ForcedEmptyEditStillTags | fabfile/tag.py:25-26 | with `force` on, an unchanged file still leads to a tag of the version it holds, with overwrite |
| TagProperties.EditPathTrace | fabfile/tag.py:60-80 | on the edit path the trace is query, log, prompt, editor, diff, reload, stage, suggested commit with the edited `normal`, then tag and push from the edited version; the accessor ends on the edited version and the file is staged |
| TagProperties.UnbumpedVersionKeepsOldTag | fabfile/tag.py:72-77 | an edit that keeps an existing short version, without `force`, ends as done and leaves every tag where it was |
| TagProperties.TagUsesShortAndVerbose | fabfile/tag.py:72-77 | every tag created is named by the final `short`, annotated "Fabric " + `verbose`, and overwrites exactly when `force` is on; a tag is created exactly when the run is not aborted |
| TagProperties.PushOnlyWhenAsked | fabfile/tag.py:79-80 | a push happens exactly when the run is not aborted and `push` is on; it is the last effect, right after the tag, and names the same short version |
| TagProperties.PushPublishesNewTag | fabfile/tag.py:72-80 | a run that ends done, asked to push, with a head and a version new locally and on `origin`, leaves `origin` holding exactly the local tag of the head, with nothing else changed there |
| TagProperties.ForcedRetagNotReuploaded | fabfile/tag.py:49-80 | a forced re-tag whose name `origin` holds as a different tag moves the local tag to the head while `origin` stays as it was |
| TagProperties.NeverCommits | fabfile/tag.py:30-31 | the history is never changed; only the version file is ever staged, and earlier `git add`s stay; the diffs of other files stay; the commit is only printed |
| TagProperties.TagPreservesValid | fabfile/tag.py:72-80 | every local and published tag still points into the history after a run |
| TagProperties.RetagWithoutWorkAborts | fabfile/tag.py:60-63 | right after a run that tagged the head of a non-empty history, a second run without `force` aborts with "No work done since last tag!" |
| TagProperties.ScenarioNoWork | fabfile/tag.py:60-63 | tag 1.2.0 on the head, default arguments: abort, nothing changes |
| TagProperties.ScenarioBump | fabfile/tag.py:60-77 | tag 1.2.0 with three commits after it, edited to 1.3.0: the file is staged and 1.3.0 is tagged at the head without overwrite and not pushed |
| TagProperties.ScenarioCommentOnlyEdit | fabfile/tag.py:23-30 | tag 1.2.0 with a commit after it, an edit that changes only a comment: git shows a diff, the run goes on and stages the file, and the existing 1.2.0 tag is not moved |
| TagProperties.ScenarioEmptyHistory | fabfile/tag.py:72-80 | in a repository without commits the tag and the push are refused; the run ends as done with no tag locally or on `origin` |
| TagProperties.ScenarioForcePush | fabfile/tag.py:55-80 | `force="YES"`, `push="y"`, no tag yet: the tag is created with overwrite and then pushed |

## Left out

- Flags.Lower: lower-cases ASCII letters only. Python's `str.lower` also maps other letters, but none of them lowers to "y", "e" or "s", so `IsAffirmative` agrees with the source.
- The tag query is exact membership of `short` in the tag names. The source pipes `git tag` through `egrep "^short$"`, where each dot of the version matches any character, so its match is looser.
- A query whose git command fails reads as a negative answer in the source, because of `warn_only`. The model's queries always answer from the repository state; it has no failing-query input.
- The editor's exit status is not interpreted. The editor's whole effect is the parameter `edited`.
- The blocking prompt is the `Prompt` effect; the operator's answer is ignored, as in the source.
- TagSpec.AfterEditor: the diff is tracked as a set of paths with unstaged changes, not by comparing contents. An edit that restores the indexed content of an already changed file still shows a diff in the model, where git shows none. Any other change to the file's text shows a diff, as in git.
- `abort` ends the process after printing its message. Here it is the outcome `Abort(message)`, and nothing runs after it.
- Python's `reload` machinery: `Reload` only makes the accessor answer with what the file defines.
- fabric/version.py is not part of this model. Its content is the version it defines, an opaque triple of renderings (`VersionInfo`), plus whether an edit changed any other text.
- The history is the one branch that is checked out, and every tag points into it. A tag on a commit off that branch cannot be represented; for such a tag `git log <tag>..` lists the commits since the merge base, which the model does not compute.
- The refusals modelled for `git tag` are: no head to tag, and an existing name without `-f`. For `git push` they are: no local tag of that name, and a different tag of that name already on `origin`. The push refusal is the rule of git 1.8.2 and later; older git also accepted a fast-forward update of a published tag. Other failures (network, permissions, a tag name git rejects) are not modelled.
- A saved descriptor file that defines no loadable version (a syntax error, say) makes `reload` raise, so the run ends after the diff gate with nothing staged or tagged. `Versions.Edit` always defines a version, so the model has no such run.
- `RepoState.staged` is the set of paths `git add` was run on. A `git add` of an unchanged file still puts its path there, although git stages nothing.
- fabric/exceptions.py (exception data carriers) and integration/test_contrib.py (remote file-operation tests) hold no logic of the tagging task.
