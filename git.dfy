/** The git repository the release task drives through `local(...)`: the
    history of the checked-out branch, annotated tags, the index, the set of
    files with unstaged changes, and the tags published on the remote `origin`.
    Every command runs under `warn_only`, so a git command that fails leaves
    the repository as it was and the task carries on. */
module Git {

  type Path = string

  /** An annotated tag: the number of commits of the history it covers
      (it points at history[target - 1]) and its annotation message. */
  datatype TagObject = TagObject(target: nat, message: string)

  datatype RepoState = RepoState(
    history: seq<string>,          // commit ids of the branch, oldest first
    tags: map<string, TagObject>,  // local tags by name
    staged: set<Path>,             // paths `git add` was run on
    modified: set<Path>,           // paths whose working copy differs from the index
    remote: map<string, TagObject> // tags published on origin
  )

  /** Every tag, local or published, points at a commit of the history. */
  ghost predicate Valid(r: RepoState)
  {
    (forall t :: t in r.tags ==> 1 <= r.tags[t].target <= |r.history|) &&
    (forall t :: t in r.remote ==> 1 <= r.remote[t].target <= |r.history|)
  }

  /** `git log <name>..`: the commits that follow the tag. An unknown name
      makes git fail, which reads as no output. */
  function CommitsSince(r: RepoState, name: string): (cs: seq<string>)
    ensures name !in r.tags ==> cs == []
    ensures |cs| <= |r.history| && cs == r.history[|r.history| - |cs|..]
    ensures Valid(r) && name in r.tags ==> |cs| == |r.history| - r.tags[name].target
  {
    if name in r.tags && r.tags[name].target <= |r.history| then r.history[r.tags[name].target..] else []
  }

  /** An external program writes `path`: git now reports a diff for it. */
  function Modified(r: RepoState, path: Path): (r': RepoState)
    ensures path in r'.modified
    ensures r' == r.(modified := r'.modified) && r'.modified - {path} == r.modified - {path}
  {
    r.(modified := r.modified + {path})
  }

  /** `git add <path>`: the change moves to the index, the working copy is clean. */
  function Staged(r: RepoState, path: Path): (r': RepoState)
    ensures path in r'.staged && path !in r'.modified
    ensures r'.staged - {path} == r.staged - {path} && r'.modified - {path} == r.modified - {path}
    ensures r'.history == r.history && r'.tags == r.tags && r'.remote == r.remote
  {
    r.(staged := r.staged + {path}, modified := r.modified - {path})
  }

  /** `git tag -am <message> <name>` (with `-f` when `overwrite`): tags the
      current head. git refuses when there is no head yet, and, without `-f`,
      when the name already exists. */
  function TagCreated(r: RepoState, name: string, message: string, overwrite: bool): (r': RepoState)
    ensures r'.tags - {name} == r.tags - {name}
    ensures |r.history| > 0 && (name !in r.tags || overwrite) ==>
      name in r'.tags && r'.tags[name] == TagObject(|r.history|, message)
    ensures |r.history| == 0 || (name in r.tags && !overwrite) ==> r' == r
    ensures r'.history == r.history && r'.staged == r.staged && r'.modified == r.modified && r'.remote == r.remote
  {
    if |r.history| == 0 || (name in r.tags && !overwrite) then r
    else r.(tags := r.tags[name := TagObject(|r.history|, message)])
  }

  /** git accepts a tag push when the tag exists locally and the remote does
      not already hold a different tag of that name. */
  predicate PushAccepted(r: RepoState, name: string)
  {
    name in r.tags && (name !in r.remote || r.remote[name] == r.tags[name])
  }

  /** `git push origin <name>`. */
  function Pushed(r: RepoState, name: string): (r': RepoState)
    ensures PushAccepted(r, name) ==> name in r'.remote && r'.remote[name] == r.tags[name]
    ensures !PushAccepted(r, name) ==> r' == r
    ensures r'.remote - {name} == r.remote - {name}
    ensures r'.history == r.history && r'.tags == r.tags && r'.staged == r.staged && r'.modified == r.modified
  {
    if PushAccepted(r, name) then r.(remote := r.remote[name := r.tags[name]]) else r
  }

  /** The repository as the task sees it: each git command updates it in place. */
  class Repository {
    var history: seq<string>
    var tags: map<string, TagObject>
    var staged: set<Path>
    var modified: set<Path>
    var remote: map<string, TagObject>

    function State(): RepoState
      reads this
    {
      RepoState(history, tags, staged, modified, remote)
    }

    constructor (s: RepoState)
      ensures State() == s
    {
      history, tags, staged, modified, remote := s.history, s.tags, s.staged, s.modified, s.remote;
    }

    method MarkModified(path: Path)
      modifies this
      ensures State() == Modified(old(State()), path)
    {
      modified := modified + {path};
    }

    method Stage(path: Path)
      modifies this
      ensures State() == Staged(old(State()), path)
    {
      staged := staged + {path};
      modified := modified - {path};
    }

    method CreateTag(name: string, message: string, overwrite: bool)
      modifies this
      ensures State() == TagCreated(old(State()), name, message, overwrite)
    {
      if !(|history| == 0 || (name in tags && !overwrite)) {
        tags := tags[name := TagObject(|history|, message)];
      }
    }

    method PushTag(name: string)
      modifies this
      ensures State() == Pushed(old(State()), name)
    {
      if PushAccepted(State(), name) {
        remote := remote[name := tags[name]];
      }
    }
  }
}
