/** The version accessor `fabric.version.get_version` and the module it reads.
    The version descriptor file itself (fabric/version.py) is not part of this
    model: its content is the triple of renderings it defines, plus whether an
    edit changed any of its other text. */
module Versions {

  /** The three renderings of one version: `short` names tags, `normal` is the
      display form, `verbose` the long human-readable form. */
  datatype VersionInfo = VersionInfo(short: string, normal: string, verbose: string)

  /** What the operator leaves behind when the editor exits: the version the
      descriptor file now defines, and whether other text of the file (a
      comment, spacing, the quoting of a field) was changed as well. */
  datatype Edit = Edit(defines: VersionInfo, otherText: bool)

  /** What the descriptor file on disk defines, and what the imported module
      (and therefore the accessor) currently returns. */
  datatype ModuleState = ModuleState(source: VersionInfo, loaded: VersionInfo)

  /** The imported version module: its answers change only when it is reloaded. */
  class VersionModule {
    var source: VersionInfo
    var loaded: VersionInfo

    function State(): ModuleState
      reads this
    {
      ModuleState(source, loaded)
    }

    constructor (s: ModuleState)
      ensures State() == s
    {
      source := s.source;
      loaded := s.loaded;
    }

    /** An external write of the descriptor file (the operator's editor):
        the module already loaded keeps answering with the old version. */
    method Write(v: VersionInfo)
      modifies this
      ensures source == v
      ensures loaded == old(loaded)
    {
      source := v;
    }

    /** `reload(fabric.version)`: the accessor now answers with what the file defines. */
    method Reload()
      modifies this
      ensures loaded == old(source)
      ensures source == old(source)
    {
      loaded := source;
    }
  }
}
