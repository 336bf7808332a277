/**
  File-system paths as the sequence of components `std::path::Path` splits
  them into. Turning a path string into components is not part of this model.
 */
module Paths {
  import opened Wrappers

  datatype Component =
    | Prefix(prefix: string)
    | RootDir
    | CurDir
    | ParentDir
    | Normal(name: string)

  datatype Path = Path(components: seq<Component>)

  /** `Path::file_name`: the final component when it is a normal name, else nothing. */
  function FileName(p: Path): (r: Option<string>)
    ensures r.Some? <==> |p.components| > 0 && p.components[|p.components| - 1].Normal?
    ensures r.Some? ==> p.components[|p.components| - 1] == Normal(r.value)
  {
    if |p.components| > 0 && p.components[|p.components| - 1].Normal? then
      Some(p.components[|p.components| - 1].name)
    else None
  }

  /** The path without its last component. */
  function Parent(p: Path): Path
    requires |p.components| > 0
  {
    Path(p.components[..|p.components| - 1])
  }

  /**
    `Path::with_file_name`: the final normal component, when there is one, is
    replaced by `name`; otherwise `name` is pushed as a new component.
   */
  function WithFileName(p: Path, name: string): (r: Path)
    ensures FileName(r) == Some(name)
    ensures FileName(p).Some? ==> Parent(r) == Parent(p)
    ensures FileName(p).None? ==> Parent(r) == p
  {
    if FileName(p).Some? then Path(Parent(p).components + [Normal(name)])
    else Path(p.components + [Normal(name)])
  }
}
