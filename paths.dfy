// File-system paths as sequences of components.  An absolute path starts
// with an empty component, so joining the components with '/' gives the
// path's display text.  `FileName`, `FileStem`, `Extension`,
// `SetExtension`, `Parent` and `StartsWith` follow `std::path::Path`.
module Paths {
  import opened Wrappers
  import opened Strs

  type Path = seq<string>

  function Display(p: Path): string
  {
    Join(p, "/")
  }

  /// `Path::file_name`: the last component, unless it is empty (the root)
  /// or `..`.
  function FileName(p: Path): (r: Option<string>)
    ensures r.Some? ==> p != [] && r.value == p[|p| - 1]
  {
    if p == [] || p[|p| - 1] == "" || p[|p| - 1] == ".." then None else Some(p[|p| - 1])
  }

  /// Position of the dot that separates stem and extension: the last dot,
  /// unless the name has none or its only candidate is a leading dot.
  function ExtensionDot(name: string): (r: Option<nat>)
    ensures r.Some? ==> 0 < r.value < |name| && name[r.value] == '.'
    ensures r.Some? ==> forall j :: r.value < j < |name| ==> name[j] != '.'
  {
    if name == ".." then None
    else
      match LastIndexOfChar(name, '.')
      case None => None
      case Some(i) => if i == 0 then None else Some(i)
  }

  /// `Path::file_stem` of a file name.
  function Stem(name: string): string
  {
    match ExtensionDot(name)
    case None => name
    case Some(i) => name[..i]
  }

  /// `Path::extension` of a file name.
  function Ext(name: string): Option<string>
  {
    match ExtensionDot(name)
    case None => None
    case Some(i) => Some(name[i + 1..])
  }

  function FileStem(p: Path): Option<string>
  {
    match FileName(p)
    case None => None
    case Some(n) => Some(Stem(n))
  }

  function Extension(p: Path): Option<string>
  {
    match FileName(p)
    case None => None
    case Some(n) => Ext(n)
  }

  /// `Path::with_extension` / `set_extension`: replaces the last extension
  /// of the file name (an empty `ext` removes it); a path without a file
  /// name is unchanged.
  function WithExtension(p: Path, ext: string): (r: Path)
    ensures r == p || (|r| == |p| && r[..|r| - 1] == p[..|p| - 1])
  {
    match FileName(p)
    case None => p
    case Some(n) =>
      p[..|p| - 1] + [if ext == "" then Stem(n) else Stem(n) + "." + ext]
  }

  /// `Path::parent`
  function Parent(p: Path): (r: Option<Path>)
    ensures r.Some? <==> |p| >= 1 && p != [""]
    ensures r.Some? ==> r.value + [p[|p| - 1]] == p
  {
    if p == [] || p == [""] then None else Some(p[..|p| - 1])
  }

  /// `Path::join` with a relative path.
  function JoinPath(p: Path, q: Path): Path
  {
    p + q
  }

  /// `Path::starts_with`: component-wise prefix.
  predicate StartsWith(p: Path, base: Path)
  {
    base <= p
  }

  /// `Path::strip_prefix`
  function StripPrefix(p: Path, base: Path): (r: Option<Path>)
    ensures r.Some? <==> StartsWith(p, base)
    ensures r.Some? ==> base + r.value == p
  {
    if base <= p then Some(p[|base|..]) else None
  }
}
