/** Absolute paths as sequences of segments ([] is "/"), and the few
    operations of Go's path package the browser relies on. */
module Paths {

  /** The segments of an absolute path; the empty sequence is "/". */
  type Path = seq<string>

  /** path.Join(p, name) for a single-segment name: an empty name adds
      nothing, any other name becomes the last segment. */
  function Join(p: Path, name: string): Path
  {
    if name == "" then p else p + [name]
  }

  /** Joining a name extends the path by at most one segment: by exactly
      one, the name, when the name is not empty. */
  lemma JoinExtends(p: Path, name: string)
    ensures p <= Join(p, name) && |Join(p, name)| <= |p| + 1
    ensures |Join(p, name)| == |p| + 1 <==> name != ""
    ensures |Join(p, name)| == |p| + 1 ==> Join(p, name)[|p|] == name
  {
  }

  /** path.Join of several one-segment names, left to right. */
  function JoinAll(p: Path, names: seq<string>): (r: Path)
    ensures |r| <= |p| + |names|
    ensures (forall k :: 0 <= k < |names| ==> names[k] != "") ==> r == p + names
  {
    if names == [] then p else Join(JoinAll(p, names[..|names| - 1]), names[|names| - 1])
  }

  /** path.Clean(p + "/../"): drop the last segment; "/" is its own parent. */
  function Parent(p: Path): (r: Path)
    ensures p == [] ==> r == []
    ensures p != [] ==> r + [p[|p| - 1]] == p
  {
    if p == [] then [] else p[..|p| - 1]
  }
}
