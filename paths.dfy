/** The part of `pathlib` the core uses: a path is the sequence of its
    components (`PurePath.parts`), `/` appends one component, and `name`,
    `stem`, `parent` and `str()` read it back. */
module Paths {
  import opened Strings

  /** A path by its components. An absolute path starts with the component
      "/"; the empty sequence is the current directory ".". */
  datatype Path = Path(parts: seq<string>)

  /** `path / name` for a name that is a single component: the name and the
      parent of the result are `name` and `p` again. */
  function Div(p: Path, name: string): (r: Path)
    ensures |r.parts| == |p.parts| + 1
    ensures name != "/" ==> Name(r) == name && Parent(r) == p
  {
    var r := Path(p.parts + [name]);
    assert r.parts[..|p.parts|] == p.parts;
    r
  }

  /** `path.name`: the final component, or "" for "." and for the root. */
  function Name(p: Path): string {
    if p.parts == [] || p.parts == ["/"] then "" else p.parts[|p.parts| - 1]
  }

  /** `path.parent`: the path without its final component. */
  function Parent(p: Path): Path {
    if p.parts == [] || p.parts == ["/"] then p else Path(p.parts[..|p.parts| - 1])
  }

  /** `path.stem`: the name without its last suffix. A dot that starts the
      name or ends it does not begin a suffix (CPython 3.12 rule). */
  function Stem(p: Path): (stem: string)
    ensures |stem| <= |Name(p)| && stem == Name(p)[..|stem|]
    ensures stem != Name(p) ==>
              0 < |stem| < |Name(p)| - 1 && Name(p)[|stem|] == '.' && '.' !in Name(p)[|stem| + 1..]
  {
    var name := Name(p);
    var i := RFindChar(name, '.');
    if 0 < i < |name| - 1 then name[..i] else name
  }

  /** `str(path)`. */
  function ToString(p: Path): (s: string)
    ensures p.parts == [] ==> s == "."
    ensures p.parts != [] && p.parts[0] == "/" ==> s != [] && s[0] == '/'
  {
    if p.parts == [] then "."
    else if p.parts[0] == "/" then "/" + Join(p.parts[1..], "/")
    else Join(p.parts, "/")
  }

  /** A relative path whose components hold no "/" is read back from its
      string by splitting at "/"; an absolute one, after the empty piece
      before its leading "/". */
  lemma ToStringSplitsBack(p: Path)
    requires p.parts != []
    requires forall k :: 0 <= k < |p.parts| ==> '/' !in p.parts[k] || (k == 0 && p.parts[k] == "/")
    requires p.parts[0] == "/" ==> |p.parts| >= 2
    ensures p.parts[0] != "/" ==> Split(ToString(p), '/') == p.parts
    ensures p.parts[0] == "/" ==> Split(ToString(p), '/') == [""] + p.parts[1..]
  {
    if p.parts[0] == "/" {
      var rest := p.parts[1..];
      assert forall k :: 0 <= k < |rest| ==> rest[k] == p.parts[k + 1];
      SplitJoin(rest, '/');
      SplitAtFirst("", Join(rest, "/"), '/');
      assert "" + ['/'] + Join(rest, "/") == ToString(p);
    } else {
      SplitJoin(p.parts, '/');
    }
  }

  /** The stem of `dir / (base + ".pdf")` is `base`, whenever `base` is not
      empty, whatever dots `base` itself holds. */
  lemma StemOfPdfFile(dir: Path, base: string)
    requires base != ""
    ensures Stem(Div(dir, base + ".pdf")) == base
  {
    var name := base + ".pdf";
    assert name[|base|] == '.';
    assert name[|base| + 1..] == "pdf";
    RFindCharIsLast(name, '.', |base|);
    assert name[..|base|] == base;
  }
}
