/** The part of the file system the server looks at: each path, spelt as
    the server builds it from the request, names a file or a directory. */
module Files {
  import opened Basics

  /** A file holds its bytes and the `Content-Type` line `check_filetype`
      derives for it (empty when the type is unknown); a directory holds
      its entry names in the order `os.listdir` gives them. */
  datatype Node = File(bytes: seq<byte>, ctype: seq<byte>) | Dir(names: seq<string>)

  type Tree = map<string, Node>

  /** `os.path.isfile(path)`. */
  predicate IsFile(fs: Tree, path: string)
  {
    path in fs && fs[path].File?
  }

  /** `os.path.isdir(path)`. */
  predicate IsDir(fs: Tree, path: string)
  {
    path in fs && fs[path].Dir?
  }

  /** `os.path.join(path, name)` on POSIX: an absolute `name` replaces
      `path`; otherwise a `/` is put between them unless `path` is empty or
      already ends with one. */
  function PathJoin(path: string, name: string): (r: string)
    ensures name != [] && name[0] == '/' ==> r == name
    ensures (name == [] || name[0] != '/') ==> |path| <= |r| && r[..|path|] == path
  {
    if name != [] && name[0] == '/' then name
    else if path == [] || path[|path| - 1] == '/' then path + name
    else path + "/" + name
  }

  /** `os.listdir` gives names, none of them empty or holding a `/`. */
  predicate EntryName(name: string)
  {
    name != [] && '/' !in name
  }

  /** Every directory lists proper entry names. */
  predicate Listed(fs: Tree)
  {
    forall p :: p in fs && fs[p].Dir? ==> forall x :: x in fs[p].names ==> EntryName(x)
  }
}
