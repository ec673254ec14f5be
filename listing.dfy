/** The directory page of `get_dir_content`: a link to the parent unless
    the directory is the root `.`, then the subdirectories, then the files
    with their sizes, each group sorted by lower-cased name. The HTML around
    the links and `convert_size` are not modelled. */
module Listing {
  import opened Basics
  import opened PyStr
  import opened Files

  /** Python's `<=` on strings: code points compared in order, a proper
      prefix coming first. */
  predicate LexLeq(a: string, b: string)
    decreases |a|
  {
    a == [] || (b != [] && (a[0] < b[0] || (a[0] == b[0] && LexLeq(a[1..], b[1..]))))
  }

  lemma {:induction false} LexTotal(a: string, b: string)
    ensures LexLeq(a, b) || LexLeq(b, a)
    decreases |a|
  {
    if a != [] && b != [] && a[0] == b[0] {
      LexTotal(a[1..], b[1..]);
    }
  }

  lemma {:induction false} LexTrans(a: string, b: string, c: string)
    requires LexLeq(a, b) && LexLeq(b, c)
    ensures LexLeq(a, c)
    decreases |a|
  {
    if a != [] && a[0] == b[0] && b[0] == c[0] {
      LexTrans(a[1..], b[1..], c[1..]);
    }
  }

  /** The sort key `s.lower()`. */
  predicate KeyLeq(x: string, y: string)
  {
    LexLeq(Lower(x), Lower(y))
  }

  /** Each name's key is at most the next one's. */
  predicate Sorted(xs: seq<string>)
  {
    forall i :: 0 <= i < |xs| - 1 ==> KeyLeq(xs[i], xs[i + 1])
  }

  /** `x` placed before the first element whose key is not below its own. */
  function Insert(x: string, xs: seq<string>): (r: seq<string>)
    ensures |r| == |xs| + 1
    ensures multiset(r) == multiset(xs) + multiset{x}
    ensures r[0] == x || (xs != [] && r[0] == xs[0])
  {
    if xs == [] then [x]
    else if KeyLeq(x, xs[0]) then [x] + xs
    else
      assert xs == [xs[0]] + xs[1..];
      [xs[0]] + Insert(x, xs[1..])
  }

  /** `names.sort(key=lambda s: s.lower())`, as a stable insertion sort:
      the result holds the same names. */
  function SortByLower(xs: seq<string>): (r: seq<string>)
    ensures multiset(r) == multiset(xs)
    decreases |xs|
  {
    if xs == [] then []
    else
      assert xs == [xs[0]] + xs[1..];
      Insert(xs[0], SortByLower(xs[1..]))
  }

  lemma {:induction false} InsertSorted(x: string, xs: seq<string>)
    requires Sorted(xs)
    ensures Sorted(Insert(x, xs))
    decreases |xs|
  {
    if xs != [] && !KeyLeq(x, xs[0]) {
      InsertSorted(x, xs[1..]);
      LexTotal(Lower(x), Lower(xs[0]));
      var r := Insert(x, xs);
      assert r[1..] == Insert(x, xs[1..]);
    }
  }

  /** The sort orders the names by key, and keeps exactly the names it
      was given. */
  lemma {:induction false} SortByLowerSpec(xs: seq<string>)
    ensures Sorted(SortByLower(xs))
    ensures multiset(SortByLower(xs)) == multiset(xs)
    decreases |xs|
  {
    if xs != [] {
      SortByLowerSpec(xs[1..]);
      InsertSorted(xs[0], SortByLower(xs[1..]));
    }
  }

  /** The names of `xs` whose key is `k`, in their order. */
  function WithKey(xs: seq<string>, k: string): seq<string>
    decreases |xs|
  {
    if xs == [] then [] else (if Lower(xs[0]) == k then [xs[0]] else []) + WithKey(xs[1..], k)
  }

  lemma {:induction false} LexRefl(a: string)
    ensures LexLeq(a, a)
    decreases |a|
  {
    if a != [] {
      LexRefl(a[1..]);
    }
  }

  /** `Insert` passes over names with another key only, so it puts `x`
      in front of every name with its key. */
  lemma {:induction false} InsertWithKey(x: string, xs: seq<string>, k: string)
    ensures WithKey(Insert(x, xs), k) == if Lower(x) == k then [x] + WithKey(xs, k) else WithKey(xs, k)
    decreases |xs|
  {
    if xs == [] {
      WithKeyCons(x, [], k);
    } else if KeyLeq(x, xs[0]) {
      WithKeyCons(x, xs, k);
    } else {
      LexRefl(Lower(x));
      InsertWithKey(x, xs[1..], k);
      WithKeyCons(xs[0], Insert(x, xs[1..]), k);
      WithKeyCons(xs[0], xs[1..], k);
      ConsSplit(xs);
    }
  }

  lemma WithKeyCons(h: string, t: seq<string>, k: string)
    ensures WithKey([h] + t, k) == (if Lower(h) == k then [h] else []) + WithKey(t, k)
  {
    ConsTail(h, t);
  }

  /** The sort is stable: the names that share a key keep the order they
      had. */
  lemma {:induction false} SortStable(xs: seq<string>, k: string)
    ensures WithKey(SortByLower(xs), k) == WithKey(xs, k)
    decreases |xs|
  {
    if xs != [] {
      SortStable(xs[1..], k);
      InsertWithKey(xs[0], SortByLower(xs[1..]), k);
    }
  }

  lemma {:induction false} SortedPair(xs: seq<string>, i: nat, j: nat)
    requires Sorted(xs) && i < j < |xs|
    ensures KeyLeq(xs[i], xs[j])
    decreases j - i
  {
    if j > i + 1 {
      SortedPair(xs, i, j - 1);
      LexTrans(Lower(xs[i]), Lower(xs[j - 1]), Lower(xs[j]));
    }
  }

  /** In a sorted list every name's key is at most every later one's. */
  lemma SortedPairs(xs: seq<string>)
    requires Sorted(xs)
    ensures forall i, j :: 0 <= i < j < |xs| ==> KeyLeq(xs[i], xs[j])
  {
    forall i, j | 0 <= i < j < |xs|
      ensures KeyLeq(xs[i], xs[j])
    {
      SortedPair(xs, i, j);
    }
  }

  /** The entries of `names` that are files (`files` true) or are not
      (`files` false) inside `direc`, in their order. */
  function Pick(fs: Tree, direc: string, names: seq<string>, files: bool): seq<string>
    decreases |names|
  {
    if names == [] then []
    else
      var last := names[|names| - 1];
      Pick(fs, direc, names[..|names| - 1], files)
      + (if IsFile(fs, PathJoin(direc, last)) == files then [last] else [])
  }

  /** Every entry goes to exactly one of the two lists: files to the
      files, everything else (directories, and names that are neither) to
      the subdirectories. */
  lemma {:induction false} PickSpec(fs: Tree, direc: string, names: seq<string>)
    ensures multiset(Pick(fs, direc, names, false)) + multiset(Pick(fs, direc, names, true)) == multiset(names)
    ensures forall x :: x in Pick(fs, direc, names, true) ==> IsFile(fs, PathJoin(direc, x))
    ensures forall x :: x in Pick(fs, direc, names, false) ==> !IsFile(fs, PathJoin(direc, x))
  {
    PickCount(fs, direc, names);
    PickKind(fs, direc, names, true);
    PickKind(fs, direc, names, false);
  }

  lemma {:induction false} PickCount(fs: Tree, direc: string, names: seq<string>)
    ensures multiset(Pick(fs, direc, names, false)) + multiset(Pick(fs, direc, names, true)) == multiset(names)
    decreases |names|
  {
    if names != [] {
      var init, last := names[..|names| - 1], names[|names| - 1];
      PickCount(fs, direc, init);
      assert names == init + [last];
    }
  }

  lemma {:induction false} PickKind(fs: Tree, direc: string, names: seq<string>, files: bool)
    ensures forall x :: x in Pick(fs, direc, names, files) ==> IsFile(fs, PathJoin(direc, x)) == files
    decreases |names|
  {
    if names != [] {
      PickKind(fs, direc, names[..|names| - 1], files);
    }
  }

  /** The `for sub in os.listdir(path)` loop of `get_dir_content`, which
      appends each entry to `subfiles` or to `subdirs`. */
  method Partition(fs: Tree, direc: string, names: seq<string>) returns (subdirs: seq<string>, subfiles: seq<string>)
    ensures subdirs == Pick(fs, direc, names, false)
    ensures subfiles == Pick(fs, direc, names, true)
  {
    subdirs, subfiles := [], [];
    var i := 0;
    while i < |names|
      invariant 0 <= i <= |names|
      invariant subdirs == Pick(fs, direc, names[..i], false)
      invariant subfiles == Pick(fs, direc, names[..i], true)
    {
      assert names[..i + 1][..i] == names[..i];
      if IsFile(fs, PathJoin(direc, names[i])) {
        subfiles := subfiles + [names[i]];
      } else {
        subdirs := subdirs + [names[i]];
      }
      i := i + 1;
    }
    assert names[..i] == names;
  }

  /** `os.path.getsize(path)` of a file. */
  function SizeOf(fs: Tree, path: string): nat
  {
    if IsFile(fs, path) then |fs[path].bytes| else 0
  }

  /** The links of a directory page. */
  datatype Listing = Listing(parent: bool, dirs: seq<string>, files: seq<(string, nat)>)

  function Names(entries: seq<(string, nat)>): (r: seq<string>)
    ensures |r| == |entries| && forall k :: 0 <= k < |r| ==> r[k] == entries[k].0
  {
    seq(|entries|, k requires 0 <= k < |entries| => entries[k].0)
  }

  /** Each file name with its size. */
  function Sized(fs: Tree, direc: string, names: seq<string>): (r: seq<(string, nat)>)
    ensures |r| == |names|
    ensures forall k :: 0 <= k < |r| ==> r[k] == (names[k], SizeOf(fs, PathJoin(direc, names[k])))
    decreases |names|
  {
    if names == [] then []
    else
      var last := names[|names| - 1];
      Sized(fs, direc, names[..|names| - 1]) + [(last, SizeOf(fs, PathJoin(direc, last)))]
  }

  /** The page `get_dir_content(direc)` lists. */
  function ListingOf(fs: Tree, direc: string): Listing
    requires IsDir(fs, direc)
  {
    var names := fs[direc].names;
    Listing(direc != ".", SortByLower(Pick(fs, direc, names, false)),
      Sized(fs, direc, SortByLower(Pick(fs, direc, names, true))))
  }

  /** `get_dir_content(direc)`: the partition, the two sorts, then the
      loop over the files that looks up each size. */
  method GetDirContent(fs: Tree, direc: string) returns (l: Listing)
    requires IsDir(fs, direc)
    ensures l == ListingOf(fs, direc)
  {
    var subdirs, subfiles := Partition(fs, direc, fs[direc].names);
    subdirs := SortByLower(subdirs);
    subfiles := SortByLower(subfiles);
    var files: seq<(string, nat)> := [];
    var i := 0;
    while i < |subfiles|
      invariant 0 <= i <= |subfiles|
      invariant files == Sized(fs, direc, subfiles[..i])
    {
      assert subfiles[..i + 1][..i] == subfiles[..i];
      files := files + [(subfiles[i], SizeOf(fs, PathJoin(direc, subfiles[i])))];
      i := i + 1;
    }
    assert subfiles[..i] == subfiles;
    l := Listing(direc != ".", subdirs, files);
  }

  /** A directory page: the parent link exactly when the directory is not
      `.`; the subdirectories, then the files, each group sorted by key;
      between them every entry of the directory, each once; every file
      entry is a file of the directory and shows that file's size, and no
      subdirectory entry is a file. */
  lemma ListingSpec(fs: Tree, direc: string)
    requires IsDir(fs, direc)
    ensures ListingOf(fs, direc).parent <==> direc != "."
    ensures Sorted(ListingOf(fs, direc).dirs) && Sorted(Names(ListingOf(fs, direc).files))
    ensures multiset(ListingOf(fs, direc).dirs) + multiset(Names(ListingOf(fs, direc).files))
      == multiset(fs[direc].names)
    ensures forall x :: x in ListingOf(fs, direc).dirs ==> !IsFile(fs, PathJoin(direc, x))
    ensures forall k :: 0 <= k < |ListingOf(fs, direc).files| ==>
      var name := ListingOf(fs, direc).files[k].0;
      IsFile(fs, PathJoin(direc, name)) && ListingOf(fs, direc).files[k].1 == |fs[PathJoin(direc, name)].bytes|
  {
    var names := fs[direc].names;
    var dirs, files := Pick(fs, direc, names, false), Pick(fs, direc, names, true);
    var l := ListingOf(fs, direc);
    PickSpec(fs, direc, names);
    SortByLowerSpec(dirs);
    SortByLowerSpec(files);
    assert Names(l.files) == SortByLower(files);
    forall x | x in l.dirs
      ensures !IsFile(fs, PathJoin(direc, x))
    {
      assert x in multiset(SortByLower(dirs));
    }
    forall k | 0 <= k < |l.files|
      ensures IsFile(fs, PathJoin(direc, l.files[k].0))
    {
      assert l.files[k].0 == SortByLower(files)[k];
      assert l.files[k].0 in multiset(SortByLower(files));
    }
  }

  /** Subdirectories, and files, whose lower-cased names tie are listed in
      the order `os.listdir` gave them. */
  lemma ListingStable(fs: Tree, direc: string, k: string)
    requires IsDir(fs, direc)
    ensures WithKey(ListingOf(fs, direc).dirs, k) == WithKey(Pick(fs, direc, fs[direc].names, false), k)
    ensures WithKey(Names(ListingOf(fs, direc).files), k) == WithKey(Pick(fs, direc, fs[direc].names, true), k)
  {
    var names := fs[direc].names;
    SortStable(Pick(fs, direc, names, false), k);
    SortStable(Pick(fs, direc, names, true), k);
    assert Names(ListingOf(fs, direc).files) == SortByLower(Pick(fs, direc, names, true));
  }
}
