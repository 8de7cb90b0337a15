/**
 * The recursive directory walk `getMdxFiles`, written identically in lib/posts.ts and
 * utils/mdx.ts: it lists a directory, descends into subdirectories in listing order and
 * yields every file whose resolved path ends in `.md` or `.mdx`. The file system is an
 * in-memory tree.
 */
module DirTree {
  import opened Text

  /** A directory entry as `readdir(dir, { withFileTypes: true })` lists it. */
  datatype Entry = File(name: string) | Dir(name: string, children: seq<Entry>)

  /** `path.resolve(dir, name)` for an absolute directory and a plain entry name. */
  function Resolve(dir: string, name: string): string {
    if EndsWith(dir, "/") then dir + name else dir + "/" + name
  }

  /** The test `/\.mdx?$/.test(path)`. */
  predicate IsMdx(p: string) {
    EndsWith(p, ".md") || EndsWith(p, ".mdx")
  }

  /** The endings an entry-file regex `/(<entry>)?\.mdx?$/` matches: `/page` in lib/posts.ts, `/index` in utils/mdx.ts. */
  function EntryEndings(entry: string): set<string> {
    {entry + ".mdx", entry + ".md", ".mdx", ".md"}
  }

  /** `p.replace(/(<entry>)?\.mdx?$/, "")`: the match starts at the leftmost position whose suffix is an ending. */
  function StripEntry(p: string, entry: string): string {
    CutLeftmostSuffix(p, EntryEndings(entry), 0)
  }

  /** A trailing `<entry>.mdx` or `<entry>.md` is stripped whole. */
  lemma StripEntryFile(p: string, entry: string, ext: string)
    requires ext == ".mdx" || ext == ".md"
    ensures StripEntry(p + entry + ext, entry) == p
  {
    var s := p + entry + ext;
    assert s[|p|..] == entry + ext;
    forall j: nat | j < |p| ensures s[j..] !in EntryEndings(entry) {
      assert |s[j..]| > |entry| + |ext|;
      assert s[j..][|s[j..]| - 1] == s[|s| - 1] == ext[|ext| - 1];
    }
    CutAt(s, EntryEndings(entry), 0, |p|);
    assert s[..|p|] == p;
  }

  /** A trailing `.mdx` or `.md` alone is stripped when it does not follow `<entry>`. */
  lemma StripEntryFlat(p: string, entry: string, ext: string)
    requires ext == ".mdx" || ext == ".md"
    requires !EndsWith(p, entry)
    ensures StripEntry(p + ext, entry) == p
  {
    var s := p + ext;
    assert s[|p|..] == ext;
    forall j: nat | j < |p| ensures s[j..] !in EntryEndings(entry) {
      assert s[j..][|s[j..]| - 1] == s[|s| - 1] == ext[|ext| - 1];
      if |s[j..]| == |entry| + |ext| {
        assert s[j..j + |entry|] == p[|p| - |entry|..];
      }
    }
    CutAt(s, EntryEndings(entry), 0, |p|);
    assert s[..|p|] == p;
  }

  /** A path that does not end in `.md` or `.mdx` is left as it is. */
  lemma StripEntryOther(p: string, entry: string)
    requires !IsMdx(p)
    ensures StripEntry(p, entry) == p
  {
    CutNone(p, EntryEndings(entry), 0);
  }

  /** Every file below `dir`, depth first in listing order: the reference the walk is checked against. */
  function FilePaths(dir: string, entries: seq<Entry>): seq<string>
    decreases entries
  {
    if entries == [] then []
    else
      (match entries[0]
       case File(n) => [Resolve(dir, n)]
       case Dir(n, cs) => FilePaths(Resolve(dir, n), cs))
      + FilePaths(dir, entries[1..])
  }

  /** The paths the generator yields, in the order it yields them. */
  function MdxPaths(dir: string, entries: seq<Entry>): seq<string>
    decreases entries
  {
    if entries == [] then []
    else
      (match entries[0]
       case File(n) => if IsMdx(Resolve(dir, n)) then [Resolve(dir, n)] else []
       case Dir(n, cs) => MdxPaths(Resolve(dir, n), cs))
      + MdxPaths(dir, entries[1..])
  }

  /** The `.md`/`.mdx` paths of `ps`, in order. */
  function FilterMdx(ps: seq<string>): seq<string> {
    if ps == [] then [] else (if IsMdx(ps[0]) then [ps[0]] else []) + FilterMdx(ps[1..])
  }

  lemma {:induction false} FilterMdxAppend(a: seq<string>, b: seq<string>)
    ensures FilterMdx(a + b) == FilterMdx(a) + FilterMdx(b)
  {
    if a == [] {
      assert a + b == b;
    } else {
      var head := if IsMdx(a[0]) then [a[0]] else [];
      assert (a + b)[0] == a[0];
      assert (a + b)[1..] == a[1..] + b;
      assert FilterMdx(a + b) == head + FilterMdx(a[1..] + b);
      FilterMdxAppend(a[1..], b);
      assert FilterMdx(a) == head + FilterMdx(a[1..]);
    }
  }

  lemma {:induction false} FilterMdxMembers(ps: seq<string>, p: string)
    ensures p in FilterMdx(ps) <==> p in ps && IsMdx(p)
  {
    if ps != [] {
      FilterMdxMembers(ps[1..], p);
      assert ps == [ps[0]] + ps[1..];
    }
  }

  /** The walk yields exactly the `.md`/`.mdx` files of the tree, in depth-first listing order. */
  lemma {:induction false} MdxPathsAreFilteredFiles(dir: string, entries: seq<Entry>)
    decreases entries
    ensures MdxPaths(dir, entries) == FilterMdx(FilePaths(dir, entries))
  {
    if entries != [] {
      MdxPathsAreFilteredFiles(dir, entries[1..]);
      match entries[0]
      case File(n) =>
        FilterMdxAppend([Resolve(dir, n)], FilePaths(dir, entries[1..]));
      case Dir(n, cs) =>
        MdxPathsAreFilteredFiles(Resolve(dir, n), cs);
        FilterMdxAppend(FilePaths(Resolve(dir, n), cs), FilePaths(dir, entries[1..]));
    }
  }

  /** A path is yielded if and only if it is a file of the tree whose name ends in `.md` or `.mdx`. */
  lemma MdxPathsMembership(dir: string, entries: seq<Entry>, p: string)
    ensures p in MdxPaths(dir, entries) <==> p in FilePaths(dir, entries) && IsMdx(p)
  {
    MdxPathsAreFilteredFiles(dir, entries);
    FilterMdxMembers(FilePaths(dir, entries), p);
  }

  /** Listing `a` and then `b`: everything below `a` (subdirectories included) comes first. */
  lemma {:induction false} MdxPathsAppend(dir: string, a: seq<Entry>, b: seq<Entry>)
    ensures MdxPaths(dir, a + b) == MdxPaths(dir, a) + MdxPaths(dir, b)
  {
    if a == [] {
      assert a + b == b;
    } else {
      assert (a + b)[0] == a[0];
      assert (a + b)[1..] == a[1..] + b;
      MdxPathsAppend(dir, a[1..], b);
    }
  }

  /** A listing of one file yields that file's path when it is `.md`/`.mdx`, else nothing. */
  lemma MdxPathsOfFile(dir: string, n: string)
    ensures MdxPaths(dir, [File(n)]) == if IsMdx(Resolve(dir, n)) then [Resolve(dir, n)] else []
  {
    assert [File(n)][1..] == [];
  }

  /** A listing of one directory yields what the walk below it yields. */
  lemma MdxPathsOfDir(dir: string, n: string, cs: seq<Entry>)
    ensures MdxPaths(dir, [Dir(n, cs)]) == MdxPaths(Resolve(dir, n), cs)
  {
    assert [Dir(n, cs)][1..] == [];
  }

  /** Listing one more entry adds what that entry yields. */
  lemma MdxPathsSnoc(dir: string, entries: seq<Entry>, i: nat)
    requires i < |entries|
    ensures var res := Resolve(dir, entries[i].name);
      MdxPaths(dir, entries[..i + 1]) == MdxPaths(dir, entries[..i]) +
        if entries[i].Dir? then MdxPaths(res, entries[i].children)
        else if IsMdx(res) then [res] else []
  {
    MdxPathsAppend(dir, entries[..i], [entries[i]]);
    assert entries[..i + 1] == entries[..i] + [entries[i]];
    match entries[i]
    case File(n) => MdxPathsOfFile(dir, n);
    case Dir(n, cs) => MdxPathsOfDir(dir, n, cs);
  }

  /** The generator as a loop over the listing with a recursive descent into directories. */
  method Walk(dir: string, entries: seq<Entry>) returns (paths: seq<string>)
    decreases entries
    ensures paths == MdxPaths(dir, entries)
  {
    paths := [];
    for i := 0 to |entries|
      invariant paths == MdxPaths(dir, entries[..i])
    {
      MdxPathsSnoc(dir, entries, i);
      var res := Resolve(dir, entries[i].name);
      if entries[i].Dir? {
        var sub := Walk(res, entries[i].children);
        paths := paths + sub;
      } else if IsMdx(res) {
        paths := paths + [res];
      }
    }
    assert entries[..|entries|] == entries;
  }
}
