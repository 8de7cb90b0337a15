/**
 * utils/mdx.ts: article discovery for the pages-router site. Slugs end at `/index.mdx`, the
 * article source is read from a file map with a fallback from `<p>.mdx` to `<p>/index.mdx`,
 * and the frontmatter parser (gray-matter) is a parameter that may reject a malformed header.
 */
module Mdx {
  import opened Wrappers
  import opened Text
  import opened DirTree
  import opened StableSort

  /** A frontmatter value: `null`, a string, or anything else, kept with its `toString()`. */
  datatype Value = Null | Str(s: string) | Other(shown: string)

  /** A frontmatter object: its own keys and their values. */
  type Fields = map<string, Value>

  datatype PostMetadata = PostMetadata(frontmatter: Fields, slug: string)

  /** `frontmatter?.date?.toString()`: undefined for a missing key or `null`. */
  function DateText(f: Fields): Option<string> {
    if "date" !in f then None
    else match f["date"]
      case Null => None
      case Str(s) => Some(s)
      case Other(shown) => Some(shown)
  }

  /** `{ ...frontmatter, date: frontmatter?.date?.toString() || null }`. */
  function SerialiseFrontmatter(f: Fields): (r: Fields)
    ensures r.Keys == f.Keys + {"date"}
    ensures forall k :: k in f && k != "date" ==> r[k] == f[k]
    ensures r["date"] == (if DateText(f).Some? && DateText(f).value != "" then Str(DateText(f).value) else Null)
  {
    var t := DateText(f);
    f["date" := if t.Some? && t.value != "" then Str(t.value) else Null]
  }

  /** The shape every serialised frontmatter has: a `date` that is `null` or a non-empty string. */
  predicate IsSerialised(f: Fields) {
    "date" in f && (f["date"] == Null || (f["date"].Str? && f["date"].s != ""))
  }

  /** Serialising gives that shape, and a frontmatter already in that shape is left as it is. */
  lemma SerialiseFrontmatterSpec(f: Fields)
    ensures IsSerialised(SerialiseFrontmatter(f))
    ensures IsSerialised(f) ==> SerialiseFrontmatter(f) == f
  {
  }

  /** Serialising twice is serialising once. */
  lemma SerialiseFrontmatterIdempotent(f: Fields)
    ensures SerialiseFrontmatter(SerialiseFrontmatter(f)) == SerialiseFrontmatter(f)
  {
    SerialiseFrontmatterSpec(f);
    SerialiseFrontmatterSpec(SerialiseFrontmatter(f));
  }

  /** A missing, `null` or empty date becomes `null`; any other date becomes its string form. */
  lemma SerialisedDate(f: Fields)
    ensures SerialiseFrontmatter(f)["date"] == Null <==>
      "date" !in f || f["date"] == Null || f["date"] == Str("") || f["date"] == Other("")
    ensures "date" in f && f["date"].Str? && f["date"].s != "" ==> SerialiseFrontmatter(f)["date"] == f["date"]
  {
  }

  /** `path.join(a, b)` for a plain relative `b` (normalisation of `.` and `..` is not modelled). */
  function PathJoin(a: string, b: string): string {
    if EndsWith(a, "/") then a + b else a + "/" + b
  }

  /** The first file `getSourceOfFile` tries: `path.join(root, p) + ".mdx"`. */
  function FlatSourcePath(root: string, p: string): string {
    PathJoin(root, p) + ".mdx"
  }

  /** The fallback: `path.join(root, p, "index.mdx")`. */
  function IndexSourcePath(root: string, p: string): string {
    PathJoin(PathJoin(root, p), "index.mdx")
  }

  /** `getSourceOfFile([root, p])`: read the flat file, and when that throws, the directory's index. */
  function GetSourceOfFile(root: string, p: string, files: map<string, string>): (r: Result<string>)
    ensures r.Success? ==> r.value in files.Values
  {
    if FlatSourcePath(root, p) in files then Success(files[FlatSourcePath(root, p)])
    else if IndexSourcePath(root, p) in files then Success(files[IndexSourcePath(root, p)])
    else Failure("ENOENT: no such file or directory, open '" + IndexSourcePath(root, p) + "'")
  }

  /** Below a root ending in `/`, the two candidates for `<name>` are `<root><name>.mdx` and `<root><name>/index.mdx`. */
  lemma SourcePathsBelowRoot(root: string, name: string)
    requires EndsWith(root, "/") && name != "" && !EndsWith(name, "/")
    ensures FlatSourcePath(root, name) == root + name + ".mdx"
    ensures IndexSourcePath(root, name) == root + name + "/index.mdx"
  {
    assert (root + name)[|root + name| - 1..] == name[|name| - 1..];
  }

  /** The lookup prefers the flat file, falls back to the directory's index, and fails only when both are missing. */
  lemma GetSourceOfFileSpec(root: string, name: string, files: map<string, string>)
    requires EndsWith(root, "/") && name != "" && !EndsWith(name, "/")
    ensures root + name + ".mdx" in files ==> GetSourceOfFile(root, name, files) == Success(files[root + name + ".mdx"])
    ensures root + name + ".mdx" !in files && root + name + "/index.mdx" in files ==>
      GetSourceOfFile(root, name, files) == Success(files[root + name + "/index.mdx"])
    ensures GetSourceOfFile(root, name, files).Failure? <==>
      root + name + ".mdx" !in files && root + name + "/index.mdx" !in files
  {
    SourcePathsBelowRoot(root, name);
  }

  /** `relativePath.replace(/(\\/index)?\\.mdx?$/, "")`. */
  function StripIndexEntry(p: string): string {
    StripEntry(p, "/index")
  }

  /** The slug the walk derives from a path and hands on (utils/mdx.ts:28-29). */
  function WalkSlug(res: string, postsPath: string): string
    requires |postsPath| > 0
  {
    StripIndexEntry(LastPiece(res, postsPath))
  }

  /** The root ends in `/`, so `<root><name>/index.mdx` has slug `<name>`, with no leading `/`. */
  lemma WalkSlugOfIndexFile(root: string, name: string)
    requires |root| > 0 && !Contains(name + "/index.mdx", root)
    ensures WalkSlug(root + name + "/index.mdx", root) == name
  {
    assert root + name + "/index.mdx" == root + (name + "/index.mdx");
    LastPieceBelowRoot(root, name + "/index.mdx");
    assert name + "/index.mdx" == name + "/index" + ".mdx";
    StripEntryFile(name, "/index", ".mdx");
  }

  /** `<root><name>.mdx` has slug `<name>` when `<name>` does not end in `/index`. */
  lemma WalkSlugOfFlatFile(root: string, name: string)
    requires |root| > 0 && !Contains(name + ".mdx", root)
    requires !EndsWith(name, "/index")
    ensures WalkSlug(root + name + ".mdx", root) == name
  {
    assert root + name + ".mdx" == root + (name + ".mdx");
    LastPieceBelowRoot(root, name + ".mdx");
    StripEntryFlat(name, "/index", ".mdx");
  }

  /** `getMdxMetadata` derives the slug again from the slug it is given (utils/mdx.ts:38-39). */
  function RederivedSlug(slug: string, postsPath: string): string
    requires |postsPath| > 0
  {
    StripIndexEntry(LastPiece(slug, postsPath))
  }

  /** Re-deriving leaves a slug that holds no `POSTS_PATH` and no `.md`/`.mdx` ending unchanged. */
  lemma RederivedSlugUnchanged(slug: string, postsPath: string)
    requires |postsPath| > 0 && !Contains(slug, postsPath) && !IsMdx(slug)
    ensures RederivedSlug(slug, postsPath) == slug
  {
    LastPieceWhole(slug, postsPath);
    StripEntryOther(slug, "/index");
  }

  /** Whether `getMdxMetadata(slug)` throws: the source cannot be read, or gray-matter cannot parse its header. */
  predicate MetadataFails(slug: string, postsPath: string, files: map<string, string>, matter: string -> Result<Fields>) {
    var source := GetSourceOfFile(postsPath, slug, files);
    source.Failure? || matter(source.value).Failure?
  }

  /** `getMdxMetadata(slug)`: read the source (which may throw), parse its frontmatter (which may throw), serialise it. */
  function MdxMetadata(slug: string, postsPath: string, files: map<string, string>, matter: string -> Result<Fields>): (r: Result<PostMetadata>)
    requires |postsPath| > 0
    ensures r.Failure? <==> MetadataFails(slug, postsPath, files, matter)
    ensures GetSourceOfFile(postsPath, slug, files).Failure? ==> r.Failure?
    ensures r.Success? ==> IsSerialised(r.value.frontmatter) && r.value.slug == RederivedSlug(slug, postsPath)
    ensures r.Success? ==> r.value.frontmatter == SerialiseFrontmatter(matter(GetSourceOfFile(postsPath, slug, files).value).value)
  {
    var source := GetSourceOfFile(postsPath, slug, files);
    if source.Failure? then Failure(source.error)
    else
      var parsed := matter(source.value);
      if parsed.Failure? then Failure(parsed.error)
      else
        SerialiseFrontmatterSpec(parsed.value);
        Success(PostMetadata(SerialiseFrontmatter(parsed.value), RederivedSlug(slug, postsPath)))
  }

  /** What `getMdxMetadata` gives for each walked path, in walk order. */
  function Records(paths: seq<string>, postsPath: string, files: map<string, string>, matter: string -> Result<Fields>): (rs: seq<Result<PostMetadata>>)
    requires |postsPath| > 0
    ensures |rs| == |paths|
    ensures forall i :: 0 <= i < |paths| ==> rs[i] == MdxMetadata(WalkSlug(paths[i], postsPath), postsPath, files, matter)
  {
    seq(|paths|, i requires 0 <= i < |paths| => MdxMetadata(WalkSlug(paths[i], postsPath), postsPath, files, matter))
  }

  /** The records of the walked paths, in order; the first unreadable source rejects the whole walk. */
  function Collect(paths: seq<string>, postsPath: string, files: map<string, string>, matter: string -> Result<Fields>): Result<seq<PostMetadata>>
    requires |postsPath| > 0
  {
    Sequence(Records(paths, postsPath, files, matter))
  }

  /** The walk fails exactly when some walked file's source cannot be read or its header cannot be parsed. */
  lemma CollectFailure(paths: seq<string>, postsPath: string, files: map<string, string>, matter: string -> Result<Fields>)
    requires |postsPath| > 0
    ensures Collect(paths, postsPath, files, matter).Failure? <==>
      exists i :: 0 <= i < |paths| && MetadataFails(WalkSlug(paths[i], postsPath), postsPath, files, matter)
  {
    var rs := Records(paths, postsPath, files, matter);
    SequenceFailure(rs);
    assert forall i :: 0 <= i < |paths| ==>
      (rs[i].Failure? <==> MetadataFails(WalkSlug(paths[i], postsPath), postsPath, files, matter));
  }

  /** A walk that succeeds has one serialised record per walked file, in walk order. */
  lemma CollectSuccess(paths: seq<string>, postsPath: string, files: map<string, string>, matter: string -> Result<Fields>)
    requires |postsPath| > 0
    requires Collect(paths, postsPath, files, matter).Success?
    ensures var posts := Collect(paths, postsPath, files, matter).value;
      && |posts| == |paths|
      && forall i :: 0 <= i < |paths| ==>
           Success(posts[i]) == MdxMetadata(WalkSlug(paths[i], postsPath), postsPath, files, matter)
  {
    SequenceSuccess(Records(paths, postsPath, files, matter));
  }

  /** The timestamp the comparator reads: `new Date(frontmatter.date).getTime()`, where `new Date(null)` is 0. */
  function DateKey(ts: string -> int): PostMetadata -> int {
    (p: PostMetadata) => if "date" in p.frontmatter && p.frontmatter["date"].Str? then ts(p.frontmatter["date"].s) else 0
  }

  /** `getAllPosts`: the collected records, sorted newest first. */
  function AllPosts(postsPath: string, tree: seq<Entry>, files: map<string, string>, matter: string -> Result<Fields>, ts: string -> int): Result<seq<PostMetadata>>
    requires |postsPath| > 0
  {
    var c := Collect(MdxPaths(postsPath, tree), postsPath, files, matter);
    if c.Failure? then Failure(c.error) else Success(SortDesc(c.value, DateKey(ts)))
  }

  /** The listing fails exactly when a walked file's source is unreadable or its header unparsable. */
  lemma AllPostsFailure(postsPath: string, tree: seq<Entry>, files: map<string, string>, matter: string -> Result<Fields>, ts: string -> int)
    requires |postsPath| > 0
    ensures var paths := MdxPaths(postsPath, tree);
      AllPosts(postsPath, tree, files, matter, ts).Failure? <==>
        exists i :: 0 <= i < |paths| && MetadataFails(WalkSlug(paths[i], postsPath), postsPath, files, matter)
  {
    var paths := MdxPaths(postsPath, tree);
    assert AllPosts(postsPath, tree, files, matter, ts).Failure? <==> Collect(paths, postsPath, files, matter).Failure?;
    CollectFailure(paths, postsPath, files, matter);
  }

  /** A successful listing is a stable newest-first sort of every walked record. */
  lemma AllPostsSorted(postsPath: string, tree: seq<Entry>, files: map<string, string>, matter: string -> Result<Fields>, ts: string -> int)
    requires |postsPath| > 0
    requires AllPosts(postsPath, tree, files, matter, ts).Success?
    ensures IsStableSortDesc(Collect(MdxPaths(postsPath, tree), postsPath, files, matter).value,
      AllPosts(postsPath, tree, files, matter, ts).value, DateKey(ts))
  {
    SortDescIsStableSort(Collect(MdxPaths(postsPath, tree), postsPath, files, matter).value, DateKey(ts));
  }

  /** Every listed record carries a serialised frontmatter. */
  lemma AllPostsSerialised(postsPath: string, tree: seq<Entry>, files: map<string, string>, matter: string -> Result<Fields>, ts: string -> int)
    requires |postsPath| > 0
    ensures var r := AllPosts(postsPath, tree, files, matter, ts);
      r.Success? ==> forall p :: p in r.value ==> IsSerialised(p.frontmatter)
  {
    var paths := MdxPaths(postsPath, tree);
    var c := Collect(paths, postsPath, files, matter);
    if c.Success? {
      CollectSuccess(paths, postsPath, files, matter);
      var sorted := SortDesc(c.value, DateKey(ts));
      SortDescPermutation(c.value, DateKey(ts));
      forall p | p in sorted ensures IsSerialised(p.frontmatter) {
        assert p in multiset(c.value) by {
          assert p in multiset(sorted);
        }
        var i :| 0 <= i < |c.value| && c.value[i] == p;
        var m := MdxMetadata(WalkSlug(paths[i], postsPath), postsPath, files, matter);
        assert Success(p) == m;
      }
    }
  }

  /** `getAllPosts` as written: walk, push each record (the first failed read rejects), then sort. */
  method GetAllPosts(postsPath: string, tree: seq<Entry>, files: map<string, string>, matter: string -> Result<Fields>, ts: string -> int)
    returns (r: Result<seq<PostMetadata>>)
    requires |postsPath| > 0
    ensures r == AllPosts(postsPath, tree, files, matter, ts)
  {
    var paths := Walk(postsPath, tree);
    ghost var rs := Records(paths, postsPath, files, matter);
    var posts: seq<PostMetadata> := [];
    for i := 0 to |paths|
      invariant Sequence(rs[..i]) == Success(posts)
    {
      SequenceStep(rs, i);
      var post := MdxMetadata(WalkSlug(paths[i], postsPath), postsPath, files, matter);
      if post.Failure? {
        SequenceFailurePersists(rs, i + 1);
        return Failure(post.error);
      }
      posts := posts + [post.value];
    }
    assert rs[..|paths|] == rs;
    r := Success(SortDesc(posts, DateKey(ts)));
  }
}
