/**
 * lib/posts.ts: article discovery for the app-router site. Each walked file gets a slug from
 * its path and its metadata from the `metadata` export of `../content/posts/<slug>/page.mdx`;
 * the dynamic `import()` is a map from module path to exported metadata.
 */
module PostsLib {
  import opened Wrappers
  import opened Text
  import opened DirTree
  import opened StableSort

  datatype PostMeta = PostMeta(title: string, date: string, description: Option<string>)

  /** A walked article; `meta` is absent when its metadata module failed to load. */
  datatype PostMetadata = PostMetadata(meta: Option<PostMeta>, slug: string)

  /** `relativePath.replace(/(\/page)?\.mdx?$/, "")`. */
  function StripPageEntry(p: string): string {
    StripEntry(p, "/page")
  }

  /** `fileName.split(POSTS_PATH).pop()`; the `?? ""` fallback never applies, as `split` returns at least one piece. */
  function RelativePath(fileName: string, postsPath: string): string
    requires |postsPath| > 0
  {
    LastPiece(fileName, postsPath)
  }

  /** The slug of `getMdxMetadata`: strip the entry suffix, then remove the first `/` only. */
  function Slug(fileName: string, postsPath: string): string
    requires |postsPath| > 0
  {
    RemoveFirst(StripPageEntry(RelativePath(fileName, postsPath)), '/')
  }

  /** `<root>/<name>/page.mdx` has slug `<name>`. */
  lemma SlugOfPageFile(root: string, name: string)
    requires |root| > 0 && !Contains("/" + name + "/page.mdx", root)
    ensures Slug(root + "/" + name + "/page.mdx", root) == name
  {
    var rest := "/" + name + "/page.mdx";
    assert root + "/" + name + "/page.mdx" == root + rest;
    LastPieceBelowRoot(root, rest);
    assert "/" + name + "/page" + ".mdx" == rest;
    StripEntryFile("/" + name, "/page", ".mdx");
    RemoveFirstLeading('/', name);
  }

  /** `<root>/<name>.md` has slug `<name>` when `<name>` is not `page` and does not end in `/page`. */
  lemma SlugOfFlatFile(root: string, name: string)
    requires |root| > 0 && !Contains("/" + name + ".md", root)
    requires !EndsWith("/" + name, "/page")
    ensures Slug(root + "/" + name + ".md", root) == name
  {
    var rest := "/" + name + ".md";
    assert root + "/" + name + ".md" == root + rest;
    LastPieceBelowRoot(root, rest);
    StripEntryFlat("/" + name, "/page", ".md");
    RemoveFirstLeading('/', name);
  }

  /** The module `getMetaOfFile` imports for a slug. */
  function ImportPath(slug: string): string {
    "../content/posts/" + slug + "/page.mdx"
  }

  /** `getMetaOfFile`: a failed import is caught (and logged) and gives `undefined`. */
  function MetaOfFile(slug: string, modules: map<string, PostMeta>): (m: Option<PostMeta>)
    ensures m.Some? <==> ImportPath(slug) in modules
    ensures m.Some? ==> m.value == modules[ImportPath(slug)]
  {
    if ImportPath(slug) in modules then Some(modules[ImportPath(slug)]) else None
  }

  /** `getMdxMetadata(fileName)`: never throws, the record is kept even without metadata. */
  function MdxMetadata(fileName: string, postsPath: string, modules: map<string, PostMeta>): PostMetadata
    requires |postsPath| > 0
  {
    var slug := Slug(fileName, postsPath);
    PostMetadata(MetaOfFile(slug, modules), slug)
  }

  /** The records `getMdxFiles(POSTS_PATH)` yields, one per walked path, in walk order. */
  function Records(paths: seq<string>, postsPath: string, modules: map<string, PostMeta>): (r: seq<PostMetadata>)
    requires |postsPath| > 0
    ensures |r| == |paths|
    ensures forall i :: 0 <= i < |paths| ==> r[i] == MdxMetadata(paths[i], postsPath, modules)
  {
    seq(|paths|, i requires 0 <= i < |paths| => MdxMetadata(paths[i], postsPath, modules))
  }

  /** The timestamp the comparator reads: `new Date(post.meta.date).getTime()`. */
  function PostKey(ts: string -> int): PostMetadata -> int {
    (p: PostMetadata) => if p.meta.Some? then ts(p.meta.value.date) else 0
  }

  /**
   * `posts.sort((a, b) => ... b.meta.date ... a.meta.date)`: with two or more records every
   * record reaches the comparator, which throws a TypeError on a record without metadata.
   */
  function SortPosts(posts: seq<PostMetadata>, ts: string -> int): Result<seq<PostMetadata>> {
    if |posts| >= 2 && exists i :: 0 <= i < |posts| && posts[i].meta.None? then
      Failure("TypeError: Cannot read properties of undefined (reading 'date')")
    else Success(SortDesc(posts, PostKey(ts)))
  }

  /** The sort fails exactly in that case; otherwise it is a stable newest-first reordering of all records. */
  lemma SortPostsSpec(posts: seq<PostMetadata>, ts: string -> int)
    ensures SortPosts(posts, ts).Failure? <==>
      |posts| >= 2 && exists i :: 0 <= i < |posts| && posts[i].meta.None?
    ensures SortPosts(posts, ts).Success? ==>
      IsStableSortDesc(posts, SortPosts(posts, ts).value, PostKey(ts))
  {
    SortDescIsStableSort(posts, PostKey(ts));
  }

  /** `getAllPosts`, as written: collect the walked records, then sort them newest first. */
  method GetAllPosts(postsPath: string, tree: seq<Entry>, modules: map<string, PostMeta>, ts: string -> int)
    returns (r: Result<seq<PostMetadata>>)
    requires |postsPath| > 0
    ensures r == SortPosts(Records(MdxPaths(postsPath, tree), postsPath, modules), ts)
  {
    var paths := Walk(postsPath, tree);
    var posts: seq<PostMetadata> := [];
    for i := 0 to |paths|
      invariant |posts| == i
      invariant forall j :: 0 <= j < i ==> posts[j] == MdxMetadata(paths[j], postsPath, modules)
    {
      posts := posts + [MdxMetadata(paths[i], postsPath, modules)];
    }
    assert posts == Records(paths, postsPath, modules);
    r := SortPosts(posts, ts);
  }

  /** An example tree: one article in a directory, and a flat `.md` file beside it that has no page module. */
  const ExampleRoot: string := "/srv/site/content/posts"
  const ExampleTree: seq<Entry> := [Dir("a", [File("page.mdx")]), File("b.md")]
  const ExampleModules: map<string, PostMeta> := map["../content/posts/a/page.mdx" := PostMeta("A", "2024-01-01", None)]

  /** The walk of the example tree yields the article's entry file, then the flat file. */
  lemma ExamplePaths()
    ensures MdxPaths(ExampleRoot, ExampleTree) == [ExampleRoot + "/a/page.mdx", ExampleRoot + "/b.md"]
  {
    ExampleResolved();
    var dirA, fileB := Dir("a", [File("page.mdx")]), File("b.md");
    assert ExampleTree == [dirA] + [fileB];
    MdxPathsAppend(ExampleRoot, [dirA], [fileB]);
    MdxPathsOfDir(ExampleRoot, "a", [File("page.mdx")]);
    MdxPathsOfFile(ExampleRoot + "/a", "page.mdx");
    MdxPathsOfFile(ExampleRoot, "b.md");
  }

  /** The resolved paths of the example tree, both `.md`/`.mdx`. */
  lemma ExampleResolved()
    ensures Resolve(ExampleRoot, "a") == ExampleRoot + "/a"
    ensures Resolve(ExampleRoot + "/a", "page.mdx") == ExampleRoot + "/a/page.mdx"
    ensures Resolve(ExampleRoot, "b.md") == ExampleRoot + "/b.md"
    ensures IsMdx(ExampleRoot + "/a/page.mdx") && IsMdx(ExampleRoot + "/b.md")
  {
    assert ExampleRoot + "/a" + "/" + "page.mdx" == ExampleRoot + "/a/page.mdx";
  }

  /** The two records: the article's metadata loads, the flat file's module does not exist. */
  lemma ExampleRecords()
    ensures MdxMetadata(ExampleRoot + "/a/page.mdx", ExampleRoot, ExampleModules)
      == PostMetadata(Some(PostMeta("A", "2024-01-01", None)), "a")
    ensures MdxMetadata(ExampleRoot + "/b.md", ExampleRoot, ExampleModules) == PostMetadata(None, "b")
  {
    ExampleRecordOfArticle();
    ExampleRecordOfFlatFile();
  }

  lemma ExampleRecordOfArticle()
    ensures MdxMetadata(ExampleRoot + "/a/page.mdx", ExampleRoot, ExampleModules)
      == PostMetadata(Some(PostMeta("A", "2024-01-01", None)), "a")
  {
    assert !Contains("/a/page.mdx", ExampleRoot);
    assert ExampleRoot + "/" + "a" + "/page.mdx" == ExampleRoot + "/a/page.mdx";
    SlugOfPageFile(ExampleRoot, "a");
    assert ImportPath("a") == "../content/posts/a/page.mdx";
  }

  lemma ExampleRecordOfFlatFile()
    ensures MdxMetadata(ExampleRoot + "/b.md", ExampleRoot, ExampleModules) == PostMetadata(None, "b")
  {
    assert !Contains("/b.md", ExampleRoot);
    assert ExampleRoot + "/" + "b" + ".md" == ExampleRoot + "/b.md";
    SlugOfFlatFile(ExampleRoot, "b");
    assert ImportPath("b")[17] == 'b';
    assert ImportPath("b") !in ExampleModules;
  }

  /**
   * As written, the listing throws: `b.md` gets slug `b`, whose module `b/page.mdx` does not
   * exist, so its record has no metadata and the sort's comparator dereferences `undefined`.
   */
  lemma GetAllPostsThrowsOnMissingMetadata(ts: string -> int)
    ensures Records(MdxPaths(ExampleRoot, ExampleTree), ExampleRoot, ExampleModules)
      == [PostMetadata(Some(PostMeta("A", "2024-01-01", None)), "a"), PostMetadata(None, "b")]
    ensures SortPosts(Records(MdxPaths(ExampleRoot, ExampleTree), ExampleRoot, ExampleModules), ts).Failure?
  {
    var paths := MdxPaths(ExampleRoot, ExampleTree);
    ExamplePaths();
    ExampleRecords();
    var r := Records(paths, ExampleRoot, ExampleModules);
    assert r[0] == MdxMetadata(paths[0], ExampleRoot, ExampleModules);
    assert r[1] == MdxMetadata(paths[1], ExampleRoot, ExampleModules);
    assert r[1].meta.None?;
  }

  /** The records whose metadata loaded, in order. */
  function WithMeta(posts: seq<PostMetadata>): (r: seq<PostMetadata>)
    ensures forall i :: 0 <= i < |r| ==> r[i].meta.Some?
    ensures forall p :: p in r <==> p in posts && p.meta.Some?
  {
    if posts == [] then []
    else (if posts[0].meta.Some? then [posts[0]] else []) + WithMeta(posts[1..])
  }

  /**
   * `getAllPosts` as the catch in `getMetaOfFile` intends: an article whose metadata cannot
   * be loaded is left out of the listing instead of breaking it.
   */
  function AllPosts(postsPath: string, tree: seq<Entry>, modules: map<string, PostMeta>, ts: string -> int): seq<PostMetadata>
    requires |postsPath| > 0
  {
    SortDesc(WithMeta(Records(MdxPaths(postsPath, tree), postsPath, modules)), PostKey(ts))
  }

  /** The intended listing: every record with metadata, no other, newest first, ties in walk order. */
  lemma AllPostsSpec(postsPath: string, tree: seq<Entry>, modules: map<string, PostMeta>, ts: string -> int)
    requires |postsPath| > 0
    ensures var r := AllPosts(postsPath, tree, modules, ts);
      var walked := Records(MdxPaths(postsPath, tree), postsPath, modules);
      && IsStableSortDesc(WithMeta(walked), r, PostKey(ts))
      && (forall p :: p in r <==> p in walked && p.meta.Some?)
      && SortPosts(r, ts) == Success(r)
  {
    var walked := Records(MdxPaths(postsPath, tree), postsPath, modules);
    var r := AllPosts(postsPath, tree, modules, ts);
    SortDescIsStableSort(WithMeta(walked), PostKey(ts));
    forall p ensures p in r <==> p in WithMeta(walked) {
      assert p in r <==> p in multiset(r);
    }
    forall i | 0 <= i < |r| ensures r[i].meta.Some? {
      assert r[i] in multiset(WithMeta(walked));
    }
    SortDescIsStableSort(r, PostKey(ts));
    StableSortIsSortDesc(r, r, PostKey(ts));
  }
}
