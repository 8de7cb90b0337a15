/**
 * app/page.tsx: the home page feed of the app-router site. Articles from lib/posts.ts and
 * bookmarks from lib/pinboard are concatenated, articles first, and sorted newest first;
 * the `meta` key tells an article from a bookmark.
 */
module AppFeed {
  import opened Wrappers
  import opened StableSort
  import opened PostsLib
  import opened Pinboard

  /** An element of `PostMetadata | PinboardPostPrepared`. */
  datatype Item = Post(post: PostMetadata) | Pin(pin: PinPrepared)

  /** The own keys of the item's object; an article keeps its `meta` key even when the value is undefined. */
  function Keys(item: Item): set<string> {
    match item
    case Post(_) => {"meta", "slug"}
    case Pin(_) => PreparedKeys
  }

  /** `"meta" in item`: the discriminant picks out exactly the articles. */
  predicate IsPost(item: Item)
    ensures IsPost(item) <==> item.Post?
  {
    "meta" in Keys(item)
  }

  /** `getContentDate`: `meta.date` for an article, `time` for a bookmark; an article without metadata throws. */
  function ContentDate(item: Item): (d: Option<string>)
    ensures d.None? <==> item.Post? && item.post.meta.None?
    ensures item.Post? && item.post.meta.Some? ==> d == Some(item.post.meta.value.date)
    ensures item.Pin? ==> d == Some(item.pin.time)
  {
    if IsPost(item) then
      (if item.post.meta.Some? then Some(item.post.meta.value.date) else None)
    else Some(item.pin.time)
  }

  /** The comparator's timestamp `new Date(getContentDate(item)).getTime()`. */
  function ItemKey(ts: string -> int): Item -> int {
    (item: Item) => if ContentDate(item).Some? then ts(ContentDate(item).value) else 0
  }

  function PostItems(posts: seq<PostMetadata>): (r: seq<Item>)
    ensures |r| == |posts| && forall i :: 0 <= i < |posts| ==> r[i] == Post(posts[i])
  {
    seq(|posts|, i requires 0 <= i < |posts| => Post(posts[i]))
  }

  function PinItems(pins: seq<PinPrepared>): (r: seq<Item>)
    ensures |r| == |pins| && forall i :: 0 <= i < |pins| ==> r[i] == Pin(pins[i])
  {
    seq(|pins|, i requires 0 <= i < |pins| => Pin(pins[i]))
  }

  /**
   * `mergePostsAndPins`: sort `[...posts, ...pins]` newest first. With two or more items the
   * comparator reads every item's date, so an article without metadata makes it throw.
   */
  function MergePostsAndPins(posts: seq<PostMetadata>, pins: seq<PinPrepared>, ts: string -> int): Result<seq<Item>> {
    var content := PostItems(posts) + PinItems(pins);
    if |content| >= 2 && exists i :: 0 <= i < |posts| && posts[i].meta.None? then
      Failure("TypeError: Cannot read properties of undefined (reading 'date')")
    else Success(SortDesc(content, ItemKey(ts)))
  }

  /**
   * The merged feed holds exactly the articles and bookmarks, newest first, and on equal
   * timestamps keeps concatenation order: articles before bookmarks.
   */
  lemma MergeSpec(posts: seq<PostMetadata>, pins: seq<PinPrepared>, ts: string -> int)
    ensures MergePostsAndPins(posts, pins, ts).Failure? <==>
      |posts| + |pins| >= 2 && exists i :: 0 <= i < |posts| && posts[i].meta.None?
    ensures var m := MergePostsAndPins(posts, pins, ts);
      m.Success? ==>
        && multiset(m.value) == multiset(PostItems(posts)) + multiset(PinItems(pins))
        && |m.value| == |posts| + |pins|
        && SortedDesc(m.value, ItemKey(ts))
        && forall k :: WithKey(m.value, ItemKey(ts), k) ==
             WithKey(PostItems(posts), ItemKey(ts), k) + WithKey(PinItems(pins), ItemKey(ts), k)
  {
    SortDescConcat(PostItems(posts), PinItems(pins), ItemKey(ts));
  }

  /** Articles that all carry metadata, as the corrected listing gives them, never make the merge throw. */
  lemma MergeOfListedPosts(postsPath: string, tree: seq<DirTree.Entry>, modules: map<string, PostMeta>, pins: seq<PinPrepared>, ts: string -> int)
    requires |postsPath| > 0
    ensures MergePostsAndPins(AllPosts(postsPath, tree, modules, ts), pins, ts).Success?
  {
    AllPostsSpec(postsPath, tree, modules, ts);
  }

  /** Two articles dated 2024-01-01 and 2024-03-01 and a bookmark dated 2024-02-01 merge to [March, bookmark, January]. */
  lemma MergeExample(ts: string -> int, jan: PostMetadata, mar: PostMetadata, pin: PinPrepared)
    requires jan.meta == Some(PostMeta("January", "2024-01-01", None))
    requires mar.meta == Some(PostMeta("March", "2024-03-01", None))
    requires pin.time == "2024-02-01"
    requires ts("2024-01-01") < ts("2024-02-01") < ts("2024-03-01")
    ensures MergePostsAndPins([jan, mar], [pin], ts) == Success([Post(mar), Pin(pin), Post(jan)])
  {
    var key := ItemKey(ts);
    assert PostItems([jan, mar]) + PinItems([pin]) == [Post(jan), Post(mar), Pin(pin)];
    assert ContentDate(Post(jan)) == Some("2024-01-01");
    assert ContentDate(Post(mar)) == Some("2024-03-01");
    assert ContentDate(Pin(pin)) == Some("2024-02-01");
    assert key(Post(jan)) == ts("2024-01-01");
    assert key(Post(mar)) == ts("2024-03-01");
    assert key(Pin(pin)) == ts("2024-02-01");
    assert SortDesc([Pin(pin)], key) == [Pin(pin)];
    assert SortDesc([Post(mar), Pin(pin)], key) == [Post(mar), Pin(pin)];
    assert Insert(Post(jan), [Pin(pin)], key) == [Pin(pin), Post(jan)];
    assert Insert(Post(jan), [Post(mar), Pin(pin)], key) == [Post(mar), Pin(pin), Post(jan)];
    assert [Post(jan), Post(mar), Pin(pin)][1..] == [Post(mar), Pin(pin)];
  }

  /** The card the feed renders for an item: a `PostCard` keyed by slug or a `PinCard` keyed by href. */
  datatype Card = PostCard(slugKey: string, post: PostMetadata) | PinCard(hrefKey: string, pin: PinPrepared)

  /** `content.map(item => isPost(item) ? <PostCard .../> : <PinCard .../>)`. */
  function Cards(content: seq<Item>): (cards: seq<Card>)
    ensures |cards| == |content|
    ensures forall i :: 0 <= i < |content| ==>
      (cards[i].PostCard? <==> IsPost(content[i])) &&
      (cards[i].PostCard? ==> cards[i] == PostCard(content[i].post.slug, content[i].post)) &&
      (cards[i].PinCard? ==> cards[i] == PinCard(content[i].pin.href, content[i].pin))
  {
    seq(|content|, i requires 0 <= i < |content| =>
      if IsPost(content[i]) then PostCard(content[i].post.slug, content[i].post)
      else PinCard(content[i].pin.href, content[i].pin))
  }
}
