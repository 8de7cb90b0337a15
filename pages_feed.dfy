/**
 * pages/index.tsx: the home page feed of the pages-router site. Articles from utils/mdx.ts and
 * bookmarks from utils/pinboard.ts are concatenated, articles first, and sorted newest first;
 * the `frontmatter` key tells an article from a bookmark.
 */
module PagesFeed {
  import opened Wrappers
  import opened StableSort
  import opened Mdx
  import opened Pinboard

  /** An element of `PostMetadata | PinboardPostPrepared`. */
  datatype Item = Post(post: PostMetadata) | Pin(pin: PinPrepared)

  /** The own keys of the item's object. */
  function Keys(item: Item): set<string> {
    match item
    case Post(_) => {"frontmatter", "slug"}
    case Pin(_) => PreparedKeys
  }

  /** `"frontmatter" in item`: the discriminant picks out exactly the articles. */
  predicate IsPost(item: Item)
    ensures IsPost(item) <==> item.Post?
  {
    "frontmatter" in Keys(item)
  }

  /** `getContentDate`: `frontmatter.date` for an article (absent when the key is missing), `time` for a bookmark. */
  function ContentDate(item: Item): (d: Option<Value>)
    ensures item.Post? ==> (d.Some? <==> "date" in item.post.frontmatter)
    ensures item.Post? && d.Some? ==> d.value == item.post.frontmatter["date"]
    ensures item.Pin? ==> d == Some(Str(item.pin.time))
  {
    if IsPost(item) then
      (if "date" in item.post.frontmatter then Some(item.post.frontmatter["date"]) else None)
    else Some(Str(item.pin.time))
  }

  /** The comparator's timestamp; a `null` date is `new Date(null)`, time 0. */
  function ItemKey(ts: string -> int): Item -> int {
    (item: Item) => if ContentDate(item).Some? && ContentDate(item).value.Str? then ts(ContentDate(item).value.s) else 0
  }

  /** An article's position in the feed is the one its listing's sort gave it. */
  lemma ItemKeyOfPost(ts: string -> int, p: PostMetadata)
    ensures ItemKey(ts)(Post(p)) == DateKey(ts)(p)
  {
    assert IsPost(Post(p));
    if "date" in p.frontmatter {
      assert ContentDate(Post(p)) == Some(p.frontmatter["date"]);
    } else {
      assert ContentDate(Post(p)) == None;
    }
  }

  /** The injections of articles and bookmarks into this feed's `Item`; they differ from app/page.tsx's only in the article type. */
  function PostItems(posts: seq<PostMetadata>): (r: seq<Item>)
    ensures |r| == |posts| && forall i :: 0 <= i < |posts| ==> r[i] == Post(posts[i])
  {
    seq(|posts|, i requires 0 <= i < |posts| => Post(posts[i]))
  }

  function PinItems(pins: seq<PinPrepared>): (r: seq<Item>)
    ensures |r| == |pins| && forall i :: 0 <= i < |pins| ==> r[i] == Pin(pins[i])
  {
    seq(|pins|, i requires 0 <= i < |pins| => Pin(pins[i]))
  }

  /** `mergePostsAndPins`: sort `[...posts, ...pins]` newest first. Every article has a frontmatter, so nothing throws. */
  function MergePostsAndPins(posts: seq<PostMetadata>, pins: seq<PinPrepared>, ts: string -> int): seq<Item> {
    SortDesc(PostItems(posts) + PinItems(pins), ItemKey(ts))
  }

  /**
   * The merged feed holds exactly the articles and bookmarks, newest first, and on equal
   * timestamps keeps concatenation order: articles before bookmarks.
   */
  lemma MergeSpec(posts: seq<PostMetadata>, pins: seq<PinPrepared>, ts: string -> int)
    ensures var m := MergePostsAndPins(posts, pins, ts);
      && multiset(m) == multiset(PostItems(posts)) + multiset(PinItems(pins))
      && |m| == |posts| + |pins|
      && SortedDesc(m, ItemKey(ts))
      && forall k :: WithKey(m, ItemKey(ts), k) ==
           WithKey(PostItems(posts), ItemKey(ts), k) + WithKey(PinItems(pins), ItemKey(ts), k)
  {
    SortDescConcat(PostItems(posts), PinItems(pins), ItemKey(ts));
  }

  /** The card the feed renders for an item, keyed by its index. */
  datatype Card = PostCard(index: nat, post: PostMetadata) | PinCard(index: nat, pin: PinPrepared)

  /** `content.map((item, index) => isPost(item) ? <PostCard .../> : <PinCard .../>)`. */
  function Cards(content: seq<Item>): (cards: seq<Card>)
    ensures |cards| == |content|
    ensures forall i :: 0 <= i < |content| ==>
      cards[i].index == i &&
      (cards[i].PostCard? <==> IsPost(content[i])) &&
      (cards[i].PostCard? ==> cards[i].post == content[i].post) &&
      (cards[i].PinCard? ==> cards[i].pin == content[i].pin)
  {
    seq(|content|, i requires 0 <= i < |content| =>
      if IsPost(content[i]) then PostCard(i, content[i].post) else PinCard(i, content[i].pin))
  }
}
