/**
 * app/posts/layout.tsx, lines 12-15: the article layout recovers its slug from the
 * `x-pathname` request header (the header lookup itself is a parameter) and asks for the
 * article `"/" + <last path segment>`.
 */
module PostsLayout {
  import opened Wrappers
  import opened Text

  /** `headers().get("x-pathname") || ""`. */
  function Pathname(header: Option<string>): string {
    if header.Some? then header.value else ""
  }

  /** `/[^/]*$/.exec(pathname)?.[0] || ""`: the regex always matches, at the leftmost start whose rest has no `/`. */
  function StrippedPath(pathname: string): string {
    AfterLast(pathname, '/')
  }

  /** The argument of `getSinglePost`. */
  function SinglePostArgument(header: Option<string>): string {
    "/" + StrippedPath(Pathname(header))
  }

  /** The stripped path is the last segment: slash-free, a suffix, and either the whole pathname or preceded by `/`. */
  lemma StrippedPathSpec(pathname: string)
    ensures '/' !in StrippedPath(pathname)
    ensures EndsWith(pathname, StrippedPath(pathname))
    ensures StrippedPath(pathname) == pathname <==> '/' !in pathname
    ensures StrippedPath(pathname) != pathname ==>
      pathname[|pathname| - |StrippedPath(pathname)| - 1] == '/'
  {
    AfterLastSpec(pathname, '/');
  }

  /** The article asked for is `/` and a slash-free segment; no header, or a pathname ending in `/`, asks for `/`. */
  lemma SinglePostArgumentSpec(header: Option<string>)
    ensures var arg := SinglePostArgument(header);
      |arg| >= 1 && arg[0] == '/' && '/' !in arg[1..]
    ensures header.None? ==> SinglePostArgument(header) == "/"
    ensures header.Some? && EndsWith(header.value, "/") ==> SinglePostArgument(header) == "/"
  {
    var p := Pathname(header);
    var s := StrippedPath(p);
    StrippedPathSpec(p);
    assert ("/" + s)[1..] == s;
    if header.Some? && EndsWith(header.value, "/") {
      TrailingSlash(p);
    }
  }

  lemma TrailingSlash(p: string)
    requires EndsWith(p, "/")
    ensures StrippedPath(p) == ""
  {
    assert p[|p| - 1] == p[|p| - 1..][0];
  }

  /** `/posts/hello-world` asks for `/hello-world`. */
  lemma SinglePostArgumentExample()
    ensures SinglePostArgument(Some("/posts/hello-world")) == "/hello-world"
  {
    AfterLastOfSegment("/posts", '/', "hello-world");
    assert "/posts" + ['/'] + "hello-world" == "/posts/hello-world";
  }
}
