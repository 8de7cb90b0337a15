/**
 * components/Code/Code.tsx: the title of a highlighted code block. A meta string of the form
 * `name="..."` shows just the quoted name; any other meta is shown as it is; an empty meta
 * gives no title bar, only a floating copy button.
 */
module CodeBlock {
  import opened Wrappers
  import opened Text

  const NamePrefix: string := "name=\""

  /** The meta string that names a block `x`. */
  function NameMeta(x: string): string {
    NamePrefix + x + "\""
  }

  /** `meta.match(/^name="([^"]+)"$/)`: the capture group when the whole meta matches. */
  function MatchName(meta: string): (r: Option<string>)
    ensures r.Some? ==> r.value != "" && '"' !in r.value && NameMeta(r.value) == meta
  {
    if |meta| >= |NamePrefix| + 2 && StartsWith(meta, NamePrefix) && meta[|meta| - 1] == '"'
       && '"' !in meta[|NamePrefix|..|meta| - 1]
    then
      assert meta == NamePrefix + meta[|NamePrefix|..|meta| - 1] + "\"";
      Some(meta[|NamePrefix|..|meta| - 1])
    else None
  }

  /** Every non-empty quote-free name is recognised, so the match and `NameMeta` are inverse. */
  lemma MatchNameComplete(x: string)
    requires x != "" && '"' !in x
    ensures MatchName(NameMeta(x)) == Some(x)
  {
    var m := NameMeta(x);
    assert m[..|NamePrefix|] == NamePrefix;
    assert m[|NamePrefix|..|m| - 1] == x;
  }

  /** `displayMeta`: the captured name when the meta matches, otherwise the meta itself. */
  function DisplayMeta(meta: string): string {
    match MatchName(meta)
    case Some(x) => x
    case None => meta
  }

  /** `name="x"` displays `x`; any meta not of that form, such as one not starting with `name="`, is displayed unchanged. */
  lemma DisplayMetaSpec(meta: string, x: string)
    ensures x != "" && '"' !in x ==> DisplayMeta(NameMeta(x)) == x
    ensures (forall y :: y != "" && '"' !in y ==> NameMeta(y) != meta) ==> DisplayMeta(meta) == meta
    ensures !StartsWith(meta, NamePrefix) ==> DisplayMeta(meta) == meta
  {
    if x != "" && '"' !in x {
      MatchNameComplete(x);
    }
  }

  /** The story's meta `title="example.js"` is not a name and is shown whole. */
  lemma DisplayMetaOfTitle()
    ensures DisplayMeta("title=\"example.js\"") == "title=\"example.js\""
  {
    assert "title=\"example.js\""[0] != NamePrefix[0];
  }

  /** What renders above the code: a title bar with icon, name and copy button, or a floating copy button. */
  datatype Header = TitleBar(title: string) | FloatingCopy

  function HeaderOf(meta: string): Header {
    if DisplayMeta(meta) != "" then TitleBar(DisplayMeta(meta)) else FloatingCopy
  }

  /** The title bar appears exactly when the meta is non-empty, and its title is never empty. */
  lemma HeaderOfSpec(meta: string)
    ensures HeaderOf(meta).TitleBar? <==> meta != ""
    ensures HeaderOf(meta).TitleBar? ==> HeaderOf(meta).title != ""
  {
  }
}
