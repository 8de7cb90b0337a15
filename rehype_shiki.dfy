/**
 * utils/rehype-shiki.ts: the rehype plugin that highlights `<pre><code>` blocks. Modelled are
 * the language lookup on the code element's classes, the option default, the nulling of
 * languages the highlighter has not loaded, and the guard on the visited node.
 */
module RehypeShiki {
  import opened Wrappers
  import opened Text

  /** A HAST element: its tag and its `className` property, which may be absent. */
  datatype Element = Element(tagName: string, className: Option<seq<string>>)

  const LanguagePrefix: string := "language-"

  /** `(node.properties.className as string[]) || []`. */
  function ClassList(node: Element): seq<string> {
    if node.className.Some? then node.className.value else []
  }

  /** `item.slice(0, 9) === "language-"`. */
  predicate IsLanguageClass(c: string) {
    StartsWith(c, LanguagePrefix)
  }

  /** The language named by the first `language-` class, lower-cased; none without such a class. */
  function LanguageOf(classes: seq<string>): Option<string> {
    if classes == [] then None
    else if IsLanguageClass(classes[0]) then Some(ToLower(classes[0][|LanguagePrefix|..]))
    else LanguageOf(classes[1..])
  }

  /** A language is found exactly when some class has the prefix, and it comes from the first such class. */
  lemma {:induction false} LanguageOfSpec(classes: seq<string>)
    ensures LanguageOf(classes).None? <==> forall i :: 0 <= i < |classes| ==> !IsLanguageClass(classes[i])
    ensures LanguageOf(classes).Some? ==>
      exists i :: && 0 <= i < |classes| && IsLanguageClass(classes[i])
                  && (forall j :: 0 <= j < i ==> !IsLanguageClass(classes[j]))
                  && LanguageOf(classes).value == ToLower(classes[i][|LanguagePrefix|..])
  {
    if classes != [] && !IsLanguageClass(classes[0]) {
      LanguageOfSpec(classes[1..]);
      if LanguageOf(classes).Some? {
        var i :| 0 <= i < |classes[1..]| && IsLanguageClass(classes[1..][i])
          && (forall j :: 0 <= j < i ==> !IsLanguageClass(classes[1..][j]))
          && LanguageOf(classes[1..]).value == ToLower(classes[1..][i][|LanguagePrefix|..]);
        assert forall j :: 0 <= j < i + 1 ==> !IsLanguageClass(classes[j]) by {
          forall j | 0 <= j < i + 1 ensures !IsLanguageClass(classes[j]) {
            if j > 0 { assert classes[j] == classes[1..][j - 1]; }
          }
        }
        assert classes[i + 1] == classes[1..][i];
      }
      assert forall i :: 0 <= i < |classes[1..]| ==> classes[1..][i] == classes[i + 1];
    }
  }

  /** `getLanguage`: scan the classes and return at the first `language-` class. */
  method GetLanguage(node: Element) returns (lang: Option<string>)
    ensures lang == LanguageOf(ClassList(node))
  {
    var classes := ClassList(node);
    for i := 0 to |classes|
      invariant LanguageOf(classes) == LanguageOf(classes[i..])
    {
      assert classes[i..][1..] == classes[i + 1..];
      if classes[i][..if |classes[i]| < 9 then |classes[i]| else 9] == LanguagePrefix {
        return Some(ToLower(classes[i][9..]));
      }
    }
    return None;
  }

  /** `options.ignoreUnknownLanguage == null ? true : options.ignoreUnknownLanguage`. */
  function IgnoreUnknownLanguage(option: Option<bool>): (b: bool)
    ensures option.None? ==> b
    ensures option.Some? ==> b == option.value
  {
    if option.None? then true else option.value
  }

  /** The language handed to the highlighter: an unloaded language becomes `null` when unknown languages are ignored. */
  function EffectiveLanguage(lang: Option<string>, ignoreUnknown: bool, loaded: seq<string>): (r: Option<string>)
    ensures r == lang || r == None
    ensures ignoreUnknown && r.Some? ==> r.value in loaded
    ensures !ignoreUnknown ==> r == lang
    ensures lang.Some? && lang.value in loaded ==> r == lang
  {
    if ignoreUnknown && !(lang.Some? && lang.value in loaded) then None else lang
  }

  /** The visitor acts only on a `code` element whose parent is a `pre` element. */
  predicate Highlights(node: Element, parent: Option<Element>) {
    parent.Some? && parent.value.tagName == "pre" && node.tagName == "code"
  }

  /** The language a visited node ends up with, under the plugin's options. */
  function NodeLanguage(node: Element, parent: Option<Element>, option: Option<bool>, loaded: seq<string>): (r: Option<Option<string>>)
    ensures r.Some? <==> Highlights(node, parent)
  {
    if Highlights(node, parent) then Some(EffectiveLanguage(LanguageOf(ClassList(node)), IgnoreUnknownLanguage(option), loaded))
    else None
  }

  /** With the default options a highlighted block gets a loaded language named by its first `language-` class, or none. */
  lemma NodeLanguageDefault(node: Element, parent: Option<Element>, loaded: seq<string>)
    requires Highlights(node, parent)
    ensures var r := NodeLanguage(node, parent, None, loaded).value;
      (r.Some? ==> r.value in loaded && r == LanguageOf(ClassList(node)))
      && (LanguageOf(ClassList(node)).Some? && LanguageOf(ClassList(node)).value in loaded ==> r == LanguageOf(ClassList(node)))
  {
  }
}
