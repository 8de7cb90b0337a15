/**
 * components/DesignTokens/ColorTokens.stories.tsx and SpacingTokens.stories.tsx: flattening
 * the nested token metadata into `--`-prefixed CSS variable names for the token galleries.
 * `extractColorTokens` and `extractTokens` have the same body and are one definition here.
 */
module DesignTokens {
  import opened Wrappers
  import opened Text

  /** A JSON value in the token metadata; `Scalar` is a number or boolean, with its truthiness. */
  datatype TokenValue = Leaf(s: string) | Group(entries: seq<Entry>) | Scalar(truthy: bool) | Null

  /** One `[key, value]` pair of `Object.entries`. */
  datatype Entry = Entry(key: string, value: TokenValue)

  /** A gallery entry `{ name, value }`. */
  datatype CssToken = CssToken(name: string, value: string)

  /** `prefix ? `${prefix}-${key}` : key`. */
  function JoinKey(prefix: string, key: string): string {
    if prefix != "" then prefix + "-" + key else key
  }

  /** The tokens of `entries` under `prefix`: a string is a token, an object is descended into, anything else is skipped. */
  function Flatten(entries: seq<Entry>, prefix: string): seq<CssToken>
    decreases entries
  {
    if entries == [] then []
    else
      var path := JoinKey(prefix, entries[0].key);
      (match entries[0].value
       case Leaf(s) => [CssToken("--" + path, s)]
       case Group(es) => Flatten(es, path)
       case _ => [])
      + Flatten(entries[1..], prefix)
  }

  lemma {:induction false} FlattenAppend(a: seq<Entry>, b: seq<Entry>, prefix: string)
    ensures Flatten(a + b, prefix) == Flatten(a, prefix) + Flatten(b, prefix)
    decreases a
  {
    if a == [] {
      assert a + b == b;
    } else {
      assert (a + b)[0] == a[0];
      assert (a + b)[1..] == a[1..] + b;
      FlattenAppend(a[1..], b, prefix);
    }
  }

  /** `extractColorTokens` / `extractTokens`: loop over the entries, pushing tokens and spreading in nested results. */
  method ExtractTokens(entries: seq<Entry>, prefix: string) returns (tokens: seq<CssToken>)
    decreases entries
    ensures tokens == Flatten(entries, prefix)
  {
    tokens := [];
    for i := 0 to |entries|
      invariant tokens == Flatten(entries[..i], prefix)
    {
      FlattenAppend(entries[..i], [entries[i]], prefix);
      assert entries[..i + 1] == entries[..i] + [entries[i]];
      assert [entries[i]][1..] == [];
      var key, value := entries[i].key, entries[i].value;
      var path := JoinKey(prefix, key);
      if value.Leaf? {
        tokens := tokens + [CssToken("--" + path, value.s)];
      } else if value.Group? {
        var nested := ExtractTokens(value.entries, path);
        tokens := tokens + nested;
      }
    }
    assert entries[..|entries|] == entries;
  }

  /** Every key, at every depth, is non-empty. */
  predicate KeysNonEmpty(entries: seq<Entry>)
    decreases entries
  {
    forall i :: 0 <= i < |entries| ==>
      entries[i].key != "" && (entries[i].value.Group? ==> KeysNonEmpty(entries[i].value.entries))
  }

  /** The string leaves of a token tree, each with its key path, depth first in entry order: the reference for `Flatten`. */
  function Leaves(entries: seq<Entry>): (r: seq<(seq<string>, string)>)
    decreases entries
    ensures forall i :: 0 <= i < |r| ==> |r[i].0| >= 1
  {
    if entries == [] then []
    else
      (match entries[0].value
       case Leaf(s) => [([entries[0].key], s)]
       case Group(es) => Prefixed(entries[0].key, Leaves(es))
       case _ => [])
      + Leaves(entries[1..])
  }

  function Prefixed(k: string, ls: seq<(seq<string>, string)>): (r: seq<(seq<string>, string)>)
    ensures |r| == |ls| && forall i :: 0 <= i < |ls| ==> r[i] == ([k] + ls[i].0, ls[i].1)
  {
    seq(|ls|, i requires 0 <= i < |ls| => ([k] + ls[i].0, ls[i].1))
  }

  /** The name a leaf gets under `prefix`: `--`, the prefix, and the path joined with `-`. */
  function Named(prefix: string, ls: seq<(seq<string>, string)>): (r: seq<CssToken>)
    ensures |r| == |ls| && forall i :: 0 <= i < |ls| ==> r[i] == CssToken("--" + JoinKey(prefix, Join(ls[i].0, "-")), ls[i].1)
  {
    seq(|ls|, i requires 0 <= i < |ls| => CssToken("--" + JoinKey(prefix, Join(ls[i].0, "-")), ls[i].1))
  }

  lemma JoinKeyNested(prefix: string, k: string, rest: seq<string>)
    requires k != "" && |rest| >= 1
    ensures JoinKey(JoinKey(prefix, k), Join(rest, "-")) == JoinKey(prefix, Join([k] + rest, "-"))
  {
    var j := Join(rest, "-");
    assert ([k] + rest)[1..] == rest;
    assert Join([k] + rest, "-") == k + "-" + j;
    if prefix != "" {
      assert JoinKey(prefix, k) + "-" + j == prefix + "-" + (k + "-" + j);
    }
  }

  lemma NamedPrefixed(prefix: string, k: string, ls: seq<(seq<string>, string)>)
    requires k != ""
    requires forall i :: 0 <= i < |ls| ==> |ls[i].0| >= 1
    ensures Named(JoinKey(prefix, k), ls) == Named(prefix, Prefixed(k, ls))
  {
    forall i | 0 <= i < |ls|
      ensures Named(JoinKey(prefix, k), ls)[i] == Named(prefix, Prefixed(k, ls))[i]
    {
      JoinKeyNested(prefix, k, ls[i].0);
    }
  }

  /**
   * With non-empty keys, flattening names each string leaf `--<prefix>-<k1>-...-<kn>` (no
   * leading `-` without a prefix), keeps its value, and keeps depth-first entry order.
   */
  lemma {:induction false} FlattenIsNamedLeaves(entries: seq<Entry>, prefix: string)
    requires KeysNonEmpty(entries)
    ensures Flatten(entries, prefix) == Named(prefix, Leaves(entries))
    decreases entries, 1
  {
    if entries != [] {
      KeysNonEmptyTail(entries);
      FlattenIsNamedLeaves(entries[1..], prefix);
      HeadIsNamedLeaves(entries, prefix);
      FlattenCons(entries, prefix);
      LeavesCons(entries);
      NamedAppend(prefix, Leaves([entries[0]]), Leaves(entries[1..]));
    }
  }

  lemma KeysNonEmptyTail(entries: seq<Entry>)
    requires entries != [] && KeysNonEmpty(entries)
    ensures KeysNonEmpty(entries[1..])
  {
    var rest := entries[1..];
    forall i | 0 <= i < |rest| ensures rest[i] == entries[i + 1] {}
  }

  lemma FlattenCons(entries: seq<Entry>, prefix: string)
    requires entries != []
    ensures Flatten(entries, prefix) == Flatten([entries[0]], prefix) + Flatten(entries[1..], prefix)
  {
    assert [entries[0]][1..] == [];
  }

  /** The first entry alone: a leaf names itself, a group is the induction on its children. */
  lemma HeadIsNamedLeaves(entries: seq<Entry>, prefix: string)
    requires entries != [] && KeysNonEmpty(entries)
    ensures Flatten([entries[0]], prefix) == Named(prefix, Leaves([entries[0]]))
    decreases entries, 0
  {
    var e := entries[0];
    var k := e.key;
    assert [e][1..] == [];
    assert k != "";
    match e.value {
      case Leaf(s) =>
        assert Join([k], "-") == k;
      case Group(es) =>
        FlattenIsNamedLeaves(es, JoinKey(prefix, k));
        NamedPrefixed(prefix, k, Leaves(es));
      case Scalar(_) =>
      case Null =>
    }
  }

  lemma LeavesCons(entries: seq<Entry>)
    requires entries != []
    ensures Leaves(entries) == Leaves([entries[0]]) + Leaves(entries[1..])
  {
    assert [entries[0]][1..] == [];
  }

  lemma NamedAppend(prefix: string, a: seq<(seq<string>, string)>, b: seq<(seq<string>, string)>)
    ensures Named(prefix, a + b) == Named(prefix, a) + Named(prefix, b)
  {
  }

  /** `Object.entries(v)`: an object's entries, a string's characters by index, nothing for a number or boolean; `null` throws. */
  function EntriesOf(v: TokenValue): (r: Result<seq<Entry>>)
    ensures r.Failure? <==> v.Null?
  {
    match v
    case Group(es) => Success(es)
    case Leaf(s) => Success(seq(|s|, i requires 0 <= i < |s| => Entry(DecimalString(i), Leaf([s[i]]))))
    case Scalar(_) => Success([])
    case Null => Failure("TypeError: Cannot convert undefined or null to object")
  }

  /** The top-level metadata object, as its entries. */
  type Metadata = seq<Entry>

  /** `metadata[key]`, undefined when the key is absent. */
  function Lookup(m: Metadata, key: string): (r: Option<TokenValue>)
    ensures r.Some? <==> exists i :: 0 <= i < |m| && m[i].key == key
  {
    if m == [] then None else if m[0].key == key then Some(m[0].value) else Lookup(m[1..], key)
  }

  /** `extractColorTokens(v, prefix)` on a value that may be undefined. */
  function ExtractOf(v: Option<TokenValue>, prefix: string): (r: Result<seq<CssToken>>)
    ensures r.Failure? <==> v.None? || v.value.Null?
  {
    if v.None? then Failure("TypeError: Cannot convert undefined or null to object")
    else match EntriesOf(v.value)
      case Failure(e) => Failure(e)
      case Success(es) => Success(Flatten(es, prefix))
  }

  /** `v || {}`. */
  function OrEmpty(v: Option<TokenValue>): (r: TokenValue)
    ensures !r.Null?
  {
    if v.None? || v.value.Null? || v.value == Leaf("") || v.value == Scalar(false) then Group([]) else v.value
  }

  /** The three colour galleries: primitives, `brand-color` and `content`. */
  datatype ColorGalleries = ColorGalleries(primitive: seq<CssToken>, brand: seq<CssToken>, content: seq<CssToken>)

  /** Lines 39-47: `colors` has no fallback, so its absence throws; missing brand or content groups give empty galleries. */
  function ColorTokenGalleries(m: Metadata): (r: Result<ColorGalleries>)
    ensures r.Failure? <==> Lookup(m, "colors").None? || Lookup(m, "colors").value.Null?
    ensures Lookup(m, "brand-color").None? && r.Success? ==> r.value.brand == []
    ensures Lookup(m, "content").None? && r.Success? ==> r.value.content == []
  {
    var primitive := ExtractOf(Lookup(m, "colors"), "");
    var brand := ExtractOf(Some(OrEmpty(Lookup(m, "brand-color"))), "brand-color");
    var content := ExtractOf(Some(OrEmpty(Lookup(m, "content"))), "content");
    if primitive.Failure? then Failure(primitive.error)
    else Success(ColorGalleries(primitive.value, brand.value, content.value))
  }

  /** A brand token `{ "primary": { "default": "#005" } }` is listed as `--brand-color-primary-default`. */
  lemma BrandColorExample()
    ensures Flatten([Entry("primary", Group([Entry("default", Leaf("#005"))]))], "brand-color")
      == [CssToken("--brand-color-primary-default", "#005")]
  {
    FlattenOfGroup("primary", [Entry("default", Leaf("#005"))], "brand-color");
    FlattenOfLeaf("default", "#005", "brand-color-primary");
    BrandColorNames();
  }

  lemma BrandColorNames()
    ensures JoinKey("brand-color", "primary") == "brand-color-primary"
    ensures "--" + JoinKey("brand-color-primary", "default") == "--brand-color-primary-default"
  {
    BrandColorPrimary();
    BrandColorPrimaryDefault();
  }

  /** The literal join behind the first name; used by `BrandColorNames`. */
  lemma BrandColorPrimary()
    ensures "brand-color" + "-" + "primary" == "brand-color-primary"
  {
  }

  /** The literal join behind the second name; used by `BrandColorNames`. */
  lemma BrandColorPrimaryDefault()
    ensures "--" + ("brand-color-primary" + "-" + "default") == "--brand-color-primary-default"
  {
  }

  /** One string entry is one token named after its key. */
  lemma FlattenOfLeaf(k: string, s: string, prefix: string)
    ensures Flatten([Entry(k, Leaf(s))], prefix) == [CssToken("--" + JoinKey(prefix, k), s)]
  {
    assert [Entry(k, Leaf(s))][1..] == [];
  }

  /** One object entry gives the tokens of its children under the extended prefix. */
  lemma FlattenOfGroup(k: string, es: seq<Entry>, prefix: string)
    ensures Flatten([Entry(k, Group(es))], prefix) == Flatten(es, JoinKey(prefix, k))
  {
    assert [Entry(k, Group(es))][1..] == [];
  }

  /** Line 37 of SpacingTokens.stories.tsx: `extractTokens(tokensMetadata.spacing)`, which throws when `spacing` is absent. */
  function SpacingScale(m: Metadata): (r: Result<seq<CssToken>>)
    ensures r.Failure? <==> Lookup(m, "spacing").None? || Lookup(m, "spacing").value.Null?
  {
    ExtractOf(Lookup(m, "spacing"), "")
  }

  /** For an object of string leaves with non-empty keys, each spacing token is `--` and its key path. */
  lemma SpacingScaleNames(m: Metadata, es: seq<Entry>)
    requires Lookup(m, "spacing") == Some(Group(es)) && KeysNonEmpty(es)
    ensures SpacingScale(m) == Success(Named("", Leaves(es)))
  {
    FlattenIsNamedLeaves(es, "");
  }
}
