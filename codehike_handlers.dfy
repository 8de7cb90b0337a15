/**
 * components/Code/codehike-handlers.tsx: the annotation handlers registered with the code
 * highlighter. Only the handler records and their data transforms are modelled; the parser
 * and dispatcher that call them belong to the highlighting library.
 */
module CodeHikeHandlers {
  import opened Wrappers
  import opened Text

  /** A value in an annotation's `data` object. */
  datatype DataValue = Num(n: real) | Str(s: string) | Flag(b: bool)

  /** An annotation on a column range of one line. */
  datatype InlineAnnotation = InlineAnnotation(
    name: string, query: string, lineNumber: int, fromColumn: int, toColumn: int, data: map<string, DataValue>)

  /** An annotation on a range of lines. */
  datatype BlockAnnotation = BlockAnnotation(
    name: string, query: string, fromLineNumber: int, toLineNumber: int, data: map<string, DataValue>)

  /** The data-level transform a handler applies to its annotation, if any. */
  datatype Transform = NoTransform | CalloutTransform | DiffTransform

  /** A handler record: its name, its `onlyIfAnnotated` flag (absent means false) and its transform. */
  datatype Handler = Handler(name: string, onlyIfAnnotated: bool, transform: Transform)

  const FocusHandler := Handler("focus", true, NoTransform)
  const MarkHandler := Handler("mark", false, NoTransform)
  const CalloutHandler := Handler("callout", false, CalloutTransform)
  const DiffHandler := Handler("diff", true, DiffTransform)
  const LineNumbers := Handler("line-numbers", false, NoTransform)

  /** `handlers`, in registration order. */
  const Handlers: seq<Handler> := [FocusHandler, MarkHandler, CalloutHandler, DiffHandler, LineNumbers]

  /** The position of the first handler called `name`. */
  function HandlerIndex(hs: seq<Handler>, name: string): (r: Option<nat>)
    ensures r.Some? ==> r.value < |hs| && hs[r.value].name == name
    ensures r.Some? ==> forall j :: 0 <= j < r.value ==> hs[j].name != name
    ensures r.None? ==> forall j :: 0 <= j < |hs| ==> hs[j].name != name
  {
    if hs == [] then None
    else if hs[0].name == name then Some(0)
    else match HandlerIndex(hs[1..], name)
      case None => None
      case Some(i) => Some(i + 1)
  }

  /** The registry's names are distinct, so each name finds its own handler; only focus and diff wait for an annotation. */
  lemma RegistrySpec()
    ensures forall i :: 0 <= i < |Handlers| ==> HandlerIndex(Handlers, Handlers[i].name) == Some(i)
    ensures forall i :: 0 <= i < |Handlers| ==>
      (Handlers[i].onlyIfAnnotated <==> Handlers[i].name == "focus" || Handlers[i].name == "diff")
    ensures HandlerIndex(Handlers, "mark") == Some(1)
  {
    forall i | 0 <= i < |Handlers| ensures HandlerIndex(Handlers, Handlers[i].name) == Some(i) {
      var n := Handlers[i].name;
      forall j | 0 <= j < |Handlers| && j != i ensures Handlers[j].name != n {
        assert Handlers[j].name[0] != n[0] || |Handlers[j].name| != |n|;
      }
    }
    assert Handlers[1].name == "mark";
  }

  /** The registration order: focus, mark, callout, diff, line-numbers. */
  lemma RegistryOrder()
    ensures HandlerIndex(Handlers, "focus") == Some(0) && HandlerIndex(Handlers, "mark") == Some(1)
    ensures HandlerIndex(Handlers, "callout") == Some(2) && HandlerIndex(Handlers, "diff") == Some(3)
    ensures HandlerIndex(Handlers, "line-numbers") == Some(4) && |Handlers| == 5
  {
    RegistrySpec();
    assert Handlers[0].name == "focus" && Handlers[2].name == "callout";
    assert Handlers[3].name == "diff" && Handlers[4].name == "line-numbers";
  }

  /** `calloutHandler.transform`: an inline annotation becomes a one-line block carrying the column midpoint. */
  function Callout(a: InlineAnnotation): (b: BlockAnnotation)
    ensures b.name == a.name && b.query == a.query
    ensures b.fromLineNumber == a.lineNumber == b.toLineNumber
    ensures b.data.Keys == a.data.Keys + {"column"}
    ensures forall k :: k in a.data && k != "column" ==> b.data[k] == a.data[k]
    ensures b.data["column"].Num? && 2.0 * b.data["column"].n == (a.fromColumn + a.toColumn) as real
  {
    BlockAnnotation(a.name, a.query, a.lineNumber, a.lineNumber,
      a.data["column" := Num((a.fromColumn + a.toColumn) as real / 2.0)])
  }

  /** The callout's column lies within the annotated column range, equally far from both ends. */
  lemma CalloutColumnWithinRange(a: InlineAnnotation)
    requires a.fromColumn <= a.toColumn
    ensures var c := Callout(a).data["column"].n;
      a.fromColumn as real <= c <= a.toColumn as real &&
      c - a.fromColumn as real == a.toColumn as real - c
  {
  }

  /** The colour a diff annotation's mark gets: red for `-`, green for anything else. */
  function DiffColor(query: string): string {
    if query == "-" then "#f85149" else "#3fb950"
  }

  /** `diffHandler.transform`: the annotation itself, then a copy renamed `mark` whose query is the colour. */
  function Diff(a: BlockAnnotation): (r: seq<BlockAnnotation>)
    ensures |r| == 2 && r[0] == a
    ensures r[1].name == "mark" && r[1].query == DiffColor(a.query)
    ensures r[1].fromLineNumber == a.fromLineNumber && r[1].toLineNumber == a.toLineNumber && r[1].data == a.data
  {
    [a, a.(name := "mark", query := DiffColor(a.query))]
  }

  /** The mark colour `annotation?.query || "rgb(14 165 233)"`; `None` is a line without an annotation. */
  function MarkColor(query: Option<string>): (c: string)
    ensures query.Some? && query.value != "" ==> c == query.value
    ensures query.None? || query == Some("") ==> c == "rgb(14 165 233)"
  {
    if query.Some? && query.value != "" then query.value else "rgb(14 165 233)"
  }

  /** The mark a diff adds is handled by the mark handler and drawn red for a removal, green otherwise. */
  lemma DiffMarkIsColoured(a: BlockAnnotation)
    ensures HandlerIndex(Handlers, Diff(a)[1].name) == Some(1)
    ensures MarkColor(Some(Diff(a)[1].query)) == (if a.query == "-" then "#f85149" else "#3fb950")
  {
    RegistrySpec();
  }

  /** `props.totalLines.toString().length + 1`: one column per digit of the line count, plus one. */
  function GutterWidth(totalLines: nat): nat {
    |DecimalString(totalLines)| + 1
  }

  /** The gutter is two columns for up to 9 lines and grows by one with each power of ten. */
  lemma GutterWidthBounds(totalLines: nat)
    ensures GutterWidth(totalLines) >= 2
    ensures totalLines < Pow10(GutterWidth(totalLines) - 1)
    ensures totalLines >= 1 ==> Pow10(GutterWidth(totalLines) - 2) <= totalLines
  {
    DecimalStringLength(totalLines);
  }
}
