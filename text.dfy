/** String operations that the source performs through JavaScript's `String` methods. */
module Text {
  import opened Wrappers

  predicate StartsWith(s: string, p: string) {
    |p| <= |s| && s[..|p|] == p
  }

  predicate EndsWith(s: string, p: string) {
    |p| <= |s| && s[|s| - |p|..] == p
  }

  /** `sub` occurs in `s` starting at index `i`. */
  predicate OccursAt(s: string, sub: string, i: nat) {
    i + |sub| <= |s| && s[i..i + |sub|] == sub
  }

  predicate Contains(s: string, sub: string) {
    exists i: nat :: i <= |s| && OccursAt(s, sub, i)
  }

  lemma EndsWithSuffix(s: string, k: nat, r: string)
    requires k <= |s| && EndsWith(s[k..], r)
    ensures EndsWith(s, r)
  {
    assert s[|s| - |r|..] == s[k..][|s[k..]| - |r|..];
  }

  /** `s.indexOf(sub, from)`: the first occurrence of `sub` at or after `from`. */
  function IndexOf(s: string, sub: string, from: nat): (r: Option<nat>)
    requires from <= |s|
    decreases |s| - from
    ensures r.Some? ==> from <= r.value <= |s| && OccursAt(s, sub, r.value)
    ensures r.Some? ==> forall j: nat :: from <= j < r.value ==> !OccursAt(s, sub, j)
    ensures r.None? ==> forall j: nat :: from <= j <= |s| ==> !OccursAt(s, sub, j)
  {
    if OccursAt(s, sub, from) then Some(from)
    else if from == |s| then None
    else IndexOf(s, sub, from + 1)
  }

  /** An occurrence in `s[p..]` is an occurrence in `s`, shifted by `p`. */
  lemma OccursAtDrop(s: string, sub: string, p: nat, j: nat)
    requires p <= |s|
    ensures OccursAt(s[p..], sub, j) <==> OccursAt(s, sub, p + j)
  {
    if j + |sub| <= |s| - p {
      assert s[p..][j..j + |sub|] == s[p + j..p + j + |sub|];
    }
  }

  /**
   * Where the last element of `s.split(sep)` starts, when the scan for `sep` resumes at
   * `from`: JavaScript scans from the left for non-overlapping occurrences and the last
   * element begins after the last occurrence found.
   */
  function LastStart(s: string, sep: string, from: nat): (p: nat)
    requires |sep| > 0 && from <= |s|
    decreases |s| - from
    ensures from <= p <= |s|
  {
    match IndexOf(s, sep, from)
    case None => from
    case Some(i) => LastStart(s, sep, i + |sep|)
  }

  /** The last element of `s.split(sep)` for a non-empty separator. */
  function LastPiece(s: string, sep: string): string
    requires |sep| > 0
  {
    s[LastStart(s, sep, 0)..]
  }

  /** No occurrence of the separator starts at or after the last start. */
  lemma {:induction false} LastStartFree(s: string, sep: string, from: nat)
    requires |sep| > 0 && from <= |s|
    decreases |s| - from
    ensures forall j: nat :: LastStart(s, sep, from) <= j <= |s| ==> !OccursAt(s, sep, j)
  {
    match IndexOf(s, sep, from)
    case None =>
    case Some(i) => LastStartFree(s, sep, i + |sep|);
  }

  /** The scan stays where it is exactly when no occurrence is left. */
  lemma LastStartStays(s: string, sep: string, from: nat)
    requires |sep| > 0 && from <= |s|
    ensures LastStart(s, sep, from) == from <==> IndexOf(s, sep, from).None?
  {
  }

  /** A last start beyond `from` comes right after an occurrence of the separator. */
  lemma {:induction false} LastStartAfterSeparator(s: string, sep: string, from: nat)
    requires |sep| > 0 && from <= |s|
    decreases |s| - from
    ensures var p := LastStart(s, sep, from);
      p != from ==> |sep| <= p && OccursAt(s, sep, p - |sep|)
  {
    var found := IndexOf(s, sep, from);
    if found.Some? {
      var q := found.value + |sep|;
      assert OccursAt(s, sep, found.value);
      assert LastStart(s, sep, from) == LastStart(s, sep, q);
      if LastStart(s, sep, q) != q {
        LastStartAfterSeparator(s, sep, q);
      }
    }
  }

  /** The last piece is a suffix of `s`. */
  lemma LastPieceIsSuffix(s: string, sep: string)
    requires |sep| > 0
    ensures EndsWith(s, LastPiece(s, sep))
  {
    var p := LastStart(s, sep, 0);
    assert s[|s| - |s[p..]|..] == s[p..];
  }

  /** The last piece holds no occurrence of the separator. */
  lemma LastPieceFree(s: string, sep: string)
    requires |sep| > 0
    ensures !Contains(LastPiece(s, sep), sep)
  {
    var p := LastStart(s, sep, 0);
    LastStartFree(s, sep, 0);
    forall j: nat | j <= |s[p..]| ensures !OccursAt(s[p..], sep, j) {
      OccursAtDrop(s, sep, p, j);
    }
  }

  /** The last piece is all of `s` exactly when the separator does not occur in `s`. */
  lemma LastPieceWhole(s: string, sep: string)
    requires |sep| > 0
    ensures LastPiece(s, sep) == s <==> !Contains(s, sep)
  {
    var p := LastStart(s, sep, 0);
    LastStartStays(s, sep, 0);
    assert LastPiece(s, sep) == s <==> p == 0 by {
      assert |s[p..]| == |s| - p;
      if p == 0 {
        assert s[0..] == s;
      }
    }
    var found := IndexOf(s, sep, 0);
    if found.Some? {
      assert OccursAt(s, sep, found.value);
    }
  }

  /** A last piece shorter than `s` is preceded by the separator. */
  lemma LastPieceAfterSeparator(s: string, sep: string)
    requires |sep| > 0
    ensures LastPiece(s, sep) != s ==> EndsWith(s, sep + LastPiece(s, sep))
  {
    var p := LastStart(s, sep, 0);
    if p != 0 {
      LastStartAfterSeparator(s, sep, 0);
      assert s[p - |sep|..] == s[p - |sep|..p] + s[p..];
    } else {
      assert s[0..] == s;
    }
  }

  lemma LastPieceSpec(s: string, sep: string)
    requires |sep| > 0
    ensures EndsWith(s, LastPiece(s, sep))
    ensures !Contains(LastPiece(s, sep), sep)
    ensures LastPiece(s, sep) == s <==> !Contains(s, sep)
    ensures LastPiece(s, sep) != s ==> EndsWith(s, sep + LastPiece(s, sep))
  {
    LastPieceIsSuffix(s, sep);
    LastPieceFree(s, sep);
    LastPieceWhole(s, sep);
    LastPieceAfterSeparator(s, sep);
  }

  /** A path below `root` whose remainder does not contain `root` again: the last piece is that remainder. */
  lemma LastPieceBelowRoot(root: string, rest: string)
    requires |root| > 0 && !Contains(rest, root)
    ensures LastPiece(root + rest, root) == rest
  {
    var s := root + rest;
    assert s[0..|root|] == root;
    assert OccursAt(s, root, 0);
    assert IndexOf(s, root, 0) == Some(0);
    assert s[|root|..] == rest;
    forall j: nat | |root| <= j <= |s| ensures !OccursAt(s, root, j) {
      OccursAtDrop(s, root, |root|, j - |root|);
    }
    LastStartStays(s, root, |root|);
  }

  /** Removing the first `c` from a string that starts with `c`. */
  lemma RemoveFirstLeading(c: char, t: string)
    ensures RemoveFirst([c] + t, c) == t
  {
    assert OccursAt([c] + t, [c], 0);
  }

  /** `s.replace(c, "")` with a one-character string pattern: drops the first `c`. */
  function RemoveFirst(s: string, c: char): string {
    match IndexOf(s, [c], 0)
    case None => s
    case Some(i) => s[..i] + s[i + 1..]
  }

  /** Only the first `c` is dropped; without a `c` the string is unchanged. */
  lemma RemoveFirstSpec(s: string, c: char)
    ensures c !in s ==> RemoveFirst(s, c) == s
    ensures c in s ==> exists i :: 0 <= i < |s| && s[i] == c && c !in s[..i] && RemoveFirst(s, c) == s[..i] + s[i + 1..]
  {
    var found := IndexOf(s, [c], 0);
    if found.None? {
      forall j | 0 <= j < |s| ensures s[j] != c {
        assert !OccursAt(s, [c], j);
        assert s[j..j + 1] == [s[j]];
      }
    } else {
      var i := found.value;
      assert s[i..i + 1] == [c];
      assert s[i] == c;
      forall j | 0 <= j < i ensures s[j] != c {
        assert !OccursAt(s, [c], j);
        assert s[j..j + 1] == [s[j]];
      }
      assert c !in s[..i];
      assert RemoveFirst(s, c) == s[..i] + s[i + 1..];
    }
  }


  /** `parts.join(sep)`. */
  function Join(parts: seq<string>, sep: string): string {
    if |parts| == 0 then ""
    else if |parts| == 1 then parts[0]
    else parts[0] + sep + Join(parts[1..], sep)
  }

  /** Joining one more part appends the separator and the part. */
  lemma {:induction false} JoinSnoc(parts: seq<string>, x: string, sep: string)
    requires |parts| >= 1
    ensures Join(parts + [x], sep) == Join(parts, sep) + sep + x
  {
    if |parts| > 1 {
      assert (parts + [x])[1..] == parts[1..] + [x];
      JoinSnoc(parts[1..], x, sep);
    }
  }

  /** `s.replace(/a/g, b)` for single characters. */
  function ReplaceAll(s: string, a: char, b: char): (r: string)
    ensures |r| == |s|
    ensures forall i :: 0 <= i < |s| ==> r[i] == if s[i] == a then b else s[i]
  {
    if s == [] then [] else [if s[0] == a then b else s[0]] + ReplaceAll(s[1..], a, b)
  }

  lemma ReplaceAllAppend(s: string, t: string, a: char, b: char)
    ensures ReplaceAll(s + t, a, b) == ReplaceAll(s, a, b) + ReplaceAll(t, a, b)
  {
    var l, r := ReplaceAll(s + t, a, b), ReplaceAll(s, a, b) + ReplaceAll(t, a, b);
    assert |l| == |r|;
    forall i | 0 <= i < |l| ensures l[i] == r[i] {
      if i < |s| {
        assert r[i] == ReplaceAll(s, a, b)[i];
        assert (s + t)[i] == s[i];
      } else {
        assert r[i] == ReplaceAll(t, a, b)[i - |s|];
        assert (s + t)[i] == t[i - |s|];
      }
    }
  }

  lemma ReplaceAllAbsent(s: string, a: char, b: char)
    requires a !in s
    ensures ReplaceAll(s, a, b) == s
  {
    var r := ReplaceAll(s, a, b);
    forall i | 0 <= i < |s| ensures r[i] == s[i] {
      assert s[i] != a;
    }
  }

  /** `toLowerCase()` restricted to the ASCII letters. */
  function ToLower(s: string): (r: string)
    ensures |r| == |s|
    ensures forall i :: 0 <= i < |s| ==> r[i] == LowerChar(s[i]) && !('A' <= r[i] <= 'Z')
  {
    if s == [] then []
    else [LowerChar(s[0])] + ToLower(s[1..])
  }

  /** ASCII `toLowerCase` of one character: `A`-`Z` move to `a`-`z`, anything else stays. */
  function LowerChar(c: char): (r: char)
    ensures 'A' <= c <= 'Z' ==> r as int == c as int + 32
    ensures !('A' <= c <= 'Z') ==> r == c
  {
    if 'A' <= c <= 'Z' then (c as int + 32) as char else c
  }

  /** The text after the last `c` in `s`, or all of `s` when `c` does not occur. */
  function AfterLast(s: string, c: char): string {
    if s == [] then []
    else if s[|s| - 1] == c then []
    else AfterLast(s[..|s| - 1], c) + [s[|s| - 1]]
  }

  lemma {:induction false} AfterLastFree(s: string, c: char)
    ensures c !in AfterLast(s, c)
  {
    if s != [] && s[|s| - 1] != c {
      AfterLastFree(s[..|s| - 1], c);
    }
  }

  lemma {:induction false} AfterLastIsSuffix(s: string, c: char)
    ensures EndsWith(s, AfterLast(s, c))
  {
    if s != [] && s[|s| - 1] != c {
      var init, last := s[..|s| - 1], s[|s| - 1];
      AfterLastIsSuffix(init, c);
      var t := AfterLast(init, c);
      assert s == init + [last];
      assert s[|s| - |t| - 1..] == init[|init| - |t|..] + [last];
    }
  }

  lemma {:induction false} AfterLastWhole(s: string, c: char)
    ensures c in s <==> AfterLast(s, c) != s
  {
    if s != [] && s[|s| - 1] != c {
      var init, last := s[..|s| - 1], s[|s| - 1];
      AfterLastWhole(init, c);
      var t := AfterLast(init, c);
      assert s == init + [last];
      assert c in s <==> c in init;
      assert t + [last] == init + [last] <==> t == init by {
        if t + [last] == init + [last] {
          assert t == (t + [last])[..|t|];
        }
      }
    }
  }

  lemma {:induction false} AfterLastPreceded(s: string, c: char)
    ensures AfterLast(s, c) != s ==> |AfterLast(s, c)| < |s| && s[|s| - |AfterLast(s, c)| - 1] == c
  {
    if s != [] && s[|s| - 1] != c {
      var init, last := s[..|s| - 1], s[|s| - 1];
      AfterLastPreceded(init, c);
      var t := AfterLast(init, c);
      assert AfterLast(s, c) == t + [last];
      if t != init {
        assert s[|s| - |t| - 2] == init[|init| - |t| - 1];
      }
    }
  }

  /** After a last `c` comes a `c`-free segment: that segment is what `AfterLast` gives. */
  lemma {:induction false} AfterLastOfSegment(p: string, c: char, q: string)
    requires c !in q
    ensures AfterLast(p + [c] + q, c) == q
  {
    var s := p + [c] + q;
    if q == [] {
      assert s[|s| - 1] == c;
    } else {
      var init := q[..|q| - 1];
      AfterLastOfSegment(p, c, init);
      assert s[..|s| - 1] == p + [c] + init;
      assert s[|s| - 1] == q[|q| - 1];
      assert init + [q[|q| - 1]] == q;
    }
  }

  lemma AfterLastSpec(s: string, c: char)
    ensures c !in AfterLast(s, c)
    ensures EndsWith(s, AfterLast(s, c))
    ensures c in s <==> AfterLast(s, c) != s
    ensures AfterLast(s, c) != s ==> |AfterLast(s, c)| < |s| && s[|s| - |AfterLast(s, c)| - 1] == c
  {
    AfterLastFree(s, c);
    AfterLastIsSuffix(s, c);
    AfterLastWhole(s, c);
    AfterLastPreceded(s, c);
  }

  /** `n.toString()` for a non-negative integer. */
  function DecimalString(n: nat): (r: string)
    ensures |r| >= 1
    ensures forall i :: 0 <= i < |r| ==> '0' <= r[i] <= '9'
  {
    if n < 10 then [('0' as int + n) as char]
    else DecimalString(n / 10) + [('0' as int + n % 10) as char]
  }

  function Pow10(k: nat): (r: nat)
    ensures r >= 1
  {
    if k == 0 then 1 else 10 * Pow10(k - 1)
  }

  /** The number a string of decimal digits denotes: the inverse of `DecimalString`. */
  function DecimalValue(s: string): int {
    if s == [] then 0 else 10 * DecimalValue(s[..|s| - 1]) + (s[|s| - 1] as int - '0' as int)
  }

  lemma {:induction false} DecimalRoundTrip(n: nat)
    ensures DecimalValue(DecimalString(n)) == n
  {
    if n >= 10 {
      DecimalRoundTrip(n / 10);
      var s := DecimalString(n);
      assert s[..|s| - 1] == DecimalString(n / 10);
    }
  }

  /** `n.toString().length` is the number of decimal digits: `10^(w-1) <= n < 10^w` for `n >= 1`. */
  lemma {:induction false} DecimalStringLength(n: nat)
    ensures n < Pow10(|DecimalString(n)|)
    ensures n >= 1 ==> Pow10(|DecimalString(n)| - 1) <= n
  {
    if n >= 10 {
      DecimalStringLength(n / 10);
    }
  }

  /** `s.split(c)` for a one-character separator. */
  function Split(s: string, c: char): (r: seq<string>)
    ensures |r| >= 1
  {
    if s == [] then [""]
    else if s[0] == c then [""] + Split(s[1..], c)
    else
      var t := Split(s[1..], c);
      [[s[0]] + t[0]] + t[1..]
  }

  lemma {:induction false} SplitNoSeparator(s: string, c: char)
    requires c !in s
    ensures Split(s, c) == [s]
  {
    if s != [] {
      SplitNoSeparator(s[1..], c);
      assert [s[0]] + s[1..] == s;
    }
  }

  lemma {:induction false} SplitAfterPart(p: string, c: char, t: string)
    requires c !in p
    ensures Split(p + [c] + t, c) == [p] + Split(t, c)
  {
    if p == [] {
      assert p + [c] + t == [c] + t;
      assert ([c] + t)[1..] == t;
    } else {
      assert (p + [c] + t)[1..] == p[1..] + [c] + t;
      SplitAfterPart(p[1..], c, t);
      assert [p[0]] + p[1..] == p;
    }
  }

  /** Splitting a joined list of separator-free parts gives the parts back. */
  lemma {:induction false} SplitJoin(parts: seq<string>, c: char)
    requires |parts| >= 1
    requires forall i :: 0 <= i < |parts| ==> c !in parts[i]
    ensures Split(Join(parts, [c]), c) == parts
  {
    if |parts| == 1 {
      SplitNoSeparator(parts[0], c);
    } else {
      SplitJoin(parts[1..], c);
      SplitAfterPart(parts[0], c, Join(parts[1..], [c]));
      assert [parts[0]] + parts[1..] == parts;
    }
  }

  /**
   * `s.replace(re, "")` for an end-anchored regular expression whose matches are exactly the
   * strings in `words`: the regex engine tries start positions from the left, so the match
   * that starts leftmost (at or after `from`) is removed; without a match `s` is unchanged.
   */
  function CutLeftmostSuffix(s: string, words: set<string>, from: nat): string
    requires from <= |s|
    decreases |s| - from
  {
    if s[from..] in words then s[..from]
    else if from == |s| then s
    else CutLeftmostSuffix(s, words, from + 1)
  }

  lemma {:induction false} CutAt(s: string, words: set<string>, from: nat, i: nat)
    requires from <= i <= |s| && s[i..] in words
    requires forall j: nat :: from <= j < i ==> s[j..] !in words
    decreases i - from
    ensures CutLeftmostSuffix(s, words, from) == s[..i]
  {
    if from < i {
      CutAt(s, words, from + 1, i);
    }
  }

  lemma {:induction false} CutNone(s: string, words: set<string>, from: nat)
    requires from <= |s|
    requires forall j: nat :: from <= j <= |s| ==> s[j..] !in words
    decreases |s| - from
    ensures CutLeftmostSuffix(s, words, from) == s
  {
    if from < |s| {
      CutNone(s, words, from + 1);
    }
  }
}
