/** Diff significance (`compare_html` in monitor.py).

    The monitor relies on two things of the unified diff it computes: it is
    empty exactly when the two extracted line lists are equal, and otherwise it
    starts with the `---`/`+++` header lines naming fixed file names. The hunk
    below is one unified-diff hunk over the span between the common prefix and
    the common suffix, with up to three context lines on each side, in the
    format of Python's `difflib.unified_diff` with `lineterm=''`. */
module Diff {
  import Strings
  import Extract
  import Numbers

  /** The header lines naming the fixed file names, without line terminators. */
  const OldHeader := "--- old_event_container.html"
  const NewHeader := "+++ new_event_container.html"
  const Context: nat := 3

  /** Length of the longest common prefix of two line lists. */
  function CommonPrefix(a: seq<string>, b: seq<string>): (p: nat)
    ensures p <= |a| && p <= |b|
    ensures forall i :: 0 <= i < p ==> a[i] == b[i]
    ensures p < |a| && p < |b| ==> a[p] != b[p]
  {
    PrefixFrom(a, b, 0)
  }

  function PrefixFrom(a: seq<string>, b: seq<string>, k: nat): (p: nat)
    requires k <= |a| && k <= |b| && forall i :: 0 <= i < k ==> a[i] == b[i]
    ensures k <= p <= |a| && p <= |b|
    ensures forall i :: 0 <= i < p ==> a[i] == b[i]
    ensures p < |a| && p < |b| ==> a[p] != b[p]
    decreases |a| - k
  {
    if k == |a| || k == |b| || a[k] != b[k] then k else PrefixFrom(a, b, k + 1)
  }

  /** The i-th line counted from the end. */
  function FromEnd(a: seq<string>, i: nat): string
    requires i < |a|
  {
    a[|a| - 1 - i]
  }

  /** Length of the longest common suffix of two line lists that leaves at least
      `keep` lines of each in front of it. */
  function CommonSuffix(a: seq<string>, b: seq<string>, keep: nat): (s: nat)
    requires keep <= |a| && keep <= |b|
    ensures keep + s <= |a| && keep + s <= |b|
    ensures forall i :: 0 <= i < s ==> FromEnd(a, i) == FromEnd(b, i)
    ensures keep + s < |a| && keep + s < |b| ==> FromEnd(a, s) != FromEnd(b, s)
  {
    SuffixFrom(a, b, keep, 0)
  }

  function SuffixFrom(a: seq<string>, b: seq<string>, keep: nat, k: nat): (s: nat)
    requires keep + k <= |a| && keep + k <= |b|
    requires forall i :: 0 <= i < k ==> FromEnd(a, i) == FromEnd(b, i)
    ensures k <= s && keep + s <= |a| && keep + s <= |b|
    ensures forall i :: 0 <= i < s ==> FromEnd(a, i) == FromEnd(b, i)
    ensures keep + s < |a| && keep + s < |b| ==> FromEnd(a, s) != FromEnd(b, s)
    decreases |a| - k
  {
    if keep + k == |a| || keep + k == |b| || FromEnd(a, k) != FromEnd(b, k) then k
    else SuffixFrom(a, b, keep, k + 1)
  }

  /** Positions of the single hunk: `start` to `oldEnd` in the old lines and
      `start` to `newEnd` in the new lines, context included; the changed lines
      are `changeStart` to `oldChangeEnd` (old) and to `newChangeEnd` (new). */
  datatype Span = Span(start: nat, changeStart: nat, oldChangeEnd: nat, newChangeEnd: nat, oldEnd: nat, newEnd: nat)

  function SpanOf(a: seq<string>, b: seq<string>): (sp: Span)
    ensures sp.start <= sp.changeStart <= sp.oldChangeEnd <= sp.oldEnd <= |a|
    ensures sp.changeStart <= sp.newChangeEnd <= sp.newEnd <= |b|
    ensures sp.oldEnd - sp.oldChangeEnd == sp.newEnd - sp.newChangeEnd
    ensures sp.changeStart - sp.start <= Context && sp.oldEnd - sp.oldChangeEnd <= Context
  {
    var p := CommonPrefix(a, b);
    var s := CommonSuffix(a, b, p);
    var before, after := Numbers.Min(p, Context), Numbers.Min(s, Context);
    Span(p - before, p, |a| - s, |b| - s, |a| - s + after, |b| - s + after)
  }

  /** Outside the changed lines the two lists agree. */
  lemma SpanAgrees(a: seq<string>, b: seq<string>)
    ensures var sp := SpanOf(a, b);
      a[..sp.changeStart] == b[..sp.changeStart] && a[sp.oldChangeEnd..] == b[sp.newChangeEnd..]
  {
    var p := CommonPrefix(a, b);
    var s := CommonSuffix(a, b, p);
    var x, y := a[|a| - s..], b[|b| - s..];
    assert x == y by {
      forall j | 0 <= j < s ensures x[j] == y[j] {
        assert FromEnd(a, s - 1 - j) == FromEnd(b, s - 1 - j);
      }
    }
  }

  /** `_format_range_unified`: "first" for one line, "first,count" otherwise,
      where an empty range names the line before it. */
  function Range(start: nat, stop: nat): string
    requires start <= stop
  {
    var length := stop - start;
    if length == 1 then Strings.NatToString(start + 1)
    else if length == 0 then Strings.NatToString(start) + ",0"
    else Strings.NatToString(start + 1) + "," + Strings.NatToString(length)
  }

  /** `@@ -<old range> +<new range> @@` */
  function HunkHeader(oldRange: string, newRange: string): string {
    "@@ -" + oldRange + " +" + newRange + " @@"
  }

  /** Each line prefixed with a one-character tag. */
  function Prefixed(tag: char, lines: seq<string>): (r: seq<string>)
    ensures |r| == |lines|
  {
    if lines == [] then [] else [[tag] + lines[0]] + Prefixed(tag, lines[1..])
  }

  function HunkBody(a: seq<string>, b: seq<string>, sp: Span): seq<string>
    requires sp == SpanOf(a, b)
  {
    Prefixed(' ', a[sp.start..sp.changeStart])
    + Prefixed('-', a[sp.changeStart..sp.oldChangeEnd])
    + Prefixed('+', b[sp.changeStart..sp.newChangeEnd])
    + Prefixed(' ', a[sp.oldChangeEnd..sp.oldEnd])
  }

  function Hunk(a: seq<string>, b: seq<string>): (r: seq<string>)
    ensures |r| >= 1
  {
    var sp := SpanOf(a, b);
    [HunkHeader(Range(sp.start, sp.oldEnd), Range(sp.start, sp.newEnd))] + HunkBody(a, b, sp)
  }

  /** `list(unified_diff(a, b, fromfile=OldFile, tofile=NewFile, lineterm=''))` */
  function UnifiedDiff(a: seq<string>, b: seq<string>): (r: seq<string>)
    ensures r == [] <==> a == b
    ensures r != [] ==> |r| >= 3 && r[0] == OldHeader && r[1] == NewHeader
  {
    if a == b then [] else [OldHeader, NewHeader] + Hunk(a, b)
  }

  /** The lines the diff compares for one page. */
  function ExtractedLines(doc: Extract.Document): seq<string> {
    Strings.Lines(Extract.Extracted(doc))
  }

  /** `compare_html(old_html, new_html)`, with the HTML parser as a parameter. */
  function CompareHtml(parse: string -> Extract.Document, oldHtml: string, newHtml: string): (r: seq<string>)
    ensures r == [] <==> ExtractedLines(parse(oldHtml)) == ExtractedLines(parse(newHtml))
    ensures r != [] ==> |r| >= 3 && r[0] == OldHeader && r[1] == NewHeader
  {
    UnifiedDiff(ExtractedLines(parse(oldHtml)), ExtractedLines(parse(newHtml)))
  }

  // The two sides of a hunk body: context lines belong to both, '-' lines to the
  // old side only and '+' lines to the new side only.

  function Side(lines: seq<string>, tag: char): seq<string> {
    if lines == [] then []
    else
      (if lines[0] != [] && (lines[0][0] == ' ' || lines[0][0] == tag) then [lines[0][1..]] else [])
      + Side(lines[1..], tag)
  }

  function OldSide(body: seq<string>): seq<string> {
    Side(body, '-')
  }

  function NewSide(body: seq<string>): seq<string> {
    Side(body, '+')
  }

  lemma {:induction false} SideDistributes(x: seq<string>, y: seq<string>, tag: char)
    ensures Side(x + y, tag) == Side(x, tag) + Side(y, tag)
  {
    if x != [] {
      assert (x + y)[1..] == x[1..] + y;
      SideDistributes(x[1..], y, tag);
    } else {
      assert x + y == y;
    }
  }

  lemma {:induction false} SideOfPrefixed(mark: char, lines: seq<string>, tag: char)
    ensures Side(Prefixed(mark, lines), tag) == Kept(mark, tag, lines)
  {
    if lines != [] {
      SideOfPrefixed(mark, lines[1..], tag);
      assert ([mark] + lines[0])[1..] == lines[0];
      assert lines == [lines[0]] + lines[1..];
    }
  }

  /** What `Side(_, tag)` keeps of lines tagged `mark`. */
  function Kept(mark: char, tag: char, lines: seq<string>): seq<string> {
    if mark == ' ' || mark == tag then lines else []
  }

  lemma SideOfFour(m1: char, l1: seq<string>, m2: char, l2: seq<string>,
                   m3: char, l3: seq<string>, m4: char, l4: seq<string>, tag: char)
    ensures Side(Prefixed(m1, l1) + Prefixed(m2, l2) + Prefixed(m3, l3) + Prefixed(m4, l4), tag)
            == Kept(m1, tag, l1) + Kept(m2, tag, l2) + Kept(m3, tag, l3) + Kept(m4, tag, l4)
  {
    var p1, p2, p3, p4 := Prefixed(m1, l1), Prefixed(m2, l2), Prefixed(m3, l3), Prefixed(m4, l4);
    SideDistributes(p1 + p2 + p3, p4, tag);
    SideDistributes(p1 + p2, p3, tag);
    SideDistributes(p1, p2, tag);
    SideOfPrefixed(m1, l1, tag); SideOfPrefixed(m2, l2, tag);
    SideOfPrefixed(m3, l3, tag); SideOfPrefixed(m4, l4, tag);
  }

  /** The old side of a body of context, removed, added and context lines is
      context + removed + context. */
  lemma OldSideOfBody(pre: seq<string>, del: seq<string>, ins: seq<string>, post: seq<string>)
    ensures OldSide(Prefixed(' ', pre) + Prefixed('-', del) + Prefixed('+', ins) + Prefixed(' ', post))
            == pre + del + post
  {
    SideOfFour(' ', pre, '-', del, '+', ins, ' ', post, '-');
    assert Kept(' ', '-', pre) + Kept('-', '-', del) + Kept('+', '-', ins) == pre + del;
  }

  /** The new side of the same body is context + added + context. */
  lemma NewSideOfBody(pre: seq<string>, del: seq<string>, ins: seq<string>, post: seq<string>)
    ensures NewSide(Prefixed(' ', pre) + Prefixed('-', del) + Prefixed('+', ins) + Prefixed(' ', post))
            == pre + ins + post
  {
    SideOfFour(' ', pre, '-', del, '+', ins, ' ', post, '+');
    assert Kept(' ', '+', pre) + Kept('-', '+', del) == pre;
  }

  /** The context lines, and everything outside the hunk, are the same in both
      line lists. */
  lemma SpanContext(a: seq<string>, b: seq<string>)
    ensures var sp := SpanOf(a, b);
            && a[..sp.start] == b[..sp.start]
            && a[sp.start..sp.changeStart] == b[sp.start..sp.changeStart]
            && a[sp.oldChangeEnd..sp.oldEnd] == b[sp.newChangeEnd..sp.newEnd]
            && a[sp.oldEnd..] == b[sp.newEnd..]
  {
    var sp := SpanOf(a, b);
    SpanAgrees(a, b);
    PrefixSlices(a, b, sp.changeStart, sp.start);
    SuffixSlices(a, b, sp.oldChangeEnd, sp.newChangeEnd, sp.oldEnd - sp.oldChangeEnd);
  }

  /** The hunk is a correct patch: its old side is the old lines it covers, its
      new side the new lines it covers, and putting the new side in place of the
      covered old lines turns the old line list into the new one. */
  lemma HunkIsPatch(a: seq<string>, b: seq<string>)
    ensures var sp := SpanOf(a, b);
            var body := Hunk(a, b)[1..];
            && OldSide(body) == a[sp.start..sp.oldEnd]
            && NewSide(body) == b[sp.start..sp.newEnd]
            && a[..sp.start] + NewSide(body) + a[sp.oldEnd..] == b
  {
    var sp := SpanOf(a, b);
    var pre, del := a[sp.start..sp.changeStart], a[sp.changeStart..sp.oldChangeEnd];
    var ins, post := b[sp.changeStart..sp.newChangeEnd], a[sp.oldChangeEnd..sp.oldEnd];
    assert Hunk(a, b)[1..] == HunkBody(a, b, sp);
    OldSideOfBody(pre, del, ins, post);
    NewSideOfBody(pre, del, ins, post);
    SpanContext(a, b);
    SplitSlice(a, sp.start, sp.changeStart, sp.oldChangeEnd);
    SplitSlice(a, sp.start, sp.oldChangeEnd, sp.oldEnd);
    SplitSlice(b, sp.start, sp.changeStart, sp.newChangeEnd);
    SplitSlice(b, sp.start, sp.newChangeEnd, sp.newEnd);
    Reassemble(b, sp.start, sp.newEnd);
  }

  lemma SplitSlice<T>(s: seq<T>, i: nat, j: nat, k: nat)
    requires i <= j <= k <= |s|
    ensures s[i..k] == s[i..j] + s[j..k]
  {
  }

  lemma PrefixSlices<T>(x: seq<T>, y: seq<T>, n: nat, i: nat)
    requires i <= n <= |x| && n <= |y| && x[..n] == y[..n]
    ensures x[..i] == y[..i] && x[i..n] == y[i..n]
  {
    assert x[..n][..i] == x[..i] && y[..n][..i] == y[..i];
    assert x[..n][i..] == x[i..n] && y[..n][i..] == y[i..n];
  }

  lemma SuffixSlices<T>(x: seq<T>, y: seq<T>, m: nat, n: nat, k: nat)
    requires m + k <= |x| && n + k <= |y| && x[m..] == y[n..]
    ensures x[m..m + k] == y[n..n + k] && x[m + k..] == y[n + k..]
  {
    assert x[m..][..k] == x[m..m + k] && y[n..][..k] == y[n..n + k];
    assert x[m..][k..] == x[m + k..] && y[n..][k..] == y[n + k..];
  }

  lemma Reassemble<T>(s: seq<T>, i: nat, j: nat)
    requires i <= j <= |s|
    ensures s == s[..i] + s[i..j] + s[j..]
  {
  }

  /** The hunk header `difflib` prints for n lines added to an empty list. */
  function AddedHeader(n: nat): string {
    HunkHeader("0,0", if n == 1 then "1" else "1," + Strings.NatToString(n))
  }

  /** Against an empty old side the diff is exactly what `difflib` prints: the two
      headers, one hunk header and every new line tagged '+'. */
  lemma DiffFromNothing(b: seq<string>)
    requires b != []
    ensures UnifiedDiff([], b) == [OldHeader, NewHeader] + ([AddedHeader(|b|)] + Prefixed('+', b))
  {
    HunkFromNothing(b);
    assert UnifiedDiff([], b) == [OldHeader, NewHeader] + Hunk([], b);
  }

  lemma HunkFromNothing(b: seq<string>)
    requires b != []
    ensures Hunk([], b) == [AddedHeader(|b|)] + Prefixed('+', b)
  {
    var sp := SpanOf([], b);
    SpanFromNothing(b);
    assert Hunk([], b) == [HunkHeader(Range(0, 0), Range(0, |b|))] + HunkBody([], b, sp);
    HeaderFromNothing(|b|);
    BodyFromNothing(b);
  }

  lemma SpanFromNothing(b: seq<string>)
    ensures SpanOf([], b) == Span(0, 0, 0, |b|, 0, |b|)
  {
  }

  lemma BodyFromNothing(b: seq<string>)
    ensures HunkBody([], b, SpanOf([], b)) == Prefixed('+', b)
  {
    SpanFromNothing(b);
    var e: seq<string> := [];
    assert b[0..|b|] == b;
    assert Prefixed(' ', e) == [] && Prefixed('-', e) == [];
  }

  lemma HeaderFromNothing(n: nat)
    requires n > 0
    ensures HunkHeader(Range(0, 0), Range(0, n)) == AddedHeader(n)
  {
    assert Strings.NatToString(0) == "0";
    assert Strings.NatToString(1) == "1";
    assert Range(0, 0) == "0,0";
  }

  /** The first snapshot of a day is compared with "": its diff adds exactly the
      lines extracted from it, and is empty when nothing is extracted. */
  lemma CompareFromEmpty(parse: string -> Extract.Document, newHtml: string)
    requires parse("") == []
    ensures var added := ExtractedLines(parse(newHtml));
            && (added == [] ==> CompareHtml(parse, "", newHtml) == [])
            && (added != [] ==>
                  CompareHtml(parse, "", newHtml) ==
                  [OldHeader, NewHeader] + ([AddedHeader(|added|)] + Prefixed('+', added)))
  {
    Extract.ExtractedWithoutEvents([]);
    assert ExtractedLines(parse("")) == [];
    var added := ExtractedLines(parse(newHtml));
    if added != [] {
      DiffFromNothing(added);
    }
  }
}
