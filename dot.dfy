/**
 The DOT text visualize.go writes for a network: a header, one line per node,
 one line per edge (labelled with its weight when the weight is positive),
 and a closing brace.
 */
module Dot {
  import opened Graphs

  /** The decimal digit `d`. */
  function DigitChar(d: int): char
    requires 0 <= d < 10
  {
    (d + '0' as int) as char
  }

  predicate IsDigit(c: char) { '0' <= c <= '9' }

  /** The decimal form of `n`, as `%d` prints it: digits only, never empty. */
  function NatString(n: nat): (s: string)
    ensures |s| > 0 && forall k :: 0 <= k < |s| ==> IsDigit(s[k])
  {
    if n < 10 then [DigitChar(n)] else NatString(n / 10) + [DigitChar(n % 10)]
  }

  /** `%d` of an integer: a minus sign before the digits of a negative number. */
  function IntString(i: int): string {
    if i < 0 then "-" + NatString(-i) else NatString(i)
  }

  /** The value of a string of decimal digits. */
  function ParseNat(s: string): nat
    requires forall k :: 0 <= k < |s| ==> IsDigit(s[k])
  {
    if s == [] then 0 else ParseNat(s[..|s| - 1]) * 10 + DigitValue(s[|s| - 1])
  }

  function DigitValue(c: char): nat
    requires IsDigit(c)
  {
    c as int - '0' as int
  }

  /** The value of an optionally negative decimal. */
  function ParseInt(s: string): int
    requires |s| > 0 && forall k :: 0 < k < |s| ==> IsDigit(s[k])
    requires s[0] == '-' || IsDigit(s[0])
  {
    var magnitude: int := if s[0] == '-' then ParseNat(s[1..]) else ParseNat(s);
    if s[0] == '-' then -magnitude else magnitude
  }

  /** Reading back the decimal form of a natural number gives the number. */
  lemma {:induction false} NatRoundTrip(n: nat)
    ensures ParseNat(NatString(n)) == n
  {
    var s := NatString(n);
    if n >= 10 {
      NatRoundTrip(n / 10);
      assert s[..|s| - 1] == NatString(n / 10);
    }
  }

  /** The decimal form of an integer: an optional minus sign, then digits only. */
  lemma IntDigits(i: int)
    ensures var s := IntString(i);
      |s| > 0 && (s[0] == '-' || IsDigit(s[0])) && forall k :: 0 < k < |s| ==> IsDigit(s[k])
  {
  }

  /** Reading back the decimal form of an integer gives the integer. */
  lemma IntRoundTrip(i: int)
    ensures (IntDigits(i); ParseInt(IntString(i)) == i)
  {
    IntDigits(i);
    if i < 0 {
      var digits := NatString(-i);
      NatRoundTrip(-i);
      assert IntString(i)[1..] == digits;
    } else {
      NatRoundTrip(i);
    }
  }

  /** `field` is a decimal, optionally negative, whose value is `v`. */
  predicate ReadsBack(field: string, v: int) {
    && |field| > 0 && (field[0] == '-' || IsDigit(field[0]))
    && (forall k :: 0 < k < |field| ==> IsDigit(field[k]))
    && ParseInt(field) == v
  }

  /** A decimal holds neither a line break nor a bracket. */
  lemma NoSpecialInInt(i: int)
    ensures '\n' !in IntString(i) && '[' !in IntString(i)
  {
    var s := NatString(if i < 0 then -i else i);
    assert forall k :: 0 <= k < |s| ==> IsDigit(s[k]);
  }

  /** The lines of a DOT file, before they are written out. */
  datatype Line = Open | Node(index: int) | Arc(edge: Edge) | Close

  /** The line declaring node `i`: `Sprintf("  %d;\n", i)`. */
  function NodeDecl(i: int): string {
    "  " + IntString(i) + ";\n"
  }

  /** An edge line carrying the weight as its label. */
  function LabelledArc(e: Edge): string {
    "  " + IntString(e.source) + " -> " + IntString(e.target) + " [label=\"" + IntString(e.weight) + "\"];\n"
  }

  /** An edge line without a label. */
  function PlainArc(e: Edge): string {
    "  " + IntString(e.source) + " -> " + IntString(e.target) + ";\n"
  }

  /** The text of one line; an edge is labelled exactly when its weight is positive. */
  function Render(line: Line): string {
    match line
    case Open => "digraph G {\n"
    case Node(i) => NodeDecl(i)
    case Arc(e) => if e.weight > 0 then LabelledArc(e) else PlainArc(e)
    case Close => "}\n"
  }

  /** An edge line holds a bracket, the start of its label, exactly when the weight is positive. */
  lemma EdgeLabelled(e: Edge)
    ensures '[' in Render(Arc(e)) <==> e.weight > 0
  {
    NoSpecialInInt(e.source);
    NoSpecialInInt(e.target);
    NoSpecialInInt(e.weight);
    var arc := "  " + IntString(e.source) + " -> " + IntString(e.target);
    if e.weight > 0 {
      assert LabelledArc(e)[|arc| + 1] == '[';
    }
  }

  /**
   A node line is two spaces, the node's decimal and `;` with the line break,
   and its number field reads back as the node.
   */
  lemma NodeDeclFields(i: int)
    ensures var s, n := Render(Node(i)), |IntString(i)|;
      && |s| == n + 4 && s[..2] == "  " && s[2 + n..] == ";\n"
      && ReadsBack(s[2..2 + n], i)
  {
    var s, a := NodeDecl(i), IntString(i);
    assert s == "  " + a + ";\n";
    assert s[2..2 + |a|] == a;
    IntRoundTrip(i);
  }

  /** The fields of an edge line: two spaces, the source, ` -> `, the target, then the rest. */
  lemma ArcLayout(a: string, b: string, rest: string)
    ensures var s := "  " + a + " -> " + b + rest;
      && |s| == 6 + |a| + |b| + |rest| && s[..2] == "  " && s[2..2 + |a|] == a
      && s[2 + |a|..6 + |a|] == " -> " && s[6 + |a|..6 + |a| + |b|] == b && s[6 + |a| + |b|..] == rest
  {
  }

  /** The label of an edge line: ` [label="`, the weight, `"];` and the line break. */
  lemma LabelTail(w: string)
    ensures var t := " [label=\"" + w + "\"];\n";
      && |t| == |w| + 13 && t[..9] == " [label=\"" && t[9..9 + |w|] == w && t[9 + |w|..] == "\"];\n"
  {
  }

  /**
   An edge line starts with two spaces, the source, ` -> ` and the target, and
   each of the two number fields reads back as the node it was written from.
   */
  lemma ArcEnds(e: Edge)
    ensures var s, a, b := Render(Arc(e)), |IntString(e.source)|, |IntString(e.target)|;
      && |s| >= 6 + a + b && s[..2] == "  " && s[2 + a..6 + a] == " -> "
      && ReadsBack(s[2..2 + a], e.source) && ReadsBack(s[6 + a..6 + a + b], e.target)
  {
    var a, b := IntString(e.source), IntString(e.target);
    var rest := if e.weight > 0 then " [label=\"" + IntString(e.weight) + "\"];\n" else ";\n";
    assert Render(Arc(e)) == "  " + a + " -> " + b + rest;
    ArcLayout(a, b, rest);
    IntRoundTrip(e.source);
    IntRoundTrip(e.target);
  }

  /**
   What follows the target on an edge line: ` [label="w"];` with the line
   break when the weight w is positive, the weight reading back as w, and
   `;` with the line break otherwise.
   */
  lemma ArcLabel(e: Edge)
    ensures var s, n := Render(Arc(e)), 6 + |IntString(e.source)| + |IntString(e.target)|;
      && n <= |s|
      && (e.weight <= 0 ==> s[n..] == ";\n")
      && (e.weight > 0 ==>
            var tail, w := s[n..], |IntString(e.weight)|;
            && |tail| == w + 13 && tail[..9] == " [label=\"" && tail[9 + w..] == "\"];\n"
            && ReadsBack(tail[9..9 + w], e.weight))
  {
    var a, b := IntString(e.source), IntString(e.target);
    var rest := if e.weight > 0 then " [label=\"" + IntString(e.weight) + "\"];\n" else ";\n";
    assert Render(Arc(e)) == "  " + a + " -> " + b + rest;
    ArcLayout(a, b, rest);
    if e.weight > 0 {
      LabelTail(IntString(e.weight));
      IntRoundTrip(e.weight);
    }
  }

  /** The node lines 0 .. n-1, in increasing order. */
  function NodeLines(n: nat): (lines: seq<Line>)
    ensures |lines| == n && forall i :: 0 <= i < n ==> lines[i] == Node(i)
  {
    if n == 0 then [] else NodeLines(n - 1) + [Node(n - 1)]
  }

  /** One line per edge, in list order. */
  function EdgeLines(edges: seq<Edge>): (lines: seq<Line>)
    ensures |lines| == |edges| && forall k :: 0 <= k < |edges| ==> lines[k] == Arc(edges[k])
  {
    if edges == [] then [] else EdgeLines(edges[..|edges| - 1]) + [Arc(edges[|edges| - 1])]
  }

  /**
   The lines of the DOT file of a network: the header, node lines 0 .. numAgents-1
   (none when numAgents <= 0), the edge lines in list order, the closing brace.
   */
  function DotLines(numAgents: int, edges: seq<Edge>): (lines: seq<Line>)
    ensures |lines| == 2 + Max0(numAgents) + |edges|
    ensures lines[0] == Open && lines[|lines| - 1] == Close
    ensures forall i :: 0 <= i < Max0(numAgents) ==> lines[1 + i] == Node(i)
    ensures forall k :: 0 <= k < |edges| ==> lines[1 + Max0(numAgents) + k] == Arc(edges[k])
  {
    [Open] + NodeLines(Max0(numAgents)) + EdgeLines(edges) + [Close]
  }

  /** Strings written one after another. */
  function Concat(parts: seq<string>): string {
    if parts == [] then "" else Concat(parts[..|parts| - 1]) + parts[|parts| - 1]
  }

  /** The text of each line. */
  function Rendered(lines: seq<Line>): (parts: seq<string>)
    ensures |parts| == |lines|
  {
    seq(|lines|, i requires 0 <= i < |lines| => Render(lines[i]))
  }

  /** The DOT text of a network: its lines written out in order. */
  function DotText(numAgents: int, edges: seq<Edge>): string {
    Concat(Rendered(DotLines(numAgents, edges)))
  }

  lemma ConcatSnoc(parts: seq<string>, part: string)
    ensures Concat(parts + [part]) == Concat(parts) + part
  {
    assert (parts + [part])[..|parts|] == parts;
  }

  lemma {:induction false} ConcatFront(part: string, parts: seq<string>)
    ensures Concat([part] + parts) == part + Concat(parts)
  {
    if parts != [] {
      var all := [part] + parts;
      assert all[..|all| - 1] == [part] + parts[..|parts| - 1];
      ConcatFront(part, parts[..|parts| - 1]);
    }
  }

  lemma RenderedSnoc(lines: seq<Line>, line: Line)
    ensures Rendered(lines + [line]) == Rendered(lines) + [Render(line)]
  {
  }

  lemma Ends(first: string, middle: string, last: string)
    ensures var text := first + middle + last;
      text[..|first|] == first && text[|text| - |last|..] == last
  {
  }

  lemma {:induction false} ConcatFramed(parts: seq<string>)
    requires |parts| >= 2
    ensures Concat(parts) == parts[0] + Concat(parts[1..|parts| - 1]) + parts[|parts| - 1]
  {
    var middle := parts[1..|parts| - 1];
    assert parts[..|parts| - 1] == [parts[0]] + middle;
    ConcatFront(parts[0], middle);
  }

  /** The text begins with the header and ends with the closing brace. */
  lemma DotFraming(numAgents: int, edges: seq<Edge>)
    ensures var text := DotText(numAgents, edges);
      |text| >= 14 && text[..12] == "digraph G {\n" && text[|text| - 2..] == "}\n"
  {
    var parts := Rendered(DotLines(numAgents, edges));
    ConcatFramed(parts);
    Ends(parts[0], Concat(parts[1..|parts| - 1]), parts[|parts| - 1]);
  }

  /** No line break inside `s`. */
  predicate NoBreak(s: string) {
    forall k :: 0 <= k < |s| ==> s[k] != '\n'
  }

  /** A line: text without a line break, then one line break. */
  predicate IsLine(s: string) {
    |s| > 0 && s[|s| - 1] == '\n' && NoBreak(s[..|s| - 1])
  }

  /** The length of the first line of `s`, its line break included. */
  function LineLength(s: string): (k: nat)
    requires s != []
    ensures 0 < k <= |s|
  {
    if s[0] == '\n' || |s| == 1 then 1 else 1 + LineLength(s[1..])
  }

  /** A reader's view of a text: its lines, each with its line break. */
  function SplitLines(s: string): seq<string>
    decreases |s|
  {
    if s == [] then [] else
      var k := LineLength(s);
      [s[..k]] + SplitLines(s[k..])
  }

  lemma {:induction false} LineLengthOf(line: string, rest: string)
    requires IsLine(line)
    ensures LineLength(line + rest) == |line|
  {
    if |line| > 1 {
      assert line[0] != '\n';
      assert (line + rest)[1..] == line[1..] + rest;
      assert line[1..][..|line| - 2] == line[..|line| - 1][1..];
      LineLengthOf(line[1..], rest);
    }
  }

  /** Splitting lines written one after another gives those lines back. */
  lemma {:induction false} SplitConcat(parts: seq<string>)
    requires forall i :: 0 <= i < |parts| ==> IsLine(parts[i])
    ensures SplitLines(Concat(parts)) == parts
  {
    if parts != [] {
      var rest := parts[1..];
      assert parts == [parts[0]] + rest;
      ConcatFront(parts[0], rest);
      LineLengthOf(parts[0], Concat(rest));
      var s := parts[0] + Concat(rest);
      assert s[..|parts[0]|] == parts[0];
      assert s[|parts[0]|..] == Concat(rest);
      SplitConcat(rest);
    }
  }

  lemma ComposedLine(body: string)
    requires NoBreak(body)
    ensures IsLine(body + "\n")
  {
    assert (body + "\n")[..|body|] == body;
  }

  lemma NodeDeclIsLine(i: int)
    ensures IsLine(NodeDecl(i))
  {
    NoSpecialInInt(i);
    ComposedLine("  " + IntString(i) + ";");
    assert NodeDecl(i) == "  " + IntString(i) + ";" + "\n";
  }

  lemma LabelledArcIsLine(e: Edge)
    ensures IsLine(LabelledArc(e))
  {
    NoSpecialInInt(e.source);
    NoSpecialInInt(e.target);
    NoSpecialInInt(e.weight);
    var body := "  " + IntString(e.source) + " -> " + IntString(e.target) + " [label=\"" + IntString(e.weight) + "\"];";
    ComposedLine(body);
    assert LabelledArc(e) == body + "\n";
  }

  lemma PlainArcIsLine(e: Edge)
    ensures IsLine(PlainArc(e))
  {
    NoSpecialInInt(e.source);
    NoSpecialInInt(e.target);
    var body := "  " + IntString(e.source) + " -> " + IntString(e.target) + ";";
    ComposedLine(body);
    assert PlainArc(e) == body + "\n";
  }

  /** Every rendered line is one line. */
  lemma RenderIsLine(line: Line)
    ensures IsLine(Render(line))
  {
    match line {
      case Open =>
        ComposedLine("digraph G {");
        assert Render(line) == "digraph G {" + "\n";
      case Node(i) =>
        NodeDeclIsLine(i);
      case Arc(e) =>
        LabelledArcIsLine(e);
        PlainArcIsLine(e);
      case Close =>
        ComposedLine("}");
        assert Render(line) == "}" + "\n";
    }
  }

  /**
   The layout of the DOT text as a reader sees it: split into lines it gives
   back the text of each of DotLines' lines in order, 2 + max(numAgents, 0) +
   |edges| of them (header, node declarations 0 .. numAgents-1, the edges in
   list order, closing brace).
   */
  lemma DotLayout(numAgents: int, edges: seq<Edge>)
    ensures SplitLines(DotText(numAgents, edges)) == Rendered(DotLines(numAgents, edges))
    ensures |SplitLines(DotText(numAgents, edges))| == 2 + Max0(numAgents) + |edges|
  {
    var lines := DotLines(numAgents, edges);
    var parts := Rendered(lines);
    forall i | 0 <= i < |parts| ensures IsLine(parts[i]) {
      RenderIsLine(lines[i]);
    }
    SplitConcat(parts);
  }

  /** The header alone is the first line. */
  lemma HeaderText()
    ensures Concat(Rendered([Open] + NodeLines(0))) == "digraph G {\n"
  {
    assert Rendered([Open] + NodeLines(0)) == [] + ["digraph G {\n"];
    ConcatSnoc([], "digraph G {\n");
  }

  /** Declaring node i appends its line. */
  lemma NodeTextStep(i: nat)
    ensures Concat(Rendered([Open] + NodeLines(i + 1))) == Concat(Rendered([Open] + NodeLines(i))) + NodeDecl(i)
  {
    assert [Open] + NodeLines(i + 1) == [Open] + NodeLines(i) + [Node(i)];
    RenderedSnoc([Open] + NodeLines(i), Node(i));
    ConcatSnoc(Rendered([Open] + NodeLines(i)), NodeDecl(i));
  }

  /** The text written before the first edge. */
  lemma NoArcsYet(front: seq<Line>, edges: seq<Edge>)
    ensures Concat(Rendered(front + EdgeLines(edges[..0]))) == Concat(Rendered(front))
  {
    assert front + EdgeLines(edges[..0]) == front;
  }

  /** Writing edge k appends its labelled or unlabelled line. */
  lemma ArcTextStep(front: seq<Line>, edges: seq<Edge>, k: nat)
    requires k < |edges|
    ensures Concat(Rendered(front + EdgeLines(edges[..k + 1]))) ==
      Concat(Rendered(front + EdgeLines(edges[..k]))) + (if edges[k].weight > 0 then LabelledArc(edges[k]) else PlainArc(edges[k]))
  {
    var arc := Arc(edges[k]);
    assert edges[..k + 1][..k] == edges[..k];
    assert front + EdgeLines(edges[..k + 1]) == front + EdgeLines(edges[..k]) + [arc];
    RenderedSnoc(front + EdgeLines(edges[..k]), arc);
    ConcatSnoc(Rendered(front + EdgeLines(edges[..k])), Render(arc));
  }

  /** The closing brace completes the DOT text. */
  lemma FooterText(numAgents: int, edges: seq<Edge>)
    ensures Concat(Rendered([Open] + NodeLines(Max0(numAgents)) + EdgeLines(edges[..|edges|]))) + "}\n" == DotText(numAgents, edges)
  {
    var front := [Open] + NodeLines(Max0(numAgents));
    assert edges[..|edges|] == edges;
    RenderedSnoc(front + EdgeLines(edges), Close);
    ConcatSnoc(Rendered(front + EdgeLines(edges)), "}\n");
  }

  /**
   visualize.go's text builder: the header, a node line for each of
   0 .. numAgents-1, a labelled or unlabelled line per edge, the closing brace.
   */
  method BuildDot(numAgents: int, edges: seq<Edge>) returns (dot: string)
    ensures dot == DotText(numAgents, edges)
  {
    dot := "digraph G {\n";
    HeaderText();
    var i := 0;
    while i < numAgents
      invariant 0 <= i <= Max0(numAgents)
      invariant dot == Concat(Rendered([Open] + NodeLines(i)))
    {
      NodeTextStep(i);
      dot := dot + NodeDecl(i);
      i := i + 1;
    }
    ghost var front := [Open] + NodeLines(Max0(numAgents));
    NoArcsYet(front, edges);
    for k := 0 to |edges|
      invariant dot == Concat(Rendered(front + EdgeLines(edges[..k])))
    {
      var edge := edges[k];
      ArcTextStep(front, edges, k);
      if edge.weight > 0 {
        dot := dot + LabelledArc(edge);
      } else {
        dot := dot + PlainArc(edge);
      }
    }
    FooterText(numAgents, edges);
    dot := dot + "}\n";
  }
}
