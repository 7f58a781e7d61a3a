/** Finding lines in the tree by number, by position in the tree and by height, and changing a line where
    it is. A line is named by the path of indices from the root down to it, which is its chain of parent
    links the other way round (LineLinks.LineNo). */
module LineIndex {
  import opened LineTree

  type Path = seq<nat>

  /** `p` leads from `n` to a line. */
  predicate Leads(n: Node, p: Path)
    decreases n
  {
    && p != []
    && match n
       case Leaf(lines, _) => |p| == 1 && p[0] < |lines|
       case Branch(children, _, _) => p[0] < |children| && Leads(children[p[0]], p[1..])
  }

  function LineAt(n: Node, p: Path): Line
    requires Leads(n, p)
    decreases n
  {
    match n
    case Leaf(lines, _) => lines[p[0]]
    case Branch(children, _, _) => LineAt(children[p[0]], p[1..])
  }

  /** getLine: the way down to line `k`. */
  function GetLine(n: Node, k: int): Path
    requires Cached(n) && 0 <= k < |Lines(n)|
    ensures Leads(n, GetLine(n, k))
    decreases n
  {
    match n
    case Leaf(_, _) => [k]
    case Branch(children, _, _) =>
      var i := ChildFor(children, k);
      ChildForSpec(children, k);
      [i] + GetLine(children[i], k - SumSizes(children[..i]))
  }

  /** The inner loop of getLine: the first child that reaches past offset `k`. */
  function ChildFor(cs: seq<Node>, k: int): nat
  {
    if cs == [] || k < ChunkSize(cs[0]) then 0 else 1 + ChildFor(cs[1..], k - ChunkSize(cs[0]))
  }

  lemma {:induction false} ChildForSpec(cs: seq<Node>, k: int)
    requires CachedAll(cs) && 0 <= k < |Flatten(cs)|
    ensures var i := ChildFor(cs, k);
            && i < |cs| && Cached(cs[i]) && SumSizes(cs[..i]) == |Flatten(cs[..i])|
            && 0 <= k - SumSizes(cs[..i]) < |Lines(cs[i])|
  {
    var i := ChildFor(cs, k);
    if k < ChunkSize(cs[0]) {
      assert cs[..0] == [];
    } else {
      ChildForSpec(cs[1..], k - ChunkSize(cs[0]));
      assert cs[..i][1..] == cs[1..][..i - 1];
    }
  }

  /** lineNo: up the parent links, adding the sizes of the siblings before. */
  function LineNo(n: Node, p: Path): int
    requires Leads(n, p)
    decreases n
  {
    match n
    case Leaf(_, _) => p[0]
    case Branch(children, _, _) => LineNo(children[p[0]], p[1..]) + SumSizes(children[..p[0]])
  }

  /** heightAtLine: up the parent links, adding the heights of what is before. */
  function HeightAt(n: Node, p: Path): real
    requires Leads(n, p)
    decreases n
  {
    match n
    case Leaf(lines, _) => TotalHeight(lines[..p[0]])
    case Branch(children, _, _) => HeightAt(children[p[0]], p[1..]) + SumHeights(children[..p[0]])
  }

  /** Where child `i` lies in the sequence of lines. */
  lemma SplitAtChild(cs: seq<Node>, i: nat)
    requires CachedAll(cs) && i < |cs|
    ensures var before, after := Flatten(cs[..i]), Flatten(cs[i + 1..]);
            && Flatten(cs) == before + Lines(cs[i]) + after
            && SumSizes(cs[..i]) == |before| && SumHeights(cs[..i]) == TotalHeight(before)
            && Cached(cs[i]) && CachedAll(cs[..i]) && CachedAll(cs[i + 1..])
  {
    assert cs == cs[..i] + ([cs[i]] + cs[i + 1..]);
    ConcatNodes(cs[..i], [cs[i]] + cs[i + 1..]);
    ConcatNodes([cs[i]], cs[i + 1..]);
    OneNode(cs[i]);
    CachedSums(cs[..i]);
  }

  /** The number and the height above a line, computed upwards from the line, agree with the sequence. */
  lemma {:induction false} PathMeansPosition(n: Node, p: Path)
    requires Cached(n) && Leads(n, p)
    ensures 0 <= LineNo(n, p) < |Lines(n)| && Lines(n)[LineNo(n, p)] == LineAt(n, p)
    ensures HeightAt(n, p) == TotalHeight(Lines(n)[..LineNo(n, p)])
    decreases n
  {
    if n.Branch? {
      var i := p[0];
      var c := n.children[i];
      SplitAtChild(n.children, i);
      PathMeansPosition(c, p[1..]);
      var before, k := Flatten(n.children[..i]), LineNo(c, p[1..]);
      assert Lines(n)[..|before| + k] == before + Lines(c)[..k];
      TotalHeightConcat(before, Lines(c)[..k]);
    }
  }

  /** lineNo(getLine(k)) == k */
  lemma {:induction false} LineNoOfGetLine(n: Node, k: int)
    requires Cached(n) && 0 <= k < |Lines(n)|
    ensures LineNo(n, GetLine(n, k)) == k && LineAt(n, GetLine(n, k)) == Lines(n)[k]
    decreases n
  {
    if n.Branch? {
      var i := ChildFor(n.children, k);
      ChildForSpec(n.children, k);
      LineNoOfGetLine(n.children[i], k - SumSizes(n.children[..i]));
      assert GetLine(n, k)[1..] == GetLine(n.children[i], k - SumSizes(n.children[..i]));
    }
    PathMeansPosition(n, GetLine(n, k));
  }

  /** getLine(lineNo(line)) == line: no two lines have the same number. */
  lemma {:induction false} GetLineOfLineNo(n: Node, p: Path)
    requires Cached(n) && Leads(n, p)
    ensures 0 <= LineNo(n, p) < |Lines(n)| && GetLine(n, LineNo(n, p)) == p
    decreases n
  {
    PathMeansPosition(n, p);
    if n.Branch? {
      var i := p[0];
      SplitAtChild(n.children, i);
      GetLineOfLineNo(n.children[i], p[1..]);
      ChildForIsUnique(n.children, LineNo(n, p), i);
      assert p == [i] + p[1..];
    } else {
      assert p == [p[0]];
    }
  }

  lemma {:induction false} ChildForIsUnique(cs: seq<Node>, k: int, i: nat)
    requires CachedAll(cs) && i < |cs| && 0 <= k - SumSizes(cs[..i]) < |Lines(cs[i])|
    ensures ChildFor(cs, k) == i
  {
    if i == 0 {
      assert cs[..0] == [];
    } else {
      SplitAtChild(cs, i);
      CachedSums(cs[..i]);
      assert cs[..i][1..] == cs[1..][..i - 1];
      ChildForIsUnique(cs[1..], k - ChunkSize(cs[0]), i - 1);
    }
  }

  // ----- by height -----

  ghost predicate NoNegativeHeights(lines: seq<Line>)
  {
    forall i: nat | i < |lines| :: lines[i].height >= 0.0
  }

  /** The linear scan: the first line whose bottom edge is below `h`, or the number of lines. */
  function ScanHeights(lines: seq<Line>, h: real): nat
  {
    if lines == [] || h < lines[0].height then 0 else 1 + ScanHeights(lines[1..], h - lines[0].height)
  }

  /** lineAtHeight, from a branch or leaf down. */
  function LineAtHeight(n: Node, h: real): int
    decreases n, 1
  {
    match n
    case Leaf(lines, _) => ScanHeights(lines, h)
    case Branch(children, _, _) => LineAtHeightBelow(children, h)
  }

  function LineAtHeightBelow(cs: seq<Node>, h: real): int
    decreases cs, 0
  {
    if cs == [] then 0
    else if h < cs[0].height then LineAtHeight(cs[0], h)
    else ChunkSize(cs[0]) + LineAtHeightBelow(cs[1..], h - cs[0].height)
  }

  lemma {:induction false} TotalNotNegative(lines: seq<Line>)
    requires NoNegativeHeights(lines)
    ensures TotalHeight(lines) >= 0.0
  {
    if lines != [] {
      TotalNotNegative(lines[1..]);
    }
  }

  lemma {:induction false} ScanConcat(a: seq<Line>, b: seq<Line>, h: real)
    requires NoNegativeHeights(a) && 0.0 <= h
    ensures ScanHeights(a + b, h) == if h < TotalHeight(a) then ScanHeights(a, h)
              else |a| + ScanHeights(b, h - TotalHeight(a))
    ensures h < TotalHeight(a) ==> ScanHeights(a, h) < |a|
  {
    if a == [] {
      assert a + b == b;
    } else {
      TotalNotNegative(a[1..]);
      if h >= a[0].height { ScanConcat(a[1..], b, h - a[0].height); }
      assert (a + b)[1..] == a[1..] + b;
    }
  }

  /** Searching the tree by height is the linear scan. */
  lemma {:induction false} LineAtHeightScans(n: Node, h: real)
    requires Cached(n) && NoNegativeHeights(Lines(n)) && 0.0 <= h
    ensures LineAtHeight(n, h) == ScanHeights(Lines(n), h)
    decreases n, 1
  {
    if n.Branch? {
      LineAtHeightBelowScans(n.children, h);
    }
  }

  lemma {:induction false} LineAtHeightBelowScans(cs: seq<Node>, h: real)
    requires CachedAll(cs) && NoNegativeHeights(Flatten(cs)) && 0.0 <= h
    ensures LineAtHeightBelow(cs, h) == ScanHeights(Flatten(cs), h)
    decreases cs, 0
  {
    if cs != [] {
      var a, b := Lines(cs[0]), Flatten(cs[1..]);
      assert Flatten(cs) == a + b;
      assert NoNegativeHeights(a) by {
        forall i: nat | i < |a| ensures a[i].height >= 0.0 { assert (a + b)[i] == a[i]; }
      }
      assert NoNegativeHeights(b) by {
        forall i: nat | i < |b| ensures b[i].height >= 0.0 { assert (a + b)[|a| + i] == b[i]; }
      }
      ScanConcat(a, b, h);
      if h < cs[0].height {
        LineAtHeightScans(cs[0], h);
      } else {
        LineAtHeightBelowScans(cs[1..], h - cs[0].height);
      }
    }
  }

  /** What the scan finds: the line whose stretch of the document contains `h`. */
  lemma {:induction false} ScanFinds(lines: seq<Line>, h: real)
    requires NoNegativeHeights(lines) && 0.0 <= h < TotalHeight(lines)
    ensures var i := ScanHeights(lines, h);
            i < |lines| && TotalHeight(lines[..i]) <= h < TotalHeight(lines[..i + 1])
  {
    var i := ScanHeights(lines, h);
    if h < lines[0].height {
      assert lines[..1][1..] == [];
    } else {
      ScanFinds(lines[1..], h - lines[0].height);
      assert lines[..i][1..] == lines[1..][..i - 1];
      assert lines[..i + 1][1..] == lines[1..][..i];
    }
  }

  /** For 0 <= h < the height of the document, lineAtHeight is the line that contains h. */
  lemma LineAtHeightContains(root: Node, h: real)
    requires Cached(root) && NoNegativeHeights(Lines(root)) && 0.0 <= h < root.height
    ensures var i := LineAtHeight(root, h);
            && 0 <= i < |Lines(root)|
            && TotalHeight(Lines(root)[..i]) <= h < TotalHeight(Lines(root)[..i + 1])
  {
    LineAtHeightScans(root, h);
    ScanFinds(Lines(root), h);
  }

  /** Above the document lineAtHeight finds the first line. */
  lemma {:induction false} AboveIsFirst(n: Node, h: real)
    requires Cached(n) && NoNegativeHeights(Lines(n)) && h < 0.0
    ensures LineAtHeight(n, h) == 0
    decreases n
  {
    if n.Branch? && n.children != [] {
      var cs := n.children;
      SplitAtChild(cs, 0);
      assert cs[..0] == [] && Flatten([]) == [];
      var a := Lines(cs[0]);
      forall i: nat | i < |a| ensures a[i].height >= 0.0 { assert Lines(n)[i] == a[i]; }
      TotalNotNegative(a);
      AboveIsFirst(cs[0], h);
    }
  }

  /** Below the document it finds the number behind the last line. */
  lemma BelowIsNone(root: Node, h: real)
    requires Cached(root) && NoNegativeHeights(Lines(root)) && 0.0 <= h && h >= root.height
    ensures LineAtHeight(root, h) == |Lines(root)|
  {
    LineAtHeightScans(root, h);
    ScanConcat(Lines(root), [], h);
    assert Lines(root) + [] == Lines(root);
  }

  lemma {:induction false} ScanAt(lines: seq<Line>, k: nat)
    requires NoNegativeHeights(lines) && k < |lines| && lines[k].height > 0.0
    ensures ScanHeights(lines, TotalHeight(lines[..k])) == k
  {
    if k > 0 {
      assert lines[..k][1..] == lines[1..][..k - 1];
      assert NoNegativeHeights(lines[..k][1..]);
      TotalNotNegative(lines[..k][1..]);
      ScanAt(lines[1..], k - 1);
    }
  }

  /** lineAtHeight inverts heightAtLine on lines of positive height. */
  lemma LineAtHeightOfLine(root: Node, p: Path)
    requires Cached(root) && NoNegativeHeights(Lines(root)) && Leads(root, p) && LineAt(root, p).height > 0.0
    ensures LineAtHeight(root, HeightAt(root, p)) == LineNo(root, p)
  {
    PathMeansPosition(root, p);
    TotalNotNegative(Lines(root)[..LineNo(root, p)]);
    LineAtHeightScans(root, HeightAt(root, p));
    ScanAt(Lines(root), LineNo(root, p));
  }

  // ----- changing one line -----

  /** updateLine with updateLineHeight: a new text, a new height, and its difference added all the way up. */
  function UpdateLine(n: Node, p: Path, line: Line): Node
    requires Leads(n, p)
    decreases n
  {
    var diff := line.height - LineAt(n, p).height;
    match n
    case Leaf(lines, h) => Leaf(lines[p[0] := line], h + diff)
    case Branch(children, size, h) =>
      Branch(children[p[0] := UpdateLine(children[p[0]], p[1..], line)], size, h + diff)
  }

  lemma TotalHeightUpdate(s: seq<Line>, i: nat, line: Line)
    requires i < |s|
    ensures TotalHeight(s[i := line]) == TotalHeight(s) + line.height - s[i].height
  {
    TotalHeightConcat(s[..i], s[i..]);
    TotalHeightConcat(s[..i], [line] + s[i + 1..]);
    assert s == s[..i] + s[i..];
    assert s[i := line] == s[..i] + ([line] + s[i + 1..]);
  }

  /** Changing a line in the tree changes it in the sequence, and keeps every cached size and height. */
  lemma {:induction false} UpdateLineRefines(n: Node, p: Path, line: Line)
    requires Cached(n) && Bounded(n) && Leads(n, p)
    ensures var r := UpdateLine(n, p, line);
            && 0 <= LineNo(n, p) < |Lines(n)| && Lines(r) == Lines(n)[LineNo(n, p) := line]
            && Cached(r) && Bounded(r) && (r.Branch? <==> n.Branch?)
    decreases n
  {
    hide TotalHeight, Flatten, CachedAll, BoundedAll, SumSizes, SumHeights, HeightAt;
    var k := LineNo(n, p);
    PathMeansPosition(n, p);
    TotalHeightUpdate(Lines(n), k, line);
    if n.Branch? {
      var cs, i := n.children, p[0];
      SplitAtChild(cs, i);
      BoundedChild(cs, i);
      UpdateLineRefines(cs[i], p[1..], line);
      var c := UpdateLine(cs[i], p[1..], line);
      ReplaceChild(cs, i, c);
    }
  }

  lemma BoundedChild(cs: seq<Node>, i: nat)
    requires BoundedAll(cs) && i < |cs|
    ensures BoundedAll(cs[..i]) && Bounded(cs[i]) && BoundedAll(cs[i + 1..])
  {
    assert cs == cs[..i] + ([cs[i]] + cs[i + 1..]);
    ConcatNodes(cs[..i], [cs[i]] + cs[i + 1..]);
    ConcatNodes([cs[i]], cs[i + 1..]);
    OneNode(cs[i]);
  }

  lemma ReplaceChild(cs: seq<Node>, i: nat, c: Node)
    requires i < |cs| && CachedAll(cs) && BoundedAll(cs) && Cached(c) && Bounded(c)
    ensures CachedAll(cs[i := c]) && BoundedAll(cs[i := c])
    ensures Flatten(cs[i := c]) == Flatten(cs[..i]) + Lines(c) + Flatten(cs[i + 1..])
  {
    hide Flatten, Lines, Cached, CachedAll, Bounded, BoundedAll, SumSizes, SumHeights, TotalHeight;
    SplitAtChild(cs, i);
    BoundedChild(cs, i);
    assert cs[i := c] == cs[..i] + ([c] + cs[i + 1..]);
    ConcatNodes(cs[..i], [c] + cs[i + 1..]);
    ConcatNodes([c], cs[i + 1..]);
    OneNode(c);
  }
}
