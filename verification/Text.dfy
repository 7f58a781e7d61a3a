/** Positions, texts as non-empty lists of lines, and the algebra of cutting and joining them. */
module Text {

  datatype Pos = Pos(line: int, ch: int)

  /** cmp: negative, zero or positive. */
  function Cmp(a: Pos, b: Pos): int
  {
    if a.line != b.line then a.line - b.line else a.ch - b.ch
  }

  predicate Le(a: Pos, b: Pos)
  {
    Cmp(a, b) <= 0
  }

  function MaxPos(a: Pos, b: Pos): Pos { if Cmp(a, b) < 0 then b else a }

  function MinPos(a: Pos, b: Pos): Pos { if Cmp(a, b) < 0 then a else b }

  /** A document's or a change's text: its lines, at least one. */
  type Lines = l: seq<string> | l != [] witness [""]

  function Last<T>(s: seq<T>): T
    requires s != []
  {
    s[|s| - 1]
  }

  /** `p` is a position in `l`. */
  predicate InText(l: Lines, p: Pos)
  {
    0 <= p.line < |l| && 0 <= p.ch <= |l[p.line]|
  }

  /** The text before `p`. */
  function Before(l: Lines, p: Pos): Lines
    requires InText(l, p)
  {
    l[..p.line] + [l[p.line][..p.ch]]
  }

  /** The text after `p`. */
  function After(l: Lines, p: Pos): Lines
    requires InText(l, p)
  {
    [l[p.line][p.ch..]] + l[p.line + 1..]
  }

  /** The text between two positions. */
  function Between(l: Lines, from: Pos, to: Pos): Lines
    requires InText(l, from) && InText(l, to) && Le(from, to)
  {
    if from.line == to.line then [l[from.line][from.ch..to.ch]]
    else [l[from.line][from.ch..]] + l[from.line + 1..to.line] + [l[to.line][..to.ch]]
  }

  /** The text `a` directly followed by the text `b`. */
  function Glue(a: Lines, b: Lines): Lines
  {
    a[..|a| - 1] + [Last(a) + b[0]] + b[1..]
  }

  /** The position at the end of a text. */
  function End(a: Lines): Pos
  {
    Pos(|a| - 1, |Last(a)|)
  }

  /** The lines joined by line breaks, as getValue returns them. */
  function Joined(l: Lines): string
    decreases |l|
  {
    if |l| == 1 then l[0] else l[0] + "\n" + Joined(l[1..])
  }

  lemma GlueAssociates(a: Lines, b: Lines, c: Lines)
    ensures Glue(Glue(a, b), c) == Glue(a, Glue(b, c))
  {
    var l, r := Glue(Glue(a, b), c), Glue(a, Glue(b, c));
    if |b| == 1 {
      assert Last(a) + b[0] + c[0] == Last(a) + (b[0] + c[0]);
      assert Glue(a, b) == a[..|a| - 1] + [Last(a) + b[0]];
      assert Glue(b, c) == [b[0] + c[0]] + c[1..];
      assert l == a[..|a| - 1] + [Last(a) + b[0] + c[0]] + c[1..];
    } else {
      var m := b[1..|b| - 1];
      assert Glue(a, b) == a[..|a| - 1] + [Last(a) + b[0]] + m + [Last(b)];
      assert Glue(b, c) == [b[0]] + m + [Last(b) + c[0]] + c[1..];
      assert l == a[..|a| - 1] + [Last(a) + b[0]] + m + [Last(b) + c[0]] + c[1..];
    }
  }

  /** Gluing is concatenation of the joined texts. */
  lemma {:induction false} JoinedGlue(a: Lines, b: Lines)
    ensures Joined(Glue(a, b)) == Joined(a) + Joined(b)
    decreases |a|
  {
    var g := Glue(a, b);
    if |a| == 1 {
      if |b| == 1 {
        assert g == [a[0] + b[0]];
      } else {
        assert g[0] == a[0] + b[0] && g[1..] == b[1..];
      }
    } else {
      JoinedGlue(a[1..], b);
      assert g[0] == a[0] && g[1..] == Glue(a[1..], b);
    }
  }

  /** A text is what is before and after any of its positions. */
  lemma CutAndGlue(l: Lines, p: Pos)
    requires InText(l, p)
    ensures Glue(Before(l, p), After(l, p)) == l
    ensures End(Before(l, p)) == p
  {
    assert l[p.line] == l[p.line][..p.ch] + l[p.line][p.ch..];
  }

  /** The end of `a` is a position in `a` followed by `b`, and cuts it into `a` and `b`. */
  lemma GlueAndCut(a: Lines, b: Lines)
    ensures InText(Glue(a, b), End(a))
    ensures Before(Glue(a, b), End(a)) == a && After(Glue(a, b), End(a)) == b
  {
    var g, e := Glue(a, b), End(a);
    assert g[e.line] == Last(a) + b[0];
    assert a == a[..|a| - 1] + [Last(a)];
    assert g[e.line + 1..] == b[1..];
  }

  lemma BetweenGlues(l: Lines, from: Pos, to: Pos)
    requires InText(l, from) && InText(l, to) && Le(from, to)
    ensures Glue(Before(l, from), Between(l, from, to)) == Before(l, to)
    ensures Glue(Between(l, from, to), After(l, to)) == After(l, from)
  {
    var a, m, c := Before(l, from), Between(l, from, to), After(l, to);
    var fl, tl := l[from.line], l[to.line];
    if from.line == to.line {
      assert fl[..from.ch] + fl[from.ch..to.ch] == fl[..to.ch];
      assert fl[from.ch..to.ch] + fl[to.ch..] == fl[from.ch..];
    } else {
      BetweenGluesBefore(l, from, to);
      BetweenGluesAfter(l, from, to);
    }
  }

  lemma BetweenGluesBefore(l: Lines, from: Pos, to: Pos)
    requires InText(l, from) && InText(l, to) && from.line < to.line
    ensures Glue(Before(l, from), Between(l, from, to)) == Before(l, to)
  {
    var fl := l[from.line];
    assert fl[..from.ch] + fl[from.ch..] == fl;
    assert Before(l, to) == l[..from.line] + [fl] + l[from.line + 1..to.line] + [l[to.line][..to.ch]];
  }

  lemma BetweenGluesAfter(l: Lines, from: Pos, to: Pos)
    requires InText(l, from) && InText(l, to) && from.line < to.line
    ensures Glue(Between(l, from, to), After(l, to)) == After(l, from)
  {
    var tl := l[to.line];
    assert tl[..to.ch] + tl[to.ch..] == tl;
    assert After(l, from) == [l[from.line][from.ch..]] + l[from.line + 1..to.line] + [tl] + l[to.line + 1..];
  }

  /** Where `b` ends when it starts at the end of `a`. */
  lemma EndOfGlue(a: Lines, b: Lines)
    ensures End(Glue(a, b)) == Pos(|a| - 1 + |b| - 1, |Last(b)| + if |b| == 1 then |Last(a)| else 0)
  {
  }

  // ----- changes -----

  /** Replace what is between `from` and `to` by `text`. */
  datatype Change = Change(from: Pos, to: Pos, text: Lines)

  predicate InRange(l: Lines, c: Change)
  {
    InText(l, c.from) && InText(l, c.to) && Le(c.from, c.to)
  }

  /** changeEnd: where the new text ends. */
  function ChangeEnd(c: Change): Pos
  {
    Pos(c.from.line + |c.text| - 1, |Last(c.text)| + if |c.text| == 1 then c.from.ch else 0)
  }

  /** isWholeLineUpdate: from one line start to another, with a text that ends in a line break. `option`:
      there is no editor, or it has wholeLineUpdateBefore set. */
  predicate IsWholeLineUpdate(c: Change, option: bool)
  {
    c.from.ch == 0 && c.to.ch == 0 && Last(c.text) == "" && option
  }

  /** How many line objects updateDoc makes. */
  function LinesMade(c: Change, option: bool): nat
  {
    if IsWholeLineUpdate(c, option) then |c.text| - 1
    else if |c.text| == 1 then 0
    else if c.from.line == c.to.line then |c.text| - 1
    else |c.text| - 2
  }

  /** The line objects of a document after updateDoc: those of `before` that it keeps, and the `added` ones. */
  function LineObjects<L>(before: seq<L>, c: Change, option: bool, added: seq<L>): seq<L>
    requires 0 <= c.from.line <= c.to.line < |before|
  {
    var from, to := c.from.line, c.to.line;
    if IsWholeLineUpdate(c, option) then before[..from] + added + before[to..]
    else if from == to then
      if |c.text| == 1 then before else before[..from + 1] + added + before[from + 1..]
    else if |c.text| == 1 then before[..from + 1] + before[to + 1..]
    else before[..from + 1] + added + before[to..]
  }

  /** The text before `from`, then the change's text, then the text after `to`. */
  function Splice(l: Lines, c: Change): Lines
    requires InRange(l, c)
  {
    Glue(Glue(Before(l, c.from), c.text), After(l, c.to))
  }

  /** historyChangeFromChange: the change that takes `c` back. */
  function Inverse(l: Lines, c: Change): Change
    requires InRange(l, c)
  {
    Change(c.from, ChangeEnd(c), Between(l, c.from, c.to))
  }

  /** Joined up, a splice is a replacement in a string. */
  lemma SpliceJoined(l: Lines, c: Change)
    requires InRange(l, c)
    ensures Joined(Splice(l, c)) == Joined(Before(l, c.from)) + Joined(c.text) + Joined(After(l, c.to))
    ensures Joined(l) == Joined(Before(l, c.from)) + Joined(Between(l, c.from, c.to)) + Joined(After(l, c.to))
  {
    var b, a := Before(l, c.from), After(l, c.to);
    JoinedGlue(Glue(b, c.text), a);
    JoinedGlue(b, c.text);
    BetweenGlues(l, c.from, c.to);
    CutAndGlue(l, c.from);
    JoinedGlue(b, After(l, c.from));
    JoinedGlue(Between(l, c.from, c.to), a);
  }

  /** After a splice, the end of the change cuts off exactly the text that was after it, and its start the
      text that was before it. */
  lemma SpliceParts(l: Lines, c: Change)
    requires InRange(l, c)
    ensures var r := Splice(l, c);
            && InText(r, c.from) && InText(r, ChangeEnd(c)) && Le(c.from, ChangeEnd(c))
            && Before(r, c.from) == Before(l, c.from) && After(r, ChangeEnd(c)) == After(l, c.to)
            && Between(r, c.from, ChangeEnd(c)) == c.text
  {
    var b, t, a := Before(l, c.from), c.text, After(l, c.to);
    var r := Splice(l, c);
    CutAndGlue(l, c.from);
    EndOfGlue(b, t);
    GlueAndCut(Glue(b, t), a);
    GlueAssociates(b, t, a);
    GlueAndCut(b, Glue(t, a));
    BetweenGlues(r, c.from, ChangeEnd(c));
    CancelLeft(b, Between(r, c.from, ChangeEnd(c)), t);
  }

  lemma CancelLeft(a: Lines, b: Lines, c: Lines)
    requires Glue(a, b) == Glue(a, c)
    ensures b == c
  {
    GlueAndCut(a, b);
    GlueAndCut(a, c);
  }

  /** The inverse of a change is in range after it, and takes it back exactly. */
  lemma InverseUndoes(l: Lines, c: Change)
    requires InRange(l, c)
    ensures InRange(Splice(l, c), Inverse(l, c))
    ensures Splice(Splice(l, c), Inverse(l, c)) == l
  {
    SpliceParts(l, c);
    BetweenGlues(l, c.from, c.to);
    CutAndGlue(l, c.to);
  }

  /** Taking back twice redoes: the inverse of the inverse is the change. */
  lemma InverseOfInverse(l: Lines, c: Change)
    requires InRange(l, c)
    ensures InRange(Splice(l, c), Inverse(l, c))
    ensures Inverse(Splice(l, c), Inverse(l, c)) == c
  {
    SpliceParts(l, c);
    InverseUndoes(l, c);
    var h := Inverse(l, c);
    BetweenGlues(l, c.from, c.to);
    CutAndGlue(l, c.from);
    CutAndGlue(l, c.to);
    EndOfGlue(Before(l, c.from), h.text);
    assert ChangeEnd(h) == c.to;
  }

  /** Text before a change stays where it is. */
  lemma BeforeUnchanged(l: Lines, c: Change, p: Pos)
    requires InRange(l, c) && InText(l, p) && Le(p, c.from)
    ensures InText(Splice(l, c), p) && Before(Splice(l, c), p) == Before(l, p)
  {
    var m, t, a := Between(l, p, c.from), c.text, After(l, c.to);
    BetweenGlues(l, p, c.from);
    CutAndGlue(l, p);
    GlueAssociates(Before(l, p), m, t);
    GlueAssociates(Before(l, p), Glue(m, t), a);
    GlueAndCut(Before(l, p), Glue(Glue(m, t), a));
  }

  /** Taking back `h` and then an insertion at its end, in one go. */
  lemma ExtendedInverse(l: Lines, h: Change, c: Change)
    requires InRange(l, h) && InRange(l, c) && c.from == c.to == h.to
    ensures var h' := h.(to := ChangeEnd(c));
            InRange(Splice(l, c), h') && Splice(Splice(l, c), h') == Splice(l, h)
  {
    SpliceParts(l, c);
    BeforeUnchanged(l, c, h.from);
  }

  /** clipPos: the nearest position that is in the text. */
  function Clip(l: Lines, p: Pos): Pos
  {
    var last := |l| - 1;
    if p.line < 0 then Pos(0, 0)
    else if p.line > last then Pos(last, |l[last]|)
    else if p.ch > |l[p.line]| then Pos(p.line, |l[p.line]|)
    else if p.ch < 0 then Pos(p.line, 0)
    else p
  }

  /** Clipping gives a position in the text, leaves those alone, and keeps the order of any two. */
  lemma ClipIsNearest(l: Lines, p: Pos, q: Pos)
    ensures InText(l, Clip(l, p)) && (InText(l, p) ==> Clip(l, p) == p)
    ensures Le(p, q) ==> Le(Clip(l, p), Clip(l, q))
  {
  }
}
