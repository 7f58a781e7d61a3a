/** Where strings and comments of the SML mode end: as its loops find it, and by grammars. */
module SmlGrammar {
  import opened Common

  /** peek: is `c` the next character? */
  predicate At(text: string, pos: nat, c: char)
  {
    pos < |text| && text[pos] == c
  }

  // ----- strings -----

  /** The character at `k` is escaped by a backslash, counting from `start`. */
  predicate Escaped(text: string, start: nat, k: nat)
    requires start <= k <= |text|
  {
    k > start && text[k - 1] == '\\' && !Escaped(text, start, k - 1)
  }

  predicate Closes(text: string, start: nat, k: nat)
    requires start <= k < |text|
  {
    text[k] == '\"' && !Escaped(text, start, k)
  }

  /** Where a string that is open at `start` ends: behind the first closing quote from `k` on. None: not on
      this line. */
  function StringEnd(text: string, start: nat, k: nat): (r: Option<nat>)
    requires start <= k <= |text|
    ensures r == None ==> forall j: nat | k <= j < |text| :: !Closes(text, start, j)
    ensures r.Some? ==> k < r.value <= |text| && Closes(text, start, r.value - 1) &&
                        forall j: nat | k <= j < r.value - 1 :: !Closes(text, start, j)
    decreases |text| - k
  {
    if k == |text| then None else if Closes(text, start, k) then Some(k + 1) else StringEnd(text, start, k + 1)
  }

  /** From `a` to `b`: units of a string, each a character other than a quote or a backslash, or a backslash with
      any one character. */
  ghost predicate Units(text: string, a: nat, b: nat)
    requires b <= |text|
    decreases b - a
  {
    || a == b
    || (a + 1 <= b && text[a] != '\"' && text[a] != '\\' && Units(text, a + 1, b))
    || (a + 2 <= b && text[a] == '\\' && Units(text, a + 2, b))
  }

  /** The string that is open at `start` ends at `p`: units, and a quote. */
  ghost predicate StringEnds(text: string, start: nat, p: nat)
  {
    start < p <= |text| && Units(text, start, p - 1) && text[p - 1] == '\"'
  }

  /** Units come to an end where no character is escaped, with no closing quote in them. */
  lemma {:induction false} UnitsDoNotClose(text: string, start: nat, a: nat, b: nat)
    requires start <= a <= b <= |text| && !Escaped(text, start, a)
    ensures Units(text, a, b) <==> !Escaped(text, start, b) && forall j: nat | a <= j < b :: !Closes(text, start, j)
    decreases b - a
  {
    if a < b {
      if text[a] == '\\' {
        assert Escaped(text, start, a + 1);
        if a + 2 <= b {
          assert !Closes(text, start, a) && !Closes(text, start, a + 1);
          UnitsDoNotClose(text, start, a + 2, b);
        }
      } else if text[a] == '\"' {
        assert Closes(text, start, a);
      } else {
        assert !Closes(text, start, a);
        UnitsDoNotClose(text, start, a + 1, b);
      }
    }
  }

  /** The loop finds the end of the string. */
  lemma StringEndIff(text: string, start: nat, p: nat)
    requires start <= |text|
    ensures StringEnd(text, start, start) == Some(p) <==> StringEnds(text, start, p)
  {
    if start < p <= |text| {
      UnitsDoNotClose(text, start, start, p - 1);
      assert StringEnds(text, start, p) ==> Closes(text, start, p - 1);
    }
  }

  lemma StringEndMeans(text: string, start: nat)
    requires start <= |text|
    ensures forall p: nat :: StringEnds(text, start, p) <==> StringEnd(text, start, start) == Some(p)
  {
    forall p: nat ensures StringEnds(text, start, p) <==> StringEnd(text, start, start) == Some(p) {
      StringEndIff(text, start, p);
    }
  }

  // ----- comments -----

  /** By how much the characters from `start` to `k` change the comment depth: +1 for each ( directly
      followed by a star, -1 for each star directly followed by ). */
  function Balance(text: string, start: nat, k: nat): int
    requires start <= k <= |text|
    decreases k
  {
    if k <= start + 1 then 0
    else
      var pair := text[k - 2..k];
      Balance(text, start, k - 1) + if pair == "(*" then 1 else if pair == "*)" then -1 else 0
  }

  /** Where a comment that is open `depth` deep at `start` closes, from `k` on; the end of the line when it
      does not. */
  function CommentEnd(text: string, start: nat, k: nat, depth: nat): (r: nat)
    requires start <= k <= |text|
    ensures k <= r <= |text| && (r < |text| ==> depth + Balance(text, start, r) <= 0)
    ensures forall j: nat | k <= j < r :: depth + Balance(text, start, j) > 0
    decreases |text| - k
  {
    if k == |text| || depth + Balance(text, start, k) <= 0 then k else CommentEnd(text, start, k + 1, depth)
  }

  lemma {:induction false} DepthStaysNatural(text: string, start: nat, k: nat, depth: nat)
    requires start <= k <= |text|
    requires forall j: nat | start <= j < k :: depth + Balance(text, start, j) > 0
    ensures depth + Balance(text, start, k) >= 0
  {
  }

  predicate Pair(text: string, k: nat, a: char, b: char)
  {
    At(text, k, a) && At(text, k + 1, b)
  }

  /** An opening inside a comment. One that is directly followed by ) closes itself. */
  predicate Opens(text: string, k: nat)
  {
    Pair(text, k, '(', '*') && !At(text, k + 2, ')')
  }

  predicate ClosesItself(text: string, k: nat)
  {
    Pair(text, k, '(', '*') && At(text, k + 2, ')')
  }

  /** From `a` to `b`: an opening that closes itself, a whole comment, or a character that begins neither an
      opening nor a closing. */
  ghost predicate Item(text: string, a: nat, b: nat)
    decreases b - a, 0
  {
    || (ClosesItself(text, a) && b == a + 3)
    || (Opens(text, a) && a + 4 <= b && Pair(text, b - 2, '*', ')') && Body(text, a + 2, b - 2))
    || (a < |text| && !Pair(text, a, '(', '*') && !Pair(text, a, '*', ')') && b == a + 1)
  }

  /** From `a` to `b`: what a comment can hold. */
  ghost predicate Body(text: string, a: nat, b: nat)
    decreases b - a, 1
  {
    a == b || exists m: nat :: a < m <= b && Item(text, a, m) && Body(text, m, b)
  }

  /** `d` comments that are open at `a` end, the last one at `p`. */
  ghost predicate CommentsEnd(text: string, a: nat, d: nat, p: nat)
    decreases d
  {
    if d == 0 then p == a
    else exists m: nat :: a <= m && Body(text, a, m) && Pair(text, m, '*', ')') && CommentsEnd(text, m + 2, d - 1, p)
  }

  /** A comment is open at `a`, and of it and those opened in it `e` are still open at the end of the line. */
  ghost predicate Unclosed(text: string, a: nat, e: nat)
    decreases e
  {
    exists m: nat :: a <= m <= |text| && Body(text, a, m) &&
      if m == |text| then e == 1 else Opens(text, m) && e > 0 && Unclosed(text, m + 2, e - 1)
  }

  /** `d` comments are open at `a`, and `e` at the end of the line. */
  ghost predicate StillOpen(text: string, a: nat, d: nat, e: nat)
    decreases d
  {
    && d > 0
    && ((e >= d && Unclosed(text, a, e - d + 1)) ||
        exists m: nat :: a <= m && Body(text, a, m) && Pair(text, m, '*', ')') && StillOpen(text, m + 2, d - 1, e))
  }

  /** Reading on inside comments, `d` deep: where the last of them ends and 0, or the end of the line and how many
      are open there. */
  function Read(text: string, a: nat, d: nat): (r: (nat, nat))
    requires a <= |text|
    ensures a <= r.0 <= |text| && (r.0 < |text| ==> r.1 == 0)
    decreases |text| - a
  {
    if d == 0 || a == |text| then (a, d)
    else if ClosesItself(text, a) then Read(text, a + 3, d)
    else if Opens(text, a) then Read(text, a + 2, d + 1)
    else if Pair(text, a, '*', ')') then Read(text, a + 2, d - 1)
    else Read(text, a + 1, d)
  }

  /** No opening and no closing lies across `a`. */
  predicate Fresh(text: string, start: nat, a: nat)
  {
    start < a < |text| ==> !Pair(text, a - 1, '(', '*') && !Pair(text, a - 1, '*', ')')
  }

  /** What one more character does. */
  lemma BalanceStep(text: string, start: nat, k: nat)
    requires start <= k < |text|
    ensures Balance(text, start, k + 1) - Balance(text, start, k) ==
            if k == start then 0
            else if Pair(text, k - 1, '(', '*') then 1 else if Pair(text, k - 1, '*', ')') then -1 else 0
  {
    if k > start {
      assert text[k - 1..k + 1] == [text[k - 1], text[k]];
    }
  }

  /** What the two characters of an opening or a closing do. */
  lemma PairStep(text: string, start: nat, a: nat, depth: nat)
    requires start <= a <= |text| && Fresh(text, start, a) && depth + Balance(text, start, a) > 0
    requires Pair(text, a, '(', '*') || Pair(text, a, '*', ')')
    ensures CommentEnd(text, start, a, depth) == CommentEnd(text, start, a + 2, depth)
    ensures Balance(text, start, a + 2) == Balance(text, start, a) + if Pair(text, a, '(', '*') then 1 else -1
  {
    hide Balance;
    BalanceStep(text, start, a);
    BalanceStep(text, start, a + 1);
  }

  /** The loop reads on. */
  lemma {:induction false} LoopReads(text: string, start: nat, a: nat, depth: nat, d: nat)
    requires start <= a <= |text| && Fresh(text, start, a) && depth + Balance(text, start, a) == d
    ensures var end := CommentEnd(text, start, a, depth);
            depth + Balance(text, start, end) >= 0 && Read(text, a, d) == (end, depth + Balance(text, start, end))
    decreases |text| - a
  {
    hide Balance, Fresh;
    if d > 0 && a < |text| {
      hide Read, CommentEnd;
      var b, left := LoopStep(text, start, a, depth, d);
      LoopReads(text, start, b, depth, left);
    }
  }

  lemma LoopStep(text: string, start: nat, a: nat, depth: nat, d: nat) returns (b: nat, left: nat)
    requires start <= a < |text| && Fresh(text, start, a) && depth + Balance(text, start, a) == d > 0
    ensures a < b <= |text| && Fresh(text, start, b) && depth + Balance(text, start, b) == left
    ensures Read(text, a, d) == Read(text, b, left)
    ensures CommentEnd(text, start, a, depth) == CommentEnd(text, start, b, depth)
  {
    hide Balance, CommentEnd;
    if Pair(text, a, '(', '*') || Pair(text, a, '*', ')') {
      PairStep(text, start, a, depth);
      b, left := a + 2, if Pair(text, a, '(', '*') then d + 1 else d - 1;
      if ClosesItself(text, a) {
        PairStepBack(text, start, a, depth);
        b, left := a + 3, d;
      }
    } else {
      SingleStep(text, start, a, depth);
      b, left := a + 1, d;
    }
  }

  lemma SingleStep(text: string, start: nat, a: nat, depth: nat)
    requires start <= a < |text| && Fresh(text, start, a) && depth + Balance(text, start, a) > 0
    ensures CommentEnd(text, start, a, depth) == CommentEnd(text, start, a + 1, depth)
    ensures Balance(text, start, a + 1) == Balance(text, start, a)
  {
    hide Balance;
    BalanceStep(text, start, a);
  }

  lemma PairStepBack(text: string, start: nat, a: nat, depth: nat)
    requires start <= a && ClosesItself(text, a) && depth + Balance(text, start, a + 2) > 1
    ensures CommentEnd(text, start, a + 2, depth) == CommentEnd(text, start, a + 3, depth)
    ensures Balance(text, start, a + 3) == Balance(text, start, a + 2) - 1
  {
    hide Balance;
    BalanceStep(text, start, a + 2);
  }

  /** Where the comment that is open at `a` ends, if it does on this line. */
  function CloseOf(text: string, a: nat): (r: Option<nat>)
    ensures r.Some? ==> a < r.value <= |text|
    decreases |text| - a
  {
    if a >= |text| then None
    else if ClosesItself(text, a) then CloseOf(text, a + 3)
    else if Opens(text, a) then
      var inner := CloseOf(text, a + 2);
      if inner == None then None else CloseOf(text, inner.value)
    else if Pair(text, a, '*', ')') then Some(a + 2)
    else CloseOf(text, a + 1)
  }

  /** If it does not: how many comments are open at the end of the line, this one being the first. */
  function OpenAtEnd(text: string, a: nat): nat
    decreases |text| - a
  {
    if a >= |text| then 1
    else if ClosesItself(text, a) then OpenAtEnd(text, a + 3)
    else if Opens(text, a) then
      var inner := CloseOf(text, a + 2);
      if inner == None then 1 + OpenAtEnd(text, a + 2) else OpenAtEnd(text, inner.value)
    else OpenAtEnd(text, a + 1)
  }

  /** Reading on goes from the end of one comment to the next. */
  lemma {:induction false} ReadsToClose(text: string, a: nat, d: nat)
    requires a <= |text| && d > 0
    ensures Read(text, a, d) == match CloseOf(text, a)
              case None => (|text|, d - 1 + OpenAtEnd(text, a))
              case Some(m) => Read(text, m, d - 1)
    decreases |text| - a
  {
    if a < |text| {
      if ClosesItself(text, a) {
        ReadsToClose(text, a + 3, d);
      } else if Opens(text, a) {
        ReadsToClose(text, a + 2, d + 1);
        var inner := CloseOf(text, a + 2);
        if inner.Some? { ReadsToClose(text, inner.value, d); }
      } else if !Pair(text, a, '*', ')') {
        ReadsToClose(text, a + 1, d);
      }
    }
  }

  /** What a comment can hold does not end it. */
  lemma {:induction false} BodySkips(text: string, a: nat, b: nat)
    requires Body(text, a, b) && a <= b
    ensures CloseOf(text, a) == CloseOf(text, b) && OpenAtEnd(text, a) == OpenAtEnd(text, b)
    decreases b - a
  {
    if a < b {
      var m: nat :| a < m <= b && Item(text, a, m) && Body(text, m, b);
      BodySkips(text, m, b);
      if Opens(text, a) {
        BodySkips(text, a + 2, m - 2);
        assert CloseOf(text, m - 2) == Some(m);
      }
    }
  }

  /** A comment ends where its body is followed by a closing. */
  lemma {:induction false} CloseOfIff(text: string, a: nat, p: nat)
    ensures CloseOf(text, a) == Some(p) <==>
            a + 2 <= p && Body(text, a, p - 2) && Pair(text, p - 2, '*', ')')
  {
    if a + 2 <= p && Body(text, a, p - 2) && Pair(text, p - 2, '*', ')') {
      BodySkips(text, a, p - 2);
    }
    if CloseOf(text, a) == Some(p) { ClosesBehindBody(text, a, p); }
  }

  lemma {:induction false} ClosesBehindBody(text: string, a: nat, p: nat)
    requires CloseOf(text, a) == Some(p)
    ensures a + 2 <= p && Body(text, a, p - 2) && Pair(text, p - 2, '*', ')')
    decreases |text| - a
  {
    if ClosesItself(text, a) {
      ClosesBehindBody(text, a + 3, p);
      assert Item(text, a, a + 3);
    } else if Opens(text, a) {
      var m := CloseOf(text, a + 2).value;
      ClosesBehindBody(text, a + 2, m);
      ClosesBehindBody(text, m, p);
      assert Item(text, a, m);
    } else if !Pair(text, a, '*', ')') {
      ClosesBehindBody(text, a + 1, p);
      assert Item(text, a, a + 1);
    }
  }

  lemma {:induction false} UnclosedIff(text: string, a: nat, e: nat)
    requires a <= |text|
    ensures Unclosed(text, a, e) <==> CloseOf(text, a) == None && OpenAtEnd(text, a) == e
  {
    if Unclosed(text, a, e) { UnclosedMeans(text, a, e); }
    if CloseOf(text, a) == None { OpenMeansUnclosed(text, a); }
  }

  lemma {:induction false} UnclosedMeans(text: string, a: nat, e: nat)
    requires a <= |text| && Unclosed(text, a, e)
    ensures CloseOf(text, a) == None && OpenAtEnd(text, a) == e
    decreases e
  {
    var m: nat :| a <= m <= |text| && Body(text, a, m) &&
      if m == |text| then e == 1 else Opens(text, m) && e > 0 && Unclosed(text, m + 2, e - 1);
    BodySkips(text, a, m);
    if m < |text| { UnclosedMeans(text, m + 2, e - 1); }
  }

  lemma {:induction false} OpenMeansUnclosed(text: string, a: nat)
    requires a <= |text| && CloseOf(text, a) == None
    ensures OpenAtEnd(text, a) > 0 && Unclosed(text, a, OpenAtEnd(text, a))
    decreases |text| - a
  {
    if a == |text| {
      assert Body(text, a, a);
    } else if ClosesItself(text, a) {
      OpenMeansUnclosed(text, a + 3);
      ItemBefore(text, a, a + 3, OpenAtEnd(text, a + 3));
    } else if Opens(text, a) && CloseOf(text, a + 2) == None {
      OpenMeansUnclosed(text, a + 2);
      assert Body(text, a, a);
    } else if Opens(text, a) {
      var m := CloseOf(text, a + 2).value;
      ClosesBehindBody(text, a + 2, m);
      OpenMeansUnclosed(text, m);
      ItemBefore(text, a, m, OpenAtEnd(text, m));
    } else {
      OpenMeansUnclosed(text, a + 1);
      ItemBefore(text, a, a + 1, OpenAtEnd(text, a + 1));
    }
  }

  lemma ItemBefore(text: string, a: nat, b: nat, e: nat)
    requires a < b <= |text| && Item(text, a, b) && Unclosed(text, b, e)
    ensures Unclosed(text, a, e)
  {
    var m: nat :| b <= m <= |text| && Body(text, b, m) &&
      if m == |text| then e == 1 else Opens(text, m) && e > 0 && Unclosed(text, m + 2, e - 1);
    assert Body(text, a, m);
  }

  /** Comments end as the grammar has it. */
  lemma {:induction false} ReadsToEnd(text: string, a: nat, d: nat, p: nat)
    requires a <= |text|
    ensures Read(text, a, d) == (p, 0) <==> CommentsEnd(text, a, d, p)
    decreases d
  {
    if d > 0 {
      ReadsToClose(text, a, d);
      var close := CloseOf(text, a);
      if close.Some? {
        CloseOfIff(text, a, close.value);
        ReadsToEnd(text, close.value, d - 1, p);
      }
      if CommentsEnd(text, a, d, p) {
        var m: nat :| a <= m && Body(text, a, m) && Pair(text, m, '*', ')') && CommentsEnd(text, m + 2, d - 1, p);
        CloseOfIff(text, a, m + 2);
      }
      assert Read(text, a, d) == (p, 0) ==> close.Some?  by { if close == None { OpenMeansUnclosed(text, a); } }
      if Read(text, a, d) == (p, 0) {
        assert close.value - 2 + 2 == close.value;
      }
    }
  }

  /** And so do those that do not end on the line. */
  lemma {:induction false} ReadsOpen(text: string, a: nat, d: nat, e: nat)
    requires a <= |text|
    ensures e > 0 ==> (Read(text, a, d) == (|text|, e) <==> StillOpen(text, a, d, e))
    decreases d
  {
    if d > 0 && e > 0 {
      ReadsToClose(text, a, d);
      var close := CloseOf(text, a);
      if e >= d { UnclosedIff(text, a, e - d + 1); }
      if close.Some? {
        CloseOfIff(text, a, close.value);
        ReadsOpen(text, close.value, d - 1, e);
        assert close.value - 2 + 2 == close.value;
      } else {
        OpenMeansUnclosed(text, a);
      }
      if exists m: nat :: a <= m && Body(text, a, m) && Pair(text, m, '*', ')') && StillOpen(text, m + 2, d - 1, e) {
        var m: nat :| a <= m && Body(text, a, m) && Pair(text, m, '*', ')') && StillOpen(text, m + 2, d - 1, e);
        CloseOfIff(text, a, m + 2);
      }
    }
  }

  /** What the loop over a comment finds, by the grammar. */
  lemma CommentEndMeans(text: string, start: nat, depth: nat)
    requires start <= |text|
    ensures var end := CommentEnd(text, start, start, depth);
            var left := depth + Balance(text, start, end);
            && left >= 0 && Read(text, start, depth) == (end, left) && (left > 0 ==> end == |text|)
            && (forall p: nat :: CommentsEnd(text, start, depth, p) <==> left == 0 && p == end)
            && (forall e: nat | e > 0 :: StillOpen(text, start, depth, e) <==> left == e)
  {
    LoopReads(text, start, start, depth, depth);
    var end := CommentEnd(text, start, start, depth);
    var left := depth + Balance(text, start, end);
    forall p: nat ensures CommentsEnd(text, start, depth, p) <==> left == 0 && p == end {
      ReadsToEnd(text, start, depth, p);
    }
    forall e: nat | e > 0 ensures StillOpen(text, start, depth, e) <==> left == e {
      ReadsOpen(text, start, depth, e);
    }
  }

  lemma {:induction false} OpenIsSome(text: string, a: nat, d: nat, e: nat)
    ensures StillOpen(text, a, d, e) ==> e > 0
    decreases d
  {
    if StillOpen(text, a, d, e) && e < d {
      var m: nat :| a <= m && Body(text, a, m) && Pair(text, m, '*', ')') && StillOpen(text, m + 2, d - 1, e);
      OpenIsSome(text, m + 2, d - 1, e);
    }
  }

  // ----- openings directly followed by ) -----

  /** The reading of comments in which every opening opens one. */
  function ReadAllOpenings(text: string, a: nat, d: nat): (nat, nat)
    requires a <= |text|
    decreases |text| - a
  {
    if d == 0 || a == |text| then (a, d)
    else if Pair(text, a, '(', '*') then ReadAllOpenings(text, a + 2, d + 1)
    else if Pair(text, a, '*', ')') then ReadAllOpenings(text, a + 2, d - 1)
    else ReadAllOpenings(text, a + 1, d)
  }

  /** The two readings agree exactly when no opening that was read was directly followed by ). */
  lemma {:induction false} ReadingsAgreeIff(text: string, a: nat, d: nat)
    requires a <= |text|
    ensures Read(text, a, d) == ReadAllOpenings(text, a, d) <==>
            !exists k: nat :: a <= k && k + 3 <= Read(text, a, d).0 && ClosesItself(text, k)
    decreases |text| - a
  {
    if d > 0 && a < |text| {
      if ClosesItself(text, a) {
        DeeperReadsOn(text, a + 3, d, d + 1);
        assert ReadAllOpenings(text, a, d) == ReadAllOpenings(text, a + 3, d + 1);
      } else if Opens(text, a) {
        ReadingsAgreeIff(text, a + 2, d + 1);
        assert !ClosesItself(text, a + 1);
      } else if Pair(text, a, '*', ')') {
        ReadingsAgreeIff(text, a + 2, d - 1);
        assert !ClosesItself(text, a + 1);
      } else {
        ReadingsAgreeIff(text, a + 1, d);
      }
    }
  }

  /** Deeper in comments the other reading never comes to the same. */
  lemma {:induction false} DeeperReadsOn(text: string, a: nat, d: nat, more: nat)
    requires a <= |text| && d < more
    ensures var r, s := Read(text, a, d), ReadAllOpenings(text, a, more);
            s.0 > r.0 || s.1 > r.1
    decreases |text| - a
  {
    if a < |text| {
      AllOpeningsMove(text, a, more);
      if d > 0 {
        if ClosesItself(text, a) {
          DeeperReadsOn(text, a + 3, d, more + 1);
          assert ReadAllOpenings(text, a, more) == ReadAllOpenings(text, a + 3, more + 1);
        } else if Opens(text, a) {
          DeeperReadsOn(text, a + 2, d + 1, more + 1);
        } else if Pair(text, a, '*', ')') {
          DeeperReadsOn(text, a + 2, d - 1, more - 1);
        } else {
          DeeperReadsOn(text, a + 1, d, more);
        }
      }
    }
  }

  lemma {:induction false} AllOpeningsMove(text: string, a: nat, d: nat)
    requires a <= |text|
    ensures a <= ReadAllOpenings(text, a, d).0 && (d > 0 && a < |text| ==> a < ReadAllOpenings(text, a, d).0)
    decreases |text| - a
  {
    if d > 0 && a < |text| {
      if Pair(text, a, '(', '*') {
        AllOpeningsMove(text, a + 2, d + 1);
      } else if Pair(text, a, '*', ')') {
        AllOpeningsMove(text, a + 2, d - 1);
      } else {
        AllOpeningsMove(text, a + 1, d);
      }
    }
  }

  /** In the comment (* (*) *) *) the two readings end at different closings. */
  lemma NestedOpeningClosesItself()
    ensures Read(" (*) *) *)", 0, 1) == (7, 0) && ReadAllOpenings(" (*) *) *)", 0, 1) == (10, 0)
  {
    var text := " (*) *) *)";
    assert Read(text, 4, 1) == Read(text, 5, 1) == Read(text, 7, 0) == (7, 0);
    assert ReadAllOpenings(text, 1, 1) == ReadAllOpenings(text, 3, 2) == ReadAllOpenings(text, 5, 2);
    assert ReadAllOpenings(text, 5, 2) == ReadAllOpenings(text, 7, 1) == ReadAllOpenings(text, 8, 1) == (10, 0);
  }
}
