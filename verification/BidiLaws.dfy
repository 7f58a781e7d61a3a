/** What the rules come to: the laws hold of every line of character types. */
module BidiLaws {
  import opened BidiTypes
  import opened BidiRules
  import opened BidiLevels

  /** The types after each pass. */
  datatype Passes = Passes(a: seq<char>, b: seq<char>, c: seq<char>, d: seq<char>, e: seq<char>, t: seq<char>)

  ghost predicate Passed(s: seq<char>, x: Passes)
  {
    ResolvedUpToW7(s, x.a, x.b, x.c, x.d, x.e) && Applied(RuleN1N2, x.e, x.t) && '!' !in s
  }

  function LastS(s: seq<char>, k: nat): char
    requires k <= |s|
  {
    LastBefore(s, k, IsStrong)
  }

  // ----- the last strong character -----

  lemma {:induction false} LastStrongAt(s: seq<char>, k: nat, j: nat)
    requires LastStrong(s, k, j)
    ensures LastS(s, k) == s[j]
  {
    SameBack(s, j + 1, k, IsStrong);
  }

  lemma {:induction false} FindStrong(s: seq<char>, k: nat) returns (j: nat)
    requires k <= |s| && LastS(s, k) != 'L'
    ensures LastStrong(s, k, j) && s[j] == LastS(s, k)
  {
    if IsStrong(s[k - 1]) { j := k - 1; } else { j := FindStrong(s, k - 1); }
  }

  lemma LastStrongMeans(s: seq<char>, k: nat)
    requires k <= |s|
    ensures AfterRtl(s, k) <==> LastS(s, k) != 'L'
    ensures AfterArabic(s, k) <==> LastS(s, k) == 'r'
  {
    hide LastS, LastBefore;
    if AfterRtl(s, k) {
      var j: nat :| LastStrong(s, k, j) && s[j] != 'L';
      LastStrongAt(s, k, j);
    }
    if AfterArabic(s, k) {
      var j: nat :| LastStrong(s, k, j) && s[j] == 'r';
      LastStrongAt(s, k, j);
    }
    if LastS(s, k) != 'L' {
      var j := FindStrong(s, k);
    }
  }

  lemma {:induction false} MarkTakes(s: seq<char>, k: nat)
    requires k <= |s| && IsStrong(LastBefore(s, k, NotMark))
    ensures LastS(s, k) == LastBefore(s, k, NotMark)
  {
    if k > 0 && s[k - 1] == 'm' { MarkTakes(s, k - 1); }
  }

  /** W1 leaves the last strong type what it was. */
  lemma {:induction false} StrongKept(s: seq<char>, a: seq<char>, k: nat)
    requires Applied(RuleW1, s, a) && k <= |s|
    ensures LastS(a, k) == LastS(s, k)
  {
    if k > 0 {
      StrongKept(s, a, k - 1);
      assert a[k - 1] == RuleW1(s, k - 1);
      if s[k - 1] == 'm' && IsStrong(LastBefore(s, k - 1, NotMark)) { MarkTakes(s, k - 1); }
    }
  }

  /** Two lines that agree on what is strong and on what is L. */
  lemma {:induction false} SameSide(x: seq<char>, y: seq<char>, k: nat)
    requires k <= |x| == |y|
    requires forall i: nat | i < k :: (IsStrong(x[i]) <==> IsStrong(y[i])) && (x[i] == 'L' <==> y[i] == 'L')
    ensures LastS(x, k) == 'L' <==> LastS(y, k) == 'L'
  {
    if k > 0 { SameSide(x, y, k - 1); }
  }

  /** The passes W2 to W6 at one position. */
  lemma UpToW6(s: seq<char>, x: Passes, i: nat)
    requires Passed(s, x) && i < |s|
    ensures IsStrong(x.a[i]) <==> IsStrong(x.d[i])
    ensures x.a[i] == 'L' <==> x.d[i] == 'L'
    ensures x.a[i] == 'R' || x.a[i] == 'r' ==> x.d[i] == 'R'
    ensures x.a[i] == '1' ==> x.d[i] == if LastS(x.a, i) == 'r' then 'n' else '1'
    ensures x.a[i] == 'n' || x.a[i] == 'b' || IsNeutral(x.a[i]) ==> x.d[i] == x.a[i]
  {
    hide LastBefore, FirstFrom;
    assert x.b[i] == RuleW2W3(x.a, i) && x.c[i] == RuleW4(x.b, i) && x.d[i] == RuleW5W6(x.c, i);
  }

  lemma StrongUpToW6(s: seq<char>, x: Passes, k: nat)
    requires Passed(s, x) && k <= |s|
    ensures LastS(x.a, k) == LastS(s, k)
    ensures LastS(x.d, k) == 'L' <==> LastS(s, k) == 'L'
  {
    hide LastS;
    StrongKept(s, x.a, k);
    forall i: nat | i < k
      ensures (IsStrong(x.a[i]) <==> IsStrong(x.d[i])) && (x.a[i] == 'L' <==> x.d[i] == 'L')
    {
      UpToW6(s, x, i);
    }
    SameSide(x.a, x.d, k);
  }

  /** All passes before N1 at one position. */
  lemma UpToW7(s: seq<char>, x: Passes, k: nat)
    requires Passed(s, x) && k < |s|
    ensures s[k] == 'L' ==> x.e[k] == 'L'
    ensures s[k] == 'R' || s[k] == 'r' ==> x.e[k] == 'R'
    ensures s[k] == '1' ==> x.e[k] == if LastS(s, k) == 'L' then 'L' else if LastS(s, k) == 'r' then 'n' else '1'
    ensures s[k] == 'n' || s[k] == 'b' || IsNeutral(s[k]) ==> x.e[k] == s[k]
    ensures x.e[k] == 'L' ==> x.a[k] == 'L' || LastS(s, k) == 'L'
  {
    hide LastBefore;
    assert s[k] != 'm' ==> x.a[k] == s[k] by { assert x.a[k] == RuleW1(s, k); }
    UpToW6(s, x, k);
    StrongUpToW6(s, x, k);
    assert x.e[k] == if x.d[k] == '1' && LastS(x.d, k) == 'L' then 'L' else x.d[k] by {
      assert x.e[k] == RuleW7(x.d, k);
    }
  }

  /** After a right-to-left letter nothing becomes L before N1, up to the next L. */
  lemma NoLeftAfterRtl(s: seq<char>, x: Passes, k: nat)
    requires Passed(s, x) && k < |s| && LastS(s, k + 1) != 'L'
    ensures x.e[k] != 'L'
  {
    UpToW7(s, x, k);
    StrongKept(s, x.a, k + 1);
    var last := LastS(x.a, k + 1);
    assert x.a[k] == 'L' ==> last == 'L';
  }

  lemma {:induction false} NeutralsAfterRtl(s: seq<char>, x: Passes, k: nat)
    requires Passed(s, x) && k <= |s| && LastS(s, k) != 'L'
    ensures LastBefore(x.e, k, NotNeutral) != 'L'
  {
    NoLeftAfterRtl(s, x, k - 1);
    if IsNeutral(x.e[k - 1]) {
      UpToW7(s, x, k - 1);
      NeutralsAfterRtl(s, x, k - 1);
    }
  }

  /** After a right-to-left letter the text is right-to-left up to what is next to an L. */
  lemma {:induction false} RtlAfterRtl(s: seq<char>, x: Passes, k: nat)
    requires Passed(s, x) && k <= |s| && LastS(s, k) != 'L' && FirstFrom(x.e, k, NotNeutral, 'L') != 'L'
    ensures k > 0 && InRtl(x.t, k - 1)
  {
    hide LastBefore;
    LastBeforeFirst(s, IsStrong);
    var i: nat := k - 1;
    LastBeforeNext(s, i, IsStrong);
    UpToW7(s, x, i);
    NoLeftAfterRtl(s, x, i);
    assert x.t[i] == RuleN1N2(x.e, i);
    if s[i] != 'R' && s[i] != 'r' {
      if IsNeutral(x.e[i]) { NeutralsAfterRtl(s, x, i); }
      RtlAfterRtl(s, x, i);
    }
  }

  // ----- letters, numbers, marks, separators -----

  lemma LetterHolds(s: seq<char>, x: Passes, k: nat)
    requires Passed(s, x) && k < |s|
    ensures LetterLevel(s, Levels(x.t), k)
  {
    hide LastS, LastBefore;
    LastStrongMeans(s, k);
    UpToW7(s, x, k);
    assert !IsNeutral(x.e[k]) ==> x.t[k] == x.e[k] by { assert x.t[k] == RuleN1N2(x.e, k); }
    if (s[k] == '1' || s[k] == 'n') && AfterRtl(s, k) { RtlAfterRtl(s, x, k); }
  }

  /** What is equal to its neighbour after W1 stays so. */
  lemma StaysEqual(s: seq<char>, x: Passes, k: nat)
    requires Passed(s, x) && 0 < k < |s| && x.a[k] == x.a[k - 1]
    ensures Level(x.t, k) == Level(x.t, k - 1)
  {
    EqualUpToW5(s, x, k);
    EqualFromW5(s, x, k);
  }

  lemma EqualUpToW5(s: seq<char>, x: Passes, k: nat)
    requires Passed(s, x) && 0 < k < |s| && x.a[k] == x.a[k - 1]
    ensures x.c[k] == x.c[k - 1]
  {
    var a, b := x.a, x.b;
    assert b[k] == RuleW2W3(a, k) && b[k - 1] == RuleW2W3(a, k - 1);
    assert x.c[k] == RuleW4(b, k) && x.c[k - 1] == RuleW4(b, k - 1);
    assert b[k] == b[k - 1];
  }

  lemma EqualFromW5(s: seq<char>, x: Passes, k: nat)
    requires Passed(s, x) && 0 < k < |s| && x.c[k] == x.c[k - 1]
    ensures Level(x.t, k) == Level(x.t, k - 1)
  {
    EqualAfterW5(s, x, k);
    assert x.e[k] == RuleW7(x.d, k) && x.e[k - 1] == RuleW7(x.d, k - 1);
    assert x.e[k] == x.e[k - 1];
    assert x.t[k] == RuleN1N2(x.e, k) && x.t[k - 1] == RuleN1N2(x.e, k - 1);
    assert x.t[k] == x.t[k - 1];
  }

  lemma EqualAfterW5(s: seq<char>, x: Passes, k: nat)
    requires Passed(s, x) && 0 < k < |s| && x.c[k] == x.c[k - 1]
    ensures x.d[k] == x.d[k - 1]
  {
    assert x.d[k] == RuleW5W6(x.c, k) && x.d[k - 1] == RuleW5W6(x.c, k - 1);
  }

  lemma MarkLevel(s: seq<char>, x: Passes, k: nat)
    requires Passed(s, x) && k < |s| && s[k] == 'm'
    ensures Level(x.t, k) == if k > 0 then Level(x.t, k - 1) else 0
  {
    assert x.a[k] == RuleW1(s, k);
    if k > 0 {
      assert x.a[k - 1] == RuleW1(s, k - 1);
      StaysEqual(s, x, k);
    } else {
      UpToW6(s, x, k);
      assert x.e[k] == RuleW7(x.d, k) && x.t[k] == RuleN1N2(x.e, k);
    }
  }

  lemma SeparatorLevel(s: seq<char>, x: Passes, k: nat)
    requires Passed(s, x) && 0 < k < |s| - 1 && s[k] == ',' && s[k - 1] == s[k + 1]
    requires s[k - 1] == '1' || s[k - 1] == 'n'
    ensures Level(x.t, k - 1) == Level(x.t, k) == Level(x.t, k + 1)
  {
    SeparatorJoins(s, x, k);
    EqualFromW5(s, x, k);
    EqualFromW5(s, x, k + 1);
  }

  lemma SeparatorJoins(s: seq<char>, x: Passes, k: nat)
    requires Passed(s, x) && 0 < k < |s| - 1 && s[k] == ',' && s[k - 1] == s[k + 1]
    requires s[k - 1] == '1' || s[k - 1] == 'n'
    ensures x.c[k - 1] == x.c[k] == x.c[k + 1]
  {
    forall i: nat | k - 1 <= i <= k + 1
      ensures x.a[i] == s[i] && x.b[i] == RuleW2W3(x.a, i) && x.c[i] == RuleW4(x.b, i)
    {
      assert x.a[i] == RuleW1(s, i);
    }
    LastBeforeNext(x.a, k - 1, IsStrong);
    LastBeforeNext(x.a, k, IsStrong);
    assert x.b[k - 1] == x.b[k + 1];
  }

  // ----- terminators -----

  lemma TerminatorLevel(s: seq<char>, x: Passes, k: nat, j: nat)
    requires Passed(s, x) && TerminatesTo(s, k, j)
    ensures Level(x.t, k) == if AfterArabic(s, k) then 1 else if AfterRtl(s, k) then 2 else 0
  {
    hide LastBefore, FirstFrom;
    LastStrongMeans(s, k);
    StrongUpToW6(s, x, k);
    TerminatorType(s, x, k, j);
    assert x.e[k] == RuleW7(x.d, k) && x.t[k] == RuleN1N2(x.e, k);
    if AfterArabic(s, k) {
      TerminatorsLeft(s, x, k, j);
      NeutralsAfterRtl(s, x, k);
    } else if AfterRtl(s, k) {
      FirstIsHere(x.e, k);
      RtlAfterRtl(s, x, k);
    }
  }

  lemma FirstIsHere(e: seq<char>, k: nat)
    requires k < |e| && NotNeutral(e[k])
    ensures FirstFrom(e, k, NotNeutral, 'L') == e[k]
  {
  }

  /** What W5 makes of terminators before a European number. */
  lemma TerminatorType(s: seq<char>, x: Passes, k: nat, j: nat)
    requires Passed(s, x) && TerminatesTo(s, k, j)
    ensures x.d[k] == if LastS(s, k) == 'r' then 'N' else '1'
  {
    forall i: nat | k <= i <= j ensures x.c[i] == if i == j && LastS(s, k) == 'r' then 'n' else s[i] {
      BeforeTerminated(s, x, k, j, i);
    }
    SameInRun(x.c, k, j, k, NotTerminator, 'L');
    NoExclamation(s, x, k);
    assert x.d[k] == RuleW5W6(x.c, k);
  }

  lemma BeforeTerminated(s: seq<char>, x: Passes, k: nat, j: nat, i: nat)
    requires Passed(s, x) && TerminatesTo(s, k, j) && k <= i <= j
    ensures x.c[i] == if i == j && LastS(s, k) == 'r' then 'n' else s[i]
  {
    hide LastBefore;
    assert x.a[i] == RuleW1(s, i) && x.b[i] == RuleW2W3(x.a, i) && x.c[i] == RuleW4(x.b, i);
    StrongKept(s, x.a, i);
    SameBack(s, k, i, IsStrong);
  }

  lemma NoExclamation(s: seq<char>, x: Passes, k: nat)
    requires Passed(s, x) && k <= |s|
    ensures LastBefore(x.c, k, NotTerminator) != '!'
  {
    hide LastBefore;
    forall i: nat | i < |s| ensures x.c[i] != '!' {
      LastBeforeIsIn(s, i, NotMark);
      assert x.a[i] == RuleW1(s, i) && x.b[i] == RuleW2W3(x.a, i) && x.c[i] == RuleW4(x.b, i);
    }
    LastBeforeIsIn(x.c, k, NotTerminator);
  }

  /** After an Arabic letter they are neutrals before an Arabic number. */
  lemma TerminatorsLeft(s: seq<char>, x: Passes, k: nat, j: nat)
    requires Passed(s, x) && TerminatesTo(s, k, j) && LastS(s, k) == 'r'
    ensures x.e[k] == 'N' && FirstFrom(x.e, k, NotNeutral, 'L') == 'n'
  {
    hide LastBefore;
    forall i: nat | k <= i < j ensures x.e[i] == 'N' {
      SameBack(s, k, i, IsStrong);
      TerminatorType(s, x, i, j);
      assert x.e[i] == RuleW7(x.d, i);
    }
    SameBack(s, k, j, IsStrong);
    UpToW7(s, x, j);
    SameInRun(x.e, k, j, k, NotNeutral, 'L');
    FirstIsHere(x.e, j);
  }

  // ----- neutrals -----

  lemma NeutralLevel(s: seq<char>, x: Passes, i: nat, j: nat, k: nat)
    requires Passed(s, x) && Neutrals(s, i, j) && i <= k < j
    ensures PullsLeft(s, i - 1) || PullsLeft(s, j) ==> Level(x.t, k) == 0
    ensures PullsRight(s, i - 1) && PullsRight(s, j) ==> Level(x.t, k) == 1
  {
    hide LastBefore, FirstFrom;
    forall n: nat | i <= n < j ensures IsNeutral(x.e[n]) {
      UpToW7(s, x, n);
    }
    Pulled(s, x, i - 1);
    Pulled(s, x, j);
    StretchLevel(x, i, j, k);
  }

  /** What is next to neutrals, before N1. */
  lemma Pulled(s: seq<char>, x: Passes, p: int)
    requires Passed(s, x)
    ensures PullsLeft(s, p) && 0 <= p < |s| ==> x.e[p] == 'L'
    ensures PullsRight(s, p) ==> NotNeutral(x.e[p]) && x.e[p] != 'L'
  {
    hide LastBefore;
    if 0 <= p < |s| {
      UpToW7(s, x, p);
      LastStrongMeans(s, p);
    }
  }

  /** A stretch of neutrals, by what it lies between. */
  lemma StretchLevel(x: Passes, i: nat, j: nat, k: nat)
    requires i <= k < j <= |x.e| && Applied(RuleN1N2, x.e, x.t) && forall n: nat | i <= n < j :: IsNeutral(x.e[n])
    ensures i == 0 || x.e[i - 1] == 'L' || j == |x.e| || x.e[j] == 'L' ==> Level(x.t, k) == 0
    ensures i > 0 && NotNeutral(x.e[i - 1]) && x.e[i - 1] != 'L' && j < |x.e| && NotNeutral(x.e[j]) && x.e[j] != 'L' ==>
              Level(x.t, k) == 1 && x.t[k] == 'R'
  {
    SameInRun(x.e, i, j, k, NotNeutral, 'L');
    assert x.t[k] == RuleN1N2(x.e, k);
  }

  /** Separators and terminators among them, with letters or boundary neutrals around. */
  lemma WeakIsNeutral(s: seq<char>, x: Passes, i: nat, j: nat, k: nat)
    requires Passed(s, x) && Weak(s, i, j) && Boundary(s, i - 1) && Boundary(s, j) && i <= k < j
    ensures IsNeutral(x.e[k])
  {
    hide LastBefore;
    forall n: nat | i - 1 <= n <= j && n < |s| ensures x.c[n] == if s[n] == 'r' then 'R' else s[n] {
      WeakUpToW4(s, x, i, j, n);
    }
    FirstIsNone(x.c, k, j, '1');
    NoExclamation(s, x, k);
    assert x.d[k] == RuleW5W6(x.c, k) && x.e[k] == RuleW7(x.d, k);
  }

  lemma WeakUpToW4(s: seq<char>, x: Passes, i: nat, j: nat, n: nat)
    requires Passed(s, x) && Weak(s, i, j) && Boundary(s, i - 1) && Boundary(s, j) && i - 1 <= n <= j && n < |s|
    ensures x.c[n] == if s[n] == 'r' then 'R' else s[n]
  {
    hide LastBefore;
    forall m: nat | n - 1 <= m <= n + 1 && i - 1 <= m <= j && m < |s|
      ensures x.b[m] == if s[m] == 'r' then 'R' else s[m]
    {
      assert x.a[m] == RuleW1(s, m) && x.b[m] == RuleW2W3(x.a, m);
    }
    assert x.c[n] == RuleW4(x.b, n);
  }

  /** The first type from `k` on that is no terminator, if it is among the next ones. */
  lemma {:induction false} FirstIsNone(c: seq<char>, k: nat, j: nat, bad: char)
    requires k <= j <= |c| && bad != 'L' && (j < |c| ==> c[j] != '%')
    requires forall n: nat | k <= n <= j && n < |c| :: c[n] != bad
    ensures FirstFrom(c, k, NotTerminator, 'L') != bad
    decreases j - k
  {
    if k < j && c[k] == '%' { FirstIsNone(c, k + 1, j, bad); }
  }

  lemma WeakLevel(s: seq<char>, x: Passes, i: nat, j: nat, k: nat)
    requires Passed(s, x) && Weak(s, i, j) && Boundary(s, i - 1) && Boundary(s, j) && i <= k < j
    ensures Level(x.t, k) == if i == 0 || s[i - 1] == 'L' || j == |s| || s[j] == 'L' then 0 else 1
  {
    hide LastBefore, FirstFrom;
    forall n: nat | i <= n < j ensures IsNeutral(x.e[n]) {
      WeakIsNeutral(s, x, i, j, n);
    }
    if i > 0 { UpToW7(s, x, i - 1); }
    if j < |s| { UpToW7(s, x, j); }
    StretchLevel(x, i, j, k);
  }

  // ----- all of them -----

  lemma LawsHold(s: seq<char>, t: seq<char>)
    requires Resolved(s, t) && '!' !in s
    ensures LevelLaws(s, Levels(t))
  {
    hide Resolved, LetterLevels, MarkLevels, SeparatorLevels, TerminatorLevels, NeutralLevels;
    var x := PassesOf(s, t);
    LettersHold(s, x);
    MarksHold(s, x);
    SeparatorsHold(s, x);
    TerminatorsHold(s, x);
    NeutralsHold(s, x);
  }

  lemma PassesOf(s: seq<char>, t: seq<char>) returns (x: Passes)
    requires Resolved(s, t) && '!' !in s
    ensures Passed(s, x) && x.t == t && |t| == |s|
  {
    var a, b, c, d, e :| ResolvedUpToW7(s, a, b, c, d, e) && Applied(RuleN1N2, e, t);
    x := Passes(a, b, c, d, e, t);
  }

  lemma LettersHold(s: seq<char>, x: Passes)
    requires Passed(s, x)
    ensures |s| == |x.t| && LetterLevels(s, Levels(x.t))
  {
    hide LetterLevel;
    forall k: nat | k < |s| ensures LetterLevel(s, Levels(x.t), k) {
      LetterHolds(s, x, k);
    }
  }

  lemma MarksHold(s: seq<char>, x: Passes)
    requires Passed(s, x)
    ensures |s| == |x.t| && MarkLevels(s, Levels(x.t))
  {
    hide Level;
    forall k: nat | k < |s| && s[k] == 'm' ensures Levels(x.t)[k] == if k > 0 then Levels(x.t)[k - 1] else 0 {
      MarkLevel(s, x, k);
    }
  }

  lemma SeparatorsHold(s: seq<char>, x: Passes)
    requires Passed(s, x)
    ensures |s| == |x.t| && SeparatorLevels(s, Levels(x.t))
  {
    hide Level;
    var lv := Levels(x.t);
    forall k: nat | 0 < k < |s| - 1 && s[k] == ',' && s[k - 1] == s[k + 1] && (s[k - 1] == '1' || s[k - 1] == 'n')
      ensures lv[k - 1] == lv[k] == lv[k + 1]
    {
      SeparatorLevel(s, x, k);
    }
  }

  lemma TerminatorsHold(s: seq<char>, x: Passes)
    requires Passed(s, x)
    ensures |s| == |x.t| && TerminatorLevels(s, Levels(x.t))
  {
    hide Level, AfterRtl, AfterArabic;
    forall k: nat, j: nat | TerminatesTo(s, k, j)
      ensures Levels(x.t)[k] == if AfterArabic(s, k) then 1 else if AfterRtl(s, k) then 2 else 0
    {
      TerminatorLevel(s, x, k, j);
    }
  }

  lemma NeutralsHold(s: seq<char>, x: Passes)
    requires Passed(s, x)
    ensures |s| == |x.t| && NeutralLevels(s, Levels(x.t))
  {
    hide Level, PullsLeft, PullsRight;
    forall i: nat, j: nat, k: nat | Neutrals(s, i, j) && i <= k < j
      ensures PullsLeft(s, i - 1) || PullsLeft(s, j) ==> Levels(x.t)[k] == 0
      ensures PullsRight(s, i - 1) && PullsRight(s, j) ==> Levels(x.t)[k] == 1
    {
      NeutralLevel(s, x, i, j, k);
    }
    forall i: nat, j: nat, k: nat | Weak(s, i, j) && Boundary(s, i - 1) && Boundary(s, j) && i <= k < j
      ensures Levels(x.t)[k] == if i == 0 || s[i - 1] == 'L' || j == |s| || s[j] == 'L' then 0 else 1
    {
      WeakLevel(s, x, i, j, k);
    }
  }

  // ----- lines that are not ordered at all -----

  /** By the rules all of the line is on level 0. */
  ghost predicate AllLeft(s: seq<char>)
  {
    forall t: seq<char> | Resolved(s, t) :: forall k: nat | k < |t| :: Level(t, k) == 0
  }

  /** Neutrals, separators or terminators between two boundary neutrals. */
  ghost predicate BetweenBoundaries(s: seq<char>, i: nat, j: nat)
  {
    i + 1 < j < |s| && s[i] == 'b' && s[j] == 'b' && Weak(s, i + 1, j)
  }

  lemma {:induction false} NoStrongButLeft(s: seq<char>, k: nat)
    requires k <= |s| && AllTypes(PlainType, s)
    ensures LastS(s, k) == 'L'
  {
    if k > 0 { NoStrongButLeft(s, k - 1); }
  }

  /** A line of such types before N1. */
  lemma PlainUpToW7(s: seq<char>, x: Passes, k: nat)
    requires Passed(s, x) && AllTypes(PlainType, s) && k < |s|
    ensures s[k] == 'b' ==> x.e[k] == 'b'
    ensures x.e[k] == 'L' || x.e[k] == 'b' || IsNeutral(x.e[k])
    ensures IsNeutral(x.e[k]) ==> IsNeutral(s[k]) || s[k] == ',' || s[k] == '%'
    ensures x.e[k] == 'b' ==> s[k] == 'b'
  {
    hide LastBefore, FirstFrom, PlainType;
    PlainUpToW2(s, x, k);
    if k > 0 { PlainUpToW2(s, x, k - 1); }
    assert PlainType(s[k]) && (k > 0 ==> PlainType(s[k - 1]));
    NoStrongButLeft(s, k);
    StrongUpToW6(s, x, k);
    PlainFromW4(s, x, k);
  }

  lemma PlainUpToW2(s: seq<char>, x: Passes, k: nat)
    requires Passed(s, x) && AllTypes(PlainType, s) && k < |s|
    ensures x.b[k] == s[k]
  {
    hide LastBefore;
    assert PlainType(s[k]) && x.a[k] == RuleW1(s, k);
    NoStrongButLeft(s, k);
    StrongUpToW6(s, x, k);
    assert x.b[k] == RuleW2W3(x.a, k);
  }

  lemma PlainFromW4(s: seq<char>, x: Passes, k: nat)
    requires Passed(s, x) && k < |s| && PlainType(s[k]) && x.b[k] == s[k] && (k > 0 ==> x.b[k - 1] == s[k - 1])
    requires LastS(x.d, k) == 'L' && (k > 0 ==> PlainType(s[k - 1]))
    ensures x.e[k] == 'L' || x.e[k] == 'b' || IsNeutral(x.e[k])
    ensures IsNeutral(x.e[k]) ==> IsNeutral(s[k]) || s[k] == ',' || s[k] == '%'
    ensures x.e[k] == 'b' <==> s[k] == 'b'
  {
    hide LastBefore, FirstFrom;
    assert x.c[k] == RuleW4(x.b, k) && x.d[k] == RuleW5W6(x.c, k) && x.e[k] == RuleW7(x.d, k);
  }

  lemma {:induction false} FindBack(e: seq<char>, k: nat) returns (i: nat)
    requires k <= |e| && LastBefore(e, k, NotNeutral) != 'L'
    ensures i < k && NotNeutral(e[i]) && e[i] == LastBefore(e, k, NotNeutral)
    ensures forall n: nat | i < n < k :: IsNeutral(e[n])
  {
    if NotNeutral(e[k - 1]) { i := k - 1; } else { i := FindBack(e, k - 1); }
  }

  lemma {:induction false} FindAhead(e: seq<char>, k: nat) returns (j: nat)
    requires k <= |e| && FirstFrom(e, k, NotNeutral, 'L') != 'L'
    ensures k <= j < |e| && NotNeutral(e[j]) && e[j] == FirstFrom(e, k, NotNeutral, 'L')
    ensures forall n: nat | k <= n < j :: IsNeutral(e[n])
    decreases |e| - k
  {
    if NotNeutral(e[k]) { j := k; } else { j := FindAhead(e, k + 1); }
  }

  /** Only between boundary neutrals does such a line get anything but L. */
  lemma OnlyLeft(s: seq<char>, x: Passes, k: nat)
    requires Passed(s, x) && AllTypes(PlainType, s) && k < |s|
    ensures x.t[k] == 'L' || x.t[k] == 'b' || exists i: nat, j: nat :: BetweenBoundaries(s, i, j)
  {
    hide LastBefore, FirstFrom;
    PlainUpToW7(s, x, k);
    assert x.t[k] == RuleN1N2(x.e, k);
    if x.t[k] == 'R' {
      var i := FindBack(x.e, k);
      var j := FindAhead(x.e, k);
      forall n: nat | i <= n <= j
        ensures x.e[n] == 'b' ==> s[n] == 'b'
        ensures IsNeutral(x.e[n]) ==> IsNeutral(s[n]) || s[n] == ',' || s[n] == '%'
        ensures x.e[n] == 'L' || x.e[n] == 'b' || IsNeutral(x.e[n])
      {
        PlainUpToW7(s, x, n);
      }
      assert BetweenBoundaries(s, i, j);
    }
  }

  lemma {:induction false} LeftIsLevel0(t: seq<char>, k: nat)
    requires k < |t| && forall n: nat | n <= k :: t[n] == 'L' || t[n] == 'b'
    ensures Level(t, k) == 0
  {
    if k > 0 { LeftIsLevel0(t, k - 1); }
  }

  lemma SomeTypes(s: seq<char>) returns (t: seq<char>)
    ensures Resolved(s, t) && |t| == |s|
  {
    var a := seq(|s|, i requires 0 <= i < |s| => RuleW1(s, i));
    var b := seq(|s|, i requires 0 <= i < |s| => RuleW2W3(a, i));
    var c := seq(|s|, i requires 0 <= i < |s| => RuleW4(b, i));
    var d := seq(|s|, i requires 0 <= i < |s| => RuleW5W6(c, i));
    var e := seq(|s|, i requires 0 <= i < |s| => RuleW7(d, i));
    t := seq(|s|, i requires 0 <= i < |s| => RuleN1N2(e, i));
    assert ResolvedUpToW7(s, a, b, c, d, e);
  }

  /** A line with no Hebrew and no Arabic is on level 0 altogether exactly when nothing neutral stands between two
      boundary neutrals. */
  lemma AllLeftIff(s: seq<char>)
    requires AllTypes(PlainType, s)
    ensures AllLeft(s) <==> !exists i: nat, j: nat :: BetweenBoundaries(s, i, j)
  {
    hide Resolved, Level, AllTypes;
    NoExclamationIn(s);
    if i: nat, j: nat :| BetweenBoundaries(s, i, j) {
      var t := SomeTypes(s);
      LawsHold(s, t);
      assert Boundary(s, i) && Boundary(s, j);
      assert Levels(t)[i + 1] == 1;
    } else {
      forall t: seq<char> | Resolved(s, t) ensures forall k: nat | k < |t| :: Level(t, k) == 0 {
        var x := PassesOf(s, t);
        forall k: nat | k < |t| ensures Level(t, k) == 0 {
          forall n: nat | n <= k ensures t[n] == 'L' || t[n] == 'b' {
            OnlyLeft(s, x, n);
          }
          LeftIsLevel0(t, k);
        }
      }
    }
  }

  lemma NoExclamationIn(s: seq<char>)
    requires AllTypes(PlainType, s)
    ensures '!' !in s
  {
  }
}
