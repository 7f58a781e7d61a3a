/** The rules W1 to W7, N1 and N2 as bidiOrdering applies them: one loop over the array of types each, proved
    against what the rule does to each position. */
module BidiRules {
  import opened BidiTypes

  predicate IsStrong(t: char) { t == 'L' || t == 'R' || t == 'r' }

  predicate NotMark(t: char) { t != 'm' }

  predicate NotTerminator(t: char) { t != '%' }

  /** The last type before position `i` that satisfies `p`; sor, which is L, when there is none. */
  function LastBefore(s: seq<char>, i: nat, p: char -> bool): char
    requires i <= |s|
  {
    if i == 0 then 'L' else if p(s[i - 1]) then s[i - 1] else LastBefore(s, i - 1, p)
  }

  /** The first type from position `i` on that satisfies `p`; `d` when there is none. */
  function FirstFrom(s: seq<char>, i: nat, p: char -> bool, d: char): char
    requires i <= |s|
    decreases |s| - i
  {
    if i == |s| then d else if p(s[i]) then s[i] else FirstFrom(s, i + 1, p, d)
  }

  // ----- what each rule makes of position `i` -----

  /** W1: a non-spacing mark takes the type of what it follows. */
  function RuleW1(s: seq<char>, i: nat): char
    requires i < |s|
  {
    if s[i] == 'm' then LastBefore(s, i, NotMark) else s[i]
  }

  /** W2 and W3: a European number after Arabic letters becomes an Arabic number; Arabic letters become R. */
  function RuleW2W3(s: seq<char>, i: nat): char
    requires i < |s|
  {
    if s[i] == '1' && LastBefore(s, i, IsStrong) == 'r' then 'n' else if s[i] == 'r' then 'R' else s[i]
  }

  /** W4: a single separator between two numbers of one type joins them. */
  function RuleW4(s: seq<char>, i: nat): char
    requires i < |s|
  {
    if 0 < i < |s| - 1 && s[i] == '+' && s[i - 1] == '1' && s[i + 1] == '1' then '1'
    else if 0 < i < |s| - 1 && s[i] == ',' && s[i - 1] == s[i + 1] && (s[i - 1] == '1' || s[i - 1] == 'n') then s[i - 1]
    else s[i]
  }

  /** W5 and W6 as written: terminators before a European number join it, what is left becomes neutral. The
      test for a number before them looks for '!', which is no type. */
  function RuleW5W6(s: seq<char>, i: nat): char
    requires i < |s|
  {
    if s[i] == ',' then 'N'
    else if s[i] == '%' then
      if LastBefore(s, i, NotTerminator) == '!' || FirstFrom(s, i, NotTerminator, 'L') == '1' then '1' else 'N'
    else s[i]
  }

  /** W7: a European number in left-to-right text becomes L. */
  function RuleW7(s: seq<char>, i: nat): char
    requires i < |s|
  {
    if s[i] == '1' && LastBefore(s, i, IsStrong) == 'L' then 'L' else s[i]
  }

  /** N1 and N2: neutrals next to L, or next to the boundary, become L; the others R. */
  function RuleN1N2(s: seq<char>, i: nat): char
    requires i < |s|
  {
    if !IsNeutral(s[i]) then s[i]
    else if LastBefore(s, i, NotNeutral) == 'L' || FirstFrom(s, i, NotNeutral, 'L') == 'L' then 'L'
    else 'R'
  }

  /** `r` is `s` with a rule applied to every position. */
  ghost predicate Applied(rule: (seq<char>, nat) --> char, s: seq<char>, r: seq<char>)
    requires forall i: nat | i < |s| :: rule.requires(s, i)
  {
    |r| == |s| && forall i: nat | i < |s| :: r[i] == rule(s, i)
  }

  // ----- the passes -----

  lemma LastBeforeNext(s: seq<char>, i: nat, p: char -> bool)
    requires i < |s|
    ensures LastBefore(s, i + 1, p) == if p(s[i]) then s[i] else LastBefore(s, i, p)
  {
  }

  lemma LastBeforeFirst(s: seq<char>, p: char -> bool)
    ensures LastBefore(s, 0, p) == 'L'
  {
  }

  lemma {:induction false} LastBeforeIsIn(s: seq<char>, i: nat, p: char -> bool)
    requires i <= |s|
    ensures LastBefore(s, i, p) in s || LastBefore(s, i, p) == 'L'
  {
    if i > 0 && !p(s[i - 1]) { LastBeforeIsIn(s, i - 1, p); }
  }

  method PassW1(types: array<char>)
    modifies types
    ensures Applied(RuleW1, old(types[..]), types[..])
  {
    hide LastBefore;
    ghost var s := types[..];
    LastBeforeFirst(s, NotMark);
    var prev := 'L';
    for i := 0 to types.Length
      invariant prev == LastBefore(s, i, NotMark)
      invariant forall k: nat | k < i :: types[k] == RuleW1(s, k)
      invariant forall k: nat | i <= k < |s| :: types[k] == s[k]
    {
      LastBeforeNext(s, i, NotMark);
      var type_ := types[i];
      if type_ == 'm' { types[i] := prev; } else { prev := type_; }
    }
  }

  method PassW2W3(types: array<char>)
    modifies types
    ensures Applied(RuleW2W3, old(types[..]), types[..])
  {
    hide LastBefore;
    ghost var s := types[..];
    LastBeforeFirst(s, IsStrong);
    var cur := 'L';
    for i := 0 to types.Length
      invariant cur == LastBefore(s, i, IsStrong)
      invariant forall k: nat | k < i :: types[k] == RuleW2W3(s, k)
      invariant forall k: nat | i <= k < |s| :: types[k] == s[k]
    {
      LastBeforeNext(s, i, IsStrong);
      var type_ := types[i];
      if type_ == '1' && cur == 'r' {
        types[i] := 'n';
      } else if IsStrong(type_) {
        cur := type_;
        if type_ == 'r' { types[i] := 'R'; }
      }
    }
  }

  method PassW4(types: array<char>)
    requires types.Length > 0
    modifies types
    ensures Applied(RuleW4, old(types[..]), types[..])
  {
    ghost var s := types[..];
    var prev := types[0];
    var i := 1;
    while i < types.Length - 1
      invariant 1 <= i && (i <= types.Length - 1 || i == 1) && prev == s[i - 1]
      invariant forall k: nat | k < i && k < |s| :: types[k] == RuleW4(s, k)
      invariant forall k: nat | i <= k < |s| :: types[k] == s[k]
    {
      var type_ := types[i];
      if type_ == '+' && prev == '1' && types[i + 1] == '1' {
        types[i] := '1';
      } else if type_ == ',' && prev == types[i + 1] && (prev == '1' || prev == 'n') {
        types[i] := prev;
      }
      prev := type_;
      i := i + 1;
    }
  }

  /** Inside a run that none of whose positions satisfies `p`, looking back or ahead finds the same. */
  lemma {:induction false} SameInRun(s: seq<char>, i: nat, end: nat, k: nat, p: char -> bool, d: char)
    requires i <= k < end <= |s| && forall j: nat | i <= j < end :: !p(s[j])
    ensures LastBefore(s, k, p) == LastBefore(s, i, p) && FirstFrom(s, k, p, d) == FirstFrom(s, end, p, d)
    decreases end - k, k
  {
    if i < k { SameBack(s, i, k, p); }
    if k + 1 < end { SameInRun(s, i, end, k + 1, p, d); }
  }

  lemma {:induction false} SameBack(s: seq<char>, i: nat, k: nat, p: char -> bool)
    requires i <= k <= |s| && forall j: nat | i <= j < k :: !p(s[j])
    ensures LastBefore(s, k, p) == LastBefore(s, i, p)
  {
    if i < k { SameBack(s, i, k - 1, p); }
  }

  method PassW5W6(types: array<char>)
    modifies types
    ensures Applied(RuleW5W6, old(types[..]), types[..])
  {
    ghost var s := types[..];
    var i := 0;
    while i < types.Length
      invariant 0 <= i <= types.Length && (0 < i < types.Length && s[i] == '%' ==> s[i - 1] != '%')
      invariant forall k: nat | k < i :: types[k] == RuleW5W6(s, k)
      invariant forall k: nat | i <= k < |s| :: types[k] == s[k]
    {
      var type_ := types[i];
      if type_ == ',' {
        types[i] := 'N';
        i := i + 1;
      } else if type_ == '%' {
        var end := i + 1;
        while end < types.Length && types[end] == '%'
          invariant i < end <= types.Length && forall k: nat | i <= k < end :: s[k] == '%'
        {
          end := end + 1;
        }
        var replace := if (i > 0 && types[i - 1] == '!') || (end < types.Length && types[end] == '1') then '1' else 'N';
        var j := i;
        while j < end
          invariant i <= j <= end
          invariant forall k: nat | k < i :: types[k] == RuleW5W6(s, k)
          invariant forall k: nat | i <= k < j :: types[k] == replace
          invariant forall k: nat | j <= k < |s| :: types[k] == s[k]
        {
          types[j] := replace;
          j := j + 1;
        }
        forall k: nat | i <= k < end ensures RuleW5W6(s, k) == replace {
          SameInRun(s, i, end, k, NotTerminator, 'L');
        }
        i := end;
      } else {
        i := i + 1;
      }
    }
  }

  method PassW7(types: array<char>)
    modifies types
    ensures Applied(RuleW7, old(types[..]), types[..])
  {
    hide LastBefore;
    ghost var s := types[..];
    LastBeforeFirst(s, IsStrong);
    var cur := 'L';
    for i := 0 to types.Length
      invariant cur == LastBefore(s, i, IsStrong)
      invariant forall k: nat | k < i :: types[k] == RuleW7(s, k)
      invariant forall k: nat | i <= k < |s| :: types[k] == s[k]
    {
      LastBeforeNext(s, i, IsStrong);
      var type_ := types[i];
      if cur == 'L' && type_ == '1' {
        types[i] := 'L';
      } else if IsStrong(type_) {
        cur := type_;
      }
    }
  }

  method PassN1N2(types: array<char>)
    modifies types
    ensures Applied(RuleN1N2, old(types[..]), types[..])
  {
    ghost var s := types[..];
    var i := 0;
    while i < types.Length
      invariant 0 <= i <= types.Length && (0 < i < types.Length && IsNeutral(s[i]) ==> NotNeutral(s[i - 1]))
      invariant forall k: nat | k < i :: types[k] == RuleN1N2(s, k)
      invariant forall k: nat | i <= k < |s| :: types[k] == s[k]
    {
      if IsNeutral(types[i]) {
        var end := i + 1;
        while end < types.Length && IsNeutral(types[end])
          invariant i < end <= types.Length && forall k: nat | i <= k < end :: IsNeutral(s[k])
        {
          end := end + 1;
        }
        var before := (if i > 0 then types[i - 1] else 'L') == 'L';
        var after := (if end < types.Length then types[end] else 'L') == 'L';
        var replace := if before || after then 'L' else 'R';
        var j := i;
        while j < end
          invariant i <= j <= end
          invariant forall k: nat | k < i :: types[k] == RuleN1N2(s, k)
          invariant forall k: nat | i <= k < j :: types[k] == replace
          invariant forall k: nat | j <= k < |s| :: types[k] == s[k]
        {
          types[j] := replace;
          j := j + 1;
        }
        forall k: nat | i <= k < end ensures RuleN1N2(s, k) == replace {
          SameInRun(s, i, end, k, NotNeutral, 'L');
        }
        i := end;
      } else {
        i := i + 1;
      }
    }
  }
}
