/** The levels that the rules give to the characters of a line, by laws that speak of the characters' own types. */
module BidiLevels {
  import opened BidiTypes
  import opened BidiRules

  predicate CountsAsLeft(t: char) { t == 'L' || t == 'b' || t == '1' || t == 'n' }

  predicate CountsAsNum(t: char) { t == '1' || t == 'n' }

  /** Position `k` lies in right-to-left text: since the last character that started it there was no L. */
  predicate InRtl(t: seq<char>, k: nat)
    requires k < |t|
  {
    if t[k] == 'L' then false else if !CountsAsLeft(t[k]) then true else k > 0 && InRtl(t, k - 1)
  }

  /** The embedding level of position `k`. */
  function Level(t: seq<char>, k: nat): (l: int)
    requires k < |t|
    ensures 0 <= l <= 2
  {
    if !InRtl(t, k) then 0 else if CountsAsNum(t[k]) then 2 else 1
  }

  function Levels(t: seq<char>): (r: seq<int>)
    ensures |r| == |t| && forall k: nat | k < |t| :: r[k] == Level(t, k)
  {
    seq(|t|, k requires 0 <= k < |t| => Level(t, k))
  }

  /** The types before N1 and N2 that come from the types of the characters. */
  ghost predicate ResolvedUpToW7(s: seq<char>, a: seq<char>, b: seq<char>, c: seq<char>, d: seq<char>, e: seq<char>)
  {
    && Applied(RuleW1, s, a) && Applied(RuleW2W3, a, b) && Applied(RuleW4, b, c)
    && Applied(RuleW5W6, c, d) && Applied(RuleW7, d, e)
  }

  /** `t` are the types of the characters after all the rules. */
  ghost predicate Resolved(s: seq<char>, t: seq<char>)
  {
    exists a, b, c, d, e :: ResolvedUpToW7(s, a, b, c, d, e) && Applied(RuleN1N2, e, t)
  }

  // ----- the laws -----

  /** The last L, R or r before position `k` is at `j`. */
  ghost predicate LastStrong(s: seq<char>, k: nat, j: nat)
  {
    && j < k <= |s| && (s[j] == 'L' || s[j] == 'R' || s[j] == 'r')
    && forall i: nat | j < i < k :: s[i] != 'L' && s[i] != 'R' && s[i] != 'r'
  }

  /** The last strong character before `k` is right-to-left. */
  ghost predicate AfterRtl(s: seq<char>, k: nat)
  {
    exists j: nat :: LastStrong(s, k, j) && s[j] != 'L'
  }

  /** It is an Arabic letter. */
  ghost predicate AfterArabic(s: seq<char>, k: nat)
  {
    exists j: nat :: LastStrong(s, k, j) && s[j] == 'r'
  }

  /** Letters have the level of their direction. A European number is on level 2 after a right-to-left letter, and on
      level 0 after a left-to-right one or none (W7). An Arabic number and a boundary neutral go on from before. */
  ghost predicate LetterLevel(s: seq<char>, lv: seq<int>, k: nat)
    requires k < |s| == |lv|
  {
    var rtlBefore := k > 0 && lv[k - 1] > 0;
    && (s[k] == 'L' ==> lv[k] == 0)
    && (s[k] == 'R' || s[k] == 'r' ==> lv[k] == 1)
    && (s[k] == '1' ==> lv[k] == if AfterRtl(s, k) then 2 else 0)
    && (s[k] == 'n' ==> lv[k] == if rtlBefore then 2 else 0)
    && (s[k] == 'n' && AfterRtl(s, k) ==> lv[k] == 2)
    && (s[k] == 'b' ==> lv[k] == if rtlBefore then 1 else 0)
  }

  ghost predicate LetterLevels(s: seq<char>, lv: seq<int>)
    requires |s| == |lv|
  {
    forall k: nat | k < |s| :: LetterLevel(s, lv, k)
  }

  /** A mark is on the level of what it follows (W1). */
  ghost predicate MarkLevels(s: seq<char>, lv: seq<int>)
    requires |s| == |lv|
  {
    forall k: nat | k < |s| && s[k] == 'm' :: lv[k] == if k > 0 then lv[k - 1] else 0
  }

  /** A single comma between two numbers of one type is on their level (W4). */
  ghost predicate SeparatorLevels(s: seq<char>, lv: seq<int>)
    requires |s| == |lv|
  {
    forall k: nat | 0 < k < |s| - 1 && s[k] == ',' && s[k - 1] == s[k + 1] && (s[k - 1] == '1' || s[k - 1] == 'n') ::
      lv[k - 1] == lv[k] == lv[k + 1]
  }

  /** The characters from `k` up to the European number at `j` are terminators. */
  ghost predicate TerminatesTo(s: seq<char>, k: nat, j: nat)
  {
    k < j < |s| && s[j] == '1' && forall i: nat | k <= i < j :: s[i] == '%'
  }

  /** Terminators directly before a European number are on its level (W5); after an Arabic letter it no longer is
      one (W2), and they are neutral. */
  ghost predicate TerminatorLevels(s: seq<char>, lv: seq<int>)
    requires |s| == |lv|
  {
    forall k: nat, j: nat | TerminatesTo(s, k, j) ::
      lv[k] == if AfterArabic(s, k) then 1 else if AfterRtl(s, k) then 2 else 0
  }

  /** Neutral characters, from `i` to before `j`. */
  ghost predicate Neutrals(s: seq<char>, i: nat, j: nat)
  {
    i < j <= |s| && forall k: nat | i <= k < j :: s[k] == 'N' || s[k] == 's' || s[k] == 't' || s[k] == 'w'
  }

  /** The same, with separators and terminators. */
  ghost predicate Weak(s: seq<char>, i: nat, j: nat)
  {
    && i < j <= |s|
    && forall k: nat | i <= k < j ::
         s[k] == 'N' || s[k] == 's' || s[k] == 't' || s[k] == 'w' || s[k] == ',' || s[k] == '%'
  }

  /** The character at `p` pulls neutrals to the left: L, the edge of the line, or a number in left-to-right text. */
  ghost predicate PullsLeft(s: seq<char>, p: int)
  {
    p < 0 || p >= |s| || s[p] == 'L' || (s[p] == '1' && !AfterRtl(s, p))
  }

  /** It pulls them to the right: a right-to-left letter, or a number that counts as one. */
  ghost predicate PullsRight(s: seq<char>, p: int)
  {
    0 <= p < |s| && (s[p] == 'R' || s[p] == 'r' || s[p] == 'n' || (s[p] == '1' && AfterRtl(s, p)))
  }

  ghost predicate Boundary(s: seq<char>, p: int)
  {
    0 <= p < |s| ==> s[p] == 'L' || s[p] == 'R' || s[p] == 'r' || s[p] == 'b'
  }

  /** Neutrals next to left-to-right text or an edge are on level 0, those with right-to-left text on both sides on
      level 1 (N1 and N2). */
  ghost predicate NeutralLevels(s: seq<char>, lv: seq<int>)
    requires |s| == |lv|
  {
    && (forall i: nat, j: nat, k: nat | Neutrals(s, i, j) && i <= k < j ::
          && (PullsLeft(s, i - 1) || PullsLeft(s, j) ==> lv[k] == 0)
          && (PullsRight(s, i - 1) && PullsRight(s, j) ==> lv[k] == 1))
    && (forall i: nat, j: nat, k: nat | Weak(s, i, j) && Boundary(s, i - 1) && Boundary(s, j) && i <= k < j ::
          lv[k] == if i == 0 || s[i - 1] == 'L' || j == |s| || s[j] == 'L' then 0 else 1)
  }

  ghost predicate LevelLaws(s: seq<char>, lv: seq<int>)
  {
    && |s| == |lv|
    && LetterLevels(s, lv) && MarkLevels(s, lv) && SeparatorLevels(s, lv) && TerminatorLevels(s, lv)
    && NeutralLevels(s, lv)
  }
}
